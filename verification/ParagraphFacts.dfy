/** What a paragraph cut out of a body looks like: some words, no blank line, and no break marker unless the body had
    one. */
module ParagraphFacts {
  import opened Text
  import opened ParagraphTokens
  import opened Accounting

  /** No two newlines in a row. */
  predicate BreakFree(s: string) {
    forall i | 0 <= i < |s| - 1 :: !(s[i] == '\n' && s[i + 1] == '\n')
  }

  lemma BreakFreePart(s: string, i: nat, j: nat)
    requires BreakFree(s) && i <= j <= |s|
    ensures BreakFree(s[i..j])
  {
    var t := s[i..j];
    forall k | 0 <= k < |t| - 1 ensures !(t[k] == '\n' && t[k + 1] == '\n') {
      assert t[k] == s[i + k] && t[k + 1] == s[i + k + 1];
    }
  }

  lemma {:induction false} LStripIsPart(s: string) returns (i: nat)
    ensures i <= |s| && LStrip(s) == s[i..] && (i < |s| ==> !IsSpace(s[i]))
  {
    if s != "" && IsSpace(s[0]) {
      var k := LStripIsPart(s[1..]);
      i := k + 1;
      assert s[1..][k..] == s[i..];
    } else {
      i := 0;
    }
  }

  lemma {:induction false} RStripIsPart(s: string) returns (j: nat)
    ensures j <= |s| && RStrip(s) == s[..j]
  {
    if s != "" && IsSpace(s[|s| - 1]) {
      j := RStripIsPart(s[..|s| - 1]);
      assert s[..|s| - 1][..j] == s[..j];
    } else {
      j := |s|;
    }
  }

  lemma StripIsPart(s: string)
    ensures BreakFree(s) ==> BreakFree(Strip(s))
    ensures Strip(s) != "" ==> Words(Strip(s)) != []
  {
    var i := LStripIsPart(s);
    var t := s[i..];
    var j := RStripIsPart(t);
    hide Words, IsSpace;
    if BreakFree(s) {
      BreakFreePart(s, i, |s|);
      BreakFreePart(t, 0, j);
    }
    if j > 0 { StartsWithWord(t[..j]); }
  }

  lemma StartsWithWord(s: string)
    requires s != "" && !IsSpace(s[0])
    ensures Words(s) != []
  {
  }

  /** Two newlines in a row are a paragraph break. */
  lemma TwoNewlinesBreak(s: string)
    requires |s| >= 2 && s[0] == '\n' && s[1] == '\n'
    ensures BreakLen(s) > 0
  {
    var t := s[1..];
    assert IsSpace('\n');
    var run := SpaceLen(t);
    assert run > 0 && t[..run][0] == '\n';
  }

  lemma {:induction false} NoBreakBeforeFirst(s: string, k: nat)
    requires k < FirstBreak(s)
    ensures BreakLen(s[k..]) == 0
  {
    if k == 0 {
      assert s[0..] == s;
    } else {
      NoBreakBeforeFirst(s[1..], k - 1);
      assert s[1..][k - 1..] == s[k..];
    }
  }

  lemma HeadBreakFree(s: string)
    ensures BreakFree(s[..FirstBreak(s)])
  {
    hide BreakLen, FirstBreak;
    var n := FirstBreak(s);
    var t := s[..n];
    forall k: nat | k < |t| - 1 ensures !(t[k] == '\n' && t[k + 1] == '\n') {
      NoBreakBeforeFirst(s, k);
      var u := s[k..];
      assert u[0] == t[k] && u[1] == t[k + 1];
      if t[k] == '\n' && t[k + 1] == '\n' { TwoNewlinesBreak(u); }
    }
  }

  ghost predicate AllBreakFree(parts: seq<string>) {
    forall i | 0 <= i < |parts| :: BreakFree(parts[i])
  }

  lemma {:induction false} PiecesBreakFree(s: string)
    ensures AllBreakFree(SplitAtBreaks(s))
    decreases |s|
  {
    HeadBreakFree(s);
    hide BreakFree, BreakLen, FirstBreak;
    var i := FirstBreak(s);
    if i == |s| {
      assert s[..i] == s;
    } else {
      PiecesBreakFree(s[i + BreakLen(s[i..])..]);
    }
  }

  /** What `Paragraphs` yields. */
  ghost predicate IsParagraph(p: string) {
    BreakFree(p) && Words(p) != []
  }

  ghost predicate AreParagraphs(ps: seq<string>) {
    forall i | 0 <= i < |ps| :: IsParagraph(ps[i])
  }

  lemma {:induction false} TrimmedAreParagraphs(parts: seq<string>)
    requires AllBreakFree(parts)
    ensures AreParagraphs(TrimAll(parts))
  {
    hide Words, Strip, BreakFree;
    if parts != [] {
      TrimmedAreParagraphs(parts[1..]);
      StripIsPart(parts[0]);
    }
  }

  lemma ParagraphsAreParagraphs(s: string)
    ensures AreParagraphs(Paragraphs(s))
  {
    PiecesBreakFree(s);
    TrimmedAreParagraphs(SplitAtBreaks(s));
  }

  lemma {:induction false} FlattenHolds(ps: seq<string>, i: nat, w: string)
    requires i < |ps| && w in Words(ps[i])
    ensures w in FlattenWords(ps)
  {
    hide Words;
    if i > 0 { FlattenHolds(ps[1..], i - 1, w); }
  }

  /** A body free of the marker has paragraphs free of it. */
  lemma ParagraphsMarkFree(s: string, i: nat)
    requires MarkFree(s) && i < |Paragraphs(s)|
    ensures MarkFree(Paragraphs(s)[i])
  {
    hide Paragraphs, Words, MarkFree;
    var p := Paragraphs(s)[i];
    ParagraphsKeepWords(s);
    WordsOfMarkFree(s);
    forall w | w in Words(p) ensures MarkFree(w) { FlattenHolds(Paragraphs(s), i, w); }
    MarkFreeByWords(p);
  }

  ghost predicate MarkFreeParagraphs(ps: seq<string>) {
    forall i | 0 <= i < |ps| :: MarkFree(ps[i])
  }

  lemma BodyHasNoMarks(text: string)
    requires MarkFree(text)
    ensures MarkFreeParagraphs(Paragraphs(text))
  {
    hide Paragraphs, MarkFree;
    forall i | 0 <= i < |Paragraphs(text)| ensures MarkFree(Paragraphs(text)[i]) { ParagraphsMarkFree(text, i); }
  }

  lemma {:induction false} NothingToReplace(s: string, new': string)
    requires BreakFree(s)
    ensures Replace(s, BLANK_LINE, new') == s
  {
    if |s| >= 2 {
      assert s[0] == s[..2][0] && s[1] == s[..2][1];
      BreakFreePart(s, 1, |s|);
      NothingToReplace(s[1..], new');
    }
  }

  /** A paragraph is tokenized into its words. */
  lemma ParagraphTokensAreWords(p: string)
    requires BreakFree(p) && MarkFree(p)
    ensures Tokenize(p) == Words(p) && MARK !in Words(p)
  {
    NothingToReplace(p, " " + MARK + " ");
    WordsOfMarkFree(p);
    assert !MarkFree(MARK);
  }
}
