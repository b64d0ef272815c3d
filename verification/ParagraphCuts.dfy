/** Where a body is cut into paragraphs: at blank lines, and nowhere else. */
module ParagraphCuts {
  import opened Text

  /** Between any two newlines there is something other than white space. */
  predicate NoBlankLine(s: string) {
    forall i, j | 0 <= i < j < |s| && s[i] == '\n' && s[j] == '\n' :: exists k | i < k < j :: !IsSpace(s[k])
  }

  /** Some text, with none of the white space around it. */
  predicate Trimmed(s: string) {
    s != "" && !IsSpace(s[0]) && !IsSpace(s[|s| - 1])
  }

  // ----- what a break is

  lemma BreakSpan(s: string)
    requires BreakLen(s) > 0
    ensures var n := BreakLen(s);
            2 <= n <= |s| && s[0] == '\n' && s[n - 1] == '\n' && forall k | 0 <= k < n :: IsSpace(s[k])
  {
    var n := BreakLen(s);
    hide IsSpace;
    assert forall k | 0 <= k < n :: s[..n][k] == s[k];
  }

  lemma {:induction false} SpaceRun(s: string, n: nat)
    requires n <= |s| && forall k | 0 <= k < n :: IsSpace(s[k])
    ensures SpaceLen(s) >= n
  {
    hide IsSpace;
    if n > 0 { SpaceRun(s[1..], n - 1); }
  }

  /** A newline, white space and another newline make a break. */
  lemma BreakFound(s: string, j: nat)
    requires 0 < j < |s| && s[0] == '\n' && s[j] == '\n' && forall k | 0 <= k <= j :: IsSpace(s[k])
    ensures BreakLen(s) > 0
  {
    hide IsSpace;
    var t := s[1..];
    SpaceRun(t, j);
    assert t[..SpaceLen(t)][j - 1] == '\n';
  }

  lemma {:induction false} FirstBreakAt(s: string, n: nat)
    requires n <= |s| && forall k | 0 <= k < n :: BreakLen(s[k..]) == 0
    requires n < |s| ==> BreakLen(s[n..]) > 0
    ensures FirstBreak(s) == n
  {
    hide BreakLen;
    assert s[0..] == s;
    if n > 0 {
      assert forall k | 0 <= k < n - 1 :: s[1..][k..] == s[k + 1..];
      if n < |s| { assert s[1..][n - 1..] == s[n..]; }
      FirstBreakAt(s[1..], n - 1);
    }
  }

  lemma NoBreakAt(s: string, k: nat)
    requires NoBlankLine(s) && k < |s|
    ensures BreakLen(s[k..]) == 0
  {
    hide IsSpace, BreakLen;
    var t := s[k..];
    assert forall m | k <= m < |s| :: t[m - k] == s[m];
    if BreakLen(t) > 0 { BreakSpan(t); }
  }

  lemma {:induction false} NoBreakBefore(s: string, k: nat)
    requires k < FirstBreak(s)
    ensures BreakLen(s[k..]) == 0
  {
    if k == 0 {
      assert s[0..] == s;
    } else {
      NoBreakBefore(s[1..], k - 1);
      assert s[1..][k - 1..] == s[k..];
    }
  }

  /** A body has a break just when it has a blank line. */
  lemma BreakIffBlankLine(s: string)
    ensures FirstBreak(s) == |s| <==> NoBlankLine(s)
  {
    hide IsSpace, BreakLen, FirstBreak;
    if NoBlankLine(s) {
      forall k | 0 <= k < |s| ensures BreakLen(s[k..]) == 0 { NoBreakAt(s, k); }
      hide NoBlankLine;
      FirstBreakAt(s, |s|);
    } else {
      var i, j :| 0 <= i < j < |s| && s[i] == '\n' && s[j] == '\n' && forall k | i < k < j :: IsSpace(s[k]);
      hide NoBlankLine;
      BreakBetween(s, i, j);
      if FirstBreak(s) == |s| { NoBreakBefore(s, i); }
    }
  }

  lemma BreakBetween(s: string, i: nat, j: nat)
    requires i < j < |s| && s[i] == '\n' && s[j] == '\n' && forall k | i < k < j :: IsSpace(s[k])
    ensures BreakLen(s[i..]) > 0
  {
    NewlineIsSpace();
    hide IsSpace, BreakLen;
    var t := s[i..];
    assert forall k | 0 <= k <= j - i :: t[k] == s[i + k];
    BreakFound(t, j - i);
  }

  // ----- trimming

  lemma StripOfTrimmed(s: string)
    requires Trimmed(s)
    ensures Strip(s) == s
  {
  }

  lemma {:induction false} LStripLeads(s: string)
    ensures LStrip(s) != "" ==> !IsSpace(LStrip(s)[0]) && LStrip(s)[|LStrip(s)| - 1] == s[|s| - 1]
    ensures |LStrip(s)| <= |s|
  {
    hide IsSpace;
    if s != "" && IsSpace(s[0]) { LStripLeads(s[1..]); }
  }

  lemma {:induction false} RStripTrails(s: string)
    ensures RStrip(s) != "" ==> !IsSpace(RStrip(s)[|RStrip(s)| - 1]) && RStrip(s)[0] == s[0]
    ensures |RStrip(s)| <= |s|
  {
    hide IsSpace;
    if s != "" && IsSpace(s[|s| - 1]) { RStripTrails(s[..|s| - 1]); }
  }

  lemma StripIsTrimmed(s: string)
    ensures Strip(s) != "" ==> Trimmed(Strip(s))
  {
    hide IsSpace;
    LStripLeads(s);
    RStripTrails(LStrip(s));
  }

  lemma PartHasNoBlankLine(s: string, i: nat, j: nat)
    requires NoBlankLine(s) && i <= j <= |s|
    ensures NoBlankLine(s[i..j])
  {
    hide IsSpace;
    var t := s[i..j];
    forall x, y | 0 <= x < y < |t| && t[x] == '\n' && t[y] == '\n' ensures exists k | x < k < y :: !IsSpace(t[k]) {
      assert s[i + x] == t[x] && s[i + y] == t[y];
      var m :| i + x < m < i + y && !IsSpace(s[m]);
      assert t[m - i] == s[m];
    }
  }

  lemma {:induction false} LStripPart(s: string)
    requires NoBlankLine(s)
    ensures NoBlankLine(LStrip(s))
  {
    hide IsSpace, NoBlankLine;
    if s != "" && IsSpace(s[0]) {
      PartHasNoBlankLine(s, 1, |s|);
      assert s[1..|s|] == s[1..];
      LStripPart(s[1..]);
    }
  }

  lemma {:induction false} RStripPart(s: string)
    requires NoBlankLine(s)
    ensures NoBlankLine(RStrip(s))
  {
    hide IsSpace, NoBlankLine;
    if s != "" && IsSpace(s[|s| - 1]) {
      PartHasNoBlankLine(s, 0, |s| - 1);
      assert s[0..|s| - 1] == s[..|s| - 1];
      RStripPart(s[..|s| - 1]);
    }
  }

  // ----- paragraphs

  ghost predicate IsParagraphText(p: string) {
    Trimmed(p) && NoBlankLine(p)
  }

  ghost predicate AreParagraphTexts(ps: seq<string>) {
    forall i | 0 <= i < |ps| :: IsParagraphText(ps[i])
  }

  /** A body without a blank line is one paragraph, however many lines it has. */
  lemma OneParagraph(s: string)
    requires NoBlankLine(s)
    ensures Paragraphs(s) == if Strip(s) == "" then [] else [Strip(s)]
  {
    hide NoBlankLine, Strip, BreakLen;
    BreakIffBlankLine(s);
    assert SplitAtBreaks(s) == [s] && [s][1..] == [] && TrimAll([]) == [];
  }

  lemma {:induction false} PiecesHaveNoBlankLine(s: string)
    ensures forall i | 0 <= i < |SplitAtBreaks(s)| :: NoBlankLine(SplitAtBreaks(s)[i])
    decreases |s|
  {
    hide BreakLen, FirstBreak, NoBlankLine;
    var i := FirstBreak(s);
    if i == |s| {
      BreakIffBlankLine(s);
    } else {
      PiecesHaveNoBlankLine(s[i + BreakLen(s[i..])..]);
      HeadHasNoBlankLine(s);
    }
  }

  lemma HeadHasNoBlankLine(s: string)
    ensures NoBlankLine(s[..FirstBreak(s)])
  {
    hide IsSpace, BreakLen, FirstBreak;
    var t := s[..FirstBreak(s)];
    forall i, j | 0 <= i < j < |t| && t[i] == '\n' && t[j] == '\n' ensures exists k | i < k < j :: !IsSpace(t[k]) {
      NoBreakBefore(s, i);
      if forall k | i < k < j :: IsSpace(t[k]) {
        forall k | i < k < j ensures IsSpace(s[k]) { assert t[k] == s[k]; }
        BreakBetween(s, i, j);
      }
    }
  }

  lemma {:induction false} TrimmedPieces(parts: seq<string>)
    requires forall i | 0 <= i < |parts| :: NoBlankLine(parts[i])
    ensures AreParagraphTexts(TrimAll(parts))
  {
    hide NoBlankLine, Strip, Trimmed;
    if parts != [] {
      TrimmedPieces(parts[1..]);
      StripIsTrimmed(parts[0]);
      StripHasNoBlankLine(parts[0]);
    }
  }

  lemma StripHasNoBlankLine(s: string)
    requires NoBlankLine(s)
    ensures NoBlankLine(Strip(s))
  {
    LStripPart(s);
    RStripPart(LStrip(s));
  }

  /** Every paragraph is trimmed, has some text and no blank line. */
  lemma ParagraphsAreTexts(s: string)
    ensures AreParagraphTexts(Paragraphs(s))
  {
    PiecesHaveNoBlankLine(s);
    TrimmedPieces(SplitAtBreaks(s));
  }

  /** A paragraph, a blank line and more text: the body is cut after the paragraph. */
  lemma CutAfter(p: string, rest: string)
    requires IsParagraphText(p) && rest != "" && !IsSpace(rest[0])
    ensures SplitAtBreaks(p + "\n\n" + rest) == [p] + SplitAtBreaks(rest)
  {
    var s := p + "\n\n" + rest;
    hide IsSpace;
    forall k | 0 <= k < |p| ensures BreakLen(s[k..]) == 0 { NoBreakInside(p, rest, k); }
    assert s[|p|..] == "\n\n" + rest;
    TwoNewlines(rest);
    hide BreakLen;
    FirstBreakAt(s, |p|);
    assert s[..|p|] == p && s[|p| + 2..] == rest;
  }

  lemma NoBreakInside(p: string, rest: string, k: nat)
    requires IsParagraphText(p) && k < |p|
    ensures BreakLen((p + "\n\n" + rest)[k..]) == 0
  {
    hide IsSpace, BreakLen;
    var t := (p + "\n\n" + rest)[k..];
    LastOfPart(p, rest, k);
    assert forall m | k <= m < |p| :: t[m - k] == p[m];
    if BreakLen(t) > 0 { BreakSpan(t); }
  }

  lemma LastOfPart(p: string, rest: string, k: nat)
    requires k < |p|
    ensures (p + "\n\n" + rest)[k..][|p| - 1 - k] == p[|p| - 1]
  {
  }

  lemma TwoNewlines(rest: string)
    requires rest != "" && !IsSpace(rest[0])
    ensures BreakLen("\n\n" + rest) == 2
  {
    NewlineIsSpace();
    hide IsSpace;
    var t := ("\n\n" + rest)[1..];
    assert t == "\n" + rest && t[1..] == rest;
    assert SpaceLen(rest) == 0 && SpaceLen(t) == 1;
    assert t[..1] == "\n";
  }

  lemma JoinStarts(ps: seq<string>)
    requires ps != [] && AreParagraphTexts(ps)
    ensures Join("\n\n", ps) != "" && !IsSpace(Join("\n\n", ps)[0])
  {
    assert IsParagraphText(ps[0]);
    hide IsSpace;
  }

  /** Cutting undoes joining: paragraphs joined by blank lines are cut into the same paragraphs. */
  lemma {:induction false} ParagraphsOfJoin(ps: seq<string>)
    requires AreParagraphTexts(ps)
    ensures Paragraphs(Join("\n\n", ps)) == ps
  {
    hide IsParagraphText, SplitAtBreaks, Strip;
    if ps == [] {
      NothingCut();
    } else {
      assert IsParagraphText(ps[0]);
      TextStaysTrimmed(ps[0]);
      if |ps| == 1 {
        TextIsOnePiece(ps[0]);
        assert [ps[0]][1..] == [] && TrimAll([]) == [] && ps == [ps[0]];
      } else {
        var rest := ps[1..];
        ParagraphsOfJoin(rest);
        JoinStarts(rest);
        CutAfter(ps[0], Join("\n\n", rest));
        assert ([ps[0]] + SplitAtBreaks(Join("\n\n", rest)))[1..] == SplitAtBreaks(Join("\n\n", rest));
        assert ps == [ps[0]] + rest;
      }
    }
  }

  lemma NothingCut()
    ensures Paragraphs("") == []
  {
    assert SplitAtBreaks("") == [""] && [""][1..] == [];
    assert Strip("") == "";
  }

  lemma TextStaysTrimmed(p: string)
    requires IsParagraphText(p)
    ensures Strip(p) == p && p != ""
  {
    StripOfTrimmed(p);
  }

  lemma TextIsOnePiece(p: string)
    requires IsParagraphText(p)
    ensures SplitAtBreaks(p) == [p]
  {
    hide NoBlankLine, BreakLen;
    BreakIffBlankLine(p);
  }

  /** A list of texts is what its own joined text is cut into just when each is trimmed, nonempty and without a blank
      line; so the paragraphs of any body, joined by blank lines, are a body with the same paragraphs. */
  lemma CutIffParagraphs(ps: seq<string>)
    ensures Paragraphs(Join("\n\n", ps)) == ps <==> AreParagraphTexts(ps)
  {
    hide Paragraphs, IsParagraphText;
    if AreParagraphTexts(ps) {
      ParagraphsOfJoin(ps);
    } else {
      ParagraphsAreTexts(Join("\n\n", ps));
    }
  }
}
