/** Strings as the diff code sees them: whitespace-separated words (`str.split()`),
    trimming (`str.strip()`), joining, `str.replace`, and blank-line paragraphs. */
module Text {

  /** The characters for which Python's `str.isspace()` holds, as inclusive ranges. */
  const SPACE_RANGES: seq<(char, char)> := [
    ('\t', '\r'), ('\U{1c}', ' '), ('\U{85}', '\U{85}'), ('\U{a0}', '\U{a0}'), ('\U{1680}', '\U{1680}'),
    ('\U{2000}', '\U{200a}'), ('\U{2028}', '\U{2029}'), ('\U{202f}', '\U{202f}'), ('\U{205f}', '\U{205f}'),
    ('\U{3000}', '\U{3000}')]

  predicate InRanges(c: char, ranges: seq<(char, char)>) {
    ranges != [] && (ranges[0].0 <= c <= ranges[0].1 || InRanges(c, ranges[1..]))
  }

  predicate IsSpace(c: char) {
    InRanges(c, SPACE_RANGES)
  }

  predicate IsWord(w: string) {
    w != "" && forall i | 0 <= i < |w| :: !IsSpace(w[i])
  }

  predicate Blank(s: string) {
    forall i | 0 <= i < |s| :: IsSpace(s[i])
  }

  /** Two texts can be glued without fusing the last word of one with the first of the other. */
  predicate Separated(s: string, t: string) {
    s == "" || t == "" || IsSpace(s[|s| - 1]) || IsSpace(t[0])
  }

  lemma NewlineIsSpace()
    ensures IsSpace('\n')
  {
  }

  // ----- str.split()

  /** Length of the leading run of non-space characters. */
  function WordLen(s: string): (n: nat)
    ensures n <= |s|
    ensures forall i | 0 <= i < n :: !IsSpace(s[i])
    ensures n < |s| ==> IsSpace(s[n])
  {
    if s == "" || IsSpace(s[0]) then 0 else 1 + WordLen(s[1..])
  }

  function Words(s: string): (ws: seq<string>)
    ensures forall w | w in ws :: IsWord(w)
  {
    if s == "" then []
    else if IsSpace(s[0]) then Words(s[1..])
    else [s[..WordLen(s)]] + Words(s[WordLen(s)..])
  }

  lemma WordLenOfWord(w: string, rest: string)
    requires IsWord(w) && Separated(w, rest)
    ensures WordLen(w + rest) == |w|
  {
    assert forall i | 0 <= i < |w| :: (w + rest)[i] == w[i];
    if rest != "" {
      assert (w + rest)[|w|] == rest[0];
    }
  }

  /** A leading word is the first word. */
  lemma WordsOfWord(w: string, rest: string)
    requires IsWord(w) && Separated(w, rest)
    ensures Words(w + rest) == [w] + Words(rest)
  {
    WordLenOfWord(w, rest);
    assert (w + rest)[0] == w[0];
    assert (w + rest)[..|w|] == w;
    assert (w + rest)[|w|..] == rest;
  }

  lemma WordsOfNothing()
    ensures Words("") == []
  {
  }

  lemma WordsOfSpace(c: char, tail: string)
    requires IsSpace(c)
    ensures Words([c] + tail) == Words(tail)
  {
    assert ([c] + tail)[1..] == tail;
  }

  /** A text that starts with a word. */
  lemma FirstWord(s: string) returns (n: nat)
    requires s != "" && !IsSpace(s[0])
    ensures 0 < n <= |s| && IsWord(s[..n]) && (n < |s| ==> IsSpace(s[n]))
    ensures n == WordLen(s) && Words(s) == [s[..n]] + Words(s[n..])
  {
    n := WordLen(s);
  }

  /** Splitting distributes over concatenation at a word boundary. */
  lemma {:induction false} WordsAppend(s: string, t: string)
    requires Separated(s, t)
    ensures Words(s + t) == Words(s) + Words(t)
  {
    hide Words, WordLen, IsWord, IsSpace;
    if s == "" {
      WordsOfNothing();
      assert s + t == t;
    } else if IsSpace(s[0]) {
      WordsAppend(s[1..], t);
      WordsOfSpace(s[0], s[1..]);
      WordsOfSpace(s[0], s[1..] + t);
      assert s == [s[0]] + s[1..] && s + t == [s[0]] + (s[1..] + t);
    } else {
      var n := FirstWord(s);
      var w, rest := s[..n], s[n..];
      SplitSeparated(s, n, t);
      WordsAppend(rest, t);
      WordFirst(w, rest, t);
      assert s + t == w + (rest + t);
    }
  }

  lemma WordFirst(w: string, rest: string, t: string)
    requires IsWord(w) && Separated(w, rest + t) && Words(rest + t) == Words(rest) + Words(t)
    ensures Words(w + (rest + t)) == ([w] + Words(rest)) + Words(t)
  {
    WordsOfWord(w, rest + t);
    hide Words, IsSpace, IsWord;
    assert [w] + (Words(rest) + Words(t)) == ([w] + Words(rest)) + Words(t);
  }

  lemma SplitSeparated(s: string, n: nat, t: string)
    requires 0 < n <= |s| && Separated(s, t) && (n < |s| ==> IsSpace(s[n]))
    ensures Separated(s[n..], t) && Separated(s[..n], s[n..] + t)
  {
  }

  lemma {:induction false} WordsOfBlank(s: string)
    requires Blank(s)
    ensures Words(s) == []
  {
    if s != "" {
      assert Blank(s[1..]) by {
        forall i | 0 <= i < |s| - 1 ensures IsSpace(s[1..][i]) { assert s[1..][i] == s[i + 1]; }
      }
      WordsOfBlank(s[1..]);
    }
  }

  // ----- str.strip()

  function LStrip(s: string): string {
    if s != "" && IsSpace(s[0]) then LStrip(s[1..]) else s
  }

  function RStrip(s: string): string {
    if s != "" && IsSpace(s[|s| - 1]) then RStrip(s[..|s| - 1]) else s
  }

  function Strip(s: string): string {
    RStrip(LStrip(s))
  }

  lemma {:induction false} LStripKeepsWords(s: string)
    ensures Words(LStrip(s)) == Words(s)
  {
    if s != "" && IsSpace(s[0]) {
      LStripKeepsWords(s[1..]);
    }
  }

  lemma {:induction false} RStripKeepsWords(s: string)
    ensures Words(RStrip(s)) == Words(s)
  {
    if s != "" && IsSpace(s[|s| - 1]) {
      var n := |s| - 1;
      RStripKeepsWords(s[..n]);
      assert s == s[..n] + [s[n]];
      WordsAppend(s[..n], [s[n]]);
      WordsOfBlank([s[n]]);
    }
  }

  lemma StripKeepsWords(s: string)
    ensures Words(Strip(s)) == Words(s)
  {
    LStripKeepsWords(s);
    RStripKeepsWords(LStrip(s));
  }

  // ----- str.join

  function Join(sep: string, parts: seq<string>): string {
    if parts == [] then ""
    else if |parts| == 1 then parts[0]
    else parts[0] + sep + Join(sep, parts[1..])
  }

  function FlattenWords(parts: seq<string>): seq<string> {
    if parts == [] then [] else Words(parts[0]) + FlattenWords(parts[1..])
  }

  lemma FlattenWordsOne(s: string)
    ensures FlattenWords([s]) == Words(s)
  {
    assert [s][1..] == [];
  }

  lemma {:induction false} FlattenWordsAppend(xs: seq<string>, ys: seq<string>)
    ensures FlattenWords(xs + ys) == FlattenWords(xs) + FlattenWords(ys)
  {
    if xs == [] {
      assert xs + ys == ys;
    } else {
      assert (xs + ys)[1..] == xs[1..] + ys;
      FlattenWordsAppend(xs[1..], ys);
    }
  }

  /** Joining with a nonempty blank separator loses no word and fuses none. */
  lemma {:induction false} WordsOfJoin(sep: string, parts: seq<string>)
    requires sep != "" && Blank(sep)
    ensures Words(Join(sep, parts)) == FlattenWords(parts)
  {
    if |parts| == 1 {
      assert FlattenWords(parts[1..]) == [];
    } else if |parts| > 1 {
      var rest := Join(sep, parts[1..]);
      WordsOfJoin(sep, parts[1..]);
      assert parts[0] + sep + rest == parts[0] + (sep + rest);
      WordsAppend(parts[0], sep + rest);
      WordsAppend(sep, rest);
      WordsOfBlank(sep);
    }
  }

  lemma {:induction false} FlattenWordsOfWords(ws: seq<string>)
    requires forall w | w in ws :: IsWord(w)
    ensures FlattenWords(ws) == ws
  {
    if ws != [] {
      WordsOfWord(ws[0], "");
      assert ws[0] + "" == ws[0] && Words("") == [];
      FlattenWordsOfWords(ws[1..]);
      hide Words;
      assert Words(ws[0]) == [ws[0]] && ws == [ws[0]] + ws[1..];
    }
  }

  /** Words joined by spaces split back into the same words. */
  lemma SplitOfJoin(ws: seq<string>)
    requires forall w | w in ws :: IsWord(w)
    ensures Words(Join(" ", ws)) == ws
  {
    assert Blank(" ");
    WordsOfJoin(" ", ws);
    FlattenWordsOfWords(ws);
  }

  // ----- str.replace

  /** Leftmost, non-overlapping replacement of `old` by `new'`. */
  function Replace(s: string, old': string, new': string): string
    requires old' != ""
  {
    if |s| < |old'| then s
    else if s[..|old'|] == old' then new' + Replace(s[|old'|..], old', new')
    else [s[0]] + Replace(s[1..], old', new')
  }

  // ----- paragraphs: re.split(r"\n\s*\n"), trimmed, blanks dropped

  function SpaceLen(s: string): (n: nat)
    ensures n <= |s|
    ensures Blank(s[..n])
    ensures n < |s| ==> !IsSpace(s[n])
  {
    if s == "" || !IsSpace(s[0]) then 0
    else
      var n := 1 + SpaceLen(s[1..]);
      assert s[..n] == [s[0]] + s[1..][..n - 1];
      n
  }

  /** One past the last newline of `s`, or 0. */
  function AfterLastNewline(s: string): (n: nat)
    ensures n <= |s|
    ensures n > 0 ==> s[n - 1] == '\n'
    ensures forall i | n <= i < |s| :: s[i] != '\n'
  {
    if s == "" then 0
    else if s[|s| - 1] == '\n' then |s|
    else AfterLastNewline(s[..|s| - 1])
  }

  lemma BreakIsBlank(s: string, run: nat, last: nat)
    requires s != "" && s[0] == '\n' && run < |s| && Blank(s[1..][..run])
    requires 0 < last <= run && s[1..][..run][last - 1] == '\n'
    ensures Blank(s[..1 + last]) && s[last] == '\n'
  {
    NewlineIsSpace();
    hide IsSpace;
    var t, head := s[1..][..run], s[..1 + last];
    forall i | 0 <= i < |head| ensures IsSpace(head[i]) {
      if i > 0 { assert head[i] == t[i - 1]; }
    }
    assert s[last] == t[last - 1];
  }

  /** Length of the longest blank-line break at the start of `s`, from its first newline to its last, or 0. */
  function BreakLen(s: string): (n: nat)
    ensures n <= |s|
    ensures n > 0 ==> Blank(s[..n]) && s[0] == '\n' && s[n - 1] == '\n'
  {
    if s == "" || s[0] != '\n' then 0
    else
      var run := SpaceLen(s[1..]);
      var last := AfterLastNewline(s[1..][..run]);
      if last == 0 then 0
      else
        BreakIsBlank(s, run, last);
        1 + last
  }

  /** Position of the leftmost paragraph break, or `|s|`. */
  function FirstBreak(s: string): (i: nat)
    ensures i <= |s|
    ensures i < |s| ==> BreakLen(s[i..]) > 0
  {
    if s == "" then 0
    else if BreakLen(s) > 0 then assert s[0..] == s; 0
    else
      var i := 1 + FirstBreak(s[1..]);
      assert i < |s| ==> s[i..] == s[1..][i - 1..];
      i
  }

  function SplitAtBreaks(s: string): seq<string>
    decreases |s|
  {
    var i := FirstBreak(s);
    if i == |s| then [s]
    else [s[..i]] + SplitAtBreaks(s[i + BreakLen(s[i..])..])
  }

  function TrimAll(parts: seq<string>): seq<string> {
    if parts == [] then []
    else (if Strip(parts[0]) == "" then [] else [Strip(parts[0])]) + TrimAll(parts[1..])
  }

  /** `_paragraphs`: the layout blocks of a body text. */
  function Paragraphs(s: string): seq<string> {
    TrimAll(SplitAtBreaks(s))
  }

  lemma {:induction false} SplitAtBreaksKeepsWords(s: string)
    ensures FlattenWords(SplitAtBreaks(s)) == Words(s)
    decreases |s|
  {
    hide Words, FlattenWords, BreakLen, FirstBreak;
    var i := FirstBreak(s);
    if i == |s| {
      FlattenWordsOne(s);
    } else {
      var n := BreakLen(s[i..]);
      var head, brk, rest := s[..i], s[i..][..n], s[i + n..];
      SplitAtBreaksKeepsWords(rest);
      calc {
        FlattenWords(SplitAtBreaks(s));
        FlattenWords([head] + SplitAtBreaks(rest));
        { FlattenWordsAppend([head], SplitAtBreaks(rest)); FlattenWordsOne(head); }
        Words(head) + Words(rest);
        { WordsAcrossBreak(head, brk, rest); }
        Words(head + (brk + rest));
        { CutTwice(s, i, n); }
        Words(s);
      }
    }
  }

  lemma CutTwice(s: string, i: nat, n: nat)
    requires i + n <= |s|
    ensures s == s[..i] + (s[i..][..n] + s[i + n..])
  {
  }

  lemma WordsAcrossBreak(head: string, brk: string, rest: string)
    requires brk != "" && Blank(brk)
    ensures Words(head + (brk + rest)) == Words(head) + Words(rest)
  {
    WordsAppend(head, brk + rest);
    WordsAppend(brk, rest);
    WordsOfBlank(brk);
  }

  lemma {:induction false} TrimAllKeepsWords(parts: seq<string>)
    ensures FlattenWords(TrimAll(parts)) == FlattenWords(parts)
  {
    if parts != [] {
      StripKeepsWords(parts[0]);
      TrimAllKeepsWords(parts[1..]);
      var head := if Strip(parts[0]) == "" then [] else [Strip(parts[0])];
      FlattenWordsAppend(head, TrimAll(parts[1..]));
      if head != [] { assert head[1..] == []; }
    }
  }

  /** Cutting a body into paragraphs loses no word: reading the paragraphs in
      order is reading the body. */
  lemma ParagraphsKeepWords(s: string)
    ensures FlattenWords(Paragraphs(s)) == Words(s)
  {
    SplitAtBreaksKeepsWords(s);
    TrimAllKeepsWords(SplitAtBreaks(s));
  }
}
