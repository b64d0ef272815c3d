/** Word tokens in which a blank line survives as a token of its own, and the way back to text. */
module ParagraphTokens {
  import opened Text

  const MARK: string := "\0PARA\0"
  const BLANK_LINE: string := "\n\n"

  /** The break marker occurs nowhere in `s`. */
  predicate MarkFree(s: string) {
    s == "" || (!(MARK <= s) && MarkFree(s[1..]))
  }

  predicate IsToken(t: string) {
    t == MARK || (IsWord(t) && MarkFree(t))
  }

  predicate AreTokens(tokens: seq<string>) {
    forall t | t in tokens :: IsToken(t)
  }

  /** `_tokenize_keep_paragraphs` */
  function Tokenize(text: string): seq<string> {
    Words(Replace(text, BLANK_LINE, " " + MARK + " "))
  }

  /** `_detokenize_keep_paragraphs` */
  function Detokenize(tokens: seq<string>): string {
    var text := Join(" ", tokens);
    var text := Replace(text, " " + MARK + " ", BLANK_LINE);
    var text := Replace(text, MARK + " ", BLANK_LINE);
    var text := Replace(text, " " + MARK, BLANK_LINE);
    Replace(text, MARK, BLANK_LINE)
  }

  function DropMarks(tokens: seq<string>): seq<string> {
    if tokens == [] then []
    else (if tokens[0] == MARK then [] else [tokens[0]]) + DropMarks(tokens[1..])
  }

  // ----- texts as symbol lists

  datatype Symbol = Word(w: string) | Mark | Space | Break

  datatype Symbols = End | Cons(head: Symbol, tail: Symbols)

  function Flat(x: Symbols): string {
    match x
    case End => ""
    case Cons(y, rest) => FlatSymbol(y) + Flat(rest)
  }

  function FlatSymbol(y: Symbol): string {
    match y
    case Word(w) => w
    case Mark => MARK
    case Space => " "
    case Break => BLANK_LINE
  }

  function TokensOf(x: Symbols): seq<string> {
    match x
    case End => []
    case Cons(Word(w), rest) => [w] + TokensOf(rest)
    case Cons(Space, rest) => TokensOf(rest)
    case Cons(_, rest) => [MARK] + TokensOf(rest)
  }

  predicate StartsSolid(x: Symbols) {
    x.Cons? && (x.head.Word? || x.head.Mark?)
  }

  /** Words are marker-free words, and no two solid symbols touch. */
  predicate WellFormed(x: Symbols) {
    match x
    case End => true
    case Cons(y, rest) =>
      && (y.Word? ==> IsWord(y.w) && MarkFree(y.w))
      && (StartsSolid(x) ==> !StartsSolid(rest))
      && WellFormed(rest)
  }

  predicate NoMark(x: Symbols) {
    x.Cons? ==> !x.head.Mark? && NoMark(x.tail)
  }

  function Spaced(tokens: seq<string>): Symbols {
    if tokens == [] then End
    else
      var head := if tokens[0] == MARK then Mark else Word(tokens[0]);
      if |tokens| == 1 then Cons(head, End) else Cons(head, Cons(Space, Spaced(tokens[1..])))
  }

  lemma {:induction false} SpacedIsJoin(tokens: seq<string>)
    requires AreTokens(tokens)
    ensures WellFormed(Spaced(tokens))
    ensures Flat(Spaced(tokens)) == Join(" ", tokens)
    ensures TokensOf(Spaced(tokens)) == tokens
  {
    if tokens != [] {
      SpacedIsJoin(tokens[1..]);
      assert tokens[0] in tokens && IsToken(tokens[0]);
      var head := if tokens[0] == MARK then Mark else Word(tokens[0]);
      assert FlatSymbol(head) == tokens[0];
      if |tokens| > 1 {
        var rest := Spaced(tokens[1..]);
        assert Flat(Cons(Space, rest)) == " " + Flat(rest);
        assert Flat(Spaced(tokens)) == tokens[0] + (" " + Flat(rest));
      } else {
        assert Flat(Spaced(tokens)) == tokens[0] + "";
      }
    }
  }

  // ----- replacement, symbol by symbol

  lemma MarkCharacters()
    ensures !IsSpace('\0') && !IsSpace('P') && !IsSpace('A') && !IsSpace('R')
  {
  }

  lemma MarkIsWord()
    ensures IsWord(MARK)
  {
    MarkCharacters();
    hide IsSpace;
    assert MARK == ['\0', 'P', 'A', 'R', 'A', '\0'];
  }

  lemma NoSolidPrefixAcross(m: string, w: string, rest: string)
    requires forall k | 0 <= k < |m| :: !IsSpace(m[k])
    requires rest == "" || IsSpace(rest[0])
    requires !(m <= w)
    ensures !(m <= w + rest)
  {
    if |w| >= |m| {
      assert (w + rest)[..|m|] == w[..|m|];
    } else if rest != "" {
      assert (w + rest)[|w|] == rest[0];
    }
  }

  /** A nonempty marker-free word does not start a marker together with what follows it. */
  lemma NoMarkAcross(w: string, rest: string)
    requires w != "" && MarkFree(w) && (forall i | 0 <= i < |w| :: !IsSpace(w[i]))
    requires rest == "" || IsSpace(rest[0])
    ensures !(MARK <= w + rest)
  {
    MarkIsWord();
    NoSolidPrefixAcross(MARK, w, rest);
  }

  lemma ReplaceStep(c: char, s: string, old': string, new': string)
    requires old' != "" && !(old' <= [c] + s)
    ensures Replace([c] + s, old', new') == [c] + Replace(s, old', new')
  {
    assert ([c] + s)[1..] == s;
  }

  lemma ReplaceMatch(s: string, old': string, new': string)
    requires old' != ""
    ensures Replace(old' + s, old', new') == new' + Replace(s, old', new')
  {
    assert (old' + s)[..|old'|] == old' && (old' + s)[|old'|..] == s;
  }

  lemma NoPatternAcross(w: string, rest: string, pat: string)
    requires w != "" && MarkFree(w) && (forall i | 0 <= i < |w| :: !IsSpace(w[i]))
    requires rest == "" || IsSpace(rest[0])
    requires pat != "" && (pat[0] == ' ' || MARK <= pat)
    ensures !(pat <= w + rest)
  {
    NoMarkAcross(w, rest);
    assert (w + rest)[0] == w[0] && IsSpace(' ');
    PrefixTransitive(MARK, pat, w + rest);
  }

  lemma PrefixTransitive(p: string, q: string, s: string)
    ensures p <= q && q <= s ==> p <= s
  {
  }

  /** Replacing a marker pattern steps over marker-free solid text untouched. */
  lemma {:induction false} ReplaceOverWord(w: string, rest: string, pat: string)
    requires MarkFree(w) && (forall i | 0 <= i < |w| :: !IsSpace(w[i]))
    requires rest == "" || IsSpace(rest[0])
    requires pat != "" && (pat[0] == ' ' || MARK <= pat)
    ensures Replace(w + rest, pat, BLANK_LINE) == w + Replace(rest, pat, BLANK_LINE)
  {
    if w == "" {
      assert w + rest == rest;
    } else {
      NoPatternAcross(w, rest, pat);
      ReplaceOverWord(w[1..], rest, pat);
      ConsAppend(w, rest);
      ReplaceStep(w[0], w[1..] + rest, pat, BLANK_LINE);
      ConsAppend(w, Replace(rest, pat, BLANK_LINE));
    }
  }

  lemma FlatStart(x: Symbols)
    requires WellFormed(x) && !StartsSolid(x)
    ensures Flat(x) == "" || IsSpace(Flat(x)[0])
  {
  }

  lemma OnlyMarkStartsWithMark(x: Symbols)
    requires WellFormed(x)
    ensures MARK <= Flat(x) <==> x.Cons? && x.head.Mark?
  {
    if x.Cons? {
      if x.head.Word? {
        FlatStart(x.tail);
        NoMarkAcross(x.head.w, Flat(x.tail));
      } else if x.head.Space? {
        assert Flat(x)[0] == ' ';
      } else if x.head.Break? {
        assert Flat(x)[0] == '\n';
      }
    }
  }

  /** The four patterns: the marker with or without a space on either side. */
  function Pattern(pre: bool, post: bool): (p: string)
    ensures p != ""
  {
    (if pre then " " else "") + After(post)
  }

  function After(post: bool): string {
    if post then MARK + " " else MARK
  }

  predicate MatchesAfter(x: Symbols, post: bool) {
    x.Cons? && x.head.Mark? && (post ==> x.tail.Cons? && x.tail.head.Space?)
  }

  predicate Matches(x: Symbols, pre: bool, post: bool) {
    if pre then x.Cons? && x.head.Space? && MatchesAfter(x.tail, post)
    else MatchesAfter(x, post)
  }

  function DropAfter(x: Symbols, post: bool): Symbols
    requires MatchesAfter(x, post)
  {
    if post then x.tail.tail else x.tail
  }

  function Drop(x: Symbols, pre: bool, post: bool): Symbols
    requires Matches(x, pre, post)
  {
    if pre then DropAfter(x.tail, post) else DropAfter(x, post)
  }

  lemma AfterAgrees(x: Symbols, post: bool)
    requires WellFormed(x)
    ensures After(post) <= Flat(x) <==> MatchesAfter(x, post)
    ensures MatchesAfter(x, post) ==> Flat(x) == After(post) + Flat(DropAfter(x, post))
  {
    OnlyMarkStartsWithMark(x);
    if post {
      if MatchesAfter(x, post) {
        var z := x.tail.tail;
        assert Flat(x) == MARK + (" " + Flat(z)) == (MARK + " ") + Flat(z);
      } else if x.Cons? && x.head.Mark? {
        FlatStart(x.tail);
        if x.tail.Cons? {
          assert x.tail.head.Break? && Flat(x)[6] == Flat(x.tail)[0] == '\n';
        }
      } else {
        assert After(post)[..6] == MARK;
      }
    }
  }

  /** At a symbol boundary, the text pattern matches exactly when the symbols do. */
  lemma MatchesAgree(x: Symbols, pre: bool, post: bool)
    requires WellFormed(x)
    ensures Pattern(pre, post) <= Flat(x) <==> Matches(x, pre, post)
    ensures Matches(x, pre, post) ==> Flat(x) == Pattern(pre, post) + Flat(Drop(x, pre, post))
  {
    if !pre {
      assert Pattern(pre, post) == After(post);
      AfterAgrees(x, post);
    } else if x.Cons? && x.head.Space? {
      SpaceAgrees(x.tail, post);
    } else {
      assert Pattern(pre, post)[0] == ' ';
    }
  }

  lemma SpaceAgrees(x: Symbols, post: bool)
    requires WellFormed(x)
    ensures " " + After(post) <= " " + Flat(x) <==> MatchesAfter(x, post)
    ensures MatchesAfter(x, post) ==> " " + Flat(x) == " " + After(post) + Flat(DropAfter(x, post))
  {
    AfterAgrees(x, post);
    var p, s := After(post), Flat(x);
    PrefixUnderCons(' ', p, s);
    assert " " == [' '];
    hide After, Flat, MatchesAfter, DropAfter;
    if MatchesAfter(x, post) { Regroup([' '], p, Flat(DropAfter(x, post))); }
  }

  lemma Regroup(x: string, y: string, z: string)
    ensures x + (y + z) == x + y + z
  {
  }

  lemma PrefixUnderCons(c: char, p: string, s: string)
    ensures [c] + p <= [c] + s <==> p <= s
  {
    if [c] + p <= [c] + s {
      assert forall i | 0 <= i < |p| :: p[i] == ([c] + p)[i + 1] == ([c] + s)[i + 1] == s[i];
    }
  }

  lemma DropAfterFacts(x: Symbols, post: bool)
    requires WellFormed(x) && MatchesAfter(x, post)
    ensures WellFormed(DropAfter(x, post))
    ensures TokensOf(x) == [MARK] + TokensOf(DropAfter(x, post))
  {
    if post {
      assert TokensOf(x.tail) == TokensOf(x.tail.tail);
    }
  }

  lemma DropFacts(x: Symbols, pre: bool, post: bool)
    requires WellFormed(x) && Matches(x, pre, post)
    ensures WellFormed(Drop(x, pre, post))
    ensures TokensOf(x) == [MARK] + TokensOf(Drop(x, pre, post))
  {
    if pre {
      DropAfterFacts(x.tail, post);
    } else {
      DropAfterFacts(x, post);
    }
  }

  /** The symbols after one `str.replace` pass. */
  function Passed(x: Symbols, pre: bool, post: bool): Symbols
    decreases x
  {
    if x == End then End
    else if Matches(x, pre, post) then Cons(Break, Passed(Drop(x, pre, post), pre, post))
    else Cons(x.head, Passed(x.tail, pre, post))
  }

  /** One `str.replace` pass turns some markers into blank lines and eats spaces, nothing else. */
  lemma {:induction false} ReplacePass(x: Symbols, pre: bool, post: bool) returns (y: Symbols)
    requires WellFormed(x)
    ensures WellFormed(y) && TokensOf(y) == TokensOf(x)
    ensures StartsSolid(y) ==> StartsSolid(x)
    ensures Flat(y) == Replace(Flat(x), Pattern(pre, post), BLANK_LINE)
    ensures !pre && !post ==> NoMark(y)
    ensures y == Passed(x, pre, post)
    decreases x
  {
    MatchesAgree(x, pre, post);
    if x == End {
      y := End;
    } else if Matches(x, pre, post) {
      DropFacts(x, pre, post);
      var rest := ReplacePass(Drop(x, pre, post), pre, post);
      y := Cons(Break, rest);
      ReplaceMatch(Flat(Drop(x, pre, post)), Pattern(pre, post), BLANK_LINE);
    } else {
      var rest := ReplacePass(x.tail, pre, post);
      y := Cons(x.head, rest);
      StepOver(x, pre, post);
    }
  }

  lemma StepOver(x: Symbols, pre: bool, post: bool)
    requires WellFormed(x) && x.Cons? && !Matches(x, pre, post)
    ensures Replace(Flat(x), Pattern(pre, post), BLANK_LINE)
         == FlatSymbol(x.head) + Replace(Flat(x.tail), Pattern(pre, post), BLANK_LINE)
  {
    var pat, rest := Pattern(pre, post), Flat(x.tail);
    PatternStart(pre, post);
    MatchesAgree(x, pre, post);
    match x.head {
      case Word(w) =>
        FlatStart(x.tail);
        ReplaceOverWord(w, rest, pat);
      case Mark =>
        FlatStart(x.tail);
        StepOverMark(rest, pat);
      case Space =>
        ReplaceStep(' ', rest, pat, BLANK_LINE);
      case Break =>
        StepOverBreak(rest, pat);
    }
  }

  lemma PatternStart(pre: bool, post: bool)
    ensures var pat := Pattern(pre, post); pat[0] == ' ' || MARK <= pat
    ensures Pattern(pre, post)[0] != '\n'
  {
  }

  lemma StepOverMark(rest: string, pat: string)
    requires rest == "" || IsSpace(rest[0])
    requires pat != "" && (pat[0] == ' ' || MARK <= pat) && !(pat <= MARK + rest)
    ensures Replace(MARK + rest, pat, BLANK_LINE) == MARK + Replace(rest, pat, BLANK_LINE)
  {
    var c, m := MARK[0], MARK[1..];
    MarkTail();
    ReplaceOverWord(m, rest, pat);
    var tail := Replace(rest, pat, BLANK_LINE);
    ConsAppend(MARK, rest);
    ConsAppend(MARK, tail);
    ReplaceStep(c, m + rest, pat, BLANK_LINE);
  }

  lemma ConsAppend(s: string, t: string)
    requires s != ""
    ensures s + t == [s[0]] + (s[1..] + t)
  {
  }

  lemma StepOverBreak(rest: string, pat: string)
    requires pat != "" && pat[0] != '\n'
    ensures Replace(BLANK_LINE + rest, pat, BLANK_LINE) == BLANK_LINE + Replace(rest, pat, BLANK_LINE)
  {
    assert BLANK_LINE + rest == ['\n'] + (['\n'] + rest);
    ReplaceStep('\n', rest, pat, BLANK_LINE);
    ReplaceStep('\n', ['\n'] + rest, pat, BLANK_LINE);
  }

  lemma MarkTail()
    ensures MarkFree(MARK[1..]) && IsWord(MARK[1..])
  {
    MarkIsWord();
    assert MARK[1..] == "PARA\0";
    assert !("PARA\0"[1..] == "") && "PARA\0"[1..] == "ARA\0";
    assert "ARA\0"[1..] == "RA\0";
    assert "RA\0"[1..] == "A\0";
    assert "A\0"[1..] == "\0";
    assert "\0"[1..] == "";
    assert MarkFree("\0") && MarkFree("A\0") && MarkFree("RA\0") && MarkFree("ARA\0");
  }

  /** Detokenizing yields words separated by spaces and blank lines, with no marker left. */
  lemma DetokenizeShape(tokens: seq<string>) returns (y: Symbols)
    requires AreTokens(tokens)
    ensures WellFormed(y) && NoMark(y)
    ensures TokensOf(y) == tokens && Flat(y) == Detokenize(tokens)
  {
    SpacedIsJoin(tokens);
    assert Pattern(true, true) == " " + MARK + " ";
    assert Pattern(false, true) == MARK + " ";
    assert Pattern(true, false) == " " + MARK;
    assert Pattern(false, false) == MARK;
    y := ReplacePass(Spaced(tokens), true, true);
    y := ReplacePass(y, false, true);
    y := ReplacePass(y, true, false);
    y := ReplacePass(y, false, false);
  }

  lemma {:induction false} ReplaceBlankOverWord(w: string, rest: string, new': string)
    requires forall i | 0 <= i < |w| :: !IsSpace(w[i])
    ensures Replace(w + rest, BLANK_LINE, new') == w + Replace(rest, BLANK_LINE, new')
  {
    if w == "" {
      assert w + rest == rest;
    } else {
      hide Replace;
      ReplaceBlankOverWord(w[1..], rest, new');
      ConsAppend(w, rest);
      ConsAppend(w, Replace(rest, BLANK_LINE, new'));
      assert (w + rest)[0] == w[0] && IsSpace('\n');
      ReplaceStep(w[0], w[1..] + rest, BLANK_LINE, new');
    }
  }

  /** What a blank line turns into contributes one marker token. */
  lemma WordsOfSpacedMark(tail: string)
    ensures Words(" " + MARK + " " + tail) == [MARK] + Words(tail)
  {
    var rest := [' '] + tail;
    assert " " + MARK + " " + tail == [' '] + (MARK + rest);
    assert ([' '] + (MARK + rest))[1..] == MARK + rest;
    MarkIsWord();
    WordsOfWord(MARK, rest);
    assert rest[1..] == tail;
  }

  lemma {:induction false} TokenizeFlat(y: Symbols)
    requires WellFormed(y) && NoMark(y)
    ensures Tokenize(Flat(y)) == TokensOf(y)
    ensures Words(Flat(y)) == DropMarks(TokensOf(y))
  {
    if y.Cons? {
      var rest := Flat(y.tail);
      TokenizeFlat(y.tail);
      match y.head {
        case Word(w) =>
          FlatStart(y.tail);
          hide Tokenize, Words, MarkFree;
          TokenizeWord(w, rest);
          DropMarksOne(w, TokensOf(y.tail));
        case Space =>
          assert (" " + rest)[0] != BLANK_LINE[0];
          hide Tokenize, Words, MarkFree;
          TokenizeSpace(' ', rest);
        case Break =>
          hide Tokenize, Words, MarkFree;
          TokenizeBlankLine(rest);
          DropMarksOne(MARK, TokensOf(y.tail));
      }
    }
  }

  lemma DropMarksOne(w: string, tokens: seq<string>)
    ensures DropMarks([w] + tokens) == (if w == MARK then [] else [w]) + DropMarks(tokens)
  {
    assert ([w] + tokens)[1..] == tokens;
  }

  /** Round trip: tokenizing a detokenized list gives back the same list, for any words
      and any runs of paragraph breaks, also at either end. */
  lemma TokenizeDetokenize(tokens: seq<string>)
    requires AreTokens(tokens)
    ensures Tokenize(Detokenize(tokens)) == tokens
  {
    var y := DetokenizeShape(tokens);
    TokenizeFlat(y);
  }

  /** Detokenized text reads as the tokens without the break markers. */
  lemma WordsOfDetokenize(tokens: seq<string>)
    requires AreTokens(tokens)
    ensures Words(Detokenize(tokens)) == DropMarks(tokens)
  {
    var y := DetokenizeShape(tokens);
    TokenizeFlat(y);
  }

  lemma {:induction false} MarkFreeParts(s: string, n: nat)
    requires MarkFree(s) && n <= |s|
    ensures MarkFree(s[..n]) && MarkFree(s[n..])
  {
    if n > 0 {
      MarkFreeParts(s[1..], n - 1);
      assert s[..n][1..] == s[1..][..n - 1];
      assert s[n..] == s[1..][n - 1..];
      assert s[..n] <= s;
      assert MARK <= s[..n] ==> MARK <= s;
    }
  }

  /** Tokenizing marker-free text finds the text's words, and breaks beside them. */
  lemma {:induction false} TokenizeKeepsWords(s: string)
    requires MarkFree(s)
    ensures DropMarks(Tokenize(s)) == Words(s)
    ensures AreTokens(Tokenize(s))
    decreases |s|
  {
    hide Tokenize, Words, DropMarks, AreTokens, MarkFree, IsSpace, IsWord;
    if s == "" {
      TokenizeNothing();
    } else {
      var n := FirstPiece(s);
      var head, rest := s[..n], s[n..];
      MarkFreeParts(s, n);
      TokenizeKeepsWords(rest);
      assert s == head + rest;
      if head == BLANK_LINE {
        TokenizeBlankLine(rest);
        OneMoreToken(MARK, Tokenize(rest));
      } else if n == 1 && IsSpace(s[0]) {
        TokenizeSpace(s[0], rest);
      } else {
        TokenizeWord(head, rest);
        MarkIsMarked();
        OneMoreToken(head, Tokenize(rest));
      }
    }
  }

  /** A text starts with a blank line, with another space, or with a word. */
  lemma FirstPiece(s: string) returns (n: nat)
    requires s != ""
    ensures 0 < n <= |s|
    ensures s[..n] == BLANK_LINE || (s[..n] == [s[0]] && IsSpace(s[0]) && !(BLANK_LINE <= s))
            || (IsWord(s[..n]) && (s[n..] == "" || IsSpace(s[n..][0])) && s[..n] != BLANK_LINE && !IsSpace(s[0]))
  {
    n := if BLANK_LINE <= s then 2 else if IsSpace(s[0]) then 1 else WordLen(s);
    assert IsSpace(BLANK_LINE[0]);
  }

  lemma MarkIsMarked()
    ensures !MarkFree(MARK)
  {
  }

  lemma TokenizeNothing()
    ensures Tokenize("") == [] && Words("") == [] && DropMarks([]) == [] && AreTokens([])
  {
  }

  lemma OneMoreToken(w: string, tokens: seq<string>)
    requires AreTokens(tokens) && (w == MARK || (IsWord(w) && MarkFree(w)))
    ensures DropMarks([w] + tokens) == (if w == MARK then [] else [w]) + DropMarks(tokens)
    ensures AreTokens([w] + tokens)
  {
    DropMarksOne(w, tokens);
  }

  lemma TokenizeSpace(c: char, rest: string)
    requires IsSpace(c) && !(BLANK_LINE <= [c] + rest)
    ensures Tokenize([c] + rest) == Tokenize(rest)
    ensures Words([c] + rest) == Words(rest)
  {
    var new' := " " + MARK + " ";
    ReplaceStep(c, rest, BLANK_LINE, new');
    WordsOfSpace(c, Replace(rest, BLANK_LINE, new'));
    WordsOfSpace(c, rest);
  }

  lemma TokenizeBlankLine(rest: string)
    ensures Tokenize(BLANK_LINE + rest) == [MARK] + Tokenize(rest)
    ensures Words(BLANK_LINE + rest) == Words(rest)
  {
    var new' := " " + MARK + " ";
    ReplaceMatch(rest, BLANK_LINE, new');
    WordsOfSpacedMark(Replace(rest, BLANK_LINE, new'));
    assert BLANK_LINE + rest == ['\n'] + (['\n'] + rest);
    WordsOfSpace('\n', ['\n'] + rest);
    WordsOfSpace('\n', rest);
  }

  lemma TokenizeWord(w: string, rest: string)
    requires IsWord(w) && (rest == "" || IsSpace(rest[0]))
    ensures Tokenize(w + rest) == [w] + Tokenize(rest)
    ensures Words(w + rest) == [w] + Words(rest)
  {
    var new' := " " + MARK + " ";
    ReplaceBlankOverWord(w, rest, new');
    var tail := Replace(rest, BLANK_LINE, new');
    assert tail == "" || IsSpace(tail[0]);
    WordsOfWord(w, tail);
    WordsOfWord(w, rest);
  }
}
