/** The one-line stand-ins that mark where a figure, table, algorithm, box or equation sat. */
module Placeholders {
  import opened Text

  const NUMBERED_WORDS: seq<string> := ["그림", "표", "알고리즘", "수식"]
  const BOX_WORD: string := "박스"

  predicate IsDigit(c: char) {
    '0' <= c <= '9'
  }

  predicate IsHex(c: char) {
    IsDigit(c) || 'a' <= c <= 'f'
  }

  predicate AllDigits(s: string) {
    s == "" || (IsDigit(s[0]) && AllDigits(s[1..]))
  }

  predicate AllHex(s: string) {
    s == "" || (IsHex(s[0]) && AllHex(s[1..]))
  }

  predicate NumberAfter(words: seq<string>, body: string) {
    words != [] &&
    (|| (words[0] <= body && AllDigits(LStrip(body[|words[0]|..])))
     || NumberAfter(words[1..], body))
  }

  /** A trimmed text that is nothing but a bracketed label word with its number; a box has a hexadecimal name
      instead. */
  predicate IsPlaceholder(p: string) {
    && |p| >= 2 && p[0] == '(' && p[|p| - 1] == ')'
    && var body := p[1..|p| - 1];
       || NumberAfter(NUMBERED_WORDS, body)
       || (BOX_WORD <= body && LStrip(body[|BOX_WORD|..]) != "" && AllHex(LStrip(body[|BOX_WORD|..])))
  }

  /** The word that names each kind of labelled item, or `""`. */
  function LabelWord(prefix: string): string {
    match prefix
    case "Figure" => "그림"
    case "Table" => "표"
    case "Algorithm" => "알고리즘"
    case "Box" => "박스"
    case "Equation" => "수식"
    case _ => ""
  }

  // ----- the same form spelled out

  /** A bracket, a label word, space or none, a number, a bracket. */
  predicate Bracketed(p: string, word: string, space: string, number: string) {
    Blank(space) && p == "(" + word + space + number + ")"
  }

  ghost predicate Numbered(p: string) {
    exists word, space, number ::
      && Bracketed(p, word, space, number) && word in {"그림", "표", "알고리즘", "수식"}
      && forall c | c in number :: '0' <= c <= '9'
  }

  ghost predicate NamedBox(p: string) {
    exists space, number ::
      && Bracketed(p, "박스", space, number) && number != ""
      && forall c | c in number :: '0' <= c <= '9' || 'a' <= c <= 'f'
  }

  lemma {:induction false} AllDigitsIs(s: string)
    ensures AllDigits(s) <==> forall c | c in s :: '0' <= c <= '9'
    ensures AllHex(s) <==> forall c | c in s :: '0' <= c <= '9' || 'a' <= c <= 'f'
  {
    if s != "" {
      AllDigitsIs(s[1..]);
      assert s == [s[0]] + s[1..];
      assert forall c :: c in s <==> c == s[0] || c in s[1..];
      assert s[0] in s;
    } else {
      assert AllDigits(s) && AllHex(s) && forall c :: c !in s;
    }
  }

  lemma {:induction false} OutsideRanges(c: char, ranges: seq<(char, char)>)
    requires forall i | 0 <= i < |ranges| :: c < ranges[i].0 || ranges[i].1 < c
    ensures !InRanges(c, ranges)
  {
    if ranges != [] { OutsideRanges(c, ranges[1..]); }
  }

  lemma HexIsNoSpace(c: char)
    requires IsHex(c)
    ensures !IsSpace(c)
  {
    OutsideRanges(c, SPACE_RANGES);
  }

  lemma {:induction false} LStripDrops(s: string) returns (space: string)
    ensures Blank(space) && s == space + LStrip(s)
  {
    if s != "" && IsSpace(s[0]) {
      var rest := LStripDrops(s[1..]);
      space := [s[0]] + rest;
    } else {
      space := "";
    }
  }

  lemma {:induction false} LStripPast(space: string, number: string)
    requires Blank(space) && AllHex(number)
    ensures LStrip(space + number) == number
  {
    if space != "" {
      assert (space + number)[1..] == space[1..] + number;
      LStripPast(space[1..], number);
    } else {
      assert space + number == number;
      if number != "" { HexIsNoSpace(number[0]); }
    }
  }

  lemma {:induction false} NumberAfterIff(words: seq<string>, body: string)
    ensures NumberAfter(words, body) <==> exists w :: w in words && w <= body && AllDigits(LStrip(body[|w|..]))
  {
    if words != [] {
      NumberAfterIff(words[1..], body);
      assert forall w :: w in words <==> w == words[0] || w in words[1..];
    }
  }

  lemma BodyOf(p: string, word: string, space: string, number: string)
    requires Bracketed(p, word, space, number)
    ensures |p| >= 2 && p[0] == '(' && p[|p| - 1] == ')' && p[1..|p| - 1] == word + (space + number)
    ensures word <= p[1..|p| - 1] && p[1..|p| - 1][|word|..] == space + number
  {
    assert p[1..|p| - 1] == word + (space + number);
  }

  lemma BracketedBody(p: string, word: string) returns (space: string)
    requires |p| >= 2 && p[0] == '(' && p[|p| - 1] == ')' && word <= p[1..|p| - 1]
    ensures Bracketed(p, word, space, LStrip(p[1..|p| - 1][|word|..]))
  {
    var body := p[1..|p| - 1];
    space := LStripDrops(body[|word|..]);
    assert p == "(" + body + ")" && body == word + body[|word|..];
    assert word + (space + LStrip(body[|word|..])) == word + space + LStrip(body[|word|..]);
  }

  lemma NumberedWords()
    ensures forall w :: w in NUMBERED_WORDS <==> w in {"그림", "표", "알고리즘", "수식"}
  {
  }

  /** A stand-in is exactly a bracketed label word with decimal digits or none, or a box with a
      hexadecimal name. */
  lemma StandInForm(p: string)
    ensures IsPlaceholder(p) <==> Numbered(p) || NamedBox(p)
  {
    hide LStrip, Blank, AllDigits, AllHex, NUMBERED_WORDS;
    NumberedWords();
    if IsPlaceholder(p) {
      var body := p[1..|p| - 1];
      NumberAfterIff(NUMBERED_WORDS, body);
      if NumberAfter(NUMBERED_WORDS, body) {
        var w :| w in NUMBERED_WORDS && w <= body && AllDigits(LStrip(body[|w|..]));
        var space := BracketedBody(p, w);
        AllDigitsIs(LStrip(body[|w|..]));
      } else {
        var space := BracketedBody(p, "박스");
        AllDigitsIs(LStrip(body[2..]));
      }
    }
    forall word, space, number | Bracketed(p, word, space, number) && word in {"그림", "표", "알고리즘", "수식"}
                                 && forall c | c in number :: '0' <= c <= '9'
      ensures IsPlaceholder(p)
    {
      BodyOf(p, word, space, number);
      AllDigitsIs(number);
      LStripPast(space, number);
      NumberAfterIff(NUMBERED_WORDS, p[1..|p| - 1]);
    }
    forall space, number | Bracketed(p, "박스", space, number) && number != ""
                           && forall c | c in number :: '0' <= c <= '9' || 'a' <= c <= 'f'
      ensures IsPlaceholder(p)
    {
      BodyOf(p, "박스", space, number);
      AllDigitsIs(number);
      LStripPast(space, number);
    }
  }
}
