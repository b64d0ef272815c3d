/** The text that detokenizing gives, written out: the four replacements amount to setting words and blank lines. */
module Typesetting {
  import opened ParagraphTokens

  /** Words with one space between them, breaks as blank lines, and no space beside a break. */
  function Typeset(tokens: seq<string>): string {
    if tokens == [] then ""
    else if tokens[0] == MARK then "\n\n" + Typeset(tokens[1..])
    else if |tokens| > 1 && tokens[1] != MARK then tokens[0] + " " + Typeset(tokens[1..])
    else tokens[0] + Typeset(tokens[1..])
  }

  function SymbolOf(token: string): Symbol {
    if token == MARK then Mark else Word(token)
  }

  /** After the first pass: a marker between two others of any kind is a break. */
  function First(tokens: seq<string>): Symbols
    decreases |tokens|, 0
  {
    if tokens == [] then End else Cons(SymbolOf(tokens[0]), FirstGap(tokens[1..]))
  }

  function FirstGap(rest: seq<string>): Symbols
    decreases |rest|, 1
  {
    if rest == [] then End
    else if rest[0] == MARK && |rest| > 1 then Cons(Break, First(rest[1..]))
    else Cons(Space, First(rest))
  }

  /** After the second: also one followed by a space. */
  function Second(tokens: seq<string>): Symbols
    decreases |tokens|, 0
  {
    if tokens == [] then End
    else if tokens[0] == MARK && |tokens| > 1 && !(tokens[1] == MARK && |tokens| > 2) then
      Cons(Break, Second(tokens[1..]))
    else Cons(SymbolOf(tokens[0]), SecondGap(tokens[1..]))
  }

  function SecondGap(rest: seq<string>): Symbols
    decreases |rest|, 1
  {
    if rest == [] then End
    else if rest[0] == MARK && |rest| > 1 then Cons(Break, Second(rest[1..]))
    else Cons(Space, Second(rest))
  }

  /** After the third: also one that follows a space. */
  function Third(tokens: seq<string>): Symbols
    decreases |tokens|, 0
  {
    if tokens == [] then End
    else if tokens[0] == MARK && |tokens| > 1 && !(tokens[1] == MARK && |tokens| > 2) then
      Cons(Break, Third(tokens[1..]))
    else Cons(SymbolOf(tokens[0]), ThirdGap(tokens[1..]))
  }

  function ThirdGap(rest: seq<string>): Symbols
    decreases |rest|, 1
  {
    if rest == [] then End
    else if rest[0] == MARK then Cons(Break, Third(rest[1..]))
    else Cons(Space, Third(rest))
  }

  /** After the last: all of them. */
  function Last(tokens: seq<string>): Symbols
    decreases |tokens|, 0
  {
    if tokens == [] then End
    else if tokens[0] == MARK then Cons(Break, Last(tokens[1..]))
    else Cons(Word(tokens[0]), LastGap(tokens[1..]))
  }

  function LastGap(rest: seq<string>): Symbols
    decreases |rest|, 1
  {
    if rest == [] || rest[0] == MARK then Last(rest) else Cons(Space, Last(rest))
  }

  lemma {:induction false} FirstPass(tokens: seq<string>)
    ensures Passed(Spaced(tokens), true, true) == First(tokens)
    ensures tokens != [] ==> Passed(Cons(Space, Spaced(tokens)), true, true) == FirstGap(tokens)
  {
    if tokens != [] {
      FirstPass(tokens[1..]);
      var x := Cons(Space, Spaced(tokens));
      assert !Matches(Spaced(tokens), true, true);
      if tokens[0] == MARK && |tokens| > 1 {
        assert Matches(x, true, true) && Drop(x, true, true) == Spaced(tokens[1..]);
      } else {
        assert !Matches(x, true, true);
      }
    }
  }

  lemma {:induction false} SecondPass(tokens: seq<string>)
    ensures Passed(First(tokens), false, true) == Second(tokens)
    ensures Passed(FirstGap(tokens), false, true) == SecondGap(tokens)
    decreases |tokens|
  {
    if tokens != [] {
      SecondPass(tokens[1..]);
      var x := First(tokens);
      if Matches(x, false, true) {
        assert Drop(x, false, true) == First(tokens[1..]);
      }
    }
  }

  lemma {:induction false} ThirdPass(tokens: seq<string>)
    ensures Passed(Second(tokens), true, false) == Third(tokens)
    ensures Passed(SecondGap(tokens), true, false) == ThirdGap(tokens)
    decreases |tokens|
  {
    if tokens != [] {
      ThirdPass(tokens[1..]);
      if tokens == [MARK] { assert Second(tokens) == Cons(Mark, SecondGap(tokens[1..])) && tokens[1..] == []; }
    }
  }

  lemma {:induction false} LastPass(tokens: seq<string>)
    ensures Passed(Third(tokens), false, false) == Last(tokens)
    ensures Passed(ThirdGap(tokens), false, false) == LastGap(tokens)
    decreases |tokens|
  {
    if tokens != [] { LastPass(tokens[1..]); }
  }

  lemma {:induction false} LastIsTypeset(tokens: seq<string>)
    requires AreTokens(tokens)
    ensures Flat(Last(tokens)) == Typeset(tokens)
  {
    if tokens != [] {
      var rest := tokens[1..];
      assert forall t | t in rest :: t in tokens;
      LastIsTypeset(rest);
      if tokens[0] != MARK && rest != [] && rest[0] != MARK {
        assert Flat(Cons(Space, Last(rest))) == " " + Typeset(rest);
        assert tokens[0] + (" " + Typeset(rest)) == tokens[0] + " " + Typeset(rest);
      }
    }
  }

  /** Detokenizing sets the tokens: one space between two words, a blank line for each break, and nothing else. */
  lemma DetokenizeTypesets(tokens: seq<string>)
    requires AreTokens(tokens)
    ensures Detokenize(tokens) == Typeset(tokens)
  {
    SpacedIsJoin(tokens);
    assert Pattern(true, true) == " " + MARK + " ";
    assert Pattern(false, true) == MARK + " ";
    assert Pattern(true, false) == " " + MARK;
    assert Pattern(false, false) == MARK;
    hide Passed, Flat, Spaced, First, Second, Third, Last, AreTokens;
    var y := ReplacePass(Spaced(tokens), true, true);
    FirstPass(tokens);
    y := ReplacePass(y, false, true);
    SecondPass(tokens);
    y := ReplacePass(y, true, false);
    ThirdPass(tokens);
    y := ReplacePass(y, false, false);
    LastPass(tokens);
    LastIsTypeset(tokens);
  }
}
