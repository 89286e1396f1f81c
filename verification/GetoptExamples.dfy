/** Argument lists on which a scan does not do what its caller would expect. */
module GetoptExamples {
  import opened Basics
  import opened GetoptDecode
  import opened GetoptMachine
  import opened GetoptMark
  import opened GetoptParse
  import opened GetoptProperties
  import opened GetoptRender

  /** The element of a single option character. */
  function Letter(x: char): string {
    ['-', x]
  }

  lemma {:induction false} LetterFresh(c: Config, x: char, tail: seq<string>)
    requires x != '-' && c.longopts.None? && |tail| > 0 && tail[0] == Letter(x)
    ensures FreshNextchar(c, tail[0]) == [x] && Resumable(tail, [x])
    ensures Decode(c, tail, [x]) == DecodeShort(c.optstring, tail, [x])
    ensures tail[0] != "--"
  {
    assert tail[0][1..] == [x];
  }

  lemma {:induction false} LetterAlone(m: Ordering, c1: Config, c2: Config, x: char, rest: seq<string>)
    requires x != '-' && c1.longopts.None? && (Kind(c1.optstring, x).Plain? || Kind(c1.optstring, x).Unknown?)
    ensures var e := if Kind(c1.optstring, x).Plain? then Option1(x as int, None)
                     else Got(QUESTION, None, None, Some(x), InvalidCharacter);
      Parse(m, c1, c2, [Letter(x)] + rest, "") == Extend(e, [Letter(x)], Parse(m, c2, c2, rest, ""))
  {
    var tail := [Letter(x)] + rest;
    LetterFresh(c1, x, tail);
    assert tail[1..] == rest && tail[..1] == [Letter(x)];
    assert Parse(m, c1, c2, tail, "") == Parse(m, c1, c2, tail, [x]);
  }

  lemma {:induction false} LetterTakes(m: Ordering, c1: Config, c2: Config, x: char, arg: string, rest: seq<string>)
    requires x != '-' && c1.longopts.None? && Kind(c1.optstring, x).Required?
    ensures Parse(m, c1, c2, [Letter(x), arg] + rest, "")
            == Extend(Option1(x as int, Some(arg)), [Letter(x), arg], Parse(m, c2, c2, rest, ""))
  {
    var tail := [Letter(x), arg] + rest;
    LetterFresh(c1, x, tail);
    assert tail[2..] == rest && tail[..2] == [Letter(x), arg];
    assert Parse(m, c1, c2, tail, "") == Parse(m, c1, c2, tail, [x]);
  }

  lemma {:induction false} LetterLacks(m: Ordering, c1: Config, c2: Config, x: char)
    requires x != '-' && c1.longopts.None? && Kind(c1.optstring, x).Required?
    ensures Parse(m, c1, c2, [Letter(x)], "")
            == Parsed([Got(MissingCode(c1.optstring), None, None, Some(x), MissingArgument)], [Letter(x)], [], false)
  {
    var tail := [Letter(x)];
    LetterFresh(c1, x, tail);
    assert tail[1..] == [] && tail[..1] == tail;
    assert Parse(m, c1, c2, tail, "") == Parse(m, c1, c2, tail, [x]);
    assert Parse(m, c2, c2, [], "") == Parsed([], [], [], false);
    assert tail + [] == tail;
  }

  lemma {:induction false} Declared()
    ensures Kind("a", 'a').Plain? && Kind("+a", 'a').Plain? && Kind("a", '+').Unknown? && Kind("+a", '+').Plain?
    ensures Kind(":a", 'a').Plain? && Kind(":a", '+').Unknown? && Kind("+:a", '+').Required?
            && Kind("a:", 'a').Required?
  {
  }

  // ---------------------------------------------------------------- the mark

  /** An option and then the mark as an option: taken with the mark in optstring, refused without. */
  lemma {:induction false} MarkTaken(c: Config, prog: string, x: char)
    requires c.longopts.None? && x != '-' && x != '+' && Kind(c.optstring, x).Plain? && Kind(c.optstring, '+').Unknown?
    requires !(":" <= c.optstring)
    ensures var argv := [prog, Letter(x), Letter('+')];
      && Observed(RequireOrder, c, WithMark(c, '+'), argv).0 == [Option1(x as int, None), Option1('+' as int, None)]
      && Observed(RequireOrder, c, c, argv).0
         == [Option1(x as int, None), Got(QUESTION, None, None, Some('+'), InvalidCharacter)]
  {
    var raw, argv := WithMark(c, '+'), [prog, Letter(x), Letter('+')];
    MarkDeclares(c.optstring, '+', x);
    TwoLetters(c, raw, prog, x, '+');
    TwoLetters(c, c, prog, x, '+');
  }

  lemma {:induction false} TwoLetters(c1: Config, c2: Config, prog: string, x: char, y: char)
    requires x != '-' && c1.longopts.None? && (Kind(c1.optstring, x).Plain? || Kind(c1.optstring, x).Unknown?)
    requires y != '-' && c2.longopts.None? && (Kind(c2.optstring, y).Plain? || Kind(c2.optstring, y).Unknown?)
    ensures Observed(RequireOrder, c1, c2, [prog, Letter(x), Letter(y)]).0
            == [LetterEvent(c1.optstring, x), LetterEvent(c2.optstring, y)]
  {
    var argv := [prog, Letter(x), Letter(y)];
    assert argv[1..] == [Letter(x)] + [Letter(y)] && [Letter(y)] + [] == [Letter(y)];
    ObservedIs(RequireOrder, c1, c2, argv);
    LetterAlone(RequireOrder, c1, c2, x, [Letter(y)]);
    LetterAlone(RequireOrder, c2, c2, y, []);
  }

  /** "-a -+" with optstring "+a": the second element should be invalid, and is taken for an option '+'. */
  lemma {:induction false} PlusTaken(c: Config, argv: seq<string>)
    requires c == Config("a", None, false) && argv == ["prog", "-a", "-+"]
    ensures WithMark(c, '+').optstring == "+a"
    ensures Observed(RequireOrder, c, WithMark(c, '+'), argv).0 == [Option1('a' as int, None),
                                                                    Option1('+' as int, None)]
    ensures Observed(RequireOrder, c, c, argv).0
            == [Option1('a' as int, None), Got('?' as int, None, None, Some('+'), InvalidCharacter)]
  {
    Declared();
    assert argv == [argv[0], Letter('a'), Letter('+')];
    MarkTaken(c, argv[0], 'a');
  }

  /** With a ':' after the mark, the mark even takes an argument. */
  lemma {:induction false} MarkTakesArgument(c: Config, prog: string, x: char, arg: string)
    requires c.longopts.None? && x != '-' && x != '+' && Kind(c.optstring, x).Plain?
    requires ":" <= c.optstring && !("::" <= c.optstring)
    ensures Observed(RequireOrder, c, WithMark(c, '+'), [prog, Letter(x), Letter('+'), arg]).0
            == [Option1(x as int, None), Option1('+' as int, Some(arg))]
  {
    var raw, argv := WithMark(c, '+'), [prog, Letter(x), Letter('+'), arg];
    MarkDeclares(c.optstring, '+', x);
    assert argv[1..] == [Letter(x)] + [Letter('+'), arg] && [Letter('+'), arg] + [] == [Letter('+'), arg];
    ObservedIs(RequireOrder, c, raw, argv);
    LetterAlone(RequireOrder, c, raw, x, [Letter('+'), arg]);
    LetterTakes(RequireOrder, raw, raw, '+', arg, []);
  }

  /** "-a -+ x" with optstring "+:a". */
  lemma {:induction false} PlusTakesArgument(c: Config, argv: seq<string>)
    requires c == Config(":a", None, false) && argv == ["prog", "-a", "-+", "x"]
    ensures WithMark(c, '+').optstring == "+:a"
    ensures Observed(RequireOrder, c, WithMark(c, '+'), argv).0
            == [Option1('a' as int, None), Option1('+' as int, Some("x"))]
  {
    Declared();
    assert argv == [argv[0], Letter('a'), Letter('+'), argv[3]];
    MarkTakesArgument(c, argv[0], 'a', argv[3]);
  }

  // ---------------------------------------------------------------- scanning again

  lemma {:induction false} LacksThenTakes(c: Config, prog: string, arg: string, x: char)
    requires c.longopts.None? && x != '-' && Kind(c.optstring, x).Required? && IsNonOption(arg)
    ensures Observed(Permute, c, c, [prog, arg, Letter(x)])
            == ([Got(MissingCode(c.optstring), None, None, Some(x), MissingArgument)], [prog, Letter(x), arg], 2)
    ensures Observed(Permute, c, c, [prog, Letter(x), arg]) == ([Option1(x as int, Some(arg))],
                                                                [prog, Letter(x), arg], 3)
  {
    ScanLacks(c, prog, arg, x);
    ScanTakes(c, prog, arg, x);
  }

  lemma {:induction false} ScanLacks(c: Config, prog: string, arg: string, x: char)
    requires c.longopts.None? && x != '-' && Kind(c.optstring, x).Required? && IsNonOption(arg)
    ensures Observed(Permute, c, c, [prog, arg, Letter(x)])
            == ([Got(MissingCode(c.optstring), None, None, Some(x), MissingArgument)], [prog, Letter(x), arg], 2)
  {
    var argv, tail := [prog, arg, Letter(x)], [arg, Letter(x)];
    assert argv[1..] == tail && tail[1..] == [Letter(x)];
    ObservedIs(Permute, c, c, argv);
    LetterLacks(Permute, c, c, x);
    assert arg != "--";
    assert Parse(Permute, c, c, tail, "").rest == [arg];
    assert [prog] + ([Letter(x)] + [arg]) == [prog, Letter(x), arg];
  }

  lemma {:induction false} ScanTakes(c: Config, prog: string, arg: string, x: char)
    requires c.longopts.None? && x != '-' && Kind(c.optstring, x).Required?
    ensures Observed(Permute, c, c, [prog, Letter(x), arg]) == ([Option1(x as int, Some(arg))],
                                                                [prog, Letter(x), arg], 3)
  {
    var argv, tail := [prog, Letter(x), arg], [Letter(x), arg];
    assert argv[1..] == tail && tail + [] == tail;
    ObservedIs(Permute, c, c, argv);
    LetterTakes(Permute, c, c, x, arg, []);
    assert Parse(Permute, c, c, tail, "") == Parsed([Option1(x as int, Some(arg))], tail, [], false);
    assert [prog] + (tail + []) == argv;
  }

  /** "x -a" with optstring "a:": -a lacks its argument, but in the sorted list it finds "x" behind it. */
  lemma {:induction false} RescanDiffers(c: Config, argv: seq<string>, sorted: seq<string>)
    requires c == Config("a:", None, false) && argv == ["prog", "x", "-a"] && sorted == ["prog", "-a", "x"]
    ensures Observed(Permute, c, c, argv) == ([Got('?' as int, None, None, Some('a'), MissingArgument)], sorted, 2)
    ensures Observed(Permute, c, c, sorted) == ([Option1('a' as int, Some("x"))], sorted, 3)
  {
    Declared();
    assert argv == [argv[0], argv[1], Letter('a')] && sorted == [argv[0], Letter('a'), argv[1]];
    LacksThenTakes(c, argv[0], argv[1], 'a');
  }

  // ---------------------------------------------------------------- a refused option

  /** "--bogus" with a table of "verbose" alone: reported with '?', and passed over. */
  lemma {:induction false} BogusRefused(c: Config, posixlyCorrect: bool, argv: seq<string>)
    requires c == Config("a", Some([LongOption("verbose", 0, 'v' as int)]), false) && argv == ["prog", "--bogus"]
    ensures var (es, f) := Scan(c, posixlyCorrect, argv);
      es == [Got('?' as int, None, None, None, Unrecognized)] && f.argv == argv && f.optind == 2
  {
    var x := Refused("bogus", None, false, Unrecognized);
    var opts := c.longopts.value;
    assert opts[0].name == "verbose" && "bogus"[0] != "verbose"[0];
    assert LookupOk(opts, "bogus", NotFound);
    assert Dashes(false) + LongText("bogus", None) == "--bogus";
    assert argv == [argv[0]] + Write(x);
    RefusedScan(c, posixlyCorrect, argv[0], x);
  }
}
