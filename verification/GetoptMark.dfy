/**
 The leading '-' or '+' of optstring.  It is skipped on the first call only:
 on later calls it counts as an option character, and hides a ':' after it
 that asks for ':' as the answer to a missing argument.  Here: exactly which
 calls, and which whole scans, that makes a difference to.
 */
module GetoptMark {
  import opened Basics
  import opened GetoptDecode
  import opened GetoptMachine
  import opened GetoptParse
  import opened GetoptProperties

  predicate IsMark(c: char) {
    c == '-' || c == '+'
  }

  /** The configuration with the mark in front of its optstring: what later calls are given. */
  function WithMark(c: Config, mark: char): Config {
    c.(optstring := [mark] + c.optstring)
  }

  lemma {:induction false} FirstCallStrips(c: Config, mark: char)
    requires IsMark(mark)
    ensures FirstConfig(WithMark(c, mark)) == c
  {
    assert ([mark] + c.optstring)[1..] == c.optstring;
  }

  // ---------------------------------------------------------------- declarations

  lemma {:induction false} OthersIndexed(t: string, mark: char, c: char)
    requires c != mark
    ensures IndexOf([mark] + t, c) == 1 + IndexOf(t, c)
  {
    assert ([mark] + t)[1..] == t;
  }

  /** The mark hides a leading ':' and declares itself, by the colons after it; all else stays declared as it is. */
  lemma {:induction false} MarkDeclares(t: string, mark: char, c: char)
    requires IsMark(mark)
    ensures MissingCode([mark] + t) == QUESTION
    ensures Kind([mark] + t, mark) == if "::" <= t then Optional else if ":" <= t then Required else Plain
    ensures c != mark ==> Kind([mark] + t, c) == Kind(t, c) && Listed([mark] + t, c) == Listed(t, c)
    ensures Listed([mark] + t, mark)
  {
    var s := [mark] + t;
    KindMeaning("", mark, t);
    assert "" + [mark] + t == s;
    if c != mark {
      OthersIndexed(t, mark, c);
      assert forall k: nat :: At(s, k + 1, ':') == At(t, k, ':');
    }
  }

  // ---------------------------------------------------------------- one call

  /** Two kinds of option act alike on a character that is the last of its element, or is not. */
  predicate ActAlike(k: ArgKind, l: ArgKind, isLast: bool) {
    || k == l
    || (isLast && (k.Plain? || k.Optional?) && (l.Plain? || l.Optional?))
    || (!isLast && (k.Required? || k.Optional?) && (l.Required? || l.Optional?))
  }

  /** The call answers a missing argument with ':', or scans the mark as an option that acts in another way. */
  predicate MarkMatters(c: Config, mark: char, tail: seq<string>, nc: string)
    requires |tail| > 0 && nc != "" && !IsNonOption(tail[0])
  {
    || (":" <= c.optstring && Decode(c, tail, nc).event.complaint.MissingArgument?)
    || (nc[0] == mark && GoesShort(WithMark(c, mark), tail[0], nc)
        && !ActAlike(Kind(c.optstring, mark), Kind([mark] + c.optstring, mark), |nc| == 1))
  }

  /** Short options: the results differ exactly for a hidden ':' or a mark that acts in another way. */
  lemma {:induction false} ShortMark(t: string, mark: char, tail: seq<string>, nc: string)
    requires |tail| > 0 && nc != "" && IsMark(mark)
    ensures var d, e := DecodeShort(t, tail, nc), DecodeShort([mark] + t, tail, nc);
      && (e == d <==> !(":" <= t && d.event.complaint.MissingArgument?)
                      && (nc[0] == mark ==> ActAlike(Kind(t, mark), Kind([mark] + t, mark), |nc| == 1)))
      && (e.event == d.event ==> e == d)
  {
    MarkDeclares(t, mark, nc[0]);
  }

  /** Long options do not see the mark, save for a missing argument. */
  lemma {:induction false} LongMark(c: Config, mark: char, tail: seq<string>, nc: string)
    requires |tail| > 0 && nc != "" && !IsNonOption(tail[0]) && c.longopts.Some? && IsMark(mark)
    requires DecodeLong(c, tail, nc).Some? && DecodeLong(WithMark(c, mark), tail, nc).Some?
    ensures var d, e := DecodeLong(c, tail, nc).value, DecodeLong(WithMark(c, mark), tail, nc).value;
      && (e == d <==> !(":" <= c.optstring && d.event.complaint.MissingArgument?))
      && (e.event == d.event ==> e == d)
  {
    MarkDeclares(c.optstring, mark, nc[0]);
  }

  /** A long option and a short one are never mistaken for one another. */
  lemma {:induction false} LongIsNotShort(c: Config, tail: seq<string>, nc: string, optstring: string)
    requires |tail| > 0 && nc != "" && !IsNonOption(tail[0]) && c.longopts.Some? && DecodeLong(c, tail, nc).Some?
    ensures DecodeLong(c, tail, nc).value.event != DecodeShort(optstring, tail, nc).event
  {
  }

  /** Which way a call goes depends on the mark only when it stands there and was not declared before. */
  lemma {:induction false} SameWay(c: Config, mark: char, tail: seq<string>, nc: string)
    requires |tail| > 0 && nc != "" && InElement(nc, tail[0]) && IsMark(mark)
    ensures GoesShort(c, tail[0], nc) ==> GoesShort(WithMark(c, mark), tail[0], nc)
    ensures GoesShort(WithMark(c, mark), tail[0], nc) && !GoesShort(c, tail[0], nc) ==>
              nc[0] == mark && Kind(c.optstring, mark).Unknown?
  {
    MarkDeclares(c.optstring, mark, nc[0]);
    MarkDeclares(c.optstring, mark, tail[0][1]);
  }

  /** One later call: it decodes with the mark as it would without, exactly when the mark does not matter. */
  lemma {:induction false} CallUnmarked(c: Config, mark: char, tail: seq<string>, nc: string)
    requires |tail| > 0 && nc != "" && InElement(nc, tail[0]) && IsMark(mark)
    ensures var d, e := Decode(c, tail, nc), Decode(WithMark(c, mark), tail, nc);
      && (e == d <==> !MarkMatters(c, mark, tail, nc))
      && (e.event == d.event ==> e == d)
  {
    SameWay(c, mark, tail, nc);
    ShortOrLong(c, tail, nc);
    ShortOrLong(WithMark(c, mark), tail, nc);
    if GoesShort(c, tail[0], nc) {
      ShortMark(c.optstring, mark, tail, nc);
    } else if GoesShort(WithMark(c, mark), tail[0], nc) {
      LongIsNotShort(c, tail, nc, [mark] + c.optstring);
      MarkDeclares(c.optstring, mark, mark);
    } else {
      LongMark(c, mark, tail, nc);
    }
  }

  // ---------------------------------------------------------------- whole scans

  /** Some call after the first meets the mark, in a pass that has been told what all the calls should be told. */
  predicate MarkMet(m: Ordering, c: Config, mark: char, tail: seq<string>, nc: string, first: bool)
    requires Resumable(tail, nc)
    decreases |tail|, if nc == "" then 1 else 0, |nc|
  {
    if nc != "" then
      var d := Decode(c, tail, nc);
      (!first && MarkMatters(c, mark, tail, nc)) || MarkMet(m, c, mark, tail[d.used..], d.nextchar, false)
    else if tail == [] || tail[0] == "--" then false
    else if !IsNonOption(tail[0]) then MarkMet(m, c, mark, tail, FreshNextchar(c, tail[0]), first)
    else
      match m
      case RequireOrder => false
      case Permute => MarkMet(m, c, mark, tail[1..], "", first)
      case ReturnInOrder => MarkMet(m, c, mark, tail[1..], "", false)
  }

  /** The passes with and without the mark give the same result, or already differ in their events. */
  ghost predicate Settled(p: Parsed, q: Parsed, met: bool) {
    if met then p.events != q.events else p == q
  }

  lemma {:induction false} SettledExtends(e: Event, block: seq<string>, p: Parsed, q: Parsed, met: bool)
    requires Settled(p, q, met)
    ensures Settled(Extend(e, block, p), Extend(e, block, q), met)
  {
    Cancel([e], p.events, q.events);
  }

  lemma {:induction false} FirstEvent(m: Ordering, c1: Config, c2: Config, tail: seq<string>, nc: string)
    requires Resumable(tail, nc) && nc != ""
    ensures var es := Parse(m, c1, c2, tail, nc).events; es != [] && es[0] == Decode(c1, tail, nc).event
  {
  }

  lemma {:induction false} ParseCall(m: Ordering, c1: Config, c2: Config, tail: seq<string>, nc: string)
    requires Resumable(tail, nc) && nc != ""
    ensures var d := Decode(c1, tail, nc);
      Parse(m, c1, c2, tail, nc) == Extend(d.event, tail[..d.used], Parse(m, c2, c2, tail[d.used..], d.nextchar))
  {
  }

  /** One call in front of passes that have settled. */
  lemma {:induction false} CallSettles(m: Ordering, c: Config, mark: char, tail: seq<string>, nc: string, first: bool)
    requires Resumable(tail, nc) && nc != "" && IsMark(mark)
    requires var d, raw := Decode(c, tail, nc), WithMark(c, mark);
      Settled(Parse(m, raw, raw, tail[d.used..], d.nextchar), Parse(m, c, c, tail[d.used..], d.nextchar),
              MarkMet(m, c, mark, tail[d.used..], d.nextchar, false))
    ensures Settled(Parse(m, if first then c else WithMark(c, mark), WithMark(c, mark), tail, nc),
                    Parse(m, c, c, tail, nc),
                    MarkMet(m, c, mark, tail, nc, first))
  {
    var d, raw := Decode(c, tail, nc), WithMark(c, mark);
    var t := tail[d.used..];
    CallUnmarked(c, mark, tail, nc);
    ParseCall(m, c, c, tail, nc);
    ParseCall(m, if first then c else raw, raw, tail, nc);
    if first || !MarkMatters(c, mark, tail, nc) {
      SettledExtends(d.event, tail[..d.used], Parse(m, raw, raw, t, d.nextchar), Parse(m, c, c, t, d.nextchar),
                     MarkMet(m, c, mark, t, d.nextchar, false));
    } else {
      FirstEvent(m, raw, raw, tail, nc);
      FirstEvent(m, c, c, tail, nc);
    }
  }

  lemma {:induction false} ParseUnmarked(m: Ordering, c: Config, mark: char, tail: seq<string>, nc: string, first: bool)
    requires Resumable(tail, nc) && IsMark(mark)
    ensures Settled(Parse(m, if first then c else WithMark(c, mark), WithMark(c, mark), tail, nc),
                    Parse(m, c, c, tail, nc),
                    MarkMet(m, c, mark, tail, nc, first))
    decreases |tail|, if nc == "" then 1 else 0, |nc|
  {
    var raw := WithMark(c, mark);
    if nc != "" {
      var d := Decode(c, tail, nc);
      ParseUnmarked(m, c, mark, tail[d.used..], d.nextchar, false);
      CallSettles(m, c, mark, tail, nc, first);
    } else if tail == [] || tail[0] == "--" {
    } else if !IsNonOption(tail[0]) {
      ParseUnmarked(m, c, mark, tail, FreshNextchar(c, tail[0]), first);
    } else {
      match m
      case RequireOrder =>
      case Permute => ParseUnmarked(m, c, mark, tail[1..], "", first);
      case ReturnInOrder =>
        ParseUnmarked(m, c, mark, tail[1..], "", false);
        SettledExtends(InOrder(tail[0]), [tail[0]], Parse(m, raw, raw, tail[1..], ""), Parse(m, c, c, tail[1..], ""),
                       MarkMet(m, c, mark, tail[1..], "", false));
    }
  }

  /**
   A whole scan goes as if every call were given optstring without its mark,
   if and only if no call after the first meets the mark.
   */
  lemma {:induction false} ScanUnmarked(m: Ordering, c: Config, mark: char, argv: seq<string>)
    requires |argv| >= 1 && IsMark(mark)
    ensures Observed(m, c, WithMark(c, mark), argv) == Observed(m, c, c, argv)
            <==> !MarkMet(m, c, mark, argv[1..], "", true)
  {
    ObservedIs(m, c, WithMark(c, mark), argv);
    ObservedIs(m, c, c, argv);
    ParseUnmarked(m, c, mark, argv[1..], "", true);
  }

  /** The same for a scan as it is started, with the mark choosing the mode and stripped for the first call. */
  lemma {:induction false} MarkedScan(c: Config, mark: char, posixlyCorrect: bool, argv: seq<string>)
    requires |argv| >= 1 && IsMark(mark)
    ensures var (es, f) := Scan(WithMark(c, mark), posixlyCorrect, argv);
      var m := if mark == '-' then ReturnInOrder else RequireOrder;
      (es, f.argv, f.optind) == Observed(m, c, c, argv) <==> !MarkMet(m, c, mark, argv[1..], "", true)
  {
    var m := if mark == '-' then ReturnInOrder else RequireOrder;
    FirstCallStrips(c, mark);
    ScanUnmarked(m, c, mark, argv);
  }

  /** No element has the mark after its first character. */
  predicate MarkFree(elems: seq<string>, mark: char) {
    forall i | 0 <= i < |elems| :: forall j | 1 <= j < |elems[i]| :: elems[i][j] != mark
  }

  lemma {:induction false} NeverMet(m: Ordering, c: Config, mark: char, tail: seq<string>, nc: string, first: bool)
    requires Resumable(tail, nc) && IsMark(mark) && !(":" <= c.optstring) && MarkFree(tail, mark)
    ensures !MarkMet(m, c, mark, tail, nc, first)
    decreases |tail|, if nc == "" then 1 else 0, |nc|
  {
    if nc != "" {
      var d := Decode(c, tail, nc);
      assert nc[0] == tail[0][|tail[0]| - |nc|];
      NeverMet(m, c, mark, tail[d.used..], d.nextchar, false);
    } else if tail == [] || tail[0] == "--" {
    } else if !IsNonOption(tail[0]) {
      NeverMet(m, c, mark, tail, FreshNextchar(c, tail[0]), first);
    } else if m != RequireOrder {
      NeverMet(m, c, mark, tail[1..], "", if m == Permute then first else false);
    }
  }

  /** A check before the scan: optstring has no ':' after the mark, and no argument has the mark inside. */
  lemma {:induction false} QuietMark(m: Ordering, c: Config, mark: char, argv: seq<string>)
    requires |argv| >= 1 && IsMark(mark) && !(":" <= c.optstring) && MarkFree(argv[1..], mark)
    ensures Observed(m, c, WithMark(c, mark), argv) == Observed(m, c, c, argv)
  {
    NeverMet(m, c, mark, argv[1..], "", true);
    ScanUnmarked(m, c, mark, argv);
  }
}
