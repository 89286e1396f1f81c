/** What whole scans promise: stable sorting of argv, stability under re-scanning, and how the modes relate. */
module GetoptProperties {
  import opened Basics
  import opened GetoptDecode
  import opened GetoptMachine
  import opened GetoptParse

  // ---------------------------------------------------------------- stable partition

  /** The elements of t whose mark is b, in order. */
  function Marked(t: seq<string>, marks: seq<bool>, b: bool): seq<string>
    requires |t| == |marks|
  {
    if t == [] then []
    else (if marks[0] == b then [t[0]] else []) + Marked(t[1..], marks[1..], b)
  }

  function Trues(n: nat): (r: seq<bool>)
    ensures |r| == n
  {
    seq(n, _ => true)
  }

  /** For each element of the tail, whether the pass finishes it as (part of) an option. */
  function Marks(m: Ordering, c1: Config, c2: Config, tail: seq<string>, nc: string): (r: seq<bool>)
    requires Resumable(tail, nc)
    ensures |r| == |tail|
    decreases |tail|, if nc == "" then 1 else 0, |nc|
  {
    if nc != "" then
      var d := Decode(c1, tail, nc);
      Trues(d.used) + Marks(m, c2, c2, tail[d.used..], d.nextchar)
    else if tail == [] then []
    else if tail[0] == "--" then [true] + seq(|tail| - 1, _ => false)
    else if !IsNonOption(tail[0]) then Marks(m, c1, c2, tail, FreshNextchar(c1, tail[0]))
    else
      match m
      case RequireOrder => seq(|tail|, _ => false)
      case Permute => [false] + Marks(m, c1, c2, tail[1..], "")
      case ReturnInOrder => [true] + Marks(m, c2, c2, tail[1..], "")
  }

  lemma {:induction false} MarkedAll(t: seq<string>, marks: seq<bool>, b: bool)
    requires |t| == |marks| && forall i | 0 <= i < |marks| :: marks[i] == b
    ensures Marked(t, marks, b) == t && Marked(t, marks, !b) == []
  {
    if t != [] { MarkedAll(t[1..], marks[1..], b); }
  }

  lemma {:induction false} MarkedConcat(t: seq<string>, u: seq<string>, x: seq<bool>, y: seq<bool>, b: bool)
    requires |t| == |x| && |u| == |y|
    ensures Marked(t + u, x + y, b) == Marked(t, x, b) + Marked(u, y, b)
  {
    if t == [] {
      assert t + u == u && x + y == y;
    } else {
      ConcatTail(t, u);
      ConcatTail(x, y);
      MarkedConcat(t[1..], u, x[1..], y, b);
      Assoc(if x[0] == b then [t[0]] else [], Marked(t[1..], x[1..], b), Marked(u, y, b));
    }
  }

  /** A block of elements with one mark, before the rest. */
  lemma {:induction false} MarkedBlock(t: seq<string>, k: nat, x: seq<bool>, y: seq<bool>, b: bool)
    requires k <= |t| && |x| == k && |y| == |t| - k && forall i | 0 <= i < k :: x[i] == b
    ensures Marked(t, x + y, b) == t[..k] + Marked(t[k..], y, b)
    ensures Marked(t, x + y, !b) == Marked(t[k..], y, !b)
  {
    assert t == t[..k] + t[k..];
    MarkedAll(t[..k], x, b);
    MarkedConcat(t[..k], t[k..], x, y, b);
    MarkedConcat(t[..k], t[k..], x, y, !b);
  }

  /** The pass splits the tail in two without reordering either part. */
  lemma {:induction false} ParseSplits(m: Ordering, c1: Config, c2: Config, tail: seq<string>, nc: string)
    requires Resumable(tail, nc)
    ensures var p, marks := Parse(m, c1, c2, tail, nc), Marks(m, c1, c2, tail, nc);
      p.opts == Marked(tail, marks, true) && p.rest == Marked(tail, marks, false)
    decreases |tail|, if nc == "" then 1 else 0, |nc|
  {
    if nc != "" {
      var d := Decode(c1, tail, nc);
      ParseSplits(m, c2, c2, tail[d.used..], d.nextchar);
      MarkedBlock(tail, d.used, Trues(d.used), Marks(m, c2, c2, tail[d.used..], d.nextchar), true);
    } else if tail == [] {
    } else if tail[0] == "--" {
      MarkedAll(tail[1..], seq(|tail| - 1, _ => false), false);
      MarkedBlock(tail, 1, [true], seq(|tail| - 1, _ => false), true);
    } else if !IsNonOption(tail[0]) {
      ParseSplits(m, c1, c2, tail, FreshNextchar(c1, tail[0]));
    } else {
      match m
      case RequireOrder => MarkedAll(tail, seq(|tail|, _ => false), false);
      case Permute =>
        ParseSplits(m, c1, c2, tail[1..], "");
        MarkedBlock(tail, 1, [false], Marks(m, c1, c2, tail[1..], ""), false);
      case ReturnInOrder =>
        ParseSplits(m, c2, c2, tail[1..], "");
        MarkedBlock(tail, 1, [true], Marks(m, c2, c2, tail[1..], ""), true);
    }
  }

  predicate AllNonOptions(t: seq<string>) {
    forall i | 0 <= i < |t| :: IsNonOption(t[i])
  }

  /** `after` is what follows one "--" of t. */
  predicate FollowsTerminator(t: seq<string>, after: seq<string>) {
    |after| < |t| && t[|t| - |after|..] == after && t[|t| - |after| - 1] == "--"
  }

  /** What PERMUTE leaves: non-options it skipped and then, if "--" ended the options, everything after that. */
  ghost predicate Leftover(tail: seq<string>, p: Parsed, skipped: seq<string>, after: seq<string>) {
    && p.rest == skipped + after && AllNonOptions(skipped)
    && if p.ended then FollowsTerminator(tail, after) && "--" in p.opts else after == []
  }

  lemma {:induction false} LeftoverPrefix(t: seq<string>, u: seq<string>, after: seq<string>)
    requires FollowsTerminator(u, after)
    ensures FollowsTerminator(t + u, after)
  {
    assert (t + u)[|t + u| - |after|..] == u[|u| - |after|..];
  }

  lemma {:induction false} LeftoverDecoded(tail: seq<string>, used: nat, q: Parsed, skipped: seq<string>,
                                           after: seq<string>,
                                           e: Event)
    requires used <= |tail| && Leftover(tail[used..], q, skipped, after)
    ensures Leftover(tail, Extend(e, tail[..used], q), skipped, after)
  {
    assert tail == tail[..used] + tail[used..];
    if q.ended { LeftoverPrefix(tail[..used], tail[used..], after); }
  }

  lemma {:induction false} LeftoverSkipped(tail: seq<string>, q: Parsed, skipped: seq<string>, after: seq<string>)
    requires tail != [] && IsNonOption(tail[0]) && Leftover(tail[1..], q, skipped, after)
    ensures Leftover(tail, q.(rest := [tail[0]] + q.rest), [tail[0]] + skipped, after)
  {
    assert tail == [tail[0]] + tail[1..];
    if q.ended { LeftoverPrefix([tail[0]], tail[1..], after); }
    Assoc([tail[0]], skipped, after);
  }

  lemma {:induction false} PermuteLeftover(c1: Config, c2: Config, tail: seq<string>, nc: string)
      returns (skipped: seq<string>, after: seq<string>)
    requires Resumable(tail, nc)
    ensures Leftover(tail, Parse(Permute, c1, c2, tail, nc), skipped, after)
    decreases |tail|, if nc == "" then 1 else 0, |nc|
  {
    if nc != "" {
      var d := Decode(c1, tail, nc);
      skipped, after := PermuteLeftover(c2, c2, tail[d.used..], d.nextchar);
      LeftoverDecoded(tail, d.used, Parse(Permute, c2, c2, tail[d.used..], d.nextchar), skipped, after, d.event);
    } else if tail == [] {
      skipped, after := [], [];
    } else if tail[0] == "--" {
      skipped, after := [], tail[1..];
    } else if !IsNonOption(tail[0]) {
      skipped, after := PermuteLeftover(c1, c2, tail, FreshNextchar(c1, tail[0]));
    } else {
      skipped, after := PermuteLeftover(c1, c2, tail[1..], "");
      LeftoverSkipped(tail, Parse(Permute, c1, c2, tail[1..], ""), skipped, after);
      skipped := [tail[0]] + skipped;
    }
  }

  /**
   At EOF argv is a stable partition of the original: the marked elements in
   their order, then the others in theirs, with optind on the boundary.
   Modes other than PERMUTE change nothing.
   */
  lemma {:induction false} ScanSorts(cfg: Config, posixlyCorrect: bool, argv: seq<string>)
    requires |argv| >= 1
    ensures var f := Scan(cfg, posixlyCorrect, argv).1;
      var m := OrderingOf(cfg.optstring, posixlyCorrect);
      var marks := Marks(m, FirstConfig(cfg), cfg, argv[1..], "");
      && 1 <= f.optind <= |f.argv|
      && f.argv[..1] == argv[..1]
      && f.argv[1..f.optind] == Marked(argv[1..], marks, true)
      && f.argv[f.optind..] == Marked(argv[1..], marks, false)
      && (m != Permute ==> f.argv == argv)
  {
    var m := OrderingOf(cfg.optstring, posixlyCorrect);
    ScanIsParse(cfg, posixlyCorrect, argv);
    ParseSplits(m, FirstConfig(cfg), cfg, argv[1..], "");
    var p := Parse(m, FirstConfig(cfg), cfg, argv[1..], "");
    SortedParts(argv[0], p.opts, p.rest);
    if m != Permute {
      ParseInPlace(m, FirstConfig(cfg), cfg, argv[1..], "");
      Assoc([argv[0]], p.opts, p.rest);
      assert argv == [argv[0]] + argv[1..];
    }
  }

  lemma {:induction false} SortedParts(prog: string, opts: seq<string>, rest: seq<string>)
    ensures var all := [prog] + opts + rest;
      all[..1] == [prog] && all[1..1 + |opts|] == opts && all[1 + |opts|..] == rest
  {
  }

  lemma {:induction false} ParseInPlace(m: Ordering, c1: Config, c2: Config, tail: seq<string>, nc: string)
    requires Resumable(tail, nc) && m != Permute
    ensures var p := Parse(m, c1, c2, tail, nc); p.opts + p.rest == tail
    decreases |tail|, if nc == "" then 1 else 0, |nc|
  {
    if nc != "" {
      var d := Decode(c1, tail, nc);
      ParseInPlace(m, c2, c2, tail[d.used..], d.nextchar);
      var q := Parse(m, c2, c2, tail[d.used..], d.nextchar);
      Assoc(tail[..d.used], q.opts, q.rest);
      assert tail == tail[..d.used] + tail[d.used..];
    } else if tail == [] || tail[0] == "--" {
    } else if !IsNonOption(tail[0]) {
      ParseInPlace(m, c1, c2, tail, FreshNextchar(c1, tail[0]));
    } else if m == ReturnInOrder {
      ParseInPlace(m, c2, c2, tail[1..], "");
    }
  }

  // ---------------------------------------------------------------- re-scanning

  /** The scan ended with an option whose required argument is not there. */
  predicate EndsMissing(es: seq<Event>) {
    |es| > 0 && es[|es| - 1].Got? && es[|es| - 1].complaint.MissingArgument?
  }

  /** A half-decoded element is finished by the pass that resumes it. */
  lemma {:induction false} ResumedIsFinished(m: Ordering, c1: Config, c2: Config, tail: seq<string>, nc: string)
    requires Resumable(tail, nc) && nc != ""
    ensures var p := Parse(m, c1, c2, tail, nc); |p.opts| > 0 && p.opts[0] == tail[0] && |p.events| > 0
    decreases |nc|
  {
    var d := Decode(c1, tail, nc);
    if d.used == 0 {
      assert tail[0..] == tail;
      ResumedIsFinished(m, c2, c2, tail, d.nextchar);
    }
  }

  /** Whether appending `rest` to the finished elements of p lets an option that lacked its argument find one. */
  predicate Disturbed(p: Parsed, rest: seq<string>) {
    EndsMissing(p.events) && rest != []
  }

  /** Passing again over p's finished elements and `rest` reproduces p, unless disturbed. */
  ghost predicate Replays(c1: Config, c2: Config, p: Parsed, nc: string, rest: seq<string>) {
    && Resumable(p.opts + rest, nc)
    && Reproduces(Parse(Permute, c1, c2, p.opts + rest, nc), p, rest)
  }

  /** A missing argument can only be reported for the very last element. */
  lemma {:induction false} MissingTail(c1: Config, c2: Config, tail: seq<string>, nc: string)
    requires Resumable(tail, nc) && nc != "" && Decode(c1, tail, nc).event.complaint.MissingArgument?
    ensures |tail| == 1
    ensures Parse(Permute, c1, c2, tail, nc) == Parsed([Decode(c1, tail, nc).event], tail, [], false)
  {
    assert Decode(c1, tail, nc).used == 1;
    assert tail[1..] == [] && tail[..1] == tail;
  }

  lemma {:induction false} ReplayMissing(c1: Config, c2: Config, tail: seq<string>, nc: string, rest: seq<string>)
    requires Resumable(tail, nc) && nc != "" && Decode(c1, tail, nc).event.complaint.MissingArgument?
    ensures Replays(c1, c2, Parse(Permute, c1, c2, tail, nc), nc, rest)
  {
    MissingTail(c1, c2, tail, nc);
    var u := tail + rest;
    if rest == [] {
      assert u == tail;
    } else {
      MissingTakesNext(c1, tail, u, nc);
      assert Parse(Permute, c1, c2, u, nc).events[0] == Decode(c1, u, nc).event;
    }
  }

  /** Passing over the elements one decoded option finishes and then over t. */
  lemma {:induction false} ParseDecoded(c1: Config, c2: Config, tail: seq<string>, nc: string, t: seq<string>)
    requires Resumable(tail, nc) && nc != "" && !Decode(c1, tail, nc).event.complaint.MissingArgument?
    requires var d := Decode(c1, tail, nc);
      Resumable(t, d.nextchar) && (d.used == 0 ==> |t| > 0 && t[0] == tail[0])
    ensures var d := Decode(c1, tail, nc);
      var u, r := tail[..d.used] + t, Parse(Permute, c2, c2, t, d.nextchar);
      && Resumable(u, nc)
      && Parse(Permute, c1, c2, u, nc) == Extend(d.event, tail[..d.used], r)
  {
    var d := Decode(c1, tail, nc);
    var u := tail[..d.used] + t;
    assert u[0] == tail[0];
    DecodeLocal(c1, tail, u, nc);
    assert u[d.used..] == t && u[..d.used] == tail[..d.used];
  }

  /** One more decoded option d in front of a pass q that can be replayed. */
  lemma {:induction false} ReplayExtend(c1: Config, c2: Config, tail: seq<string>, nc: string, rest: seq<string>,
                                        d: Decoded, q: Parsed)
    requires Resumable(tail, nc) && nc != "" && d == Decode(c1, tail, nc) && !d.event.complaint.MissingArgument?
    requires q == Parse(Permute, c2, c2, tail[d.used..], d.nextchar) && Replays(c2, c2, q, d.nextchar, rest)
    ensures Replays(c1, c2, Extend(d.event, tail[..d.used], q), nc, rest)
  {
    var t, block := q.opts + rest, tail[..d.used];
    assert d.used == 0 ==> |t| > 0 && t[0] == tail[0] by {
      if d.used == 0 {
        assert tail[0..] == tail;
        ResumedIsFinished(Permute, c2, c2, tail, d.nextchar);
      }
    }
    ParseDecoded(c1, c2, tail, nc, t);
    ReplayedValues(d.event, block, q, Parse(Permute, c2, c2, t, d.nextchar), rest);
    Assoc(block, q.opts, rest);
  }

  predicate Reproduces(r: Parsed, p: Parsed, rest: seq<string>) {
    if Disturbed(p, rest) then r.events != p.events else r == p.(rest := rest)
  }

  function Extend(e: Event, block: seq<string>, p: Parsed): Parsed {
    p.(events := [e] + p.events, opts := block + p.opts)
  }

  lemma {:induction false} ReplayedValues(e: Event, block: seq<string>, q: Parsed, r: Parsed, rest: seq<string>)
    requires e.Got? && !e.complaint.MissingArgument? && Reproduces(r, q, rest)
    ensures Reproduces(Extend(e, block, r), Extend(e, block, q), rest)
  {
    ExtendMissing(e, q.events);
    Cancel([e], r.events, q.events);
  }

  lemma {:induction false} ExtendMissing(e: Event, es: seq<Event>)
    requires e.Got? && !e.complaint.MissingArgument?
    ensures EndsMissing([e] + es) == EndsMissing(es)
  {
  }

  lemma {:induction false} ReplayEmpty(c1: Config, c2: Config, rest: seq<string>)
    requires AllNonOptions(rest)
    ensures Parse(Permute, c1, c2, rest, "") == Parsed([], [], rest, false)
  {
    ParseSkips(c1, c2, rest, |rest|);
    assert rest[|rest|..] == [] && rest[..|rest|] + [] == rest;
  }

  lemma {:induction false} ReplayFresh(c1: Config, c2: Config, tail: seq<string>, rest: seq<string>)
    requires |tail| > 0 && !IsNonOption(tail[0]) && tail[0] != "--"
    requires var nc := FreshNextchar(c1, tail[0]); Replays(c1, c2, Parse(Permute, c1, c2, tail, nc), nc, rest)
    ensures Replays(c1, c2, Parse(Permute, c1, c2, tail, ""), "", rest)
  {
    var nc := FreshNextchar(c1, tail[0]);
    ResumedIsFinished(Permute, c1, c2, tail, nc);
    var u := Parse(Permute, c1, c2, tail, nc).opts + rest;
    assert u[0] == tail[0];
    assert Parse(Permute, c1, c2, u, "") == Parse(Permute, c1, c2, u, nc);
    assert Parse(Permute, c1, c2, tail, "") == Parse(Permute, c1, c2, tail, nc);
  }

  /**
   Passing again over the finished elements followed by any suitable rest gives
   the same events and the same split, exactly when no option ran out of
   elements for its argument or there is nothing to run into.
   */
  lemma {:induction false} Replay(c1: Config, c2: Config, tail: seq<string>, nc: string, rest: seq<string>)
    requires Resumable(tail, nc)
    requires Parse(Permute, c1, c2, tail, nc).ended || AllNonOptions(rest)
    ensures Replays(c1, c2, Parse(Permute, c1, c2, tail, nc), nc, rest)
    decreases |tail|, if nc == "" then 1 else 0, |nc|
  {
    if nc != "" {
      var d := Decode(c1, tail, nc);
      if d.event.complaint.MissingArgument? {
        ReplayMissing(c1, c2, tail, nc, rest);
      } else {
        Replay(c2, c2, tail[d.used..], d.nextchar, rest);
        ReplayExtend(c1, c2, tail, nc, rest, d, Parse(Permute, c2, c2, tail[d.used..], d.nextchar));
      }
    } else if tail == [] {
      assert [] + rest == rest;
      ReplayEmpty(c1, c2, rest);
    } else if tail[0] == "--" {
      assert (["--"] + rest)[1..] == rest;
    } else if !IsNonOption(tail[0]) {
      Replay(c1, c2, tail, FreshNextchar(c1, tail[0]), rest);
      ReplayFresh(c1, c2, tail, rest);
    } else {
      Replay(c1, c2, tail[1..], "", rest);
    }
  }

  /** What a caller sees of a whole scan: the events, and argv and optind at EOF. */
  function Observed(m: Ordering, c1: Config, c2: Config, argv: seq<string>): (r: (seq<Event>, seq<string>, nat))
    requires |argv| >= 1
  {
    var (es, f) := Run(c1, c2, Start(m, argv));
    (es, f.argv, f.optind)
  }

  lemma {:induction false} ObservedIs(m: Ordering, c1: Config, c2: Config, argv: seq<string>)
    requires |argv| >= 1
    ensures var p := Parse(m, c1, c2, argv[1..], "");
      Observed(m, c1, c2, argv) == (p.events, [argv[0]] + (p.opts + p.rest), 1 + |p.opts|)
  {
    StartIsParse(m, c1, c2, argv);
    var p := Parse(m, c1, c2, argv[1..], "");
    Assoc([argv[0]], p.opts, p.rest);
  }

  /**
   Scanning the sorted argv again in PERMUTE mode reports the same options,
   stops at the same place and moves nothing, if and only if the first scan did
   not end in a missing argument with non-options left over.
   */
  lemma {:induction false} RescanStable(c1: Config, c2: Config, argv: seq<string>)
    requires |argv| >= 1
    ensures var (es, sorted, optind) := Observed(Permute, c1, c2, argv);
      && |sorted| >= 1
      && (Observed(Permute, c1, c2, sorted) == (es, sorted, optind) <==> !(EndsMissing(es) && optind < |sorted|))
  {
    ObservedIs(Permute, c1, c2, argv);
    var p := Parse(Permute, c1, c2, argv[1..], "");
    var sorted := [argv[0]] + (p.opts + p.rest);
    assert sorted[1..] == p.opts + p.rest;
    ObservedIs(Permute, c1, c2, sorted);
    ParseAgain(c1, c2, argv[1..]);
    SameObserved(argv[0], p, Parse(Permute, c1, c2, p.opts + p.rest, ""));
  }

  lemma {:induction false} SameObserved(prog: string, p: Parsed, q: Parsed)
    requires if Disturbed(p, p.rest) then q.events != p.events else q == p
    ensures (q.events, [prog] + (q.opts + q.rest), 1 + |q.opts|) == (p.events, [prog] + (p.opts + p.rest), 1 + |p.opts|)
            <==> !(EndsMissing(p.events) && 1 + |p.opts| < |[prog] + (p.opts + p.rest)|)
  {
  }

  /** A second pass over its own result gives that result again, unless disturbed. */
  lemma {:induction false} ParseAgain(c1: Config, c2: Config, tail: seq<string>)
    ensures var p := Parse(Permute, c1, c2, tail, "");
      var q := Parse(Permute, c1, c2, p.opts + p.rest, "");
      if Disturbed(p, p.rest) then q.events != p.events else q == p
  {
    var p := Parse(Permute, c1, c2, tail, "");
    RestIsSuitable(c1, c2, tail);
    Replay(c1, c2, tail, "", p.rest);
  }

  lemma {:induction false} RestIsSuitable(c1: Config, c2: Config, tail: seq<string>)
    ensures var p := Parse(Permute, c1, c2, tail, ""); p.ended || AllNonOptions(p.rest)
  {
    var s, a := PermuteLeftover(c1, c2, tail, "");
    if a == [] { assert s + a == s; }
  }

  // ---------------------------------------------------------------- how the modes relate

  /**
   PERMUTE and REQUIRE_ORDER agree on everything, if and only if no option
   element follows the first non-option (or "--" comes before it).
   */
  lemma {:induction false} PermuteVersusRequireOrder(c1: Config, c2: Config, tail: seq<string>, nc: string)
    requires Resumable(tail, nc)
    ensures var q := Parse(RequireOrder, c1, c2, tail, nc);
      var p := Parse(Permute, c1, c2, tail, nc);
      (p.events == q.events && p.opts == q.opts && p.rest == q.rest) <==> q.ended || AllNonOptions(q.rest)
    decreases |tail|, if nc == "" then 1 else 0, |nc|
  {
    if nc != "" {
      var d := Decode(c1, tail, nc);
      var t := tail[d.used..];
      PermuteVersusRequireOrder(c2, c2, t, d.nextchar);
      var q, p := Parse(RequireOrder, c2, c2, t, d.nextchar), Parse(Permute, c2, c2, t, d.nextchar);
      Cancel([d.event], p.events, q.events);
      Cancel(tail[..d.used], p.opts, q.opts);
    } else if tail == [] || tail[0] == "--" {
    } else if !IsNonOption(tail[0]) {
      PermuteVersusRequireOrder(c1, c2, tail, FreshNextchar(c1, tail[0]));
    } else {
      StoppedEarly(c1, c2, tail);
    }
  }

  /** The same for whole scans, as their callers see them. */
  lemma {:induction false} ScansAgree(c1: Config, c2: Config, argv: seq<string>)
    requires |argv| >= 1
    ensures var q := Parse(RequireOrder, c1, c2, argv[1..], "");
      Observed(Permute, c1, c2, argv) == Observed(RequireOrder, c1, c2, argv) <==> q.ended || AllNonOptions(q.rest)
  {
    ObservedIs(Permute, c1, c2, argv);
    ObservedIs(RequireOrder, c1, c2, argv);
    PermuteVersusRequireOrder(c1, c2, argv[1..], "");
    var p, q := Parse(Permute, c1, c2, argv[1..], ""), Parse(RequireOrder, c1, c2, argv[1..], "");
    SameSplit(argv[0], p.opts, p.rest, q.opts, q.rest);
  }

  lemma {:induction false} SameSplit(x: string, a: seq<string>, b: seq<string>, c: seq<string>, d: seq<string>)
    ensures [x] + (a + b) == [x] + (c + d) && |a| == |c| <==> a == c && b == d
  {
    Cancel([x], a + b, c + d);
    if a + b == c + d && |a| == |c| {
      assert (a + b)[..|a|] == a && (c + d)[..|a|] == c && (a + b)[|a|..] == b && (c + d)[|a|..] == d;
    }
  }

  /** PERMUTE finds nothing more exactly when no option element is left. */
  lemma {:induction false} StoppedEarly(c1: Config, c2: Config, tail: seq<string>)
    ensures var p := Parse(Permute, c1, c2, tail, "");
      && (AllNonOptions(tail) ==> p == Parsed([], [], tail, false))
      && (!AllNonOptions(tail) ==> p.opts != [])
  {
    if tail == [] {
    } else if tail[0] == "--" {
    } else if !IsNonOption(tail[0]) {
      ResumedIsFinished(Permute, c1, c2, tail, FreshNextchar(c1, tail[0]));
    } else {
      StoppedEarly(c1, c2, tail[1..]);
      if AllNonOptions(tail[1..]) {
        assert AllNonOptions(tail);
        assert [tail[0]] + tail[1..] == tail;
      }
    }
  }

  function OptionsOnly(es: seq<Event>): seq<Event> {
    if es == [] then [] else (if es[0].Got? then [es[0]] else []) + OptionsOnly(es[1..])
  }

  function InOrderArgs(es: seq<Event>): seq<string> {
    if es == [] then [] else (if es[0].InOrder? then [es[0].arg] else []) + InOrderArgs(es[1..])
  }

  /**
   RETURN_IN_ORDER reports the options PERMUTE reports, interleaved with
   exactly the non-options PERMUTE moves to the end; what it leaves unreported
   follows them.
   */
  lemma {:induction false} InOrderVersusPermute(c: Config, tail: seq<string>, nc: string)
    requires Resumable(tail, nc)
    ensures var r := Parse(ReturnInOrder, c, c, tail, nc);
      var p := Parse(Permute, c, c, tail, nc);
      OptionsOnly(r.events) == p.events && InOrderArgs(r.events) + r.rest == p.rest
    decreases |tail|, if nc == "" then 1 else 0, |nc|
  {
    if nc != "" {
      var d := Decode(c, tail, nc);
      InOrderVersusPermute(c, tail[d.used..], d.nextchar);
      OneEvent(d.event, Parse(ReturnInOrder, c, c, tail[d.used..], d.nextchar).events);
    } else if tail == [] || tail[0] == "--" {
    } else if !IsNonOption(tail[0]) {
      InOrderVersusPermute(c, tail, FreshNextchar(c, tail[0]));
    } else {
      InOrderVersusPermute(c, tail[1..], "");
      var r := Parse(ReturnInOrder, c, c, tail[1..], "");
      OneEvent(InOrder(tail[0]), r.events);
      Assoc([tail[0]], InOrderArgs(r.events), r.rest);
    }
  }

  lemma {:induction false} OneEvent(e: Event, es: seq<Event>)
    ensures OptionsOnly([e] + es) == (if e.Got? then [e] else []) + OptionsOnly(es)
    ensures InOrderArgs([e] + es) == (if e.InOrder? then [e.arg] else []) + InOrderArgs(es)
    ensures e.InOrder? ==> OptionsOnly([e] + es) == OptionsOnly(es)
    ensures e.Got? ==> InOrderArgs([e] + es) == InOrderArgs(es)
  {
    assert ([e] + es)[1..] == es;
  }
}
