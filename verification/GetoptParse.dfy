/**
 The reference: one left-to-right pass over the ORIGINAL argument list, with no
 permutation and no state between calls; and the proof that the machine of
 `GetoptMachine`, which permutes argv while it scans, computes the same.
 */
module GetoptParse {
  import opened Basics
  import opened GetoptDecode
  import opened GetoptMachine

  /**
   `opts` are the elements finished as options, option arguments, reported
   non-options and the terminator; `rest` what is left to the caller; `ended`
   tells whether "--" stopped the pass.
   */
  datatype Parsed = Parsed(events: seq<Event>, opts: seq<string>, rest: seq<string>, ended: bool)

  /** A remainder a pass can be in the middle of. */
  ghost predicate Resumable(tail: seq<string>, nc: string) {
    nc != "" ==> |tail| > 0 && InElement(nc, tail[0])
  }

  function Parse(m: Ordering, c1: Config, c2: Config, tail: seq<string>, nc: string): (p: Parsed)
    requires Resumable(tail, nc)
    decreases |tail|, if nc == "" then 1 else 0, |nc|
  {
    if nc != "" then
      var d := Decode(c1, tail, nc);
      var p := Parse(m, c2, c2, tail[d.used..], d.nextchar);
      Parsed([d.event] + p.events, tail[..d.used] + p.opts, p.rest, p.ended)
    else if tail == [] then Parsed([], [], [], false)
    else if tail[0] == "--" then Parsed([], ["--"], tail[1..], true)
    else if !IsNonOption(tail[0]) then Parse(m, c1, c2, tail, FreshNextchar(c1, tail[0]))
    else
      match m
      case RequireOrder => Parsed([], [], tail, false)
      case Permute =>
        var p := Parse(m, c1, c2, tail[1..], "");
        p.(rest := [tail[0]] + p.rest)
      case ReturnInOrder =>
        var p := Parse(m, c2, c2, tail[1..], "");
        p.(events := [InOrder(tail[0])] + p.events, opts := [tail[0]] + p.opts)
  }

  // ---------------------------------------------------------------- machine = reference

  /** The elements finished so far, in scanning order, after the program name. */
  function Finished(s: State): (r: seq<string>)
    requires s.first <= s.last <= s.optind <= |s.argv|
  {
    s.argv[..s.first] + s.argv[s.last..s.optind]
  }

  function Skipped(s: State): seq<string>
    requires s.first <= s.last <= |s.argv|
  {
    s.argv[s.first..s.last]
  }

  function Tail(s: State): seq<string>
    requires s.optind <= |s.argv|
  {
    s.argv[s.optind..]
  }

  ghost predicate Ordered(s: State) {
    s.first <= s.last <= s.optind <= |s.argv|
  }

  /** A state and the parse of its unscanned tail predict the same sorting of argv as another such pair. */
  ghost predicate SameSorting(s: State, p: Parsed, n: State, q: Parsed)
    requires Ordered(s) && Ordered(n)
  {
    && Finished(s) + p.opts == Finished(n) + q.opts
    && Skipped(s) + p.rest == Skipped(n) + q.rest
  }

  /** The state EOF leaves: finished elements, then the remaining ones, with optind on the boundary. */
  ghost predicate Predicted(s: State, p: Parsed, f: State)
    requires Ordered(s)
  {
    && f.argv == (Finished(s) + p.opts) + (Skipped(s) + p.rest)
    && f.optind == |Finished(s) + p.opts|
  }

  lemma {:induction false} ExchangeView(s: State)
    requires Ordered(s)
    ensures var x := Exchange(s);
      && Ordered(x) && x.last == x.optind && |x.argv| == |s.argv|
      && Finished(x) == Finished(s) && Skipped(x) == Skipped(s) && Tail(x) == Tail(s)
  {
  }

  /** Extending the skipped block over the next elements. */
  lemma {:induction false} SkipView(x: State, k: nat)
    requires Ordered(x) && x.last == x.optind <= k <= |x.argv|
    ensures var g := x.(optind := k, last := k);
      && Finished(g) == Finished(x)
      && Skipped(g) == Skipped(x) + Tail(x)[..k - x.optind]
      && Tail(g) == Tail(x)[k - x.optind..]
  {
  }

  lemma {:induction false} RegroupView(s: State) returns (x: State)
    requires Ordered(s)
    ensures Ordered(x) && x.last == x.optind == s.optind && |x.argv| == |s.argv|
    ensures Finished(x) == Finished(s) && Skipped(x) == Skipped(s) && Tail(x) == Tail(s)
    ensures x == Regroup(s).(last := s.optind)
  {
    if s.first != s.last && s.last != s.optind {
      x := Exchange(s);
      ExchangeView(s);
    } else if s.last != s.optind {
      x := s.(first := s.optind, last := s.optind);
      assert Finished(x) == Finished(s) && Skipped(x) == Skipped(s);
    } else {
      x := s;
    }
  }

  /** Gathering keeps the finished elements and moves the next non-options to the skipped ones. */
  lemma {:induction false} GatherView(s: State) returns (k: nat)
    requires Ordered(s)
    ensures var g := Gather(s);
      && Ordered(g) && g.last == g.optind == s.optind + k <= |g.argv| && |g.argv| == |s.argv|
      && Finished(g) == Finished(s)
      && Skipped(g) == Skipped(s) + Tail(s)[..k]
      && Tail(g) == Tail(s)[k..]
      && (forall j | 0 <= j < k :: IsNonOption(Tail(s)[j]))
      && (g.optind < |g.argv| ==> !IsNonOption(g.argv[g.optind]))
  {
    var x := RegroupView(s);
    var i := SkipNonOptions(x.argv, x.optind);
    SkipView(x, i);
    k := i - s.optind;
    AheadNonOptions(x, k);
    assert Gather(s) == x.(optind := i, last := i);
  }

  lemma {:induction false} AheadNonOptions(x: State, k: nat)
    requires x.optind + k <= |x.argv| && forall j | x.optind <= j < x.optind + k :: IsNonOption(x.argv[j])
    ensures forall j | 0 <= j < k :: IsNonOption(Tail(x)[j])
  {
    forall j | 0 <= j < k ensures IsNonOption(Tail(x)[j]) {
      assert Tail(x)[j] == x.argv[x.optind + j];
    }
  }

  /** "--" joins the finished elements, and everything after it the skipped ones. */
  lemma {:induction false} TerminateView(s: State)
    requires Ordered(s) && s.optind < |s.argv|
    requires s.first == s.last || s.last == s.optind
    ensures var t := Terminate(s);
      && Ordered(t) && t.last == t.optind == |t.argv| && |t.argv| == |s.argv|
      && t.argv == (Finished(s) + [s.argv[s.optind]]) + (Skipped(s) + Tail(s)[1..])
      && t.first == |Finished(s)| + 1
  {
    var b := s.(optind := s.optind + 1);
    if b.first != b.last {
      ExchangeView(b);
      var x := Exchange(b);
      assert x.argv == Finished(x) + (Skipped(x) + Tail(x));
      assert Finished(b) == Finished(s) + [s.argv[s.optind]];
    } else {
      assert s.argv == (Finished(s) + [s.argv[s.optind]]) + (Skipped(s) + Tail(s)[1..]);
    }
  }

  /** The pass walks over a block of non-options, setting them aside. */
  lemma {:induction false} ParseSkips(c1: Config, c2: Config, tail: seq<string>, k: nat)
    requires k <= |tail| && forall j | 0 <= j < k :: IsNonOption(tail[j])
    ensures var p := Parse(Permute, c1, c2, tail[k..], "");
      Parse(Permute, c1, c2, tail, "") == p.(rest := tail[..k] + p.rest)
  {
    if k == 0 {
      assert tail[0..] == tail;
      assert tail[..0] + Parse(Permute, c1, c2, tail, "").rest == Parse(Permute, c1, c2, tail, "").rest;
    } else {
      ParseSkips(c1, c2, tail[1..], k - 1);
      DropDrop(tail, 1, k - 1);
      SetAside(tail, k, Parse(Permute, c1, c2, tail[k..], "").rest);
    }
  }

  lemma {:induction false} SetAside(tail: seq<string>, k: nat, rest: seq<string>)
    requires 0 < k <= |tail|
    ensures [tail[0]] + (tail[1..][..k - 1] + rest) == tail[..k] + rest
  {
    assert tail[..k] == [tail[0]] + tail[1..][..k - 1];
    Assoc([tail[0]], tail[1..][..k - 1], rest);
  }

  /** What one call must do for the machine to stay in step with the pass. */
  ghost predicate InStep(c1: Config, c2: Config, s: State, n: State, o: Outcome)
    requires Ready(s)
  {
    var p := Parse(s.ordering, c1, c2, Tail(s), s.nextchar);
    match o
    case End => p.events == [] && Predicted(s, p, n)
    case Report(e) =>
      && Ready(n) && n.ordering == s.ordering
      && var q := Parse(s.ordering, c2, c2, Tail(n), n.nextchar);
         p.events == [e] + q.events && SameSorting(s, p, n, q)
  }

  /** Decoding one option advances the machine and the pass alike. */
  lemma {:induction false} TakeInStep(c1: Config, c2: Config, s: State, nc: string)
    requires Ready(s.(nextchar := "")) && s.optind < |s.argv| && nc != "" && InElement(nc, s.argv[s.optind])
    ensures var (n, o) := Take(c1, s, nc);
      InStep(c1, c2, s.(nextchar := nc), n, o)
  {
    TakeReady(c1, s, nc);
    var n := Take(c1, s, nc).0;
    var d := Decode(c1, Tail(s), nc);
    AdvanceView(s, d.used, n);
    Assoc(Finished(s), Tail(s)[..d.used], Parse(s.ordering, c2, c2, Tail(n), n.nextchar).opts);
  }

  /** Passing over k elements finishes them. */
  lemma {:induction false} AdvanceView(s: State, k: nat, n: State)
    requires Ordered(s) && s.optind + k <= |s.argv| && n == s.(optind := s.optind + k, nextchar := n.nextchar)
    ensures Finished(n) == Finished(s) + Tail(s)[..k] && Skipped(n) == Skipped(s) && Tail(n) == Tail(s)[k..]
  {
    assert s.argv[s.last..s.optind + k] == s.argv[s.last..s.optind] + s.argv[s.optind..][..k];
    Assoc(s.argv[..s.first], s.argv[s.last..s.optind], Tail(s)[..k]);
    DropDrop(s.argv, s.optind, k);
  }

  /** The same for a fresh option element. */
  lemma {:induction false} FreshInStep(c1: Config, c2: Config, s: State)
    requires Ready(s) && s.nextchar == "" && s.optind < |s.argv|
    requires !IsNonOption(s.argv[s.optind]) && s.argv[s.optind] != "--"
    ensures var (n, o) := Continue(c1, s); InStep(c1, c2, s, n, o)
  {
    var nc := FreshNextchar(c1, s.argv[s.optind]);
    TakeInStep(c1, c2, s, nc);
    assert Tail(s)[0] == s.argv[s.optind];
    assert Parse(s.ordering, c1, c2, Tail(s), "") == Parse(s.ordering, c1, c2, Tail(s), nc);
    assert Continue(c1, s) == Take(c1, s, nc);
  }

  /** A terminator found at s ends the scan as the pass predicts. */
  lemma {:induction false} TerminateInStep(c1: Config, c2: Config, s: State)
    requires Ready(s) && s.nextchar == "" && s.optind < |s.argv| && s.argv[s.optind] == "--"
    requires s.first == s.last || s.last == s.optind
    ensures var (n, o) := Continue(c1, Terminate(s)); InStep(c1, c2, s, n, o)
  {
    TerminateView(s);
    var t := Terminate(s);
    assert Tail(s)[0] == "--";
    var p := Parse(s.ordering, c1, c2, Tail(s), "");
    assert p == Parsed([], ["--"], Tail(s)[1..], true);
    var (n, o) := Continue(c1, t);
    assert o == End && n.argv == t.argv;
    assert n.optind == t.first;
  }

  /** A call made from a state that differs only by skipped non-options is in step for the original state. */
  lemma {:induction false} GatherInStep(c1: Config, c2: Config, s: State, g: State, k: nat, n: State, o: Outcome)
    requires Ready(s) && s.nextchar == "" && s.ordering == Permute
    requires Ready(g) && g.nextchar == "" && g.ordering == Permute
    requires k <= |Tail(s)| && forall j | 0 <= j < k :: IsNonOption(Tail(s)[j])
    requires Finished(g) == Finished(s) && Skipped(g) == Skipped(s) + Tail(s)[..k] && Tail(g) == Tail(s)[k..]
    requires InStep(c1, c2, g, n, o)
    ensures InStep(c1, c2, s, n, o)
  {
    ParseSkips(c1, c2, Tail(s), k);
    Assoc(Skipped(s), Tail(s)[..k], Parse(Permute, c1, c2, Tail(g), "").rest);
  }

  lemma {:induction false} PermuteInStep(c1: Config, c2: Config, s: State)
    requires Ready(s) && s.nextchar == "" && s.ordering == Permute
    ensures var (n, o) := Next(c1, s); InStep(c1, c2, s, n, o)
  {
    var k := GatherView(s);
    var g := Gather(s);
    assert Ready(g) && g.nextchar == "" && g.ordering == Permute;
    PositionBounds(s);
    GatheredInStep(c1, c2, s, g);
    var (n, o) := Next(c1, s);
    GatherInStep(c1, c2, s, g, k, n, o);
  }

  /** The call seen from the state after gathering. */
  lemma {:induction false} GatheredInStep(c1: Config, c2: Config, s: State, g: State)
    requires Ready(s) && s.nextchar == "" && s.ordering == Permute && g == Gather(s)
    requires Ready(g) && g.nextchar == "" && g.ordering == Permute && g.last == g.optind
    requires g.optind < |g.argv| ==> !IsNonOption(g.argv[g.optind])
    ensures var (n, o) := Next(c1, s); InStep(c1, c2, g, n, o)
  {
    NextPermuting(c1, s, g);
    if g.optind == |g.argv| {
      EndInStep(c1, c2, g);
    } else if g.argv[g.optind] == "--" {
      TerminateInStep(c1, c2, g);
    } else {
      FreshInStep(c1, c2, g);
    }
  }

  lemma {:induction false} NextPermuting(c1: Config, s: State, g: State)
    requires Ready(s) && s.nextchar == "" && s.ordering == Permute && g == Gather(s) && Ready(g)
    requires g.last == g.optind && g.nextchar == ""
    ensures var p := if g.optind < |g.argv| && g.argv[g.optind] == "--" then Terminate(g) else g;
      p.optind <= |p.argv| && (p.optind < |p.argv| ==> p.argv[p.optind] != "--") && Next(c1, s) == Continue(c1, p)
  {
    PositionBounds(s);
  }

  lemma {:induction false} EndInStep(c1: Config, c2: Config, g: State)
    requires Ready(g) && g.nextchar == "" && g.last == g.optind == |g.argv|
    ensures var (n, o) := Continue(c1, g); InStep(c1, c2, g, n, o)
  {
    assert g.argv == Finished(g) + Skipped(g);
  }

  /** RETURN_IN_ORDER reports the non-option and passes it by. */
  lemma {:induction false} InOrderInStep(c1: Config, c2: Config, s: State)
    requires Ready(s) && s.nextchar == "" && s.ordering == ReturnInOrder
    requires s.optind < |s.argv| && IsNonOption(s.argv[s.optind])
    ensures var (n, o) := Continue(c1, s); InStep(c1, c2, s, n, o)
  {
    var n := s.(optind := s.optind + 1);
    var e := s.argv[s.optind];
    assert Tail(s)[0] == e && Tail(s)[..1] == [e];
    AdvanceView(s, 1, n);
    Assoc(Finished(s), [e], Parse(ReturnInOrder, c2, c2, Tail(n), "").opts);
  }

  /** In the other modes nothing is ever skipped, so elements stay where they are. */
  lemma {:induction false} InPlaceInStep(c1: Config, c2: Config, s: State)
    requires Ready(s) && s.nextchar == "" && s.ordering != Permute
    ensures var (n, o) := Next(c1, s); InStep(c1, c2, s, n, o)
  {
    PositionBounds(s);
    var (n, o) := Next(c1, s);
    if s.optind < |s.argv| && s.argv[s.optind] == "--" {
      assert (n, o) == Continue(c1, Terminate(s));
      TerminateInStep(c1, c2, s);
    } else {
      assert (n, o) == Continue(c1, s);
      ContinueInStep(c1, c2, s);
    }
  }

  lemma {:induction false} ContinueInStep(c1: Config, c2: Config, s: State)
    requires Ready(s) && s.nextchar == "" && s.ordering != Permute
    requires s.optind < |s.argv| ==> s.argv[s.optind] != "--"
    ensures var (n, o) := Continue(c1, s); InStep(c1, c2, s, n, o)
  {
    if s.optind < |s.argv| {
      if !IsNonOption(s.argv[s.optind]) {
        FreshInStep(c1, c2, s);
        return;
      } else if s.ordering == ReturnInOrder {
        InOrderInStep(c1, c2, s);
        return;
      }
      assert Tail(s)[0] == s.argv[s.optind];
    }
    assert s.argv == Finished(s) + Tail(s) && Skipped(s) == [];
  }

  lemma {:induction false} NextInStep(c1: Config, c2: Config, s: State)
    requires Ready(s)
    ensures var (n, o) := Next(c1, s); InStep(c1, c2, s, n, o)
  {
    if s.nextchar != "" {
      TakeInStep(c1, c2, s, s.nextchar);
      assert s.(nextchar := s.nextchar) == s;
    } else if s.ordering == Permute {
      PermuteInStep(c1, c2, s);
    } else {
      InPlaceInStep(c1, c2, s);
    }
  }

  /**
   For every state a scan can be in, the calls still to come report exactly
   what a pass over the unscanned tail reports, and EOF leaves argv sorted into
   finished and remaining elements with optind on the boundary.
   */
  lemma {:induction false} RunIsParse(c1: Config, c2: Config, s: State)
    requires Ready(s)
    ensures var (es, f) := Run(c1, c2, s);
      var p := Parse(s.ordering, c1, c2, Tail(s), s.nextchar);
      es == p.events && Predicted(s, p, f)
    decreases Measure(s)
  {
    NextReady(c1, s);
    NextInStep(c1, c2, s);
    var (n, o) := Next(c1, s);
    if o.Report? { RunIsParse(c2, c2, n); }
  }

  lemma {:induction false} StartIsParse(m: Ordering, c1: Config, c2: Config, argv: seq<string>)
    requires |argv| >= 1
    ensures var (es, f) := Run(c1, c2, Start(m, argv));
      var p := Parse(m, c1, c2, argv[1..], "");
      && es == p.events
      && f.argv == [argv[0]] + p.opts + p.rest
      && f.optind == 1 + |p.opts|
  {
    StartView(m, argv);
    RunIsParse(c1, c2, Start(m, argv));
    var rest := Parse(m, c1, c2, argv[1..], "").rest;
    assert [] + rest == rest;
  }

  lemma {:induction false} StartView(m: Ordering, argv: seq<string>)
    requires |argv| >= 1
    ensures var s := Start(m, argv);
      Ready(s) && Finished(s) == [argv[0]] && Skipped(s) == [] && Tail(s) == argv[1..]
  {
  }

  function FirstConfig(cfg: Config): Config {
    cfg.(optstring := Stripped(cfg.optstring))
  }

  /** The whole scan of an argument vector, from optind == 0 to EOF. */
  lemma {:induction false} ScanIsParse(cfg: Config, posixlyCorrect: bool, argv: seq<string>)
    requires |argv| >= 1
    ensures var (es, f) := Scan(cfg, posixlyCorrect, argv);
      var p := Parse(OrderingOf(cfg.optstring, posixlyCorrect), FirstConfig(cfg), cfg, argv[1..], "");
      && es == p.events
      && f.argv == [argv[0]] + p.opts + p.rest
      && f.optind == 1 + |p.opts|
  {
    StartIsParse(OrderingOf(cfg.optstring, posixlyCorrect), FirstConfig(cfg), cfg, argv);
  }
}
