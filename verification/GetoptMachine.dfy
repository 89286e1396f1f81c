/**
 getopt as a machine whose state survives between calls: `Next` is one call,
 `Run` the calls up to and including the first that answers EOF.
 */
module GetoptMachine {
  import opened Basics
  import opened GetoptDecode

  datatype Ordering = RequireOrder | Permute | ReturnInOrder

  /** argv and the static variables.  An empty `nextchar` also stands for a null one. */
  datatype State = State(argv: seq<string>, optind: nat, nextchar: string,
                         first: nat, last: nat, ordering: Ordering)

  datatype Outcome = End | Report(event: Event)

  /** What holds between calls, from the first one to the last before EOF. */
  ghost predicate Ready(s: State) {
    && 1 <= s.first <= s.last <= s.optind <= |s.argv|
    && (s.ordering != Permute ==> s.first == s.last)
    && (s.nextchar != "" ==> s.optind < |s.argv| && InElement(s.nextchar, s.argv[s.optind]))
  }

  /** nc is a proper suffix of the option element e. */
  ghost predicate InElement(nc: string, e: string) {
    !IsNonOption(e) && e != "--" && |nc| < |e| && nc == e[|e| - |nc|..]
  }

  // ---------------------------------------------------------------- permuting

  /** The block [first,last) moved behind the block [last,top). */
  function Rotate(argv: seq<string>, first: nat, last: nat, top: nat): (r: seq<string>)
    requires first <= last <= top <= |argv|
    ensures |r| == |argv|
  {
    argv[..first] + argv[last..top] + argv[first..last] + argv[top..]
  }

  function Exchange(s: State): (r: State)
    requires s.first <= s.last <= s.optind <= |s.argv|
  {
    s.(argv := Rotate(s.argv, s.first, s.last, s.optind),
       first := s.first + (s.optind - s.last),
       last := s.optind)
  }

  /** The first index from i on that holds an option element, or |argv|. */
  function SkipNonOptions(argv: seq<string>, i: nat): (k: nat)
    requires i <= |argv|
    ensures i <= k <= |argv|
    ensures forall j | i <= j < k :: IsNonOption(argv[j])
    ensures k < |argv| ==> !IsNonOption(argv[k])
    decreases |argv| - i
  {
    if i == |argv| || !IsNonOption(argv[i]) then i else SkipNonOptions(argv, i + 1)
  }

  /** PERMUTE only: move finished options before the skipped non-options. */
  function Regroup(s: State): State
    requires s.first <= s.last <= s.optind <= |s.argv|
  {
    if s.first != s.last && s.last != s.optind then Exchange(s)
    else if s.last != s.optind then s.(first := s.optind)
    else s
  }

  /** PERMUTE only: regroup, then skip further non-options. */
  function Gather(s: State): (r: State)
    requires s.first <= s.last <= s.optind <= |s.argv|
  {
    var x := Regroup(s);
    var k := SkipNonOptions(x.argv, x.optind);
    x.(optind := k, last := k)
  }

  /** The special element "--" ends the options. */
  function Terminate(s: State): (r: State)
    requires s.first <= s.last <= s.optind < |s.argv|
  {
    var b := s.(optind := s.optind + 1);
    var x :=
      if b.first != b.last && b.last != b.optind then Exchange(b)
      else if b.first == b.last then b.(first := b.optind)
      else b;
    x.(last := |s.argv|, optind := |s.argv|)
  }

  /** Advance to the next element to decode; optind == |argv| afterwards means there is none. */
  function Position(s: State): (r: State)
    requires s.first <= s.last <= s.optind <= |s.argv|
  {
    var g := if s.ordering == Permute then Gather(s) else s;
    if g.optind < |g.argv| && g.argv[g.optind] == "--" then Terminate(g) else g
  }

  function Take(cfg: Config, s: State, nc: string): (r: (State, Outcome))
    requires s.optind < |s.argv| && nc != "" && !IsNonOption(s.argv[s.optind])
  {
    var d := Decode(cfg, s.argv[s.optind..], nc);
    (s.(optind := s.optind + d.used, nextchar := d.nextchar), Report(d.event))
  }

  /** The rest of a call that starts with no option half decoded. */
  function Continue(cfg: Config, p: State): (r: (State, Outcome))
    requires p.optind < |p.argv| ==> p.argv[p.optind] != "--"
    requires p.optind <= |p.argv|
  {
    if p.optind == |p.argv| then
      (p.(optind := if p.first != p.last then p.first else p.optind), End)
    else if IsNonOption(p.argv[p.optind]) then
      if p.ordering == RequireOrder then (p, End)
      else (p.(optind := p.optind + 1), Report(InOrder(p.argv[p.optind])))
    else Take(cfg, p, FreshNextchar(cfg, p.argv[p.optind]))
  }

  /** One call after initialisation. */
  function Next(cfg: Config, s: State): (r: (State, Outcome))
    requires Ready(s)
  {
    if s.nextchar != "" then Take(cfg, s, s.nextchar)
    else
      PositionBounds(s);
      Continue(cfg, Position(s))
  }

  /** Exchanging leaves the elements from optind on alone. */
  lemma {:induction false} RegroupBounds(s: State)
    requires Ready(s)
    ensures var x := Regroup(s);
      && |x.argv| == |s.argv| && 1 <= x.first <= x.optind == s.optind
      && x.argv[s.optind..] == s.argv[s.optind..]
      && x.nextchar == s.nextchar && x.ordering == s.ordering
  {
  }

  lemma {:induction false} GatherBounds(s: State)
    requires Ready(s) && s.nextchar == ""
    ensures var g := Gather(s);
      && |g.argv| == |s.argv| && 1 <= g.first <= g.last == g.optind <= |g.argv| && s.optind <= g.optind
      && g.argv[g.optind..] == s.argv[g.optind..]
      && (g.optind < |g.argv| ==> !IsNonOption(g.argv[g.optind]))
      && g.nextchar == "" && g.ordering == s.ordering
  {
    RegroupBounds(s);
    var x, k := Regroup(s), Gather(s).optind;
    assert x.argv[k..] == x.argv[s.optind..][k - s.optind..];
    assert s.argv[k..] == s.argv[s.optind..][k - s.optind..];
  }

  lemma {:induction false} PositionBounds(s: State)
    requires Ready(s) && s.nextchar == ""
    ensures var p := Position(s);
      && p.optind <= |p.argv| && |p.argv| == |s.argv|
      && (p.optind < |p.argv| ==>
            && Ready(p) && p.nextchar == ""
            && s.optind <= p.optind
            && p.argv[p.optind..] == s.argv[p.optind..]
            && p.argv[p.optind] != "--")
  {
    if s.ordering == Permute { GatherBounds(s); }
  }

  // ---------------------------------------------------------------- progress

  /** Unscanned text: one per element and one per character. */
  function Weight(t: seq<string>): nat {
    if t == [] then 0 else |t[0]| + 1 + Weight(t[1..])
  }

  function Measure(s: State): nat
    requires s.optind <= |s.argv|
    requires s.nextchar != "" ==> s.optind < |s.argv|
  {
    if s.nextchar != "" then |s.nextchar| + Weight(s.argv[s.optind + 1..])
    else Weight(s.argv[s.optind..])
  }

  lemma {:induction false} WeightDrop(t: seq<string>, k: nat)
    requires k <= |t|
    ensures Weight(t[k..]) <= Weight(t)
  {
    if k == 0 {
      assert t[0..] == t;
    } else {
      WeightDrop(t[1..], k - 1);
      assert t[k..] == t[1..][k - 1..];
    }
  }

  lemma {:induction false} TakeReady(cfg: Config, s: State, nc: string)
    requires Ready(s.(nextchar := "")) && s.optind < |s.argv| && nc != "" && InElement(nc, s.argv[s.optind])
    ensures var r := Take(cfg, s, nc).0;
      && Ready(r) && Measure(r) < |nc| + Weight(s.argv[s.optind + 1..])
  {
    var used, next := TakeShape(cfg, s, nc);
    ReadyAfter(s, used, next, nc);
    MeasureAfter(s, used, next, nc);
  }

  lemma {:induction false} TakeShape(cfg: Config, s: State, nc: string) returns (used: nat, next: string)
    requires s.optind < |s.argv| && nc != "" && !IsNonOption(s.argv[s.optind])
    ensures s.optind + used <= |s.argv| && if used == 0 then next == nc[1..] && next != "" else next == ""
    ensures Take(cfg, s, nc).0 == s.(optind := s.optind + used, nextchar := next)
  {
    var d := Decode(cfg, s.argv[s.optind..], nc);
    used, next := d.used, d.nextchar;
  }

  lemma {:induction false} ReadyAfter(s: State, used: nat, next: string, nc: string)
    requires Ready(s.(nextchar := "")) && s.optind < |s.argv| && nc != "" && InElement(nc, s.argv[s.optind])
    requires s.optind + used <= |s.argv|
    requires if used == 0 then next == nc[1..] && next != "" else next == ""
    ensures Ready(s.(optind := s.optind + used, nextchar := next))
  {
    if used == 0 { SuffixShrinks(nc, s.argv[s.optind]); }
  }

  lemma {:induction false} MeasureAfter(s: State, used: nat, next: string, nc: string)
    requires s.optind + used <= |s.argv| && s.optind < |s.argv| && nc != ""
    requires if used == 0 then next == nc[1..] && next != "" else next == ""
    ensures Measure(s.(optind := s.optind + used, nextchar := next)) < |nc| + Weight(s.argv[s.optind + 1..])
  {
    if used > 0 { WeightFrom(s.argv, s.optind + 1, s.optind + used); }
  }

  lemma {:induction false} WeightFrom(argv: seq<string>, i: nat, j: nat)
    requires i <= j <= |argv|
    ensures Weight(argv[j..]) <= Weight(argv[i..])
  {
    DropDrop(argv, i, j - i);
    WeightDrop(argv[i..], j - i);
  }

  lemma {:induction false} SuffixShrinks(nc: string, e: string)
    requires InElement(nc, e) && nc != ""
    ensures InElement(nc[1..], e)
  {
  }

  lemma {:induction false} WeightAhead(a: seq<string>, i: nat, j: nat)
    requires i <= j < |a|
    ensures |a[j]| + 1 + Weight(a[j + 1..]) <= Weight(a[i..])
  {
    WeightDrop(a[i..], j - i);
    assert a[i..][j - i..] == a[j..] && a[j..][1..] == a[j + 1..];
  }

  lemma {:induction false} SameTail(a: seq<string>, b: seq<string>, j: nat)
    requires j < |a| == |b| && a[j..] == b[j..]
    ensures a[j] == b[j] && a[j + 1..] == b[j + 1..]
  {
    assert a[j] == a[j..][0] && b[j] == b[j..][0];
    assert a[j + 1..] == a[j..][1..] && b[j + 1..] == b[j..][1..];
  }

  /** p is where a call made from s finds the next element to look at. */
  ghost predicate Placed(s: State, p: State) {
    && Ready(p) && p.nextchar == "" && p.optind < |p.argv| && p.argv[p.optind] != "--"
    && s.optind <= |s.argv| && s.nextchar == ""
    && |p.argv[p.optind]| + 1 + Weight(p.argv[p.optind + 1..]) <= Measure(s)
  }

  lemma {:induction false} PositionPlaced(s: State)
    requires Ready(s) && s.nextchar == ""
    ensures Position(s).optind < |Position(s).argv| ==> Placed(s, Position(s))
  {
    PositionBounds(s);
    if Position(s).optind < |Position(s).argv| { PlacedFrom(s, Position(s)); }
  }

  lemma {:induction false} PlacedFrom(s: State, p: State)
    requires Ready(s) && s.nextchar == "" && Ready(p) && p.nextchar == ""
    requires s.optind <= p.optind < |p.argv| == |s.argv| && p.argv[p.optind..] == s.argv[p.optind..]
    requires p.argv[p.optind] != "--"
    ensures Placed(s, p)
  {
    WeightAhead(s.argv, s.optind, p.optind);
    SameTail(s.argv, p.argv, p.optind);
  }

  /** A call that reports something keeps the invariant and leaves less text. */
  ghost predicate Progress(s: State, r: (State, Outcome))
    requires Ready(s)
  {
    r.1.Report? ==> Ready(r.0) && Measure(r.0) < Measure(s)
  }

  lemma {:induction false} ContinueProgress(cfg: Config, s: State, p: State)
    requires Ready(s) && s.nextchar == "" && Placed(s, p)
    ensures Progress(s, Continue(cfg, p))
  {
    var e := p.argv[p.optind];
    if !IsNonOption(e) {
      TakeReady(cfg, p, FreshNextchar(cfg, e));
    }
  }

  /** A call that reports something keeps the invariant and uses up unscanned text. */
  lemma {:induction false} NextReady(cfg: Config, s: State)
    requires Ready(s)
    ensures Progress(s, Next(cfg, s))
  {
    if s.nextchar != "" {
      TakeReady(cfg, s, s.nextchar);
    } else {
      PositionBounds(s);
      PositionPlaced(s);
      if Position(s).optind < |Position(s).argv| {
        ContinueProgress(cfg, s, Position(s));
      }
    }
  }

  /**
   The calls up to EOF: the events reported and the state EOF leaves behind.
   The first call is given `c1` and all later ones `c2`: they differ because a
   leading '-' or '+' of optstring is skipped on the first call only.
   */
  function Run(c1: Config, c2: Config, s: State): (r: (seq<Event>, State))
    requires Ready(s)
    decreases Measure(s)
  {
    NextReady(c1, s);
    var (n, o) := Next(c1, s);
    match o
    case End => ([], n)
    case Report(e) =>
      var (es, f) := Run(c2, c2, n);
      ([e] + es, f)
  }

  /** A run is its first call and the run from the state that call leaves. */
  lemma {:induction false} RunStep(c1: Config, c2: Config, s: State)
    requires Ready(s)
    ensures var (n, o) := Next(c1, s);
      match o
      case End => Run(c1, c2, s) == ([], n)
      case Report(e) =>
        && Ready(n) && Measure(n) < Measure(s)
        && Run(c1, c2, s) == ([e] + Run(c2, c2, n).0, Run(c2, c2, n).1)
  {
    NextReady(c1, s);
  }

  /** EOF comes after at most as many reports as there is unscanned text. */
  lemma {:induction false} RunBound(c1: Config, c2: Config, s: State)
    requires Ready(s)
    ensures |Run(c1, c2, s).0| <= Measure(s)
    decreases Measure(s)
  {
    NextReady(c1, s);
    var (n, o) := Next(c1, s);
    if o.Report? { RunBound(c2, c2, n); }
  }

  // ---------------------------------------------------------------- initialisation

  function OrderingOf(optstring: string, posixlyCorrect: bool): Ordering {
    if At(optstring, 0, '-') then ReturnInOrder
    else if At(optstring, 0, '+') || posixlyCorrect then RequireOrder
    else Permute
  }

  /** The optstring the first call works with. */
  function Stripped(optstring: string): string {
    if At(optstring, 0, '-') || At(optstring, 0, '+') then optstring[1..] else optstring
  }

  function Start(ordering: Ordering, argv: seq<string>): State {
    State(argv, 1, "", 1, 1, ordering)
  }

  /** A whole scan of argv from optind == 0. */
  function Scan(cfg: Config, posixlyCorrect: bool, argv: seq<string>): (r: (seq<Event>, State))
    requires |argv| >= 1
  {
    Run(cfg.(optstring := Stripped(cfg.optstring)), cfg,
        Start(OrderingOf(cfg.optstring, posixlyCorrect), argv))
  }
}
