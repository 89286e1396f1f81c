/** getopt in its own form: static variables that survive between calls, and argv permuted in place. */
module GetoptScanner {
  import opened Basics
  import opened GetoptDecode
  import opened GetoptMachine
  import opened GetoptParse

  /** Where the element at k comes from when the blocks of length n at lo and at hi are traded. */
  function TradeSource(lo: nat, hi: nat, n: nat, k: nat): (j: nat)
    requires lo + n <= hi
    ensures k < hi + n ==> j < hi + n
    ensures k >= hi + n ==> j == k
  {
    if lo <= k < lo + n then k - lo + hi else if hi <= k < hi + n then k - hi + lo else k
  }

  function Trade(a: seq<string>, lo: nat, hi: nat, n: nat): (b: seq<string>)
    requires lo + n <= hi && hi + n <= |a|
    ensures |b| == |a|
  {
    seq(|a|, k requires 0 <= k < |a| => a[TradeSource(lo, hi, n, k)])
  }

  /** Where the element at k comes from when the block [bottom,middle) is moved behind [middle,top). */
  function RotateSource(bottom: nat, middle: nat, top: nat, k: nat): (j: nat)
    requires bottom <= middle <= top
    ensures k < top ==> j < top
    ensures k >= top ==> j == k
  {
    if bottom <= k < bottom + (top - middle) then k + (middle - bottom)
    else if bottom + (top - middle) <= k < top then k - (top - middle)
    else k
  }

  ghost predicate RotatesTo(a: seq<string>, bottom: nat, middle: nat, top: nat, goal: seq<string>)
    requires bottom <= middle <= top <= |a|
  {
    |goal| == |a| && forall k: nat | k < |a| :: goal[k] == a[RotateSource(bottom, middle, top, k)]
  }

  lemma {:induction false} RotatesToRotate(a: seq<string>, bottom: nat, middle: nat, top: nat)
    requires bottom <= middle <= top <= |a|
    ensures RotatesTo(a, bottom, middle, top, Rotate(a, bottom, middle, top))
  {
  }

  lemma {:induction false} RotatesToUnique(a: seq<string>, bottom: nat, middle: nat, top: nat, goal: seq<string>)
    requires bottom <= middle <= top <= |a| && RotatesTo(a, bottom, middle, top, goal)
    ensures Rotate(a, bottom, middle, top) == goal
  {
    RotatesToRotate(a, bottom, middle, top);
    var r := Rotate(a, bottom, middle, top);
    forall k: nat | k < |a| ensures r[k] == goal[k] {
      assert r[k] == a[RotateSource(bottom, middle, top, k)];
    }
  }

  /** Trading the short lower block with the top of the upper one leaves a smaller rotation to do. */
  lemma {:induction false} LowShortSource(bottom: nat, middle: nat, top: nat, k: nat)
    requires bottom <= middle <= top && middle - bottom <= top - middle
    ensures var len := middle - bottom;
      TradeSource(bottom, top - len, len, RotateSource(bottom, middle, top - len, k))
          == RotateSource(bottom, middle, top, k)
  {
  }

  lemma {:induction false} RotateLowShort(a: seq<string>, bottom: nat, middle: nat, top: nat, len: nat)
    requires bottom <= middle <= top <= |a| && len == middle - bottom <= top - middle
    ensures RotatesTo(Trade(a, bottom, top - len, len), bottom, middle, top - len, Rotate(a, bottom, middle, top))
  {
    RotatesToRotate(a, bottom, middle, top);
    LowShortRotates(a, bottom, middle, top, len, Rotate(a, bottom, middle, top));
  }

  lemma {:induction false} LowShortRotates(a: seq<string>, bottom: nat, middle: nat, top: nat, len: nat,
                                           goal: seq<string>)
    requires bottom <= middle <= top <= |a| && len == middle - bottom <= top - middle
    requires RotatesTo(a, bottom, middle, top, goal)
    ensures RotatesTo(Trade(a, bottom, top - len, len), bottom, middle, top - len, goal)
  {
    forall k: nat | k < |a|
      ensures goal[k] == Trade(a, bottom, top - len, len)[RotateSource(bottom, middle, top - len, k)]
    {
      LowShortSource(bottom, middle, top, k);
    }
  }

  lemma {:induction false} LowTraded(a: seq<string>, b: seq<string>, bottom: nat, middle: nat, hi: nat, top: nat,
                                     len: nat)
    requires bottom <= middle <= hi <= top <= |a| && len == middle - bottom && hi + len == top
    requires b == Trade(a, bottom, hi, len)
    ensures Rotate(b, bottom, middle, hi) == Rotate(a, bottom, middle, top)
  {
    RotateLowShort(a, bottom, middle, top, len);
    RotatesToUnique(b, bottom, middle, hi, Rotate(a, bottom, middle, top));
  }

  /** Trading the short upper block with the bottom of the lower one leaves a smaller rotation to do. */
  lemma {:induction false} HighShortSource(bottom: nat, middle: nat, top: nat, k: nat)
    requires bottom <= middle <= top && top - middle <= middle - bottom
    ensures var len := top - middle;
      TradeSource(bottom, middle, len, RotateSource(bottom + len, middle, top, k))
          == RotateSource(bottom, middle, top, k)
  {
  }

  lemma {:induction false} RotateHighShort(a: seq<string>, bottom: nat, middle: nat, top: nat, len: nat)
    requires bottom <= middle <= top <= |a| && len == top - middle <= middle - bottom
    ensures RotatesTo(Trade(a, bottom, middle, len), bottom + len, middle, top, Rotate(a, bottom, middle, top))
  {
    RotatesToRotate(a, bottom, middle, top);
    HighShortRotates(a, bottom, middle, top, len, Rotate(a, bottom, middle, top));
  }

  lemma {:induction false} HighShortRotates(a: seq<string>, bottom: nat, middle: nat, top: nat, len: nat,
                                            goal: seq<string>)
    requires bottom <= middle <= top <= |a| && len == top - middle <= middle - bottom
    requires RotatesTo(a, bottom, middle, top, goal)
    ensures RotatesTo(Trade(a, bottom, middle, len), bottom + len, middle, top, goal)
  {
    forall k: nat | k < |a|
      ensures goal[k] == Trade(a, bottom, middle, len)[RotateSource(bottom + len, middle, top, k)]
    {
      HighShortSource(bottom, middle, top, k);
    }
  }

  lemma {:induction false} HighTraded(a: seq<string>, b: seq<string>, bottom: nat, middle: nat, top: nat, len: nat)
    requires bottom <= middle <= top <= |a| && len == top - middle <= middle - bottom
    requires b == Trade(a, bottom, middle, len)
    ensures Rotate(b, bottom + len, middle, top) == Rotate(a, bottom, middle, top)
  {
    RotateHighShort(a, bottom, middle, top, len);
    RotatesToUnique(b, bottom + len, middle, top, Rotate(a, bottom, middle, top));
  }

  /** Nothing is left to rotate once one of the blocks is empty. */
  lemma {:induction false} RotateDone(a: seq<string>, bottom: nat, middle: nat, top: nat)
    requires bottom <= middle <= top <= |a| && (bottom == middle || middle == top)
    ensures Rotate(a, bottom, middle, top) == a
  {
  }

  method SwapBlocks(argv: array<string>, lo: nat, hi: nat, n: nat)
    requires lo + n <= hi && hi + n <= argv.Length
    modifies argv
    ensures argv[..] == Trade(old(argv[..]), lo, hi, n)
  {
    ghost var a := argv[..];
    for i := 0 to n
      invariant forall k: nat | k < argv.Length :: argv[k] == a[TradeSource(lo, hi, i, k)]
    {
      var tem := argv[lo + i];
      argv[lo + i] := argv[hi + i];
      argv[hi + i] := tem;
    }
  }

  /** The body of the loop of `exchange`: one trade of the shorter block, and the rotation still to do. */
  method TradeShorter(argv: array<string>, bottom: nat, middle: nat, top: nat) returns (bottom': nat, top': nat)
    requires bottom < middle < top <= argv.Length
    modifies argv
    ensures bottom <= bottom' <= middle <= top' <= top && top' - bottom' < top - bottom
    ensures Rotate(argv[..], bottom', middle, top') == Rotate(old(argv[..]), bottom, middle, top)
  {
    bottom', top' := bottom, top;
    if top - middle > middle - bottom {
      var len := middle - bottom;
      top' := top - len;
      TradeLow(argv, bottom, middle, top', top, len);
    } else {
      var len := top - middle;
      TradeHigh(argv, bottom, middle, top, len);
      bottom' := bottom + len;
    }
  }

  method TradeLow(argv: array<string>, bottom: nat, middle: nat, hi: nat, top: nat, len: nat)
    requires bottom <= middle <= hi <= top <= argv.Length && len == middle - bottom && hi + len == top
    modifies argv
    ensures Rotate(argv[..], bottom, middle, hi) == Rotate(old(argv[..]), bottom, middle, top)
  {
    ghost var before := argv[..];
    SwapBlocks(argv, bottom, hi, len);
    LowTraded(before, argv[..], bottom, middle, hi, top, len);
  }

  method TradeHigh(argv: array<string>, bottom: nat, middle: nat, top: nat, len: nat)
    requires bottom <= middle <= top <= argv.Length && len == top - middle <= middle - bottom
    modifies argv
    ensures Rotate(argv[..], bottom + len, middle, top) == Rotate(old(argv[..]), bottom, middle, top)
  {
    ghost var before := argv[..];
    SwapBlocks(argv, bottom, middle, len);
    HighTraded(before, argv[..], bottom, middle, top, len);
  }

  /** The loop of `exchange`: rotation by trades of unequal blocks, in place. */
  method RotateInPlace(argv: array<string>, first: nat, last: nat, optind: nat)
    requires first <= last <= optind <= argv.Length
    modifies argv
    ensures argv[..] == Rotate(old(argv[..]), first, last, optind)
  {
    var bottom: nat, middle: nat, top: nat := first, last, optind;
    while top > middle && middle > bottom
      invariant bottom <= middle <= top <= argv.Length
      invariant Rotate(argv[..], bottom, middle, top) == Rotate(old(argv[..]), first, last, optind)
      decreases top - bottom
    {
      bottom, top := TradeShorter(argv, bottom, middle, top);
    }
    RotateDone(argv[..], bottom, middle, top);
  }

  class Scanner {
    var optind: nat
    var nextchar: string
    var firstNonopt: nat
    var lastNonopt: nat
    var ordering: Ordering
    var optarg: Option<string>
    var optopt: int

    constructor ()
      ensures optind == 0
    {
      optind, nextchar, firstNonopt, lastNonopt, ordering := 0, "", 0, 0, Permute;
      optarg, optopt := None, '?' as int;
    }

    ghost function Abs(argv: array<string>): State
      reads this, argv
    {
      State(argv[..], optind, nextchar, firstNonopt, lastNonopt, ordering)
    }

    /** Exchange the skipped non-options with the options finished since, and relocate their indices. */
    method Exchange(argv: array<string>)
      requires firstNonopt <= lastNonopt <= optind <= argv.Length
      modifies this`firstNonopt, this`lastNonopt, argv
      ensures Abs(argv) == GetoptMachine.Exchange(old(Abs(argv)))
    {
      RotateInPlace(argv, firstNonopt, lastNonopt, optind);
      firstNonopt := firstNonopt + (optind - lastNonopt);
      lastNonopt := optind;
    }

    method Initialize(optstring: string, posixlyCorrect: bool) returns (rest: string)
      modifies this
      ensures optind == firstNonopt == lastNonopt == 1 && nextchar == "" && optarg == old(optarg) && optopt
              == old(optopt)
      ensures ordering == OrderingOf(optstring, posixlyCorrect) && rest == Stripped(optstring)
    {
      firstNonopt, lastNonopt, optind := 1, 1, 1;
      nextchar := "";
      rest := optstring;
      if |optstring| > 0 && optstring[0] == '-' {
        ordering := ReturnInOrder;
        rest := optstring[1..];
      } else if |optstring| > 0 && optstring[0] == '+' {
        ordering := RequireOrder;
        rest := optstring[1..];
      } else if posixlyCorrect {
        ordering := RequireOrder;
      } else {
        ordering := Permute;
      }
    }

    /** Advance to the next element: exchange, skip non-options, deal with "--". */
    method Advance(argv: array<string>)
      requires Ready(Abs(argv)) && nextchar == ""
      modifies this`optind, this`firstNonopt, this`lastNonopt, argv
      ensures Abs(argv) == Position(old(Abs(argv)))
    {
      ghost var s := Abs(argv);
      if ordering == Permute {
        GatherBounds(s);
        AdvancePermuting(argv);
      }
      ghost var g := Abs(argv);
      if optind != argv.Length && argv[optind] == "--" {
        optind := optind + 1;
        if firstNonopt != lastNonopt && lastNonopt != optind {
          Exchange(argv);
        } else if firstNonopt == lastNonopt {
          firstNonopt := optind;
        }
        lastNonopt := argv.Length;
        optind := argv.Length;
        assert Abs(argv) == Terminate(g);
      }
    }

    method AdvancePermuting(argv: array<string>)
      requires firstNonopt <= lastNonopt <= optind <= argv.Length
      modifies this`optind, this`firstNonopt, this`lastNonopt, argv
      ensures Abs(argv) == Gather(old(Abs(argv)))
    {
      if firstNonopt != lastNonopt && lastNonopt != optind {
        Exchange(argv);
      } else if lastNonopt != optind {
        firstNonopt := optind;
      }
      SkipAhead(argv);
      lastNonopt := optind;
    }

    /** The loop over further non-options. */
    method SkipAhead(argv: array<string>)
      requires optind <= argv.Length
      modifies this`optind
      ensures Abs(argv) == old(Abs(argv)).(optind := SkipNonOptions(old(argv[..]), old(optind)))
    {
      ghost var x := Abs(argv);
      while optind < argv.Length && IsNonOption(argv[optind])
        invariant x.optind <= optind <= argv.Length
        invariant Abs(argv) == x.(optind := optind)
        invariant SkipNonOptions(x.argv, optind) == SkipNonOptions(x.argv, x.optind)
        decreases argv.Length - optind
      {
        optind := optind + 1;
      }
    }

    /** The scan for '=' and of the long-option table, with its early exit on an exact match. */
    static method FindLong(opts: seq<LongOption>, nc: string) returns (r: Lookup, nameend: nat)
      ensures nameend == IndexOf(nc, '=')
      ensures r == Find(opts, nc[..nameend]) && LookupOk(opts, nc[..nameend], r)
    {
      nameend := 0;
      while nameend < |nc| && nc[nameend] != '='
        invariant nameend <= |nc|
        invariant nameend + IndexOf(nc[nameend..], '=') == IndexOf(nc, '=')
      {
        nameend := nameend + 1;
      }
      var name := nc[..nameend];
      FindMeaning(opts, name);
      var found, indfound: nat, exact, ambig := false, 0, false, false;
      var i: nat := 0;
      while i < |opts|
        invariant i <= |opts| && !exact
        invariant !found ==> !ambig
        invariant Find(opts, name) ==
                  FindFrom(opts, name, i, if !found then NotFound else if ambig then Many else Found(indfound))
      {
        if name <= opts[i].name {
          if |name| == |opts[i].name| {
            found, indfound, exact := true, i, true;
            assert Exact(opts, name, i);
            break;
          } else if !found {
            found, indfound := true, i;
          } else {
            ambig := true;
          }
        }
        i := i + 1;
      }
      r := if ambig && !exact then Many else if found then Found(indfound) else NotFound;
    }

    /** What decoding the current option must do to the scanner. */
    twostate predicate Decodes(argv: array<string>, d: Decoded, event: Event)
      reads this, argv
    {
      && event == d.event && event.Got?
      && optind == old(optind) + d.used && nextchar == d.nextchar
      && optarg == event.optarg
      && optopt == (if event.optopt.Some? then event.optopt.value as int else old(optopt))
      && unchanged(argv)
      && firstNonopt == old(firstNonopt) && lastNonopt == old(lastNonopt) && ordering == old(ordering)
    }

    method TakeShort(argv: array<string>, optstring: string) returns (event: Event)
      requires optind < argv.Length && nextchar != "" && optarg.None?
      modifies this
      ensures Decodes(argv, old(DecodeShort(optstring, argv[optind..], nextchar)), event)
    {
      var c := nextchar[0];
      nextchar := nextchar[1..];
      var temp := IndexOf(optstring, c);
      if nextchar == "" {
        optind := optind + 1;
      }
      if temp == |optstring| || c == ':' {
        optopt := c as int;
        return Got(QUESTION, None, None, Some(c), InvalidCharacter);
      }
      if At(optstring, temp + 1, ':') {
        if At(optstring, temp + 2, ':') {
          if nextchar != "" {
            optarg := Some(nextchar);
            optind := optind + 1;
          } else {
            optarg := None;
          }
          nextchar := "";
        } else {
          if nextchar != "" {
            optarg := Some(nextchar);
            optind := optind + 1;
          } else if optind == argv.Length {
            optopt := c as int;
            nextchar := "";
            return Got(MissingCode(optstring), None, None, Some(c), MissingArgument);
          } else {
            optarg := Some(argv[optind]);
            optind := optind + 1;
          }
          nextchar := "";
        }
      }
      event := Got(c as int, optarg, None, None, Silent);
    }

    method TakeLong(argv: array<string>, cfg: Config) returns (event: Option<Event>)
      requires optind < argv.Length && nextchar != "" && optarg.None?
      requires !IsNonOption(argv[optind]) && cfg.longopts.Some?
      modifies this
      ensures var d := old(DecodeLong(cfg, argv[optind..], nextchar));
        match d
        case Some(d) => event.Some? && Decodes(argv, d, event.value)
        case None => event.None? && unchanged(this)
    {
      var opts := cfg.longopts.value;
      var found, nameend := FindLong(opts, nextchar);
      if found == Many {
        nextchar := "";
        optind := optind + 1;
        return Some(Got(QUESTION, None, None, None, Ambiguous));
      }
      if found.Found? {
        FindInTable(opts, nextchar[..nameend]);
        var pfound := opts[found.index];
        optind := optind + 1;
        if nameend < |nextchar| {
          if pfound.hasArg != 0 {
            optarg := Some(nextchar[nameend + 1..]);
          } else {
            nextchar := "";
            return Some(Got(QUESTION, None, None, None, ExtraArgument));
          }
        } else if pfound.hasArg == 1 {
          if optind < argv.Length {
            optarg := Some(argv[optind]);
            optind := optind + 1;
          } else {
            nextchar := "";
            return Some(Got(MissingCode(cfg.optstring), None, None, None, MissingArgument));
          }
        }
        nextchar := "";
        return Some(Got(pfound.val, optarg, Some(found.index), None, Silent));
      }
      if !cfg.longOnly || argv[optind][1] == '-' || !Listed(cfg.optstring, nextchar[0]) {
        nextchar := "";
        optind := optind + 1;
        return Some(Got(QUESTION, None, None, None, Unrecognized));
      }
      return None;
    }

    method TakeOption(argv: array<string>, cfg: Config) returns (event: Event)
      requires optind < argv.Length && nextchar != "" && optarg.None?
      requires !IsNonOption(argv[optind])
      modifies this
      ensures Decodes(argv, old(Decode(cfg, argv[optind..], nextchar)), event)
    {
      if TriesLong(cfg, argv[optind]) {
        var e := TakeLong(argv, cfg);
        if e.Some? { return e.value; }
      }
      event := TakeShort(argv, cfg.optstring);
    }

    /** The part of a call after the advance to a fresh element. */
    method Proceed(argv: array<string>, cfg: Config) returns (o: Outcome)
      requires optind <= argv.Length && optarg.None? && (optind < argv.Length ==> argv[optind] != "--")
      modifies this
      ensures (Abs(argv), o) == Continue(cfg, old(Abs(argv)))
      ensures o.Report? ==> optarg == (if o.event.Got? then o.event.optarg else Some(o.event.arg))
    {
      if optind == argv.Length {
        if firstNonopt != lastNonopt { optind := firstNonopt; }
        return End;
      }
      if IsNonOption(argv[optind]) {
        if ordering == RequireOrder { return End; }
        optarg := Some(argv[optind]);
        optind := optind + 1;
        return Report(InOrder(argv[optind - 1]));
      }
      nextchar := FreshNextchar(cfg, argv[optind]);
      var e := TakeOption(argv, cfg);
      o := Report(e);
    }

    /** `_getopt_internal` after its initialisation. */
    method Resume(argv: array<string>, cfg: Config) returns (o: Outcome)
      requires Ready(Abs(argv)) && optarg.None?
      modifies this, argv
      ensures (Abs(argv), o) == Next(cfg, old(Abs(argv)))
      ensures o.Report? ==> optarg == (if o.event.Got? then o.event.optarg else Some(o.event.arg))
    {
      if nextchar == "" {
        PositionBounds(Abs(argv));
        Advance(argv);
        o := Proceed(argv, cfg);
      } else {
        var e := TakeOption(argv, cfg);
        o := Report(e);
      }
    }

    /** `_getopt_internal`: optind == 0 asks for initialisation. */
    method GetoptInternal(argv: array<string>, cfg: Config, posixlyCorrect: bool) returns (o: Outcome)
      requires argv.Length >= 1
      requires optind == 0 || Ready(Abs(argv))
      modifies this, argv
      ensures (Abs(argv), o) ==
              if old(optind) == 0
              then Next(FirstConfig(cfg), Start(OrderingOf(cfg.optstring, posixlyCorrect), old(argv[..])))
              else Next(cfg, old(Abs(argv)))
      ensures o.Report? ==> optarg == (if o.event.Got? then o.event.optarg else Some(o.event.arg))
    {
      optarg := None;
      if optind == 0 {
        var rest := Initialize(cfg.optstring, posixlyCorrect);
        o := Resume(argv, cfg.(optstring := rest));
      } else {
        o := Resume(argv, cfg);
      }
    }

    /**
     The caller's loop: call until EOF.  The options reported are those a single
     left-to-right pass over the original argv finds, and argv ends up sorted.
     */
    method ScanAll(argv: array<string>, cfg: Config, posixlyCorrect: bool) returns (events: seq<Event>)
      requires argv.Length >= 1
      modifies this, argv
      ensures var p := Parse(OrderingOf(cfg.optstring, posixlyCorrect), FirstConfig(cfg), cfg, old(argv[1..]), "");
        && events == p.events
        && argv[..] == [old(argv[0])] + p.opts + p.rest
        && optind == 1 + |p.opts|
    {
      ghost var a := argv[..];
      ghost var start := Start(OrderingOf(cfg.optstring, posixlyCorrect), a);
      ghost var total := Scan(cfg, posixlyCorrect, a);
      ScanIsParse(cfg, posixlyCorrect, a);
      optind := 0;
      events := [];
      FirstCall(FirstConfig(cfg), cfg, start);
      var o := GetoptInternal(argv, cfg, posixlyCorrect);
      while o.Report?
        invariant StillToCome(cfg, total, events, Abs(argv), o)
        decreases if o.Report? then 1 + Measure(Abs(argv)) else 0
      {
        LaterCall(cfg, total, events, Abs(argv), o);
        events := events + [o.event];
        o := GetoptInternal(argv, cfg, posixlyCorrect);
      }
    }
  }

  /** The whole scan is the events so far, the one just reported, and the run from here. */
  ghost predicate StillToCome(cfg: Config, total: (seq<Event>, State), events: seq<Event>, s: State, o: Outcome) {
    match o
    case End => total == (events, s)
    case Report(e) =>
      && Ready(s)
      && total.0 == events + [e] + Run(cfg, cfg, s).0
      && total.1 == Run(cfg, cfg, s).1
  }

  lemma {:induction false} FirstCall(c1: Config, c2: Config, s: State)
    requires Ready(s)
    ensures StillToCome(c2, Run(c1, c2, s), [], Next(c1, s).0, Next(c1, s).1)
  {
    RunStep(c1, c2, s);
    var (n, o) := Next(c1, s);
    if o.Report? { Joined([], o.event, Run(c2, c2, n).0); }
  }

  lemma {:induction false} LaterCall(cfg: Config, total: (seq<Event>, State), events: seq<Event>, s: State, o: Outcome)
    requires o.Report? && StillToCome(cfg, total, events, s, o)
    ensures var (n, o') := Next(cfg, s);
      && StillToCome(cfg, total, events + [o.event], n, o')
      && (o'.Report? ==> Measure(n) < Measure(s))
  {
    RunStep(cfg, cfg, s);
    var (n, o') := Next(cfg, s);
    match o'
    case End => assert events + [o.event] + [] == events + [o.event];
    case Report(e) => Joined(events + [o.event], e, Run(cfg, cfg, n).0);
  }

  lemma {:induction false} Joined(a: seq<Event>, e: Event, b: seq<Event>)
    ensures a + ([e] + b) == a + [e] + b
    ensures [] + [e] + b == [e] + b
  {
  }
}
