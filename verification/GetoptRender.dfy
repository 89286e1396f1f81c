/**
 The inverse direction: a command line written from a list of intended options
 and operands, in any of the notations getopt accepts and in any interleaving,
 is understood as intended.
 */
module GetoptRender {
  import opened Basics
  import opened GetoptDecode
  import opened GetoptMachine
  import opened GetoptParse

  datatype Value = NoValue | Glued(text: string) | Separate(text: string)

  /**
   Short: option characters `cs` that take no argument, declared or not, then
   `last` with its value, in one cluster.  Long: `name` (possibly abbreviated)
   of table entry i, after two dashes or, for getopt_long_only, a single one.
   Refused: a long option that the table does not allow, and why.
   */
  datatype Intent =
    | Short(cs: string, last: char, value: Value)
    | Long(name: string, i: nat, single: bool, value: Value)
    | Refused(name: string, given: Option<string>, single: bool, why: Complaint)
    | Operand(text: string)

  function ValueText(v: Value): Option<string> {
    match v
    case NoValue => None
    case Glued(a) => Some(a)
    case Separate(a) => Some(a)
  }

  function GluedText(v: Value): Option<string> {
    if v.Glued? then Some(v.text) else None
  }

  function Dashes(single: bool): string {
    if single then "-" else "--"
  }

  /** The argv elements one intent is written as. */
  function Write(x: Intent): seq<string> {
    match x
    case Short(cs, last, v) => ["-" + (cs + Suffix(last, v))] + Apart(v)
    case Long(name, _, single, v) => [Dashes(single) + LongText(name, GluedText(v))] + Apart(v)
    case Refused(name, given, single, _) => [Dashes(single) + LongText(name, given)]
    case Operand(a) => [a]
  }

  /** The last character of a cluster with what is glued to it. */
  function Suffix(last: char, v: Value): string {
    if v.Glued? then [last] + v.text else [last]
  }

  function Apart(v: Value): seq<string> {
    if v.Separate? then [v.text] else []
  }

  // ---------------------------------------------------------------- what is allowed, and what is told

  predicate IsLetter(optstring: string, ch: char) {
    Kind(optstring, ch).Plain? || Kind(optstring, ch).Unknown?
  }

  /** With getopt_long_only, nothing in a cluster may be unknown or look like a long option. */
  ghost predicate StaysShort(c: Config, cs: string, last: char, suffix: string) {
    c.longOnly && c.longopts.Some? ==>
      && (forall k | 0 <= k < |cs| :: Kind(c.optstring, cs[k]).Plain?) && !Kind(c.optstring, last).Unknown?
      && (|cs + suffix| > 1 ==>
            forall k | 0 <= k <= |cs| :: LookupOk(c.longopts.value, LongName((cs + suffix)[k..]), NotFound))
  }

  predicate Takes(optstring: string, last: char, v: Value) {
    match v
    case NoValue => IsLetter(optstring, last) || Kind(optstring, last).Optional?
    case Glued(a) => a != "" && (Kind(optstring, last).Required? || Kind(optstring, last).Optional?)
    case Separate(_) => Kind(optstring, last).Required?
  }

  /** A cluster that is scanned as one: it is not "--", nor taken for a long option. */
  ghost predicate IsCluster(c: Config, cs: string, last: char, v: Value) {
    && (forall k | 0 <= k < |cs| :: IsLetter(c.optstring, cs[k]))
    && ((cs + [last])[0] == '-' ==> c.longopts.None?) && cs + Suffix(last, v) != "-"
    && StaysShort(c, cs, last, Suffix(last, v))
  }

  /** The element is looked up in the table. */
  ghost predicate IsLong(c: Config, name: string, glued: Option<string>, single: bool) {
    var nc := LongText(name, glued);
    && c.longopts.Some? && nc != "" && '=' !in name
    && (single ==> c.longOnly && nc[0] != '-' && (|nc| > 1 || nc[0] !in c.optstring))
  }

  /** The declarations in optstring and in the table allow the intent, or refuse it for the reason given. */
  ghost predicate Allowed(c: Config, x: Intent) {
    match x
    case Short(cs, last, v) => IsCluster(c, cs, last, v) && Takes(c.optstring, last, v)
    case Long(name, i, single, v) =>
      && IsLong(c, name, GluedText(v), single) && i < |c.longopts.value|
      && LookupOk(c.longopts.value, name, Found(i))
      && var h := c.longopts.value[i].hasArg;
         (match v
          case NoValue => h != 1
          case Glued(_) => h != 0
          case Separate(_) => h == 1)
    case Refused(name, given, single, why) =>
      && IsLong(c, name, given, single)
      && (match why
          case Ambiguous => LookupOk(c.longopts.value, name, Many)
          case Unrecognized =>
            LookupOk(c.longopts.value, name, NotFound) && (single ==> LongText(name, given)[0] !in c.optstring)
          case ExtraArgument =>
            given.Some? && exists i: nat | i < |c.longopts.value| ::
              LookupOk(c.longopts.value, name, Found(i)) && c.longopts.value[i].hasArg == 0
          case _ => false)
    case Operand(a) => IsNonOption(a)
  }

  function LetterEvent(optstring: string, ch: char): Event {
    if Kind(optstring, ch).Unknown? then Got('?' as int, None, None, Some(ch), InvalidCharacter)
    else Option1(ch as int, None)
  }

  function LetterEvents(optstring: string, cs: string): seq<Event> {
    if cs == "" then [] else [LetterEvent(optstring, cs[0])] + LetterEvents(optstring, cs[1..])
  }

  function LastEvent(optstring: string, last: char, v: Value): Event {
    if v.NoValue? then LetterEvent(optstring, last) else Option1(last as int, ValueText(v))
  }

  /** What the caller should be told. */
  function Told(m: Ordering, c: Config, x: Intent): seq<Event>
    requires Allowed(c, x)
  {
    match x
    case Short(cs, last, v) => LetterEvents(c.optstring, cs) + [LastEvent(c.optstring, last, v)]
    case Long(_, i, _, v) => [Got(c.longopts.value[i].val, ValueText(v), Some(i), None, Silent)]
    case Refused(_, _, _, why) => [Got('?' as int, None, None, None, why)]
    case Operand(a) => if m == ReturnInOrder then [InOrder(a)] else []
  }

  /** What is finished, and what is left to the end. */
  function Meant(m: Ordering, x: Intent): (seq<string>, seq<string>) {
    if x.Operand? && m != ReturnInOrder then ([], [x.text]) else (Write(x), [])
  }

  // ---------------------------------------------------------------- clusters

  lemma {:induction false} LetterStep(m: Ordering, c: Config, tail: seq<string>, nc: string)
    requires |nc| > 1 && Resumable(tail, nc) && GoesShort(c, tail[0], nc) && IsLetter(c.optstring, nc[0])
    ensures Resumable(tail, nc[1..])
    ensures var q := Parse(m, c, c, tail, nc[1..]);
      Parse(m, c, c, tail, nc) == q.(events := [LetterEvent(c.optstring, nc[0])] + q.events)
  {
    assert nc[1..] != "";
    ShortOrLong(c, tail, nc);
    assert Decode(c, tail, nc) == Decoded(LetterEvent(c.optstring, nc[0]), 0, nc[1..]);
    assert tail[0..] == tail && tail[..0] == [];
    var q := Parse(m, c, c, tail, nc[1..]);
    assert [] + q.opts == q.opts;
  }

  /** Wherever the scan is in the cluster, it goes on with short options. */
  ghost predicate AllShort(c: Config, elem: string, cs: string, suffix: string)
    requires !IsNonOption(elem) && suffix != ""
  {
    forall k | 0 <= k <= |cs| :: GoesShort(c, elem, cs[k..] + suffix)
  }

  /** A run of characters without arguments at the front of a cluster. */
  lemma {:induction false} LetterRun(m: Ordering, c: Config, tail: seq<string>, cs: string, suffix: string)
    requires suffix != "" && Resumable(tail, cs + suffix) && Resumable(tail, suffix)
    requires AllShort(c, tail[0], cs, suffix) && forall k | 0 <= k < |cs| :: IsLetter(c.optstring, cs[k])
    ensures var q := Parse(m, c, c, tail, suffix);
      Parse(m, c, c, tail, cs + suffix) == q.(events := LetterEvents(c.optstring, cs) + q.events)
  {
    var q := Parse(m, c, c, tail, suffix);
    if cs == "" {
      assert cs + suffix == suffix && [] + q.events == q.events;
    } else {
      var nc := cs + suffix;
      ConcatTail(cs, suffix);
      assert cs[0..] == cs;
      LetterStep(m, c, tail, nc);
      forall k | 0 <= k <= |cs[1..]| ensures GoesShort(c, tail[0], cs[1..][k..] + suffix) {
        DropDrop(cs, 1, k);
      }
      LetterRun(m, c, tail, cs[1..], suffix);
      Assoc([LetterEvent(c.optstring, cs[0])], LetterEvents(c.optstring, cs[1..]), q.events);
    }
  }

  /** The last character of a cluster, with its value. */
  lemma {:induction false} LastRun(m: Ordering, c: Config, tail: seq<string>, last: char, v: Value, t: seq<string>)
    requires |tail| > 0 && tail[1..] == Apart(v) + t && Resumable(tail, Suffix(last, v))
    requires GoesShort(c, tail[0], Suffix(last, v)) && Takes(c.optstring, last, v)
    ensures var n := |tail| - |t|;
      var q := Parse(m, c, c, t, "");
      0 <= n && Parse(m, c, c, tail, Suffix(last, v)) ==
        q.(events := [LastEvent(c.optstring, last, v)] + q.events, opts := tail[..n] + q.opts)
  {
    var nc, n := Suffix(last, v), |tail| - |t|;
    assert n == 1 || n == 2;
    assert nc[1..] == if v.Glued? then v.text else "";
    assert tail[n..] == t by { assert tail[n..] == tail[1..][n - 1..]; }
    if v.Separate? { assert tail[1] == tail[1..][0] == v.text; }
    ShortOrLong(c, tail, nc);
    assert Decode(c, tail, nc) == Decoded(LastEvent(c.optstring, last, v), n, "");
  }

  lemma {:induction false} Dashed(dashes: string, s: string, t: string)
    ensures var e := dashes + (s + t);
      e[|dashes|..] == s + t && e[|e| - |t|..] == t && forall i | 0 <= i < |dashes| :: e[i] == dashes[i]
  {
  }

  /** The element of a cluster, and where its scan starts. */
  lemma {:induction false} ClusterElement(c: Config, cs: string, last: char, v: Value)
    requires IsCluster(c, cs, last, v)
    ensures var nc := cs + Suffix(last, v);
      var e := "-" + nc;
      InElement(nc, e) && InElement(Suffix(last, v), e) && FreshNextchar(c, e) == nc
  {
    var nc := cs + Suffix(last, v);
    var e := "-" + nc;
    Dashed("-", cs, Suffix(last, v));
    assert nc[0] == (cs + [last])[0] && e[1] == nc[0];
    if |e| == 2 { assert nc == [nc[0]]; }
  }

  lemma {:induction false} KindListed(optstring: string, ch: char)
    requires !Kind(optstring, ch).Unknown?
    ensures Listed(optstring, ch)
  {
  }

  /** A cluster is scanned for short options throughout. */
  lemma {:induction false} ShortThroughout(c: Config, cs: string, last: char, v: Value, e: string)
    requires IsCluster(c, cs, last, v) && e == "-" + (cs + Suffix(last, v)) && !IsNonOption(e)
    ensures AllShort(c, e, cs, Suffix(last, v))
  {
    var suffix := Suffix(last, v);
    forall k | 0 <= k <= |cs| ensures GoesShort(c, e, cs[k..] + suffix) {
      var nc := cs[k..] + suffix;
      assert nc == (cs + suffix)[k..];
      assert nc[0] == if k < |cs| then cs[k] else last;
      assert e[1] == (cs + [last])[0];
      assert |cs + suffix| == 1 ==> e[1] == nc[0];
      if TriesLong(c, e) {
        KindListed(c.optstring, nc[0]);
        FindMeaning(c.longopts.value, LongName(nc));
        LookupUnique(c.longopts.value, LongName(nc), Find(c.longopts.value, LongName(nc)), NotFound);
      }
    }
  }

  lemma {:induction false} FreshParse(m: Ordering, c: Config, tail: seq<string>)
    requires |tail| > 0 && !IsNonOption(tail[0]) && tail[0] != "--"
    ensures Parse(m, c, c, tail, "") == Parse(m, c, c, tail, FreshNextchar(c, tail[0]))
  {
  }

  lemma {:induction false} WrittenParts(w: seq<string>, t: seq<string>)
    requires |w| > 0
    ensures (w + t)[0] == w[0] && (w + t)[1..] == w[1..] + t && (w + t)[..|w + t| - |t|] == w
  {
  }

  lemma {:induction false} ShortUnderstood(m: Ordering, c: Config, x: Intent, t: seq<string>)
    requires x.Short? && Allowed(c, x)
    ensures var q := Parse(m, c, c, t, "");
      Parse(m, c, c, Write(x) + t, "") ==
        q.(events := Told(m, c, x) + q.events, opts := Write(x) + q.opts)
  {
    var w, tail, suffix := Write(x), Write(x) + t, Suffix(x.last, x.value);
    ClusterElement(c, x.cs, x.last, x.value);
    WrittenParts(w, t);
    assert w[1..] == Apart(x.value);
    ShortThroughout(c, x.cs, x.last, x.value, w[0]);
    FreshParse(m, c, tail);
    LetterRun(m, c, tail, x.cs, suffix);
    assert x.cs[|x.cs|..] + suffix == suffix;
    LastRun(m, c, tail, x.last, x.value, t);
    Assoc(LetterEvents(c.optstring, x.cs), [LastEvent(c.optstring, x.last, x.value)], Parse(m, c, c, t, "").events);
  }

  // ---------------------------------------------------------------- long options

  /** The element of a long option, and where its scan starts. */
  lemma {:induction false} LongElement(c: Config, name: string, glued: Option<string>, single: bool)
    requires IsLong(c, name, glued, single)
    ensures var nc := LongText(name, glued);
      var e := Dashes(single) + nc;
      InElement(nc, e) && TriesLong(c, e) && FreshNextchar(c, e) == nc && (e[1] == '-' <==> !single)
  {
    var nc := LongText(name, glued);
    Dashed(Dashes(single), nc, "");
    assert nc + "" == nc;
    ListedIn(c.optstring, nc[0]);
    var e := Dashes(single) + nc;
    assert single ==> e[1] == nc[0];
  }

  /** What is decoded from a long option, given what the table says of it. */
  lemma {:induction false} LongDecoded(c: Config, x: Intent, tail: seq<string>)
    requires (x.Long? || x.Refused?) && Allowed(c, x)
    requires |tail| >= |Write(x)| && tail[..|Write(x)|] == Write(x)
    ensures var nc := LongText(x.name, if x.Long? then GluedText(x.value) else x.given);
      && InElement(nc, tail[0]) && FreshNextchar(c, tail[0]) == nc
      && Decode(c, tail, nc) == Decoded(Told(Permute, c, x)[0], |Write(x)|, "")
  {
    var glued := if x.Long? then GluedText(x.value) else x.given;
    assert tail[0] == Write(x)[0];
    LongElement(c, x.name, glued, x.single);
    if x.Long? {
      if x.value.Separate? { assert tail[1] == Write(x)[1]; }
      LongOptionMeaning(c, tail, x.name, glued, Found(x.i));
    } else {
      RefusedDecoded(c, x, tail);
    }
  }

  lemma {:induction false} RefusedDecoded(c: Config, x: Intent, tail: seq<string>)
    requires x.Refused? && Allowed(c, x) && |tail| > 0 && !IsNonOption(tail[0]) && (tail[0][1] == '-' <==> !x.single)
    ensures DecodeLong(c, tail, LongText(x.name, x.given)) == Some(Refusal('?' as int, x.why))
  {
    match x.why
    case Ambiguous => LongOptionMeaning(c, tail, x.name, x.given, Many);
    case Unrecognized => LongOptionMeaning(c, tail, x.name, x.given, NotFound);
    case ExtraArgument =>
      var i: nat :| i < |c.longopts.value| && LookupOk(c.longopts.value, x.name, Found(i)) &&
                    c.longopts.value[i].hasArg == 0;
      LongOptionMeaning(c, tail, x.name, x.given, Found(i));
  }

  lemma {:induction false} LongUnderstood(m: Ordering, c: Config, x: Intent, t: seq<string>)
    requires (x.Long? || x.Refused?) && Allowed(c, x)
    ensures var q := Parse(m, c, c, t, "");
      Parse(m, c, c, Write(x) + t, "") ==
        q.(events := Told(m, c, x) + q.events, opts := Write(x) + q.opts)
  {
    var tail, n := Write(x) + t, |Write(x)|;
    assert tail[..n] == Write(x) && tail[n..] == t;
    LongDecoded(c, x, tail);
    FreshParse(m, c, tail);
  }

  // ---------------------------------------------------------------- whole command lines

  function WriteAll(xs: seq<Intent>): seq<string> {
    if xs == [] then [] else Write(xs[0]) + WriteAll(xs[1..])
  }

  ghost predicate AllAllowed(c: Config, xs: seq<Intent>) {
    forall k | 0 <= k < |xs| :: Allowed(c, xs[k])
  }

  function ToldAll(m: Ordering, c: Config, xs: seq<Intent>): seq<Event>
    requires AllAllowed(c, xs)
  {
    if xs == [] then [] else Told(m, c, xs[0]) + ToldAll(m, c, xs[1..])
  }

  function FinishedAll(m: Ordering, xs: seq<Intent>): seq<string> {
    if xs == [] then [] else Meant(m, xs[0]).0 + FinishedAll(m, xs[1..])
  }

  function LeftAll(m: Ordering, xs: seq<Intent>): seq<string> {
    if xs == [] then [] else Meant(m, xs[0]).1 + LeftAll(m, xs[1..])
  }

  /**
   How a command line ends: with nothing more; with "--" and anything; with an
   option whose argument is not there; or, where operands end the options,
   with an operand and anything.
   */
  datatype Ending =
    | Nothing
    | Terminated(rest: seq<string>)
    | LackingShort(cs: string, last: char)
    | LackingLong(name: string, i: nat, single: bool)
    | Stopped(operand: string, rest: seq<string>)

  function WriteEnd(e: Ending): seq<string> {
    match e
    case Nothing => []
    case Terminated(rest) => ["--"] + rest
    case LackingShort(cs, last) => ["-" + (cs + [last])]
    case LackingLong(name, _, single) => [Dashes(single) + name]
    case Stopped(operand, rest) => [operand] + rest
  }

  ghost predicate EndAllowed(m: Ordering, c: Config, e: Ending) {
    match e
    case Nothing => true
    case Terminated(_) => true
    case LackingShort(cs, last) => IsCluster(c, cs, last, NoValue) && Kind(c.optstring, last).Required?
    case LackingLong(name, i, single) =>
      && IsLong(c, name, None, single) && i < |c.longopts.value|
      && LookupOk(c.longopts.value, name, Found(i)) && c.longopts.value[i].hasArg == 1
    case Stopped(operand, _) => m == RequireOrder && IsNonOption(operand)
  }

  /** What the ending adds to the report, to the finished elements and to what is left. */
  function EndParsed(c: Config, e: Ending): Parsed {
    var ret := if ":" <= c.optstring then ':' as int else '?' as int;
    match e
    case Nothing => Parsed([], [], [], false)
    case Terminated(rest) => Parsed([], ["--"], rest, true)
    case LackingShort(cs, last) =>
      Parsed(LetterEvents(c.optstring, cs) + [Got(ret, None, None, Some(last), MissingArgument)],
             WriteEnd(e), [], false)
    case LackingLong(_, _, _) => Parsed([Got(ret, None, None, None, MissingArgument)], WriteEnd(e), [], false)
    case Stopped(operand, rest) => Parsed([], [], [operand] + rest, false)
  }

  lemma {:induction false} OptionUnderstood(m: Ordering, c: Config, x: Intent, t: seq<string>)
    requires !x.Operand? && Allowed(c, x)
    ensures var q := Parse(m, c, c, t, "");
      Parse(m, c, c, Write(x) + t, "") == q.(events := Told(m, c, x) + q.events, opts := Write(x) + q.opts)
  {
    if x.Short? { ShortUnderstood(m, c, x, t); } else { LongUnderstood(m, c, x, t); }
  }

  lemma {:induction false} OperandUnderstood(m: Ordering, c: Config, a: string, t: seq<string>)
    requires m != RequireOrder && IsNonOption(a)
    ensures var x, q := Operand(a), Parse(m, c, c, t, "");
      Parse(m, c, c, [a] + t, "") ==
        Parsed(Told(m, c, x) + q.events, Meant(m, x).0 + q.opts, Meant(m, x).1 + q.rest, q.ended)
  {
    var tail, q := [a] + t, Parse(m, c, c, t, "");
    assert tail[1..] == t;
    assert [] + q.events == q.events && [] + q.opts == q.opts && [] + q.rest == q.rest;
  }

  lemma {:induction false} LackingShortUnderstood(m: Ordering, c: Config, e: Ending)
    requires e.LackingShort? && EndAllowed(m, c, e)
    ensures Parse(m, c, c, WriteEnd(e), "") == EndParsed(c, e)
  {
    var tail := WriteEnd(e);
    ClusterElement(c, e.cs, e.last, NoValue);
    ShortThroughout(c, e.cs, e.last, NoValue, tail[0]);
    FreshParse(m, c, tail);
    LetterRun(m, c, tail, e.cs, [e.last]);
    assert e.cs[|e.cs|..] + [e.last] == [e.last];
    LackingLast(m, c, tail, e.last);
  }

  lemma {:induction false} LackingLast(m: Ordering, c: Config, tail: seq<string>, last: char)
    requires |tail| == 1 && Resumable(tail, [last]) && GoesShort(c, tail[0], [last])
    requires Kind(c.optstring, last).Required?
    ensures var ret := if ":" <= c.optstring then ':' as int else '?' as int;
      Parse(m, c, c, tail, [last]) == Parsed([Got(ret, None, None, Some(last), MissingArgument)], tail, [], false)
  {
    ShortOrLong(c, tail, [last]);
    assert tail[1..] == [] && tail[..1] == tail && tail + [] == tail;
    assert Parse(m, c, c, [], "") == Parsed([], [], [], false);
  }

  lemma {:induction false} LackingLongUnderstood(m: Ordering, c: Config, e: Ending)
    requires e.LackingLong? && EndAllowed(m, c, e)
    ensures Parse(m, c, c, WriteEnd(e), "") == EndParsed(c, e)
  {
    var tail := WriteEnd(e);
    LongElement(c, e.name, None, e.single);
    LongOptionMeaning(c, tail, e.name, None, Found(e.i));
    FreshParse(m, c, tail);
    assert tail[1..] == [] && tail[..1] == tail && tail + [] == tail;
    assert Parse(m, c, c, [], "") == Parsed([], [], [], false);
  }

  lemma {:induction false} EndUnderstood(m: Ordering, c: Config, e: Ending)
    requires EndAllowed(m, c, e)
    ensures Parse(m, c, c, WriteEnd(e), "") == EndParsed(c, e)
  {
    match e
    case Nothing =>
    case Terminated(rest) => assert (["--"] + rest)[1..] == rest;
    case LackingShort(_, _) => LackingShortUnderstood(m, c, e);
    case LackingLong(_, _, _) => LackingLongUnderstood(m, c, e);
    case Stopped(operand, rest) => assert ([operand] + rest)[0] == operand;
  }

  function Joined(m: Ordering, c: Config, xs: seq<Intent>, q: Parsed): Parsed
    requires AllAllowed(c, xs)
  {
    Parsed(ToldAll(m, c, xs) + q.events, FinishedAll(m, xs) + q.opts, LeftAll(m, xs) + q.rest, q.ended)
  }

  /**
   Every command line written from intended options, refused ones, operands in
   any order and one of the endings is understood as written, in every mode
   (without permutation, with the operands at the end).
   */
  lemma {:induction false} WrittenIsUnderstood(m: Ordering, c: Config, xs: seq<Intent>, e: Ending)
    requires AllAllowed(c, xs) && EndAllowed(m, c, e)
    requires m == RequireOrder ==> forall k | 0 <= k < |xs| :: !xs[k].Operand?
    ensures Parse(m, c, c, WriteAll(xs) + WriteEnd(e), "") == Joined(m, c, xs, EndParsed(c, e))
  {
    var end, p := WriteEnd(e), EndParsed(c, e);
    if xs == [] {
      EndUnderstood(m, c, e);
      assert [] + end == end && [] + p.events == p.events && [] + p.opts == p.opts && [] + p.rest == p.rest;
    } else {
      var x, t := xs[0], WriteAll(xs[1..]) + end;
      WrittenIsUnderstood(m, c, xs[1..], e);
      Assoc(Write(x), WriteAll(xs[1..]), end);
      if x.Operand? { OperandUnderstood(m, c, x.text, t); } else { OptionUnderstood(m, c, x, t); }
      JoinedStep(m, c, xs, p);
      if !x.Operand? { NothingLeft(m, x, Joined(m, c, xs[1..], p).rest); }
    }
  }

  lemma {:induction false} NothingLeft(m: Ordering, x: Intent, rest: seq<string>)
    requires !x.Operand?
    ensures Meant(m, x).0 == Write(x) && Meant(m, x).1 + rest == rest
  {
    assert [] + rest == rest;
  }

  lemma {:induction false} JoinedStep(m: Ordering, c: Config, xs: seq<Intent>, p: Parsed)
    requires xs != [] && AllAllowed(c, xs)
    ensures var q := Joined(m, c, xs[1..], p);
      Joined(m, c, xs, p)
      == Parsed(Told(m, c, xs[0]) + q.events, Meant(m, xs[0]).0 + q.opts, Meant(m, xs[0]).1 + q.rest, q.ended)
  {
    Assoc(Told(m, c, xs[0]), ToldAll(m, c, xs[1..]), p.events);
    Assoc(Meant(m, xs[0]).0, FinishedAll(m, xs[1..]), p.opts);
    Assoc(Meant(m, xs[0]).1, LeftAll(m, xs[1..]), p.rest);
  }

  /** optstring chooses no mode of its own. */
  predicate Unmarked(optstring: string) {
    optstring == "" || (optstring[0] != '-' && optstring[0] != '+')
  }

  /** The same through a whole scan of argv, with the finished elements in front and optind behind them. */
  lemma {:induction false} ScanUnderstands(c: Config, posixlyCorrect: bool, prog: string, xs: seq<Intent>, e: Ending)
    requires Unmarked(c.optstring) && AllAllowed(c, xs)
    requires EndAllowed(if posixlyCorrect then RequireOrder else Permute, c, e)
    requires posixlyCorrect ==> forall k | 0 <= k < |xs| :: !xs[k].Operand?
    ensures var m := if posixlyCorrect then RequireOrder else Permute;
      var p := Joined(m, c, xs, EndParsed(c, e));
      var (es, f) := Scan(c, posixlyCorrect, [prog] + (WriteAll(xs) + WriteEnd(e)));
      es == p.events && f.argv == [prog] + p.opts + p.rest && f.optind == 1 + |p.opts|
  {
    var m := if posixlyCorrect then RequireOrder else Permute;
    WrittenIsUnderstood(m, c, xs, e);
    var argv := [prog] + (WriteAll(xs) + WriteEnd(e));
    assert argv[1..] == WriteAll(xs) + WriteEnd(e);
    ScanIsParse(c, posixlyCorrect, argv);
    assert FirstConfig(c) == c && OrderingOf(c.optstring, posixlyCorrect) == m;
  }

  /** A refused long option on its own: reported with '?' and nothing else, and passed over. */
  lemma {:induction false} RefusedScan(c: Config, posixlyCorrect: bool, prog: string, x: Intent)
    requires Unmarked(c.optstring) && x.Refused? && Allowed(c, x)
    ensures var argv := [prog] + Write(x);
      var (es, f) := Scan(c, posixlyCorrect, argv);
      es == [Got('?' as int, None, None, None, x.why)] && f.argv == argv && f.optind == 2
  {
    ScanUnderstands(c, posixlyCorrect, prog, [x], Nothing);
    OneIntent(if posixlyCorrect then RequireOrder else Permute, c, x);
    assert [prog] + Write(x) + [] == [prog] + Write(x);
  }

  lemma {:induction false} OneIntent(m: Ordering, c: Config, x: Intent)
    requires Allowed(c, x) && !x.Operand?
    ensures WriteAll([x]) + WriteEnd(Nothing) == Write(x)
    ensures Joined(m, c, [x], EndParsed(c, Nothing)) == Parsed(Told(m, c, x), Write(x), [], false)
  {
    var xs := [x];
    assert xs[0] == x && xs[1..] == [];
    assert WriteAll([]) == [] && ToldAll(m, c, []) == [] && FinishedAll(m, []) == [] && LeftAll(m, []) == [];
    assert WriteAll(xs) == Write(x) + [] && ToldAll(m, c, xs) == Told(m, c, x) + [];
    assert FinishedAll(m, xs) == Write(x) + [] && LeftAll(m, xs) == [] + [];
  }
}
