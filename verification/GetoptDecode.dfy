/**
 The part of GNU getopt that decodes one option, given the text still to be
 scanned.  Everything here is a function of the elements from the current one
 onwards; what happens to the elements before it is the business of
 `GetoptMachine`.
 */
module GetoptDecode {
  import opened Basics

  /** `struct option` with a null `flag`; `hasArg` is the raw C int. */
  datatype LongOption = LongOption(name: string, hasArg: int, val: int)

  /** What one call is given besides argv.  `longopts` is None for a null table. */
  datatype Config = Config(optstring: string, longopts: Option<seq<LongOption>>, longOnly: bool)

  /** Which message, if any, the call prints when `opterr` is set. */
  datatype Complaint = Silent | Ambiguous | ExtraArgument | MissingArgument | Unrecognized | InvalidCharacter

  /**
   What one call that does not end the scan hands to its caller.  `longind` and
   `optopt` are None when the call leaves those variables alone.  `InOrder` is
   the report of a non-option (return value 1 in RETURN_IN_ORDER mode).
   */
  datatype Event =
    | Got(ret: int, optarg: Option<string>, longind: Option<nat>, optopt: Option<char>, complaint: Complaint)
    | InOrder(arg: string)

  /** The result of decoding: the event, how many elements are now finished, the rest of the cluster. */
  datatype Decoded = Decoded(event: Event, used: nat, nextchar: string)

  const QUESTION: int := '?' as int

  /** `strchr` as an index; |s| stands for a null result. */
  function IndexOf(s: string, c: char): (i: nat)
    ensures i <= |s|
    ensures i < |s| ==> s[i] == c
    ensures c !in s[..i]
  {
    if s == [] || s[0] == c then 0 else
      var i := 1 + IndexOf(s[1..], c);
      assert s[..i] == [s[0]] + s[1..][..i - 1];
      i
  }

  predicate Listed(s: string, c: char) {
    IndexOf(s, c) < |s|
  }

  /** An element that is not scanned for options: it does not start with '-' or is exactly "-". */
  predicate IsNonOption(a: string) {
    |a| == 0 || a[0] != '-' || |a| == 1
  }

  // ---------------------------------------------------------------- short options

  datatype ArgKind = Unknown | Plain | Required | Optional

  predicate At(s: string, i: nat, c: char) {
    i < |s| && s[i] == c
  }

  /** How `optstring` declares the option character c. */
  function Kind(optstring: string, c: char): ArgKind {
    var i := IndexOf(optstring, c);
    if i == |optstring| || c == ':' then Unknown
    else if !At(optstring, i + 1, ':') then Plain
    else if At(optstring, i + 2, ':') then Optional
    else Required
  }

  /** The value returned for a missing argument. */
  function MissingCode(optstring: string): int {
    if At(optstring, 0, ':') then ':' as int else QUESTION
  }

  function Option1(ret: int, optarg: Option<string>): Event {
    Got(ret, optarg, None, None, Silent)
  }

  function DecodeShort(optstring: string, tail: seq<string>, nc: string): (d: Decoded)
    requires |tail| > 0 && nc != ""
    ensures d.used <= |tail|
    ensures d.used == 0 ==> d.nextchar == nc[1..] && d.nextchar != ""
    ensures d.used > 0 ==> d.nextchar == ""
    ensures d.event.Got?
  {
    var c, rest := nc[0], nc[1..];
    match Kind(optstring, c)
    case Unknown =>
      Decoded(Got(QUESTION, None, None, Some(c), InvalidCharacter), if rest == "" then 1 else 0, rest)
    case Plain =>
      Decoded(Option1(c as int, None), if rest == "" then 1 else 0, rest)
    case Optional =>
      Decoded(Option1(c as int, if rest == "" then None else Some(rest)), 1, "")
    case Required =>
      if rest != "" then Decoded(Option1(c as int, Some(rest)), 1, "")
      else if |tail| == 1 then Decoded(Got(MissingCode(optstring), None, None, Some(c), MissingArgument), 1, "")
      else Decoded(Option1(c as int, Some(tail[1])), 2, "")
  }

  // ---------------------------------------------------------------- long options

  datatype Lookup = NotFound | Many | Found(index: nat)

  predicate Exact(opts: seq<LongOption>, name: string, i: nat) {
    i < |opts| && opts[i].name == name
  }

  /** The given text abbreviates entry i without being its whole name. */
  predicate Abbreviates(opts: seq<LongOption>, name: string, i: nat) {
    i < |opts| && name < opts[i].name
  }

  predicate HasExact(opts: seq<LongOption>, name: string) {
    exists i | 0 <= i < |opts| :: Exact(opts, name, i)
  }

  /**
   What the lookup promises: an exact match wins, the first one if there are
   several; otherwise a unique abbreviation is expanded; two abbreviations are
   ambiguous.
   */
  ghost predicate LookupOk(opts: seq<LongOption>, name: string, r: Lookup) {
    match r
    case Found(i) =>
      || (Exact(opts, name, i) && forall j: nat | j < i :: !Exact(opts, name, j))
      || (!HasExact(opts, name) && Abbreviates(opts, name, i) &&
          forall j: nat | j != i :: !Abbreviates(opts, name, j))
    case Many =>
      !HasExact(opts, name) &&
      exists i: nat, j: nat | i < j :: Abbreviates(opts, name, i) && Abbreviates(opts, name, j)
    case NotFound =>
      !HasExact(opts, name) && forall j: nat :: !Abbreviates(opts, name, j)
  }

  /** The promise pins the answer down. */
  lemma {:induction false} LookupUnique(opts: seq<LongOption>, name: string, r: Lookup, q: Lookup)
    requires LookupOk(opts, name, r) && LookupOk(opts, name, q)
    ensures r == q
  {
    if r.Found? && q.Found? {
      if Exact(opts, name, r.index) { assert HasExact(opts, name); }
      if Exact(opts, name, q.index) { assert HasExact(opts, name); }
      assert r.index == q.index;
    }
  }

  /** The scan of the table from entry k on, with the first abbreviation so far in `seen`. */
  function FindFrom(opts: seq<LongOption>, name: string, k: nat, seen: Lookup): (r: Lookup)
    requires k <= |opts|
    decreases |opts| - k
  {
    if k == |opts| then seen
    else if Exact(opts, name, k) then Found(k)
    else if Abbreviates(opts, name, k) then FindFrom(opts, name, k + 1, if seen.NotFound? then Found(k) else Many)
    else FindFrom(opts, name, k + 1, seen)
  }

  function Find(opts: seq<LongOption>, name: string): Lookup {
    FindFrom(opts, name, 0, NotFound)
  }

  /** `seen` is the right answer for the first k entries, none of which matches exactly. */
  ghost predicate SeenOk(opts: seq<LongOption>, name: string, k: nat, seen: Lookup) {
    k <= |opts| && !HasExact(opts[..k], name) && LookupOk(opts[..k], name, seen)
  }

  lemma {:induction false} SeenStep(opts: seq<LongOption>, name: string, k: nat, seen: Lookup)
    requires SeenOk(opts, name, k, seen) && k < |opts| && !Exact(opts, name, k)
    ensures SeenOk(opts, name, k + 1,
                   if !Abbreviates(opts, name, k) then seen else if seen.NotFound? then Found(k) else Many)
  {
    var p, q := opts[..k], opts[..k + 1];
    assert forall i: nat :: Exact(q, name, i) ==> Exact(p, name, i) || i == k;
    assert forall i: nat | i < k :: Exact(q, name, i) == Exact(p, name, i);
    assert forall i: nat ::
             Abbreviates(q, name, i) <==> Abbreviates(p, name, i) || (i == k && Abbreviates(opts, name, k));
    assert !HasExact(q, name);
    if Abbreviates(opts, name, k) {
      match seen
      case NotFound =>
      case Found(i) =>
        assert Exact(p, name, i) ==> HasExact(p, name);
        assert i < k && Abbreviates(q, name, i) && Abbreviates(q, name, k);
      case Many =>
    } else {
      assert seen.Found? && Exact(p, name, seen.index) ==> HasExact(p, name);
    }
  }

  lemma {:induction false} FindFromOk(opts: seq<LongOption>, name: string, k: nat, seen: Lookup)
    requires SeenOk(opts, name, k, seen)
    ensures LookupOk(opts, name, FindFrom(opts, name, k, seen))
    decreases |opts| - k
  {
    if k == |opts| {
      assert opts[..k] == opts;
    } else if Exact(opts, name, k) {
      assert forall j: nat | j < k :: Exact(opts, name, j) == Exact(opts[..k], name, j);
    } else {
      SeenStep(opts, name, k, seen);
      FindFromOk(opts, name, k + 1,
                 if !Abbreviates(opts, name, k) then seen else if seen.NotFound? then Found(k) else Many);
    }
  }

  /** Long-name lookup: exact match first, else the sole abbreviation, else ambiguous or not found. */
  lemma {:induction false} FindMeaning(opts: seq<LongOption>, name: string)
    ensures LookupOk(opts, name, Find(opts, name))
  {
    FindFromOk(opts, name, 0, NotFound);
  }

  /** The index a successful lookup gives is an entry of the table. */
  lemma {:induction false} FindInTable(opts: seq<LongOption>, name: string)
    ensures Find(opts, name).Found? ==> Find(opts, name).index < |opts|
  {
    FindMeaning(opts, name);
  }

  /** Whether the element is looked up in the long-option table. */
  predicate TriesLong(cfg: Config, elem: string)
    requires !IsNonOption(elem)
  {
    && cfg.longopts.Some?
    && (elem[1] == '-' || (cfg.longOnly && (|elem| > 2 || !Listed(cfg.optstring, elem[1]))))
  }

  /** None means: not a long option, go on as a short one. */
  function DecodeLong(cfg: Config, tail: seq<string>, nc: string): (d: Option<Decoded>)
    requires |tail| > 0 && nc != "" && !IsNonOption(tail[0]) && cfg.longopts.Some?
    ensures d.Some? ==> 0 < d.value.used <= |tail| && d.value.nextchar == "" && d.value.event.Got?
  {
    var n := IndexOf(nc, '=');
    var opts := cfg.longopts.value;
    FindInTable(opts, nc[..n]);
    match Find(opts, nc[..n])
    case Many => Some(Decoded(Got(QUESTION, None, None, None, Ambiguous), 1, ""))
    case Found(i) =>
      var o := opts[i];
      if n < |nc| then
        if o.hasArg != 0 then Some(Decoded(Got(o.val, Some(nc[n + 1..]), Some(i), None, Silent), 1, ""))
        else Some(Decoded(Got(QUESTION, None, None, None, ExtraArgument), 1, ""))
      else if o.hasArg == 1 then
        if |tail| > 1 then Some(Decoded(Got(o.val, Some(tail[1]), Some(i), None, Silent), 2, ""))
        else Some(Decoded(Got(MissingCode(cfg.optstring), None, None, None, MissingArgument), 1, ""))
      else Some(Decoded(Got(o.val, None, Some(i), None, Silent), 1, ""))
    case NotFound =>
      if !cfg.longOnly || tail[0][1] == '-' || !Listed(cfg.optstring, nc[0]) then
        Some(Decoded(Got(QUESTION, None, None, None, Unrecognized), 1, ""))
      else None
  }

  /** One option: tail[0] is the current element and nc what is left of it. */
  function Decode(cfg: Config, tail: seq<string>, nc: string): (d: Decoded)
    requires |tail| > 0 && nc != "" && !IsNonOption(tail[0])
    ensures d.used <= |tail|
    ensures d.used == 0 ==> d.nextchar == nc[1..] && d.nextchar != ""
    ensures d.used > 0 ==> d.nextchar == ""
    ensures d.event.Got?
  {
    if TriesLong(cfg, tail[0]) then
      match DecodeLong(cfg, tail, nc)
      case Some(d) => d
      case None => DecodeShort(cfg.optstring, tail, nc)
    else DecodeShort(cfg.optstring, tail, nc)
  }

  /** The name that is looked up: what comes before the first '='. */
  function LongName(nc: string): string {
    nc[..IndexOf(nc, '=')]
  }

  /** The element, at nc, is scanned for short options. */
  predicate GoesShort(c: Config, elem: string, nc: string)
    requires !IsNonOption(elem) && nc != ""
  {
    || !TriesLong(c, elem)
    || (c.longOnly && elem[1] != '-' && Find(c.longopts.value, LongName(nc)).NotFound? && Listed(c.optstring, nc[0]))
  }

  lemma {:induction false} ShortOrLong(c: Config, tail: seq<string>, nc: string)
    requires |tail| > 0 && nc != "" && !IsNonOption(tail[0])
    ensures GoesShort(c, tail[0], nc) ==> Decode(c, tail, nc) == DecodeShort(c.optstring, tail, nc)
    ensures !GoesShort(c, tail[0], nc) ==> c.longopts.Some? && DecodeLong(c, tail, nc) == Some(Decode(c, tail, nc))
  {
  }

  /** Where scanning of a fresh option element starts. */
  function FreshNextchar(cfg: Config, elem: string): (nc: string)
    requires !IsNonOption(elem) && elem != "--"
    ensures nc != "" && |nc| < |elem| && nc == elem[|elem| - |nc|..]
  {
    elem[if cfg.longopts.Some? && elem[1] == '-' then 2 else 1..]
  }

  /** Decoding looks no further than the elements it uses up, save that a missing argument means no element is left. */
  lemma {:induction false} DecodeLocal(cfg: Config, t: seq<string>, u: seq<string>, nc: string)
    requires |t| > 0 && |u| > 0 && nc != "" && !IsNonOption(t[0]) && t[0] == u[0]
    requires var d := Decode(cfg, t, nc);
      && (d.used == 2 ==> |u| > 1 && u[1] == t[1])
      && (d.event.complaint.MissingArgument? ==> |u| == 1)
    ensures Decode(cfg, u, nc) == Decode(cfg, t, nc)
  {
  }

  /** With an element to take, the option that lacked its argument takes it. */
  lemma {:induction false} MissingTakesNext(cfg: Config, t: seq<string>, u: seq<string>, nc: string)
    requires |t| > 0 && |u| > 1 && nc != "" && !IsNonOption(t[0]) && t[0] == u[0]
    requires Decode(cfg, t, nc).event.complaint.MissingArgument?
    ensures |t| == 1 && Decode(cfg, t, nc).used == 1
    ensures Decode(cfg, u, nc).event.optarg == Some(u[1])
    ensures Decode(cfg, u, nc).event.complaint.Silent?
  {
  }

  // ---------------------------------------------------------------- what optstring and the table promise

  lemma {:induction false} IndexOfFirst(a: string, c: char, b: string)
    requires c !in a
    ensures IndexOf(a + [c] + b, c) == |a|
  {
    if a != "" {
      assert (a + [c] + b)[1..] == a[1..] + [c] + b;
      IndexOfFirst(a[1..], c, b);
    } else {
      assert (a + [c] + b)[0] == c;
    }
  }

  lemma {:induction false} IndexOfNone(a: string, c: char)
    requires c !in a
    ensures IndexOf(a, c) == |a|
  {
    if a != "" { IndexOfNone(a[1..], c); }
  }

  lemma {:induction false} IndexOfIn(a: string, c: char)
    requires c in a
    ensures Listed(a, c)
  {
    var i := IndexOf(a, c);
    assert a[..|a|] == a;
  }

  /**
   A character takes no argument, a required or an optional one according to
   the colons after its first place in optstring, and ':' is never an option.
   */
  lemma {:induction false} KindMeaning(a: string, c: char, b: string)
    requires c !in a && c != ':'
    ensures var k := Kind(a + [c] + b, c);
      && (k.Optional? <==> "::" <= b)
      && (k.Required? <==> ":" <= b && !("::" <= b))
      && (k.Plain? <==> !(":" <= b))
    ensures Kind(a, c).Unknown? && Kind(a + [c] + b, ':').Unknown?
  {
    var s := a + [c] + b;
    IndexOfFirst(a, c, b);
    IndexOfNone(a, c);
    var i := |a|;
    assert forall j: nat | j < |b| :: s[i + 1 + j] == b[j];
    assert At(s, i + 1, ':') <==> ":" <= b;
    assert At(s, i + 1, ':') && At(s, i + 2, ':') <==> "::" <= b;
  }

  /** A declared option character, by the colons after it: what is reported, and how much of argv is used up. */
  lemma {:induction false} ShortOption(a: string, c: char, b: string, tail: seq<string>, rest: string)
    requires |tail| > 0 && c !in a && c != ':'
    ensures DecodeShort(a + [c] + b, tail, [c] + rest)
            == if !(":" <= b) then Decoded(Option1(c as int, None), if rest == "" then 1 else 0, rest)
               else if rest != "" then Decoded(Option1(c as int, Some(rest)), 1, "")
               else if "::" <= b then Decoded(Option1(c as int, None), 1, "")
               else if |tail| > 1 then Decoded(Option1(c as int, Some(tail[1])), 2, "")
               else Decoded(Got(if ":" <= a + [c] + b then ':' as int else '?' as int, None, None, Some(c),
                                MissingArgument), 1, "")
  {
    KindMeaning(a, c, b);
    assert ([c] + rest)[1..] == rest;
  }

  /** A character that is not declared, or a ':': an invalid option, of which nothing else is taken. */
  lemma {:induction false} InvalidOption(optstring: string, c: char, tail: seq<string>, rest: string)
    requires |tail| > 0 && (c !in optstring || c == ':')
    ensures DecodeShort(optstring, tail, [c] + rest)
            == Decoded(Got('?' as int, None, None, Some(c), InvalidCharacter), if rest == "" then 1 else 0, rest)
  {
    if c !in optstring { IndexOfNone(optstring, c); }
    assert ([c] + rest)[1..] == rest;
  }

  lemma {:induction false} IndexOfAbsent(a: string, b: string, c: char)
    requires c !in a
    ensures IndexOf(a + b, c) == |a| + IndexOf(b, c)
  {
    if a == "" {
      assert a + b == b;
    } else {
      ConcatTail(a, b);
      IndexOfAbsent(a[1..], b, c);
    }
  }

  /** The text of a long option after its dashes. */
  function LongText(name: string, value: Option<string>): string {
    match value
    case None => name
    case Some(v) => name + ("=" + v)
  }

  lemma {:induction false} LongTextParts(name: string, value: Option<string>)
    requires '=' !in name
    ensures var nc := LongText(name, value);
      && IndexOf(nc, '=') == |name| && nc[..|name|] == name
      && (value.None? <==> |nc| == |name|) && (value.Some? ==> nc[|name| + 1..] == value.value)
  {
    match value
    case None =>
      IndexOfNone(name, '=');
    case Some(v) =>
      IndexOfAbsent(name, "=" + v, '=');
  }

  lemma {:induction false} ListedIn(s: string, c: char)
    ensures Listed(s, c) <==> c in s
  {
    if c in s { IndexOfIn(s, c); } else { IndexOfNone(s, c); }
  }

  /**
   A long option, by what the table says of its name: the whole result of
   each acceptance and of each refusal, and when the call goes on with short
   options instead.
   */
  lemma {:induction false} LongOptionMeaning(cfg: Config, tail: seq<string>, name: string, value: Option<string>,
                                             r: Lookup)
    requires |tail| > 0 && !IsNonOption(tail[0]) && cfg.longopts.Some?
    requires '=' !in name && LongText(name, value) != "" && LookupOk(cfg.longopts.value, name, r)
    ensures DecodeLong(cfg, tail, LongText(name, value))
            == match r
               case Many => Some(Refusal('?' as int, Ambiguous))
               case NotFound =>
                 if cfg.longOnly && tail[0][1] != '-' && LongText(name, value)[0] in cfg.optstring then None
                 else Some(Refusal('?' as int, Unrecognized))
               case Found(i) =>
                 var o := cfg.longopts.value[i];
                 if value.Some? && o.hasArg == 0 then Some(Refusal('?' as int, ExtraArgument))
                 else if value.None? && o.hasArg == 1 && |tail| == 1 then
                   Some(Refusal(if ":" <= cfg.optstring then ':' as int else '?' as int, MissingArgument))
                 else if value.None? && o.hasArg == 1 then
                   Some(Decoded(Got(o.val, Some(tail[1]), Some(i), None, Silent), 2, ""))
                 else Some(Decoded(Got(o.val, value, Some(i), None, Silent), 1, ""))
  {
    var nc := LongText(name, value);
    LongTextParts(name, value);
    FindMeaning(cfg.longopts.value, name);
    LookupUnique(cfg.longopts.value, name, Find(cfg.longopts.value, name), r);
    ListedIn(cfg.optstring, nc[0]);
  }

  /** One element used up, nothing but the return value and the complaint to report. */
  function Refusal(ret: int, complaint: Complaint): Decoded {
    Decoded(Got(ret, None, None, None, complaint), 1, "")
  }
}
