/**
 The meaning of a format string: a recursive grammar over its characters and
 the argument list, with no buffer and no scanning state.
 */
module SnprintfFormat {
  import opened Basics
  import opened SnprintfText

  datatype Arg = IntArg(v: int) | StrArg(s: Option<string>)

  /** The length modifier. */
  datatype Size = Default | Char | Short | Long | LongLong | LongDouble | IntMax | PtrDiff | SizeT

  /**
   Done: the text and the arguments not consumed.  Overflow: a width or
   precision numeral was too large after this much text.  Undefined: the C
   code's behaviour is undefined here (argument missing or of the wrong kind,
   int arithmetic out of range) or the conversion is not modelled.
   */
  datatype Meaning =
    | Done(text: string, args: seq<Arg>)
    | Overflow(text: string)
    | Undefined

  function Prefixed(t: string, m: Meaning): Meaning {
    match m
    case Done(u, a) => Done(t + u, a)
    case Overflow(u) => Overflow(t + u)
    case Undefined => Undefined
  }

  // ---------------------------------------------------------------- lexical parts

  predicate IsFlag(c: char) {
    c == '-' || c == '+' || c == ' ' || c == '#' || c == '0' || c == '\''
  }

  predicate IsDigit(c: char) {
    '0' <= c <= '9'
  }

  /** How many characters at the front of f are flags. */
  function FlagSpan(f: string): (k: nat)
    ensures k <= |f|
  {
    if f != "" && IsFlag(f[0]) then 1 + FlagSpan(f[1..]) else 0
  }

  function DigitSpan(f: string): (k: nat)
    ensures k <= |f| && forall i | 0 <= i < k :: IsDigit(f[i])
  {
    if f != "" && IsDigit(f[0]) then 1 + DigitSpan(f[1..]) else 0
  }

  /** The flags given by a run of flag characters, whatever their order and number. */
  function FlagsOf(s: string): Flags {
    Flags('-' in s, '+' in s, ' ' in s, '#' in s, '0' in s, '\'' in s, false, false)
  }

  function Union(a: Flags, b: Flags): Flags {
    Flags(a.minus || b.minus, a.plus || b.plus, a.space || b.space, a.num || b.num,
          a.zero || b.zero, a.quote || b.quote, a.up || b.up, a.uns || b.uns)
  }

  function Digit(c: char): (d: nat)
    requires IsDigit(c)
    ensures d <= 9
  {
    c as int - '0' as int
  }

  /** The value of a decimal numeral read after acc. */
  function Decimal(acc: nat, s: string): nat
    requires forall i | 0 <= i < |s| :: IsDigit(s[i])
    decreases |s|
  {
    if s == "" then acc else Decimal(10 * acc + Digit(s[0]), s[1..])
  }

  /** The length modifier at the front of f and its number of characters. */
  function Modifier(f: string): (r: (Size, nat))
    ensures r.1 <= |f| && r.1 <= 2
  {
    if f == "" then (Default, 0)
    else match f[0]
      case 'h' => if |f| > 1 && f[1] == 'h' then (Char, 2) else (Short, 1)
      case 'l' => if |f| > 1 && f[1] == 'l' then (LongLong, 2) else (Long, 1)
      case 'L' => (LongDouble, 1)
      case 'j' => (IntMax, 1)
      case 't' => (PtrDiff, 1)
      case 'z' => (SizeT, 1)
      case _ => (Default, 0)
  }

  // ---------------------------------------------------------------- conversions

  /** The value a signed conversion takes from an int-like argument. */
  function SignedValue(size: Size, v: int): (r: int)
    ensures -(TWO64 / 2) <= r < TWO64 / 2
  {
    match size
    case Char => Signed(TWO8, v)
    case Short => Signed(TWO16, v)
    case Default => Signed(TWO32, v)
    case LongDouble => Signed(TWO32, v)
    case _ => Signed(TWO64, v)
  }

  /** The same for an unsigned conversion; the value then passes through an intmax_t. */
  function UnsignedValue(size: Size, v: int): (r: int)
    ensures -(TWO64 / 2) <= r < TWO64 / 2
  {
    match size
    case Char => Unsigned(TWO8, v)
    case Short => Unsigned(TWO16, v)
    case Default => Unsigned(TWO32, v)
    case LongDouble => Unsigned(TWO32, v)
    case _ => Signed(TWO64, Unsigned(TWO64, v))
  }

  /** The int in which the padding is computed does not underflow. */
  predicate SlackFits(value: int, base: nat, width: int, precision: int, fl: Flags)
    requires IsBase(base)
  {
    Slack(value, base, width, precision, fl) >= INT_MIN
  }

  function ConvertInt(value: int, base: nat, width: int, precision: int, fl: Flags, args: seq<Arg>): Meaning
    requires IsBase(base)
  {
    if SlackFits(value, base, width, precision, fl) then Done(IntText(value, base, width, precision, fl), args)
    else Undefined
  }

  predicate IsIntConversion(c: char) {
    c == 'd' || c == 'i' || c == 'u' || c == 'o' || c == 'x' || c == 'X'
  }

  predicate IsUnmodelled(c: char) {
    c in "aAeEfFgGpn"
  }

  /** The conversion c with everything before it resolved. */
  function Convert(c: char, args: seq<Arg>, fl: Flags, width: int, precision: int, size: Size): Meaning {
    if IsIntConversion(c) then
      if args == [] || !args[0].IntArg? then Undefined
      else if c == 'd' || c == 'i' then
        ConvertInt(SignedValue(size, args[0].v), 10, width, precision, fl, args[1..])
      else
        ConvertInt(UnsignedValue(size, args[0].v), if c == 'u' then 10 else if c == 'o' then 8 else 16,
                   width, precision, fl.(up := fl.up || c == 'X', uns := true), args[1..])
    else if c == 'c' then
      if args == [] || !args[0].IntArg? then Undefined
      else Done([Unsigned(TWO8, args[0].v) as char], args[1..])
    else if c == 's' then
      if args == [] || !args[0].StrArg? || |Admitted(args[0].s, precision)| > INT_MAX then Undefined
      else Done(StrText(args[0].s, width, precision, fl.minus), args[1..])
    else if c == '%' then Done("%", args)
    else if IsUnmodelled(c) then Undefined
    else Done("", args)
  }

  /** How many values the type that a length modifier names has. */
  function Values(size: Size): int {
    match size
    case Char => TWO8
    case Short => TWO16
    case Default => TWO32
    case LongDouble => TWO32
    case _ => TWO64
  }

  /**
   An integer conversion of a value of the type the modifier names prints
   something that reads back as that value, in the base of the conversion.
   */
  lemma {:induction false} ConversionReadsBack(c: char, v: int, rest: seq<Arg>, fl: Flags, width: int, precision: int,
                                               size: Size)
    requires IsIntConversion(c) && !fl.uns && !fl.up
    requires if c == 'd' || c == 'i' then -(Values(size) / 2) <= v < Values(size) / 2 else 0 <= v < Values(size)
    requires Convert(c, [IntArg(v)] + rest, fl, width, precision, size).Done?
    ensures var m := Convert(c, [IntArg(v)] + rest, fl, width, precision, size);
      && m.args == rest
      && ReadInt(m.text, if c == 'o' then 8 else if c == 'x' || c == 'X' then 16 else 10) == v
  {
    var args := [IntArg(v)] + rest;
    assert args[1..] == rest && args[0].v == v;
    if c == 'd' || c == 'i' {
      SignedFits(size, v);
      IntTextReads(v, 10, width, precision, fl);
    } else {
      UnsignedFits(size, v);
      IntTextReads(UnsignedValue(size, v), if c == 'u' then 10 else if c == 'o' then 8 else 16, width, precision,
                   fl.(up := fl.up || c == 'X', uns := true));
    }
  }

  lemma {:induction false} SignedFits(size: Size, v: int)
    requires -(Values(size) / 2) <= v < Values(size) / 2
    ensures SignedValue(size, v) == v
  {
    SignedIdentity(Values(size), v);
  }

  lemma {:induction false} SignedIdentity(n: int, v: int)
    requires n > 0 && n % 2 == 0 && -(n / 2) <= v < n / 2
    ensures Signed(n, v) == v
  {
    ModOf(n, v, if v < 0 then v + n else v);
  }

  /** The remainder is the only number in range that differs by a multiple, here at most one, of n. */
  lemma {:induction false} ModOf(n: int, v: int, r: int)
    requires 0 <= r < n && (r == v || r == v + n || r == v - n)
    ensures v % n == r
  {
    var q, m := v / n, v % n;
    assert v == n * q + m;
    var k := if r == v then q else if r == v + n then q + 1 else q - 1;
    assert r - m == n * k;
    SmallMultiple(n, k, r - m);
  }

  lemma {:induction false} SmallMultiple(n: int, k: int, d: int)
    requires d == n * k && -n < d < n
    ensures d == 0
  {
    if k >= 1 { MulMonotone(n, 1, k); } else if k <= -1 { MulMonotone(n, 1, -k); }
  }

  lemma {:induction false} UnsignedFits(size: Size, v: int)
    requires 0 <= v < Values(size)
    ensures Unsigned(TWO64, UnsignedValue(size, v)) == v
  {
    ModOf(Values(size), v, v);
    ModOf(TWO64, v, v);
    if Values(size) == TWO64 && v >= TWO64 / 2 {
      ModOf(TWO64, v - TWO64, v);
    }
  }

  // ---------------------------------------------------------------- the grammar

  /** The meaning of a whole format. */
  function Interpret(f: string, args: seq<Arg>): Meaning
    decreases |f|, 10
  {
    if f == "" then Done("", args)
    else if f[0] != '%' then Prefixed([f[0]], Interpret(f[1..], args))
    else FlagsPart(f[1..], args, NO_FLAGS)
  }

  /** Flags, any number in any order. */
  function FlagsPart(f: string, args: seq<Arg>, fl: Flags): Meaning
    decreases |f|, 9
  {
    var k := FlagSpan(f);
    WidthPart(f[k..], args, Union(fl, FlagsOf(f[..k])), 0)
  }

  /** A decimal width (continuing w) and then possibly a '*'. */
  function WidthPart(f: string, args: seq<Arg>, fl: Flags, w: nat): Meaning
    decreases |f|, 8
  {
    var k := DigitSpan(f);
    var n := Decimal(w, f[..k]);
    if n > INT_MAX then Overflow("") else WidthStar(f[k..], args, fl, n)
  }

  /** A '*' overrides the width; a negative argument means left justification. */
  function WidthStar(f: string, args: seq<Arg>, fl: Flags, w: nat): Meaning
    decreases |f|, 7
  {
    if f == "" || f[0] != '*' then DotPart(f, args, fl, w)
    else if args == [] || !args[0].IntArg? then Undefined
    else
      var a := Signed(TWO32, args[0].v);
      if a == INT_MIN then Undefined
      else if a < 0 then DotPart(f[1..], args[1..], fl.(minus := true), -a)
      else DotPart(f[1..], args[1..], fl, a)
  }

  function DotPart(f: string, args: seq<Arg>, fl: Flags, w: nat): Meaning
    decreases |f|, 6
  {
    if f != "" && f[0] == '.' then PrecisionPart(f[1..], args, fl, w, 0)
    else ModifierPart(f, args, fl, w, -1)
  }

  function PrecisionPart(f: string, args: seq<Arg>, fl: Flags, w: nat, p: nat): Meaning
    decreases |f|, 5
  {
    var k := DigitSpan(f);
    var n := Decimal(p, f[..k]);
    if n > INT_MAX then Overflow("") else PrecisionStar(f[k..], args, fl, w, n)
  }

  /** A '*' overrides the precision; a negative argument means none. */
  function PrecisionStar(f: string, args: seq<Arg>, fl: Flags, w: nat, p: nat): Meaning
    decreases |f|, 4
  {
    if f == "" || f[0] != '*' then ModifierPart(f, args, fl, w, p)
    else if args == [] || !args[0].IntArg? then Undefined
    else
      var a := Signed(TWO32, args[0].v);
      ModifierPart(f[1..], args[1..], fl, w, if a < 0 then -1 else a)
  }

  function ModifierPart(f: string, args: seq<Arg>, fl: Flags, w: nat, p: int): Meaning
    decreases |f|, 3
  {
    var (size, n) := Modifier(f);
    ConversionPart(f[n..], args, fl, w, p, size)
  }

  function ConversionPart(f: string, args: seq<Arg>, fl: Flags, w: nat, p: int, size: Size): Meaning
    decreases |f|, 2
  {
    if f == "" then Done("", args)
    else
      match Convert(f[0], args, fl, w, p, size)
      case Done(t, a) => Prefixed(t, Interpret(f[1..], a))
      case Overflow(t) => Overflow(t)
      case Undefined => Undefined
  }

  // ---------------------------------------------------------------- reading a directive one character at a time

  lemma {:induction false} FlagStep(f: string, args: seq<Arg>, fl: Flags)
    requires f != "" && IsFlag(f[0])
    ensures FlagsPart(f, args, fl) == FlagsPart(f[1..], args, Union(fl, FlagsOf([f[0]])))
  {
    var k := FlagSpan(f[1..]);
    assert f[..k + 1] == [f[0]] + f[1..][..k];
    assert f[k + 1..] == f[1..][k..];
    FlagsConcat(fl, [f[0]], f[1..][..k]);
  }

  lemma {:induction false} FlagsConcat(fl: Flags, s: string, t: string)
    ensures Union(fl, FlagsOf(s + t)) == Union(Union(fl, FlagsOf(s)), FlagsOf(t))
  {
  }

  lemma {:induction false} FlagStop(f: string, args: seq<Arg>, fl: Flags)
    requires f != "" ==> !IsFlag(f[0])
    ensures FlagsPart(f, args, fl) == WidthPart(f, args, fl, 0)
  {
    assert f[0..] == f && f[..0] == "";
    assert Union(fl, FlagsOf("")) == fl;
  }

  lemma {:induction false} DecimalGrows(acc: nat, s: string)
    requires forall i | 0 <= i < |s| :: IsDigit(s[i])
    ensures Decimal(acc, s) >= acc
    decreases |s|
  {
    if s != "" { DecimalGrows(10 * acc + Digit(s[0]), s[1..]); }
  }

  /** The split of a numeral into its first digit and the rest. */
  lemma {:induction false} DigitSplit(f: string, w: nat)
    requires f != "" && IsDigit(f[0])
    ensures var k := DigitSpan(f);
      && k == 1 + DigitSpan(f[1..]) && f[k..] == f[1..][k - 1..]
      && Decimal(w, f[..k]) == Decimal(10 * w + Digit(f[0]), f[1..][..k - 1])
  {
    var k := DigitSpan(f);
    var s := f[..k];
    assert s[1..] == f[1..][..k - 1] && s[0] == f[0];
    assert f[k..] == f[1..][k - 1..];
  }

  /** Stopping at the first digit that takes the width past INT_MAX is right: more digits only make it larger. */
  lemma {:induction false} WidthStep(f: string, g: string, args: seq<Arg>, fl: Flags, w: nat, n: nat)
    requires f != "" && IsDigit(f[0]) && g == f[1..] && n == 10 * w + Digit(f[0])
    ensures WidthPart(f, args, fl, w) == if n > INT_MAX then Overflow("") else WidthPart(g, args, fl, n)
  {
    DigitSplit(f, w);
    DecimalGrows(n, g[..DigitSpan(g)]);
  }

  lemma {:induction false} PrecisionStep(f: string, g: string, args: seq<Arg>, fl: Flags, w: nat, p: nat, n: nat)
    requires f != "" && IsDigit(f[0]) && g == f[1..] && n == 10 * p + Digit(f[0])
    ensures PrecisionPart(f, args, fl, w, p) == if n > INT_MAX then Overflow("") else PrecisionPart(g, args, fl, w, n)
  {
    DigitSplit(f, p);
    DecimalGrows(n, g[..DigitSpan(g)]);
  }

  // ---------------------------------------------------------------- formats end to end

  /** f is a sequence of ordinary characters and whole directives. */
  predicate Complete(f: string)
    decreases |f|, 9
  {
    f == "" || if f[0] == '%' then WholeFlags(f[1..]) else Complete(f[1..])
  }

  predicate WholeFlags(f: string)
    decreases |f|, 8
  {
    WholeWidth(f[FlagSpan(f)..])
  }

  predicate WholeWidth(f: string)
    decreases |f|, 7
  {
    WholeWidthStar(f[DigitSpan(f)..])
  }

  predicate WholeWidthStar(f: string)
    decreases |f|, 6
  {
    f != "" && WholeDot(if f[0] == '*' then f[1..] else f)
  }

  predicate WholeDot(f: string)
    decreases |f|, 5
  {
    f != "" && if f[0] == '.' then WholePrecision(f[1..]) else WholeModifier(f)
  }

  predicate WholePrecision(f: string)
    decreases |f|, 4
  {
    WholePrecisionStar(f[DigitSpan(f)..])
  }

  predicate WholePrecisionStar(f: string)
    decreases |f|, 3
  {
    f != "" && WholeModifier(if f[0] == '*' then f[1..] else f)
  }

  predicate WholeModifier(f: string)
    decreases |f|, 2
  {
    WholeConversion(f[Modifier(f).1..])
  }

  predicate WholeConversion(f: string)
    decreases |f|, 1
  {
    f != "" && Complete(f[1..])
  }

  /** Going on with the format g after meaning m. */
  function Then(m: Meaning, g: string): Meaning {
    match m
    case Done(t, a) => Prefixed(t, Interpret(g, a))
    case Overflow(t) => m
    case Undefined => m
  }

  lemma {:induction false} PrefixedThen(t: string, m: Meaning, g: string)
    ensures Then(Prefixed(t, m), g) == Prefixed(t, Then(m, g))
  {
    if m.Done? {
      match Interpret(g, m.args)
      case Done(u, _) => assert (t + m.text) + u == t + (m.text + u);
      case Overflow(u) => assert (t + m.text) + u == t + (m.text + u);
      case Undefined =>
    }
  }

  lemma {:induction false} FlagSpanStops(f: string, g: string)
    requires FlagSpan(f) < |f|
    ensures FlagSpan(f + g) == FlagSpan(f)
  {
    if IsFlag(f[0]) {
      assert (f + g)[1..] == f[1..] + g;
      FlagSpanStops(f[1..], g);
    }
  }

  lemma {:induction false} DigitSpanStops(f: string, g: string)
    requires DigitSpan(f) < |f|
    ensures DigitSpan(f + g) == DigitSpan(f)
  {
    if IsDigit(f[0]) {
      assert (f + g)[1..] == f[1..] + g;
      DigitSpanStops(f[1..], g);
    }
  }

  lemma {:induction false} Cut(f: string, g: string, k: nat)
    requires k <= |f|
    ensures (f + g)[..k] == f[..k] && (f + g)[k..] == f[k..] + g
  {
  }

  /**
   Nothing leaks from one directive into the next: the meaning of f followed by
   g is the meaning of f and then that of g on the arguments f left.
   */
  lemma {:induction false} FormatsCompose(f: string, g: string, args: seq<Arg>)
    requires Complete(f)
    ensures Interpret(f + g, args) == Then(Interpret(f, args), g)
    decreases |f|, 10
  {
    if f == "" {
      assert f + g == g;
      EmptyPrefix(Interpret(g, args));
    } else {
      Cut(f, g, 1);
      if f[0] == '%' {
        FlagsCompose(f[1..], g, args, NO_FLAGS);
      } else {
        FormatsCompose(f[1..], g, args);
        PrefixedThen([f[0]], Interpret(f[1..], args), g);
      }
    }
  }

  lemma {:induction false} EmptyPrefix(m: Meaning)
    ensures Prefixed("", m) == m
  {
    if !m.Undefined? { assert "" + m.text == m.text; }
  }

  lemma {:induction false} FlagsCompose(f: string, g: string, args: seq<Arg>, fl: Flags)
    requires WholeFlags(f)
    ensures FlagsPart(f + g, args, fl) == Then(FlagsPart(f, args, fl), g)
    decreases |f|, 9
  {
    var k := FlagSpan(f);
    assert WholeWidthStar(f[k..][DigitSpan(f[k..])..]);
    FlagSpanStops(f, g);
    Cut(f, g, k);
    WidthCompose(f[k..], g, args, Union(fl, FlagsOf(f[..k])), 0);
  }

  lemma {:induction false} WidthCompose(f: string, g: string, args: seq<Arg>, fl: Flags, w: nat)
    requires WholeWidth(f)
    ensures WidthPart(f + g, args, fl, w) == Then(WidthPart(f, args, fl, w), g)
    decreases |f|, 8
  {
    var k := DigitSpan(f);
    DigitSpanStops(f, g);
    Cut(f, g, k);
    WidthStarCompose(f[k..], g, args, fl, Decimal(w, f[..k]));
  }

  lemma {:induction false} WidthStarCompose(f: string, g: string, args: seq<Arg>, fl: Flags, w: nat)
    requires WholeWidthStar(f)
    ensures WidthStar(f + g, args, fl, w) == Then(WidthStar(f, args, fl, w), g)
    decreases |f|, 7
  {
    Cut(f, g, 1);
    assert (f + g)[0] == f[0];
    if f[0] != '*' {
      DotCompose(f, g, args, fl, w);
    } else if args != [] && args[0].IntArg? {
      var a := Signed(TWO32, args[0].v);
      if a >= 0 {
        DotCompose(f[1..], g, args[1..], fl, a);
      } else if a != INT_MIN {
        DotCompose(f[1..], g, args[1..], fl.(minus := true), -a);
      }
    }
  }

  lemma {:induction false} DotCompose(f: string, g: string, args: seq<Arg>, fl: Flags, w: nat)
    requires WholeDot(f)
    ensures DotPart(f + g, args, fl, w) == Then(DotPart(f, args, fl, w), g)
    decreases |f|, 6
  {
    assert (f + g)[0] == f[0];
    Cut(f, g, 1);
    if f[0] == '.' {
      PrecisionCompose(f[1..], g, args, fl, w, 0);
    } else {
      ModifierCompose(f, g, args, fl, w, -1);
    }
  }

  lemma {:induction false} PrecisionCompose(f: string, g: string, args: seq<Arg>, fl: Flags, w: nat, p: nat)
    requires WholePrecision(f)
    ensures PrecisionPart(f + g, args, fl, w, p) == Then(PrecisionPart(f, args, fl, w, p), g)
    decreases |f|, 5
  {
    var k := DigitSpan(f);
    DigitSpanStops(f, g);
    Cut(f, g, k);
    PrecisionStarCompose(f[k..], g, args, fl, w, Decimal(p, f[..k]));
  }

  lemma {:induction false} PrecisionStarCompose(f: string, g: string, args: seq<Arg>, fl: Flags, w: nat, p: nat)
    requires WholePrecisionStar(f)
    ensures PrecisionStar(f + g, args, fl, w, p) == Then(PrecisionStar(f, args, fl, w, p), g)
    decreases |f|, 4
  {
    Cut(f, g, 1);
    assert (f + g)[0] == f[0];
    if f[0] != '*' {
      ModifierCompose(f, g, args, fl, w, p);
    } else if args != [] && args[0].IntArg? {
      var a := Signed(TWO32, args[0].v);
      ModifierCompose(f[1..], g, args[1..], fl, w, if a < 0 then -1 else a);
    }
  }

  lemma {:induction false} ModifierCompose(f: string, g: string, args: seq<Arg>, fl: Flags, w: nat, p: int)
    requires WholeModifier(f)
    ensures ModifierPart(f + g, args, fl, w, p) == Then(ModifierPart(f, args, fl, w, p), g)
    decreases |f|, 3
  {
    var (size, n) := Modifier(f);
    assert |f| > n && (f + g)[0] == f[0] && (|f| > 1 ==> (f + g)[1] == f[1]);
    assert Modifier(f + g) == Modifier(f);
    Cut(f, g, n);
    ConversionCompose(f[n..], g, args, fl, w, p, size);
  }

  lemma {:induction false} ConversionCompose(f: string, g: string, args: seq<Arg>, fl: Flags, w: nat, p: int,
                                             size: Size)
    requires WholeConversion(f)
    ensures ConversionPart(f + g, args, fl, w, p, size) == Then(ConversionPart(f, args, fl, w, p, size), g)
    decreases |f|, 2
  {
    Cut(f, g, 1);
    var c := Convert(f[0], args, fl, w, p, size);
    if c.Done? {
      FormatsCompose(f[1..], g, c.args);
      PrefixedThen(c.text, Interpret(f[1..], c.args), g);
    }
  }
}
