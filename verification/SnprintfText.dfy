/**
 The text the integer and string conversions of snprintf produce, without
 regard to any buffer, and what that text means.
 */
module SnprintfText {
  import opened Basics

  const INT_MAX: int := 0x7fff_ffff
  const INT_MIN: int := -0x8000_0000
  const TWO8: int := 0x100
  const TWO16: int := 0x1_0000
  const TWO32: int := 0x1_0000_0000
  const TWO64: int := 0x1_0000_0000_0000_0000
  const TWO128: int := 0x1_0000_0000_0000_0000_0000_0000_0000_0000

  /** Conversion to an unsigned type of n values. */
  function Unsigned(n: int, v: int): (r: int)
    requires n > 0
    ensures 0 <= r < n
  {
    v % n
  }

  /** Conversion to a signed two's-complement type of n values. */
  function Signed(n: int, v: int): (r: int)
    requires n > 0 && n % 2 == 0
    ensures -(n / 2) <= r < n / 2
  {
    if v % n < n / 2 then v % n else v % n - n
  }

  function Max(a: int, b: int): int {
    if a >= b then a else b
  }

  function Fill(n: int, c: char): (r: string)
    ensures |r| == Max(n, 0) && forall i | 0 <= i < |r| :: r[i] == c
  {
    if n <= 0 then "" else seq(n, _ => c)
  }

  /** The format flags; `up` and `uns` are set by the conversion, not by the user. */
  datatype Flags = Flags(minus: bool, plus: bool, space: bool, num: bool, zero: bool, quote: bool, up: bool, uns: bool)

  const NO_FLAGS := Flags(false, false, false, false, false, false, false, false)

  // ---------------------------------------------------------------- numerals

  predicate IsBase(base: int) {
    base == 8 || base == 10 || base == 16
  }

  const LOWER: string := "0123456789abcdef"
  const UPPER: string := "0123456789ABCDEF"

  function DigitChar(d: nat, up: bool): char
    requires d < 16
  {
    if up then UPPER[d] else LOWER[d]
  }

  /** The numeral of u, most significant digit first. */
  function Numeral(u: nat, base: nat, up: bool): (r: string)
    requires 2 <= base <= 16
    ensures |r| > 0
    decreases u
  {
    if u < base then [DigitChar(u, up)]
    else
      DivShrinks(u, base);
      Numeral(u / base, base, up) + [DigitChar(u % base, up)]
  }

  lemma {:induction false} DivShrinks(u: nat, base: nat)
    requires 2 <= base <= u
    ensures 0 < u / base < u
  {
    var q := u / base;
    assert u == base * q + u % base;
    MulMonotone(q, 2, base);
    assert base * q >= 2 * q;
  }

  lemma {:induction false} DivBound(u: nat, base: nat, p: nat)
    requires 0 < base && u < base * p
    ensures u / base < p
  {
    assert u == base * (u / base) + u % base;
    if u / base >= p { MulMonotone(base, p, u / base); }
  }

  function Pow(b: nat, e: nat): (r: nat)
    ensures b > 0 ==> r > 0
  {
    if e == 0 then 1 else b * Pow(b, e - 1)
  }

  /** A value below base^n has at most n digits. */
  lemma {:induction false} NumeralLength(u: nat, base: nat, up: bool, n: nat)
    requires 2 <= base <= 16 && n > 0 && u < Pow(base, n)
    ensures |Numeral(u, base, up)| <= n
    decreases n
  {
    assert n == 1 ==> Pow(base, n) == base * Pow(base, 0);
    if u >= base {
      DivShrinks(u, base);
      DivBound(u, base, Pow(base, n - 1));
      NumeralLength(u / base, base, up, n - 1);
    }
  }

  lemma {:induction false} MulAssoc(a: nat, b: nat, c: nat)
    ensures a * (b * c) == (a * b) * c
  {
  }

  lemma {:induction false} MulMonotone(a: nat, x: nat, y: nat)
    requires x <= y
    ensures a * x <= a * y
  {
  }

  lemma {:induction false} PowSum(b: nat, m: nat, n: nat)
    ensures Pow(b, m + n) == Pow(b, m) * Pow(b, n)
  {
    if m > 0 {
      PowSum(b, m - 1, n);
      MulAssoc(b, Pow(b, m - 1), Pow(b, n));
    }
  }

  lemma {:induction false} PowBase(a: nat, b: nat, e: nat)
    requires a <= b
    ensures Pow(a, e) <= Pow(b, e)
  {
    if e > 0 {
      PowBase(a, b, e - 1);
      MulMonotone(a, Pow(a, e - 1), Pow(b, e - 1));
      MulMonotone(Pow(b, e - 1), a, b);
    }
  }

  lemma {:induction false} EightTo43()
    ensures Pow(8, 43) == 2 * TWO128
  {
    assert Pow(8, 3) == 0x200;
    assert Pow(8, 10) == 0x4000_0000;
    PowSum(8, 10, 10);
    assert Pow(8, 20) == 0x1000_0000_0000_0000;
    PowSum(8, 20, 20);
    assert Pow(8, 40) == 0x100_0000_0000_0000_0000_0000_0000_0000;
    PowSum(8, 40, 3);
  }

  /** 43 digits hold every value below 2^128 in each of the bases used. */
  lemma {:induction false} ConvertLengthSuffices(u: nat, base: nat, up: bool)
    requires IsBase(base) && u < TWO128
    ensures u < Pow(base, 43)
    ensures |Numeral(u, base, up)| <= 43
  {
    EightTo43();
    PowBase(8, base, 43);
    NumeralLength(u, base, up, 43);
  }

  lemma {:induction false} DigitCharValue(d: nat, up: bool)
    requires d < 16
    ensures DigitValue(DigitChar(d, up)) == Some(d)
  {
  }

  /** Reading digits after acc has been read, ignoring ',' and stopping at anything else. */
  function ReadDigits(acc: int, s: string, base: int): int
    decreases |s|
  {
    if s == "" then acc
    else if s[0] == ',' then ReadDigits(acc, s[1..], base)
    else
      match DigitValue(s[0])
      case None => acc
      case Some(d) => ReadDigits(acc * base + d, s[1..], base)
  }

  // ---------------------------------------------------------------- the integer conversion

  /** Digits with a ',' before every group of three, when wanted. */
  function Grouped(digits: string, on: bool): string {
    if digits == "" then ""
    else
      var n := |digits| - 1;
      [digits[0]] + (if on && n > 0 && n % 3 == 0 then "," else "") + Grouped(digits[1..], on)
  }

  /** `getnumsep`, with no locale. */
  function NumSep(digits: nat): nat {
    (digits - (if digits > 0 && digits % 3 == 0 then 1 else 0)) / 3
  }

  /** Everything `fmtint` computes before it writes. */
  datatype Layout = Layout(sign: string, prefix: string, zeros: int, digits: string, group: bool, spaces: int)

  /** The magnitude printed; negating the least value leaves it, as two's complement does. */
  function Magnitude(value: int, uns: bool): (u: nat)
    ensures u < TWO64
  {
    if uns then Unsigned(TWO64, value) else if value >= 0 then Unsigned(TWO64, value) else Unsigned(TWO64, -value)
  }

  function SignText(value: int, fl: Flags): (r: string)
    ensures |r| <= 1
  {
    if fl.uns then "" else if value < 0 then "-" else if fl.plus then "+" else if fl.space then " " else ""
  }

  function PrefixText(u: nat, base: nat, fl: Flags): (r: string)
    ensures |r| == 0 || |r| == 2
  {
    if fl.num && u != 0 && base == 16 then (if fl.up then "0X" else "0x") else ""
  }

  /** The precision after the '#' flag has forced a leading octal zero. */
  function AdjustedPrecision(u: nat, base: nat, precision: int, fl: Flags): int
    requires IsBase(base)
  {
    var pos := |Numeral(u, base, fl.up)|;
    if fl.num && u != 0 && base == 8 && precision <= pos then pos + 1 else precision
  }

  /** Width left for padding. */
  function SlackOf(marks: nat, pos: nat, width: int, prec: int, quote: bool): int {
    width - (if quote then NumSep(pos) else 0) - Max(prec, pos) - marks
  }

  /** The same for a whole conversion; the C code computes this in an int. */
  function Slack(value: int, base: nat, width: int, precision: int, fl: Flags): int
    requires IsBase(base)
  {
    var u := Magnitude(value, fl.uns);
    SlackOf(|SignText(value, fl)| + |PrefixText(u, base, fl)|, |Numeral(u, base, fl.up)|, width,
            AdjustedPrecision(u, base, precision, fl), fl.quote)
  }

  /** How zeros and spaces are laid out around a sign, a prefix and digits. */
  function Arrange(sign: string, prefix: string, digits: string, width: int, prec: int, noprecision: bool,
                   fl: Flags): Layout
  {
    var seps := if fl.quote then NumSep(|digits|) else 0;
    var zpad := Max(prec - |digits| - seps, 0);
    var spad := Max(SlackOf(|sign| + |prefix|, |digits|, width, prec, fl.quote), 0);
    var zeroFill := !fl.minus && fl.zero && noprecision;
    Layout(sign, prefix, if zeroFill then zpad + spad else zpad, digits, seps > 0,
           if fl.minus then -spad else if zeroFill then 0 else spad)
  }

  function IntLayout(value: int, base: nat, width: int, precision: int, fl: Flags): Layout
    requires IsBase(base)
  {
    var u := Magnitude(value, fl.uns);
    Arrange(SignText(value, fl), PrefixText(u, base, fl), Numeral(u, base, fl.up), width,
            AdjustedPrecision(u, base, precision, fl), precision == -1, fl)
  }

  /** Positive `spaces` go in front, negative ones behind. */
  function LayoutText(l: Layout): string {
    Fill(l.spaces, ' ') +
    (l.sign + (l.prefix + (Fill(l.zeros, '0') + (Grouped(l.digits, l.group) + Fill(-l.spaces, ' ')))))
  }

  function IntText(value: int, base: nat, width: int, precision: int, fl: Flags): string
    requires IsBase(base)
  {
    LayoutText(IntLayout(value, base, width, precision, fl))
  }

  // ---------------------------------------------------------------- how long it is

  /** `getnumsep` foretells exactly the separators that grouping inserts. */
  lemma {:induction false} GroupedLength(digits: string, on: bool)
    ensures |Grouped(digits, on)| == |digits| + if on then NumSep(|digits|) else 0
  {
    if digits != "" {
      GroupedLength(digits[1..], on);
    }
  }

  /** The characters an integer needs regardless of the field width. */
  function Needed(value: int, base: nat, precision: int, fl: Flags): nat
    requires IsBase(base)
  {
    var u := Magnitude(value, fl.uns);
    var pos := |Numeral(u, base, fl.up)|;
    var seps := if fl.quote then NumSep(pos) else 0;
    |SignText(value, fl)| + |PrefixText(u, base, fl)|
    + Max(pos + seps, AdjustedPrecision(u, base, precision, fl))
  }

  lemma {:induction false} LayoutLength(l: Layout)
    ensures |LayoutText(l)| == Max(l.spaces, 0) + |l.sign| + |l.prefix| + Max(l.zeros, 0)
                               + |Grouped(l.digits, l.group)| + Max(-l.spaces, 0)
  {
  }

  /** Without the "'" flag the text fills the field exactly, or is as long as it needs to be. */
  lemma {:induction false} IntTextLength(value: int, base: nat, width: int, precision: int, fl: Flags)
    requires IsBase(base) && !fl.quote
    ensures |IntText(value, base, width, precision, fl)| == Max(width, Needed(value, base, precision, fl))
  {
    TextLength(value, base, width, precision, fl);
  }

  /** Grouping digits that also need leading zeros: the case in which the field can come out too short. */
  predicate GroupingWithZeros(value: int, base: nat, precision: int, fl: Flags)
    requires IsBase(base)
  {
    var u := Magnitude(value, fl.uns);
    var pos := |Numeral(u, base, fl.up)|;
    fl.quote && NumSep(pos) > 0 && AdjustedPrecision(u, base, precision, fl) > pos
  }

  /** The text is shorter than the field width exactly when digits are both grouped and zero-extended. */
  lemma {:induction false} FieldWidthMet(value: int, base: nat, width: int, precision: int, fl: Flags)
    requires IsBase(base)
    ensures |IntText(value, base, width, precision, fl)| < width
            <==> GroupingWithZeros(value, base, precision, fl) && width > Needed(value, base, precision, fl)
    ensures !GroupingWithZeros(value, base, precision, fl) ==>
            |IntText(value, base, width, precision, fl)| == Max(width, Needed(value, base, precision, fl))
  {
    TextLength(value, base, width, precision, fl);
  }

  /** The length of the text from the lengths of its parts. */
  lemma {:induction false} TextLength(value: int, base: nat, width: int, precision: int, fl: Flags)
    requires IsBase(base)
    ensures var u := Magnitude(value, fl.uns);
      var pos, prec := |Numeral(u, base, fl.up)|, AdjustedPrecision(u, base, precision, fl);
      var seps := if fl.quote then NumSep(pos) else 0;
      |IntText(value, base, width, precision, fl)|
      == |SignText(value, fl)| + |PrefixText(u, base, fl)| + Max(prec - pos - seps, 0) + pos + seps
         + Max(Slack(value, base, width, precision, fl), 0)
  {
    var l := IntLayout(value, base, width, precision, fl);
    LayoutLength(l);
    GroupedLength(l.digits, l.group);
  }

  /** "%'10.8d" of 1234567 prints "1,234,567", nine characters. */
  lemma {:induction false} FieldWidthMissed()
    ensures |IntText(1234567, 10, 10, 8, NO_FLAGS.(quote := true))| == 9
  {
    var fl := NO_FLAGS.(quote := true);
    assert |Numeral(123, 10, false)| == 3;
    assert |Numeral(12345, 10, false)| == 5;
    assert |Numeral(1234567, 10, false)| == 7;
    var l := IntLayout(1234567, 10, 10, 8, fl);
    LayoutLength(l);
    GroupedLength(l.digits, l.group);
  }

  // ---------------------------------------------------------------- what it says

  function SkipSpaces(s: string): string {
    if s != "" && s[0] == ' ' then SkipSpaces(s[1..]) else s
  }

  predicate HasPrefix(s: string, base: int) {
    base == 16 && |s| >= 2 && s[0] == '0' && (s[1] == 'x' || s[1] == 'X')
  }

  function ReadUnsigned(s: string, base: int): int {
    ReadDigits(0, if HasPrefix(s, base) then s[2..] else s, base)
  }

  /** The number a text denotes, read as strtol would but passing over ','. */
  function ReadInt(s: string, base: int): int {
    var t := SkipSpaces(s);
    if t == "" then 0
    else if t[0] == '-' then -ReadUnsigned(t[1..], base)
    else if t[0] == '+' then ReadUnsigned(t[1..], base)
    else ReadUnsigned(t, base)
  }

  lemma {:induction false} ReadConcat(acc: int, s: string, t: string, base: int)
    requires forall i | 0 <= i < |s| :: s[i] == ',' || DigitValue(s[i]).Some?
    ensures ReadDigits(acc, s + t, base) == ReadDigits(ReadDigits(acc, s, base), t, base)
    decreases |s|
  {
    if s == "" {
      assert s + t == t;
    } else {
      assert (s + t)[1..] == s[1..] + t;
      if s[0] == ',' {
        ReadConcat(acc, s[1..], t, base);
      } else {
        ReadConcat(acc * base + DigitValue(s[0]).value, s[1..], t, base);
      }
    }
  }

  predicate AllDigits(s: string) {
    forall i | 0 <= i < |s| :: DigitValue(s[i]).Some?
  }

  lemma {:induction false} NumeralDigits(u: nat, base: nat, up: bool)
    requires 2 <= base <= 16
    ensures AllDigits(Numeral(u, base, up))
    decreases u
  {
    if u < base {
      DigitCharValue(u, up);
    } else {
      DivShrinks(u, base);
      NumeralDigits(u / base, base, up);
      DigitCharValue(u % base, up);
    }
  }

  lemma {:induction false} ReadStep(acc: int, c: char, t: string, base: int)
    requires DigitValue(c).Some?
    ensures ReadDigits(acc, [c] + t, base) == ReadDigits(acc * base + DigitValue(c).value, t, base)
  {
    assert ([c] + t)[1..] == t;
  }

  lemma {:induction false} DivisionLaw(u: nat, base: nat)
    requires base > 0
    ensures u / base * base + u % base == u
  {
  }

  /** A numeral denotes its value. */
  lemma {:induction false} NumeralReads(u: nat, base: nat, up: bool)
    requires 2 <= base <= 16
    ensures ReadDigits(0, Numeral(u, base, up), base) == u
    decreases u
  {
    if u < base {
      OneDigitReads(0, u, base, up);
    } else {
      DivShrinks(u, base);
      var q, d := u / base, u % base;
      NumeralReads(q, base, up);
      NumeralDigits(q, base, up);
      OneDigitReads(q, d, base, up);
      ReadConcat(0, Numeral(q, base, up), [DigitChar(d, up)], base);
      DivisionLaw(u, base);
    }
  }

  lemma {:induction false} OneDigitReads(acc: int, d: nat, base: nat, up: bool)
    requires d < 16
    ensures ReadDigits(acc, [DigitChar(d, up)], base) == acc * base + d
  {
    DigitCharValue(d, up);
    ReadStep(acc, DigitChar(d, up), "", base);
    assert [DigitChar(d, up)] + "" == [DigitChar(d, up)];
  }

  /** Separators do not change what the digits denote. */
  lemma {:induction false} GroupedReads(acc: int, digits: string, on: bool, t: string, base: int)
    requires AllDigits(digits)
    ensures ReadDigits(acc, Grouped(digits, on) + t, base) == ReadDigits(acc, digits + t, base)
    decreases |digits|
  {
    if digits != "" {
      var d, rest := digits[0], digits[1..];
      var sep := if on && |rest| > 0 && |rest| % 3 == 0 then "," else "";
      var g := Grouped(rest, on);
      GroupedReads(acc * base + DigitValue(d).value, rest, on, t, base);
      assert digits == [d] + rest;
      Assoc([d], rest, t);
      Assoc([d] + sep, g, t);
      Assoc([d], sep, g + t);
      ReadStep(acc, d, rest + t, base);
      ReadStep(acc, d, sep + (g + t), base);
      SeparatorReads(acc * base + DigitValue(d).value, sep, g + t, base);
    }
  }

  lemma {:induction false} SeparatorReads(acc: int, sep: string, t: string, base: int)
    requires sep == "" || sep == ","
    ensures ReadDigits(acc, sep + t, base) == ReadDigits(acc, t, base)
  {
    if sep == "" {
      assert sep + t == t;
    } else {
      assert (sep + t)[1..] == t;
    }
  }

  lemma {:induction false} ZerosRead(z: string, t: string, base: int)
    requires forall i | 0 <= i < |z| :: z[i] == '0'
    ensures ReadDigits(0, z + t, base) == ReadDigits(0, t, base)
  {
    if z == "" {
      assert z + t == t;
    } else {
      assert (z + t)[1..] == z[1..] + t;
      ZerosRead(z[1..], t, base);
    }
  }

  lemma {:induction false} SpacesSkipped(s: string, t: string)
    requires forall i | 0 <= i < |s| :: s[i] == ' '
    ensures SkipSpaces(s + t) == SkipSpaces(t)
  {
    if s == "" {
      assert s + t == t;
    } else {
      assert (s + t)[1..] == s[1..] + t;
      SpacesSkipped(s[1..], t);
    }
  }

  lemma {:induction false} SpacesEndDigits(acc: int, s: string, base: int)
    requires forall i | 0 <= i < |s| :: s[i] == ' '
    ensures ReadDigits(acc, s, base) == acc
  {
  }

  /** The part of the text after the sign. */
  function Body(l: Layout): string {
    l.prefix + (Fill(l.zeros, '0') + (Grouped(l.digits, l.group) + Fill(-l.spaces, ' ')))
  }

  /** Zeros, digits and trailing spaces denote what the digits denote. */
  lemma {:induction false} DigitsPartReads(zeros: int, digits: string, group: bool, after: int, base: nat)
    requires AllDigits(digits)
    ensures ReadDigits(0, Fill(zeros, '0') + (Grouped(digits, group) + Fill(after, ' ')), base)
            == ReadDigits(0, digits, base)
  {
    var t := Fill(after, ' ');
    ZerosRead(Fill(zeros, '0'), Grouped(digits, group) + t, base);
    GroupedReads(0, digits, group, t, base);
    ReadConcat(0, digits, t, base);
    SpacesEndDigits(ReadDigits(0, digits, base), t, base);
  }

  lemma {:induction false} GroupedFirst(digits: string, on: bool)
    requires digits != "" && AllDigits(digits)
    ensures var g := Grouped(digits, on);
      && g != "" && g[0] == digits[0]
      && (|g| > 1 ==> g[1] == ',' || DigitValue(g[1]).Some?)
  {
    if |digits| > 1 { assert digits[1..][0] == digits[1]; }
  }

  lemma {:induction false} BodyReads(l: Layout, base: nat)
    requires IsBase(base) && l.digits != "" && AllDigits(l.digits)
    requires l.prefix == "" || (base == 16 && (l.prefix == "0x" || l.prefix == "0X"))
    ensures ReadUnsigned(Body(l), base) == ReadDigits(0, l.digits, base)
    ensures Body(l) != "" && DigitValue(Body(l)[0]).Some?
  {
    var d := Fill(l.zeros, '0') + (Grouped(l.digits, l.group) + Fill(-l.spaces, ' '));
    DigitsPartReads(l.zeros, l.digits, l.group, -l.spaces, base);
    DigitsPartStarts(l.zeros, l.digits, l.group, Fill(-l.spaces, ' '), base);
    BehindPrefix(l.prefix, d);
  }

  lemma {:induction false} BehindPrefix(p: string, d: string)
    ensures p == "" ==> p + d == d
    ensures (p + d)[|p|..] == d && forall i | 0 <= i < |p| :: (p + d)[i] == p[i]
  {
  }

  /** Zeros and digits begin with a digit, and not like a prefix. */
  lemma {:induction false} DigitsPartStarts(zeros: int, digits: string, group: bool, after: string, base: int)
    requires digits != "" && AllDigits(digits) && (after == "" || after[0] == ' ')
    ensures var d := Fill(zeros, '0') + (Grouped(digits, group) + after);
      d != "" && DigitValue(d[0]).Some? && !HasPrefix(d, base)
  {
    var g := Grouped(digits, group);
    GroupedFirst(digits, group);
    var d := Fill(zeros, '0') + (g + after);
    assert d[0] == if zeros > 0 then '0' else g[0];
    assert |d| > 1 ==> d[1] == if zeros > 1 then '0' else if zeros == 1 then g[0]
                                else if |g| > 1 then g[1] else after[0];
  }

  /**
   What is printed reads back as the value: as a signed number, or as the
   unsigned number with the same 64 bits; for every width, precision and flags.
   */
  lemma {:induction false} IntTextReads(value: int, base: nat, width: int, precision: int, fl: Flags)
    requires IsBase(base) && -(TWO64 / 2) <= value < TWO64 / 2
    ensures ReadInt(IntText(value, base, width, precision, fl), base)
            == if fl.uns then Unsigned(TWO64, value) else value
  {
    var u := Magnitude(value, fl.uns);
    var l := IntLayout(value, base, width, precision, fl);
    NumeralDigits(u, base, fl.up);
    NumeralReads(u, base, fl.up);
    LayoutReads(l, base);
    MagnitudeMeaning(value, fl);
  }

  lemma {:induction false} MagnitudeMeaning(value: int, fl: Flags)
    requires -(TWO64 / 2) <= value < TWO64 / 2
    ensures var u: int := Magnitude(value, fl.uns);
      (if SignText(value, fl) == "-" then -u else u) == if fl.uns then Unsigned(TWO64, value) else value
  {
  }

  /** A laid-out number denotes its digits, negated after a '-'. */
  lemma {:induction false} LayoutReads(l: Layout, base: nat)
    requires IsBase(base) && l.digits != "" && AllDigits(l.digits)
    requires l.prefix == "" || (base == 16 && (l.prefix == "0x" || l.prefix == "0X"))
    requires l.sign == "" || l.sign == "-" || l.sign == "+" || l.sign == " "
    ensures var v := ReadDigits(0, l.digits, base);
      ReadInt(LayoutText(l), base) == if l.sign == "-" then -v else v
  {
    BodyReads(l, base);
    SignReads(l.sign, Body(l), base);
    PaddedReads(l, l.sign + Body(l), base);
  }

  lemma {:induction false} PaddedReads(l: Layout, t: string, base: int)
    requires t == l.sign + Body(l)
    ensures ReadInt(LayoutText(l), base) == ReadInt(t, base)
  {
    SpacesSkipped(Fill(l.spaces, ' '), t);
  }

  lemma {:induction false} SignReads(sign: string, body: string, base: int)
    requires sign == "" || sign == "-" || sign == "+" || sign == " "
    requires body != "" && DigitValue(body[0]).Some?
    ensures ReadInt(sign + body, base) == if sign == "-" then -ReadUnsigned(body, base) else ReadUnsigned(body, base)
  {
    if sign == "" {
      assert sign + body == body;
    } else {
      assert (sign + body)[1..] == body;
      assert SkipSpaces(body) == body;
    }
  }

  // ---------------------------------------------------------------- where the padding goes

  /** With '-' the padding follows the number; without '-' and '0' it precedes it. */
  lemma {:induction false} Justified(value: int, base: nat, width: int, precision: int, fl: Flags)
    requires IsBase(base)
    ensures var bare := IntText(value, base, 0, precision, fl);
      var pad := Fill(Slack(value, base, width, precision, fl), ' ');
      && (fl.minus && width >= 0 ==> IntText(value, base, width, precision, fl) == bare + pad)
      && (!fl.minus && !(fl.zero && precision == -1) && width >= 0 ==>
            IntText(value, base, width, precision, fl) == pad + bare)
  {
    var l, b := IntLayout(value, base, width, precision, fl), IntLayout(value, base, 0, precision, fl);
    NoSlack(value, base, precision, fl);
    if width >= 0 && (fl.minus || !(fl.zero && precision == -1)) {
      assert b == l.(spaces := 0);
      PaddingOutside(l);
    }
  }

  /** A zero width leaves nothing to pad. */
  lemma {:induction false} NoSlack(value: int, base: nat, precision: int, fl: Flags)
    requires IsBase(base)
    ensures Slack(value, base, 0, precision, fl) < 0
  {
  }

  lemma {:induction false} PaddingOutside(l: Layout)
    ensures LayoutText(l) == Fill(l.spaces, ' ') + LayoutText(l.(spaces := 0)) + Fill(-l.spaces, ' ')
    ensures l.spaces <= 0 ==> LayoutText(l) == LayoutText(l.(spaces := 0)) + Fill(-l.spaces, ' ')
    ensures l.spaces >= 0 ==> LayoutText(l) == Fill(l.spaces, ' ') + LayoutText(l.(spaces := 0))
  {
    var g, z := Grouped(l.digits, l.group), Fill(l.zeros, '0');
    Regrouped(l.sign, l.prefix, z, g, Fill(-l.spaces, ' '));
    Regrouped(l.sign, l.prefix, z, g, "");
    var core := l.sign + (l.prefix + (z + g));
    assert core + "" == core;
    Unpadded(l, core);
    Assoc(Fill(l.spaces, ' '), core, Fill(-l.spaces, ' '));
    EmptyEnds(core, Fill(l.spaces, ' '), Fill(-l.spaces, ' '));
  }

  lemma {:induction false} Regrouped(a: string, b: string, c: string, d: string, e: string)
    ensures a + (b + (c + (d + e))) == (a + (b + (c + d))) + e
  {
    Assoc(c, d, e);
    Assoc(b, c + d, e);
    Assoc(a, b + (c + d), e);
  }

  lemma {:induction false} Unpadded(l: Layout, core: string)
    requires core == l.sign + (l.prefix + (Fill(l.zeros, '0') + (Grouped(l.digits, l.group) + "")))
    ensures LayoutText(l.(spaces := 0)) == core
  {
    assert Fill(0, ' ') == "" && Fill(-0, ' ') == "";
    assert "" + core == core;
  }

  lemma {:induction false} EmptyEnds(core: string, before: string, after: string)
    ensures before == "" ==> before + (core + after) == core + after
    ensures after == "" ==> before + (core + after) == before + core
  {
    assert core + "" == core;
  }

  /**
   Zero filling puts zeros between the marks and the digits, up to the width
   or, for '#' and octal, one more than the digits; and no space at all, save
   the sign the ' ' flag asks for.
   */
  lemma {:induction false} ZeroFilled(value: int, base: nat, width: int, fl: Flags)
    requires IsBase(base) && fl.zero && !fl.minus && !fl.quote
    ensures var u := Magnitude(value, fl.uns);
      var sign, prefix, digits := SignText(value, fl), PrefixText(u, base, fl), Numeral(u, base, fl.up);
      var octal := if fl.num && base == 8 && u != 0 then 1 else 0;
      IntText(value, base, width, -1, fl) ==
        sign + (prefix + (Fill(Max(width - |sign| - |prefix| - |digits|, octal), '0') + digits))
  {
    NoSpaces(IntLayout(value, base, width, -1, fl));
  }

  lemma {:induction false} NoSpaces(l: Layout)
    requires l.spaces == 0 && !l.group
    ensures LayoutText(l) == l.sign + (l.prefix + (Fill(l.zeros, '0') + l.digits))
  {
    UngroupedSame(l.digits);
    assert l.digits + "" == l.digits;
    var t := l.sign + (l.prefix + (Fill(l.zeros, '0') + l.digits));
    assert "" + t == t;
  }

  lemma {:induction false} UngroupedSame(digits: string)
    ensures Grouped(digits, false) == digits
  {
    if digits != "" { UngroupedSame(digits[1..]); }
  }

  // ---------------------------------------------------------------- the string conversion

  /** The part of a string the precision admits; a null pointer prints as "(null)". */
  function Admitted(s: Option<string>, precision: int): string {
    var t := if s.Some? then s.value else "(null)";
    if precision == -1 || precision >= |t| then t else if precision < 0 then "" else t[..precision]
  }

  /** Positive padding goes in front, negative behind. */
  function StrText(s: Option<string>, width: int, precision: int, minus: bool): string {
    var t := Admitted(s, precision);
    var pad := Max(width - |t|, 0);
    Fill(if minus then -pad else pad, ' ') + (t + Fill(if minus then pad else -pad, ' '))
  }

  lemma {:induction false} StrPieces(s: Option<string>, width: int, precision: int, minus: bool, padlen: int)
    requires var pad := Max(width - |Admitted(s, precision)|, 0); padlen == if minus then -pad else pad
    ensures StrText(s, width, precision, minus)
            == Fill(padlen, ' ') + (Admitted(s, precision) + Fill(-padlen, ' '))
  {
  }

  /** The text fills the field and holds the admitted part at the side the '-' flag chooses. */
  lemma {:induction false} StrTextMeaning(s: Option<string>, width: int, precision: int, minus: bool)
    ensures var r, t := StrText(s, width, precision, minus), Admitted(s, precision);
      && |r| == Max(width, |t|)
      && (if minus then r[..|t|] == t else r[|r| - |t|..] == t)
      && (forall i | 0 <= i < |r| && (if minus then i >= |t| else i < |r| - |t|) :: r[i] == ' ')
  {
    assert s.Some? ==> |Admitted(s, precision)| >= 0;
  }
}
