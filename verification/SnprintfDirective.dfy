/**
 Directives as a programmer writes them: flag characters, width, precision,
 length modifier and conversion.  Whatever is written is read as meant, and
 what is printed is the text that section 7.19.6.1 of ISO C99 prescribes for
 those characters, with exactly two exceptions.
 */
module SnprintfDirective {
  import opened Basics
  import opened SnprintfFormat
  import opened SnprintfStandard
  import opened SnprintfText

  /** A width or precision: none, a '.' with no digits, a decimal numeral, or a '*'. */
  datatype Amount = Missing | Dot | Given(n: nat) | FromArgument

  datatype Directive = Directive(flags: string, width: Amount, precision: Amount, modifier: string, c: char)

  predicate IsFlagText(s: string) {
    forall i | 0 <= i < |s| :: s[i] in "-+ #0'"
  }

  /** Anything that may stand for a conversion: no flag, digit, '*', '.' or length modifier. */
  predicate Stands(c: char) {
    c !in "-+ #'0123456789*.hlLjtz"
  }

  predicate IsDirective(d: Directive) {
    && IsFlagText(d.flags) && !d.width.Dot? && d.width != Given(0)
    && d.modifier in ["", "hh", "h", "l", "ll", "L", "j", "t", "z"] && Stands(d.c)
  }

  // ---------------------------------------------------------------- writing

  /** A numeral in digits and lower-case or upper-case letters. */
  function Figures(u: nat, base: nat, upper: bool): (r: string)
    requires 2 <= base <= 16
    ensures r != ""
    decreases u
  {
    var figure := if upper then "0123456789ABCDEF"[u % base] else "0123456789abcdef"[u % base];
    if u < base then [figure] else DivShrinks(u, base); Figures(u / base, base, upper) + [figure]
  }

  function WidthText(a: Amount): string {
    match a
    case Given(n) => Figures(n, 10, false)
    case FromArgument => "*"
    case _ => ""
  }

  function PrecisionText(a: Amount): string {
    match a
    case Missing => ""
    case Dot => "."
    case Given(n) => "." + Figures(n, 10, false)
    case FromArgument => "." + "*"
  }

  function Write(d: Directive): string {
    "%" + (d.flags + (WidthText(d.width) + (PrecisionText(d.precision) + (d.modifier + [d.c]))))
  }

  // ---------------------------------------------------------------- what is meant

  /** '-' means left justification, and so does a negative width taken from an argument. */
  function FlagsWritten(flags: string, left: bool): Flags {
    Flags('-' in flags || left, '+' in flags, ' ' in flags, '#' in flags, '0' in flags, '\'' in flags, false, false)
  }

  function SizeWritten(modifier: string): Size {
    if modifier == "hh" then Char
    else if modifier == "h" then Short
    else if modifier == "l" then Long
    else if modifier == "ll" then LongLong
    else if modifier == "L" then LongDouble
    else if modifier == "j" then IntMax
    else if modifier == "t" then PtrDiff
    else if modifier == "z" then SizeT
    else Default
  }

  datatype Resolved = Value(n: int, rest: seq<Arg>) | TooLarge | Lacking

  function Resolve(a: Amount, none: int, args: seq<Arg>): Resolved {
    match a
    case Missing => Value(none, args)
    case Dot => Value(0, args)
    case Given(n) => if n > INT_MAX then TooLarge else Value(n, args)
    case FromArgument =>
      if args == [] || !args[0].IntArg? then Lacking else Value(Signed(TWO32, args[0].v), args[1..])
  }

  function Abs(n: int): nat {
    if n < 0 then -n else n
  }

  /** The conversion, once width and flags are known; a negative precision is none. */
  function ConvertMeant(d: Directive, args: seq<Arg>, fl: Flags, w: int): Meaning {
    match Resolve(d.precision, -1, args)
    case TooLarge => Overflow("")
    case Lacking => Undefined
    case Value(p, rest) => Convert(d.c, rest, fl, w, if p < 0 then -1 else p, SizeWritten(d.modifier))
  }

  /** A negative width is a positive one with left justification. */
  function Meant(d: Directive, args: seq<Arg>): Meaning {
    match Resolve(d.width, 0, args)
    case TooLarge => Overflow("")
    case Lacking => Undefined
    case Value(w, rest) =>
      if w == INT_MIN then Undefined else ConvertMeant(d, rest, FlagsWritten(d.flags, w < 0), Abs(w))
  }

  // ---------------------------------------------------------------- reading numerals

  lemma {:induction false} FiguresAre(u: nat, base: nat, upper: bool)
    requires 2 <= base <= 16
    ensures Figures(u, base, upper) == Numeral(u, base, upper)
    decreases u
  {
    FigureIs(u % base, upper);
    if u < base {
      SmallModulo(u, base);
    } else {
      DivShrinks(u, base);
      FiguresAre(u / base, base, upper);
    }
  }

  lemma {:induction false} FigureIs(d: nat, upper: bool)
    requires d < 16
    ensures (if upper then "0123456789ABCDEF"[d] else "0123456789abcdef"[d]) == DigitChar(d, upper)
  {
  }

  lemma {:induction false} SmallModulo(u: nat, base: nat)
    requires u < base
    ensures u % base == u
  {
  }

  lemma {:induction false} DecimalAppend(acc: nat, s: string, c: char)
    requires (forall i | 0 <= i < |s| :: IsDigit(s[i])) && IsDigit(c)
    ensures Decimal(acc, s + [c]) == 10 * Decimal(acc, s) + Digit(c)
    decreases |s|
  {
    if s == "" {
      assert s + [c] == [c] && [c][1..] == "";
    } else {
      ConcatTail(s, [c]);
      DecimalAppend(10 * acc + Digit(s[0]), s[1..], c);
    }
  }

  predicate AllDecimal(s: string) {
    forall i | 0 <= i < |s| :: IsDigit(s[i])
  }

  lemma {:induction false} OneFigure(d: nat)
    requires d < 10
    ensures IsDigit("0123456789abcdef"[d]) && Digit("0123456789abcdef"[d]) == d
  {
  }

  /** A decimal numeral is read as its value. */
  lemma {:induction false} FiguresRead(n: nat)
    ensures AllDecimal(Figures(n, 10, false)) && Decimal(0, Figures(n, 10, false)) == n
    ensures n > 0 ==> Figures(n, 10, false)[0] != '0'
    decreases n
  {
    OneFigure(n % 10);
    if n < 10 {
      var s := Figures(n, 10, false);
      assert s[1..] == "";
    } else {
      DivShrinks(n, 10);
      FiguresRead(n / 10);
      DecimalAppend(0, Figures(n / 10, 10, false), "0123456789abcdef"[n % 10]);
    }
  }

  lemma {:induction false} DigitsSpanned(s: string, t: string)
    requires AllDecimal(s) && (t == "" || !IsDigit(t[0]))
    ensures DigitSpan(s + t) == |s| && (s + t)[..|s|] == s && (s + t)[|s|..] == t
  {
    if s == "" {
      assert s + t == t;
    } else {
      ConcatTail(s, t);
      DigitsSpanned(s[1..], t);
    }
  }

  lemma {:induction false} FlagsSpanned(s: string, t: string)
    requires IsFlagText(s) && (t == "" || !IsFlag(t[0]))
    ensures FlagSpan(s + t) == |s| && (s + t)[..|s|] == s && (s + t)[|s|..] == t
  {
    if s == "" {
      assert s + t == t;
    } else {
      ConcatTail(s, t);
      FlagsSpanned(s[1..], t);
    }
  }

  // ---------------------------------------------------------------- reading directives, from the end

  lemma {:induction false} ConversionRead(c: char, g: string, args: seq<Arg>, fl: Flags, w: nat, p: int, size: Size)
    ensures ConversionPart([c] + g, args, fl, w, p, size) == Then(Convert(c, args, fl, w, p, size), g)
  {
    assert ([c] + g)[1..] == g;
  }

  lemma {:induction false} ModifierIs(modifier: string, c: char, g: string)
    requires modifier in ["", "hh", "h", "l", "ll", "L", "j", "t", "z"] && Stands(c)
    ensures var f := modifier + ([c] + g);
      Modifier(f) == (SizeWritten(modifier), |modifier|) && f[|modifier|..] == [c] + g
  {
    var f := modifier + ([c] + g);
    assert f[|modifier|] == c;
  }

  lemma {:induction false} ModifierRead(modifier: string, c: char, g: string, args: seq<Arg>, fl: Flags, w: nat, p: int)
    requires modifier in ["", "hh", "h", "l", "ll", "L", "j", "t", "z"] && Stands(c)
    ensures ModifierPart(modifier + ([c] + g), args, fl, w, p)
            == Then(Convert(c, args, fl, w, p, SizeWritten(modifier)), g)
  {
    ModifierIs(modifier, c, g);
    ConversionRead(c, g, args, fl, w, p, SizeWritten(modifier));
  }

  /** What can follow a precision: a modifier or a conversion. */
  predicate AfterPrecision(f: string) {
    f != "" && !IsDigit(f[0]) && !IsFlag(f[0]) && f[0] != '*' && f[0] != '.'
  }

  /** The meaning of the rest, once width and flags are known and the precision has been read. */
  function PrecisionMeant(a: Amount, f: string, args: seq<Arg>, fl: Flags, w: nat): Meaning {
    match Resolve(a, -1, args)
    case TooLarge => Overflow("")
    case Lacking => Undefined
    case Value(p, rest) => ModifierPart(f, rest, fl, w, if p < 0 then -1 else p)
  }

  lemma {:induction false} NumeralPrecision(s: string, f: string, args: seq<Arg>, fl: Flags, w: nat)
    requires AllDecimal(s) && AfterPrecision(f)
    ensures PrecisionPart(s + f, args, fl, w, 0)
            == if Decimal(0, s) > INT_MAX then Overflow("") else ModifierPart(f, args, fl, w, Decimal(0, s))
  {
    DigitsSpanned(s, f);
    assert Decimal(0, s) <= INT_MAX ==>
             PrecisionPart(s + f, args, fl, w, 0) == PrecisionStar(f, args, fl, w, Decimal(0, s));
  }

  lemma {:induction false} StarPrecision(f: string, args: seq<Arg>, fl: Flags, w: nat)
    ensures PrecisionPart("*" + f, args, fl, w, 0) == PrecisionMeant(FromArgument, f, args, fl, w)
  {
    var s := "*" + f;
    DigitsSpanned("", s);
    assert "" + s == s && s[1..] == f;
    assert PrecisionPart(s, args, fl, w, 0) == PrecisionStar(s, args, fl, w, 0);
  }

  lemma {:induction false} DotRead(f: string, args: seq<Arg>, fl: Flags, w: nat)
    ensures DotPart("." + f, args, fl, w) == PrecisionPart(f, args, fl, w, 0)
  {
    assert ("." + f)[1..] == f;
  }

  lemma {:induction false} PrecisionRead(a: Amount, f: string, args: seq<Arg>, fl: Flags, w: nat)
    requires AfterPrecision(f)
    ensures DotPart(PrecisionText(a) + f, args, fl, w) == PrecisionMeant(a, f, args, fl, w)
  {
    match a
    case Missing =>
      assert "" + f == f;
    case Dot =>
      DotRead(f, args, fl, w);
      NumeralPrecision("", f, args, fl, w);
      assert "" + f == f;
    case Given(n) =>
      var s := Figures(n, 10, false);
      Assoc(".", s, f);
      DotRead(s + f, args, fl, w);
      FiguresRead(n);
      NumeralPrecision(s, f, args, fl, w);
    case FromArgument =>
      Assoc(".", "*", f);
      DotRead("*" + f, args, fl, w);
      StarPrecision(f, args, fl, w);
  }

  /** What can follow a width: a '.' as well. */
  predicate AfterWidth(f: string) {
    f != "" && !IsDigit(f[0]) && !IsFlag(f[0]) && f[0] != '*'
  }

  function WidthMeant(a: Amount, f: string, args: seq<Arg>, fl: Flags): Meaning {
    match Resolve(a, 0, args)
    case TooLarge => Overflow("")
    case Lacking => Undefined
    case Value(w, rest) =>
      if w == INT_MIN then Undefined
      else if w < 0 then DotPart(f, rest, fl.(minus := true), -w)
      else DotPart(f, rest, fl, w)
  }

  lemma {:induction false} NumeralWidth(s: string, f: string, args: seq<Arg>, fl: Flags)
    requires AllDecimal(s) && AfterWidth(f)
    ensures WidthPart(s + f, args, fl, 0)
            == if Decimal(0, s) > INT_MAX then Overflow("") else DotPart(f, args, fl, Decimal(0, s))
  {
    DigitsSpanned(s, f);
    assert Decimal(0, s) <= INT_MAX ==>
             WidthPart(s + f, args, fl, 0) == WidthStar(f, args, fl, Decimal(0, s));
  }

  lemma {:induction false} StarWidth(f: string, args: seq<Arg>, fl: Flags)
    ensures WidthPart("*" + f, args, fl, 0) == WidthMeant(FromArgument, f, args, fl)
  {
    var s := "*" + f;
    DigitsSpanned("", s);
    assert "" + s == s && s[1..] == f;
    assert WidthPart(s, args, fl, 0) == WidthStar(s, args, fl, 0);
  }

  lemma {:induction false} WidthRead(a: Amount, f: string, args: seq<Arg>, fl: Flags)
    requires AfterWidth(f) && !a.Dot?
    ensures WidthPart(WidthText(a) + f, args, fl, 0) == WidthMeant(a, f, args, fl)
  {
    match a
    case Missing =>
      assert "" + f == f;
      NumeralWidth("", f, args, fl);
    case Given(n) =>
      FiguresRead(n);
      NumeralWidth(Figures(n, 10, false), f, args, fl);
    case FromArgument =>
      StarWidth(f, args, fl);
  }

  lemma {:induction false} FlagsRead(flags: string, f: string, args: seq<Arg>)
    requires IsFlagText(flags) && f != "" && !IsFlag(f[0])
    ensures Interpret("%" + (flags + f), args) == WidthPart(f, args, FlagsWritten(flags, false), 0)
  {
    assert ("%" + (flags + f))[1..] == flags + f;
    FlagsSpanned(flags, f);
    assert Union(NO_FLAGS, FlagsOf(flags)) == FlagsWritten(flags, false);
  }

  // ---------------------------------------------------------------- whole directives

  lemma {:induction false} ModifierHead(modifier: string, c: char, g: string)
    requires modifier in ["", "hh", "h", "l", "ll", "L", "j", "t", "z"] && Stands(c)
    ensures AfterPrecision(modifier + ([c] + g))
  {
    var f := modifier + ([c] + g);
    assert f[0] == if modifier == "" then c else modifier[0];
  }

  lemma {:induction false} PrecisionHead(a: Amount, f: string)
    requires AfterPrecision(f)
    ensures AfterWidth(PrecisionText(a) + f)
  {
    var s := PrecisionText(a) + f;
    assert s[0] == if a.Missing? then f[0] else '.';
  }

  lemma {:induction false} WidthHead(a: Amount, f: string)
    requires AfterWidth(f) && !a.Dot? && a != Given(0)
    ensures WidthText(a) + f != "" && !IsFlag((WidthText(a) + f)[0])
  {
    var s := WidthText(a) + f;
    if a.Given? {
      FiguresRead(a.n);
      var figures := Figures(a.n, 10, false);
      assert s[0] == figures[0] && IsDigit(figures[0]);
    } else {
      assert s[0] == if a.Missing? then f[0] else '*';
    }
  }

  lemma {:induction false} Regroup(d: Directive, g: string)
    ensures Write(d) + g
            == "%" + (d.flags + (WidthText(d.width) + (PrecisionText(d.precision) + (d.modifier + ([d.c] + g)))))
  {
    Assoc(d.modifier, [d.c], g);
    Assoc(PrecisionText(d.precision), d.modifier + [d.c], g);
    Assoc(WidthText(d.width), PrecisionText(d.precision) + (d.modifier + [d.c]), g);
    Assoc(d.flags, WidthText(d.width) + (PrecisionText(d.precision) + (d.modifier + [d.c])), g);
    Assoc("%", d.flags + (WidthText(d.width) + (PrecisionText(d.precision) + (d.modifier + [d.c]))), g);
  }

  /** Every directive is read as it is meant, and the format goes on behind it. */
  lemma {:induction false} DirectiveRead(d: Directive, args: seq<Arg>, g: string)
    requires IsDirective(d)
    ensures Interpret(Write(d) + g, args) == Then(Meant(d, args), g)
  {
    var f3 := d.modifier + ([d.c] + g);
    var f2 := PrecisionText(d.precision) + f3;
    var f1 := WidthText(d.width) + f2;
    Regroup(d, g);
    ModifierHead(d.modifier, d.c, g);
    PrecisionHead(d.precision, f3);
    WidthHead(d.width, f2);
    FlagsRead(d.flags, f1, args);
    WidthRead(d.width, f2, args, FlagsWritten(d.flags, false));
    FromWidthOn(d, args, g, f3, f2);
  }

  lemma {:induction false} LeftFlag(flags: string)
    ensures FlagsWritten(flags, false).(minus := true) == FlagsWritten(flags, true)
  {
  }

  lemma {:induction false} WidthValue(d: Directive, args: seq<Arg>, g: string, f: string, w: int, rest: seq<Arg>)
    requires Resolve(d.width, 0, args) == Value(w, rest) && w != INT_MIN
    requires DotPart(f, rest, FlagsWritten(d.flags, w < 0), Abs(w))
             == Then(ConvertMeant(d, rest, FlagsWritten(d.flags, w < 0), Abs(w)), g)
    ensures WidthMeant(d.width, f, args, FlagsWritten(d.flags, false)) == Then(Meant(d, args), g)
  {
    LeftFlag(d.flags);
  }

  lemma {:induction false} NoWidthValue(d: Directive, args: seq<Arg>, g: string, f: string)
    requires var r := Resolve(d.width, 0, args); !r.Value? || r.n == INT_MIN
    ensures WidthMeant(d.width, f, args, FlagsWritten(d.flags, false)) == Then(Meant(d, args), g)
  {
  }

  lemma {:induction false} FromWidthOn(d: Directive, args: seq<Arg>, g: string, f3: string, f2: string)
    requires IsDirective(d) && f3 == d.modifier + ([d.c] + g) && f2 == PrecisionText(d.precision) + f3
    requires AfterPrecision(f3)
    ensures WidthMeant(d.width, f2, args, FlagsWritten(d.flags, false)) == Then(Meant(d, args), g)
  {
    var r := Resolve(d.width, 0, args);
    if r.Value? && r.n != INT_MIN {
      FromDotOn(d, r.rest, g, f3, f2, FlagsWritten(d.flags, r.n < 0), Abs(r.n));
      WidthValue(d, args, g, f2, r.n, r.rest);
    } else {
      NoWidthValue(d, args, g, f2);
    }
  }

  lemma {:induction false} FromDotOn(d: Directive, args: seq<Arg>, g: string, f3: string, f2: string, fl: Flags, w: nat)
    requires IsDirective(d) && f3 == d.modifier + ([d.c] + g) && f2 == PrecisionText(d.precision) + f3
    requires AfterPrecision(f3)
    ensures DotPart(f2, args, fl, w) == Then(ConvertMeant(d, args, fl, w), g)
  {
    PrecisionRead(d.precision, f3, args, fl, w);
    match Resolve(d.precision, -1, args)
    case TooLarge =>
    case Lacking =>
    case Value(p, rest) => ModifierRead(d.modifier, d.c, g, rest, fl, w, if p < 0 then -1 else p);
  }

  lemma {:induction false} DirectiveAlone(d: Directive, args: seq<Arg>)
    requires IsDirective(d)
    ensures Interpret(Write(d), args) == Meant(d, args)
  {
    DirectiveRead(d, args, "");
    assert Write(d) + "" == Write(d);
    match Meant(d, args)
    case Done(t, a) =>
      assert Interpret("", a) == Done("", a) && t + "" == t;
    case Overflow(_) =>
    case Undefined =>
  }

  // ---------------------------------------------------------------- the standard's text, from the characters written

  predicate IsInteger(c: char) {
    c in "diuoxX"
  }

  /** How many values the type has that the length modifier names; int if there is none. */
  function TypeSize(modifier: string): (n: int)
    ensures n > 0 && n % 2 == 0
  {
    if modifier == "hh" then 0x100
    else if modifier == "h" then 0x1_0000
    else if modifier in ["l", "ll", "j", "t", "z"] then 0x1_0000_0000_0000_0000
    else 0x1_0000_0000
  }

  /** The value of the argument in that type: signed for 'd' and 'i', unsigned for the others. */
  function ValueIn(c: char, modifier: string, v: int): int {
    var n := TypeSize(modifier);
    if (c == 'd' || c == 'i') && v % n >= n / 2 then v % n - n else v % n
  }

  function Base(c: char): (base: nat)
    ensures IsBase(base)
  {
    if c == 'o' then 8 else if c == 'x' || c == 'X' then 16 else 10
  }

  /** '-', or for a signed conversion the '+' or else the ' ' that was asked for. */
  function Sign(c: char, flags: string, n: int): string {
    if n < 0 then "-"
    else if c != 'd' && c != 'i' then ""
    else if '+' in flags then "+"
    else if ' ' in flags then " "
    else ""
  }

  function Marks(c: char, flags: string, n: int): string {
    Sign(c, flags, n)
    + (if '#' !in flags || n == 0 then "" else if c == 'x' then "0x" else if c == 'X' then "0X" else "")
  }

  /** At least `p` digits, none for a zero with p == 0; '#' makes an octal numeral begin with 0. */
  function Digits(c: char, flags: string, n: int, p: int): string {
    var figures := if n == 0 && p == 0 then "" else Figures(Abs(n), Base(c), c == 'X');
    var digits := Fill(p - |figures|, '0') + figures;
    if '#' in flags && c == 'o' && (digits == "" || digits[0] != '0') then "0" + digits else digits
  }

  /** Padding goes behind the number, between its marks and its digits, or in front. */
  function Placed(marks: string, digits: string, left: bool, zeros: bool, w: int): string {
    var gap := w - |marks| - |digits|;
    if left then marks + digits + Fill(gap, ' ')
    else if zeros then marks + Fill(gap, '0') + digits
    else Fill(gap, ' ') + marks + digits
  }

  /** p is -1 if no precision was given; only then does '0' fill with zeros. */
  function IntegerText(c: char, flags: string, left: bool, w: int, p: int, n: int): string {
    Placed(Marks(c, flags, n), Digits(c, flags, n, p), left, '0' in flags && p == -1, w)
  }

  /** Text in a field of spaces. */
  function Field(t: string, left: bool, w: int): string {
    if left then t + Fill(w - |t|, ' ') else Fill(w - |t|, ' ') + t
  }

  function StringText(s: Option<string>, left: bool, w: int, p: int): string {
    var t := if s.Some? then s.value else "(null)";
    Field(if p < 0 || |t| <= p then t else t[..p], left, w)
  }

  /** What a conversion with its value should print; an unknown one nothing, which the standard leaves open. */
  function StandardOf(d: Directive, left: bool, w: int, p: int, args: seq<Arg>): string {
    if d.c == '%' then "%"
    else if args == [] then ""
    else
      match args[0]
      case IntArg(v) =>
        if IsInteger(d.c) then IntegerText(d.c, d.flags, left, w, p, ValueIn(d.c, d.modifier, v))
        else if d.c == 'c' then Field([(v % 0x100) as char], left, w)
        else ""
      case StrArg(s) => if d.c == 's' then StringText(s, left, w, p) else ""
  }

  /** The two exceptions: a zero with precision zero, "%#o" apart, and a character in a wider field. */
  predicate Deviates(d: Directive, w: int, p: int, args: seq<Arg>) {
    && args != [] && args[0].IntArg?
    && (|| (IsInteger(d.c) && ValueIn(d.c, d.modifier, args[0].v) == 0 && p == 0 && !(d.c == 'o' && '#' in d.flags))
        || (d.c == 'c' && w > 1))
  }

  // ---------------------------------------------------------------- what is printed

  lemma {:induction false} SizeIs(modifier: string)
    ensures Values(SizeWritten(modifier)) == TypeSize(modifier)
  {
  }

  /** Which value the conversion takes. */
  lemma {:induction false} ValueIs(c: char, modifier: string, v: int)
    requires IsInteger(c)
    ensures var n, size := ValueIn(c, modifier, v), SizeWritten(modifier);
      if c == 'd' || c == 'i' then SignedValue(size, v) == n && Magnitude(n, false) == Abs(n)
      else Magnitude(UnsignedValue(size, v), true) == n
  {
    var size := SizeWritten(modifier);
    SizeIs(modifier);
    if c == 'd' || c == 'i' {
      var n := SignedValue(size, v);
      ModOf(TWO64, Abs(n), Abs(n));
    } else {
      UnsignedIs(size, v);
    }
  }

  lemma {:induction false} UnsignedIs(size: Size, v: int)
    ensures Unsigned(TWO64, UnsignedValue(size, v)) == v % Values(size)
  {
    var u := v % Values(size);
    ModOf(TWO64, u, u);
    if Values(size) == TWO64 && u >= TWO64 / 2 { ModOf(TWO64, u - TWO64, u); }
    if Values(size) == TWO64 { ModOf(TWO64, u, u); }
  }

  lemma {:induction false} DigitsAre(c: char, flags: string, left: bool, n: int, p: int, fl: Flags)
    requires IsInteger(c)
    requires fl.num == ('#' in flags) && fl.up == (c == 'X')
    ensures StdDigits(Abs(n), Base(c), p, fl) == Digits(c, flags, n, p)
  {
    FiguresAre(Abs(n), Base(c), c == 'X');
  }

  lemma {:induction false} MarksAre(c: char, flags: string, left: bool, n: int, value: int)
    requires IsInteger(c) && (if c == 'd' || c == 'i' then value == n else n >= 0)
    ensures var fl := FlagsFor(c, flags, left);
      SignText(value, fl) + PrefixText(Abs(n), Base(c), fl) == Marks(c, flags, n)
  {
  }

  /** The flags a conversion works with. */
  function FlagsFor(c: char, flags: string, left: bool): Flags {
    var fl := FlagsWritten(flags, left);
    if c == 'd' || c == 'i' then fl else fl.(up := c == 'X', uns := true)
  }

  lemma {:induction false} PlacedIs(marks: string, digits: string, w: int, p: int, fl: Flags)
    ensures StdField(marks, digits, w, p == -1, fl) == Placed(marks, digits, fl.minus, fl.zero && p == -1, w)
  {
  }

  lemma {:induction false} IntegerTextIs(c: char, flags: string, left: bool, w: int, p: int, n: int, value: int)
    requires IsInteger(c) && (if c == 'd' || c == 'i' then value == n else n >= 0)
    requires Magnitude(value, c != 'd' && c != 'i') == Abs(n)
    ensures StdText(value, Base(c), w, p, FlagsFor(c, flags, left))
            == IntegerText(c, flags, '-' in flags || left, w, p, n)
  {
    var fl := FlagsFor(c, flags, left);
    DigitsAre(c, flags, left, n, p, fl);
    MarksAre(c, flags, left, n, value);
    PlacedIs(Marks(c, flags, n), Digits(c, flags, n, p), w, p, fl);
  }

  lemma {:induction false} IntegerIs(c: char, modifier: string, flags: string, left: bool, w: int, p: int, v: int)
    requires IsInteger(c)
    ensures StdConversion(c, v, FlagsWritten(flags, left), w, p, SizeWritten(modifier))
            == IntegerText(c, flags, '-' in flags || left, w, p, ValueIn(c, modifier, v))
  {
    if c == 'd' || c == 'i' {
      SignedIntegerIs(c, modifier, flags, left, w, p, v);
    } else {
      UnsignedIntegerIs(c, modifier, flags, left, w, p, v);
    }
  }

  lemma {:induction false} SignedIntegerIs(c: char, modifier: string, flags: string, left: bool, w: int, p: int, v: int)
    requires c == 'd' || c == 'i'
    ensures StdText(SignedValue(SizeWritten(modifier), v), 10, w, p, FlagsWritten(flags, left))
            == IntegerText(c, flags, '-' in flags || left, w, p, ValueIn(c, modifier, v))
  {
    ValueIs(c, modifier, v);
    IntegerTextIs(c, flags, left, w, p, ValueIn(c, modifier, v), SignedValue(SizeWritten(modifier), v));
  }

  lemma {:induction false} UnsignedIntegerIs(c: char, modifier: string, flags: string, left: bool, w: int, p: int,
                                             v: int)
    requires IsInteger(c) && c != 'd' && c != 'i'
    ensures StdText(UnsignedValue(SizeWritten(modifier), v), UnsignedBase(c), w, p,
                    FlagsWritten(flags, left).(up := c == 'X', uns := true))
            == IntegerText(c, flags, '-' in flags || left, w, p, ValueIn(c, modifier, v))
  {
    ValueIs(c, modifier, v);
    IntegerTextIs(c, flags, left, w, p, ValueIn(c, modifier, v), UnsignedValue(SizeWritten(modifier), v));
  }

  lemma {:induction false} StringIs(s: Option<string>, left: bool, w: int, p: int)
    requires p >= -1
    ensures StrText(s, w, p, left) == StringText(s, left, w, p)
  {
    var t := Admitted(s, p);
    FillMax(w - |t|, ' ');
    FillNone(-Max(w - |t|, 0), ' ');
    assert t + "" == t && "" + (t + Fill(w - |t|, ' ')) == t + Fill(w - |t|, ' ');
  }

  lemma {:induction false} IntegerConversions(c: char)
    ensures IsInteger(c) <==> IsIntConversion(c)
  {
  }

  lemma {:induction false} IntegerPrints(d: Directive, left: bool, w: nat, p: int, v: int, rest: seq<Arg>)
    requires IsDirective(d) && '\'' !in d.flags && IsIntConversion(d.c)
    requires Convert(d.c, [IntArg(v)] + rest, FlagsWritten(d.flags, left), w, p, SizeWritten(d.modifier)).Done?
    ensures var n := ValueIn(d.c, d.modifier, v);
      Convert(d.c, [IntArg(v)] + rest, FlagsWritten(d.flags, left), w, p, SizeWritten(d.modifier)).text
      == IntegerText(d.c, d.flags, '-' in d.flags || left, w, p, n)
      <==> !(n == 0 && p == 0 && !(d.c == 'o' && '#' in d.flags))
  {
    IntegerConversions(d.c);
    StandardConversion(d.c, v, rest, FlagsWritten(d.flags, left), w, p, SizeWritten(d.modifier));
    IntegerIs(d.c, d.modifier, d.flags, left, w, p, v);
    SizeIs(d.modifier);
  }

  lemma {:induction false} CharacterPrints(v: int, rest: seq<Arg>, fl: Flags, w: nat, p: int, size: Size)
    ensures var m := Convert('c', [IntArg(v)] + rest, fl, w, p, size);
      m.Done? && (m.text == Field([(v % 0x100) as char], fl.minus, w) <==> w <= 1)
  {
    StandardCharacter(v, rest, fl, w, p, size);
  }

  /** A conversion with everything before it resolved prints the standard's text except where it deviates. */
  lemma {:induction false} ConversionPrints(d: Directive, left: bool, w: nat, p: int, args: seq<Arg>)
    requires IsDirective(d) && '\'' !in d.flags && p >= -1
    requires Convert(d.c, args, FlagsWritten(d.flags, left), w, p, SizeWritten(d.modifier)).Done?
    ensures Convert(d.c, args, FlagsWritten(d.flags, left), w, p, SizeWritten(d.modifier)).text
            == StandardOf(d, '-' in d.flags || left, w, p, args)
            <==> !Deviates(d, w, p, args)
  {
    IntegerConversions(d.c);
    if IsIntConversion(d.c) {
      assert args == [IntArg(args[0].v)] + args[1..];
      IntegerPrints(d, left, w, p, args[0].v, args[1..]);
    } else if d.c == 'c' {
      assert args == [IntArg(args[0].v)] + args[1..];
      CharacterPrints(args[0].v, args[1..], FlagsWritten(d.flags, left), w, p, SizeWritten(d.modifier));
    } else if d.c == 's' {
      StringIs(args[0].s, '-' in d.flags || left, w, p);
    }
  }

  /** The argument is used up by the conversions that have one, and by no other. */
  lemma {:induction false} ConversionTakes(c: char, args: seq<Arg>, fl: Flags, w: nat, p: int, size: Size)
    requires Convert(c, args, fl, w, p, size).Done?
    ensures Convert(c, args, fl, w, p, size).args == if args != [] && c in "diuoxXcs" then args[1..] else args
  {
  }

  /** What the argument must be: an integer, or a string of at most INT_MAX characters unless the precision cuts it. */
  predicate Suits(c: char, args: seq<Arg>, p: int) {
    if c in "diuoxXc" then args != [] && args[0].IntArg?
    else if c == 's' then
      && args != [] && args[0].StrArg?
      && (p == -1 && args[0].s.Some? ==> |args[0].s.value| <= 0x7fff_ffff)
    else c !in "aAeEfFgGpn"
  }

  lemma {:induction false} PaddingFits(value: int, base: nat, w: nat, p: int, fl: Flags)
    requires IsBase(base) && p <= 0x7fff_ff00
    ensures SlackFits(value, base, w, p, fl)
  {
    var u := Magnitude(value, fl.uns);
    ConvertLengthSuffices(u, base, fl.up);
    SlackBound(|SignText(value, fl)| + |PrefixText(u, base, fl)|, |Numeral(u, base, fl.up)|, w,
               AdjustedPrecision(u, base, p, fl), fl.quote);
  }

  lemma {:induction false} SlackBound(marks: nat, pos: nat, w: nat, prec: int, quote: bool)
    requires marks <= 3 && pos <= 43 && prec <= 0x7fff_ff00
    ensures SlackOf(marks, pos, w, prec, quote) >= INT_MIN
  {
    assert NumSep(pos) <= 15;
  }

  /** Every conversion but the floating-point ones, "%p" and "%n" is defined for an argument that suits it. */
  lemma {:induction false} ConversionDefined(c: char, args: seq<Arg>, fl: Flags, w: nat, p: int, size: Size)
    requires -1 <= p <= 0x7fff_ff00
    ensures Convert(c, args, fl, w, p, size).Done? <==> Suits(c, args, p)
    ensures !Convert(c, args, fl, w, p, size).Overflow?
  {
    IntegerConversions(c);
    if IsIntConversion(c) && args != [] && args[0].IntArg? {
      var v := args[0].v;
      PaddingFits(SignedValue(size, v), 10, w, p, fl);
      PaddingFits(UnsignedValue(size, v), if c == 'u' then 10 else if c == 'o' then 8 else 16, w, p,
                  fl.(up := fl.up || c == 'X', uns := true));
    }
  }

  /** So is every directive, if its width and precision are. */
  lemma {:induction false} DirectiveDefined(d: Directive, args: seq<Arg>, w: int, args1: seq<Arg>, p: int,
                                            args2: seq<Arg>)
    requires IsDirective(d) && -0x8000_0000 < w && p <= 0x7fff_ff00
    requires Resolve(d.width, 0, args) == Value(w, args1) && Resolve(d.precision, -1, args1) == Value(p, args2)
    ensures Meant(d, args).Done? <==> Suits(d.c, args2, if p < 0 then -1 else p)
    ensures !Meant(d, args).Overflow?
  {
    ConversionDefined(d.c, args2, FlagsWritten(d.flags, w < 0), Abs(w), if p < 0 then -1 else p,
                      SizeWritten(d.modifier));
  }

  /**
   Every directive without the "'" flag prints the text that C99 prescribes
   for the characters it is written with, if and only if it is neither a zero
   with precision zero ("%#o" apart) nor a character in a field wider than one.
   */
  lemma {:induction false} DirectivePrints(d: Directive, args: seq<Arg>, g: string,
                                           w: int, args1: seq<Arg>, p: int, args2: seq<Arg>)
    requires IsDirective(d) && '\'' !in d.flags && Meant(d, args).Done?
    requires Resolve(d.width, 0, args) == Value(w, args1) && Resolve(d.precision, -1, args1) == Value(p, args2)
    ensures var m, q := Meant(d, args), if p < 0 then -1 else p;
      && Interpret(Write(d) + g, args) == Prefixed(m.text, Interpret(g, m.args))
      && (m.text == StandardOf(d, '-' in d.flags || w < 0, Abs(w), q, args2) <==> !Deviates(d, Abs(w), q, args2))
      && m.args == if args2 != [] && d.c in "diuoxXcs" then args2[1..] else args2
  {
    DirectiveRead(d, args, g);
    ConversionPrints(d, w < 0, Abs(w), if p < 0 then -1 else p, args2);
    ConversionTakes(d.c, args2, FlagsWritten(d.flags, w < 0), Abs(w), if p < 0 then -1 else p, SizeWritten(d.modifier));
  }

  // ---------------------------------------------------------------- separators

  /** How many characters n grouped digits take, modulo four. */
  lemma {:induction false} GroupedModulo(n: nat)
    ensures (n + NumSep(n)) % 4 == if n > 0 && n % 3 == 0 then 3 else n % 3
  {
    var q, r := n / 3, n % 3;
    assert n == 3 * q + r;
    if r == 0 && n > 0 {
      assert n + NumSep(n) == 4 * (q - 1) + 3;
    } else {
      assert n + NumSep(n) == 4 * q + r;
    }
  }

  lemma {:induction false} FromTheRight(d: char, sep: string, rest: string, i: nat)
    requires i < 1 + |sep| + |rest| && |sep| <= 1
    ensures var g := [d] + sep + rest;
      g[|g| - 1 - i] == if i < |rest| then rest[|rest| - 1 - i] else if i < |rest| + |sep| then sep[0] else d
  {
  }

  /** With "'" a ',' stands in every fourth place from the right, and nowhere else. */
  lemma {:induction false} GroupedPlaces(digits: string, i: nat)
    requires AllDigits(digits) && i < |Grouped(digits, true)|
    ensures var g := Grouped(digits, true); g[|g| - 1 - i] == ',' <==> i % 4 == 3
  {
    var n := |digits| - 1;
    var sep, rest := if n > 0 && n % 3 == 0 then "," else "", Grouped(digits[1..], true);
    GroupedLength(digits[1..], true);
    if i < |rest| { GroupedPlaces(digits[1..], i); }
    assert digits[0] != ',' by { assert DigitValue(digits[0]).Some?; }
    OneMorePlace(digits[0], sep, rest, i, n);
  }

  lemma {:induction false} OneMorePlace(d: char, sep: string, rest: string, i: nat, n: nat)
    requires d != ',' && sep == (if n > 0 && n % 3 == 0 then "," else "") && |rest| == n + NumSep(n)
    requires i < 1 + |sep| + |rest| && (i < |rest| ==> (rest[|rest| - 1 - i] == ',' <==> i % 4 == 3))
    ensures var g := [d] + sep + rest; g[|g| - 1 - i] == ',' <==> i % 4 == 3
  {
    FromTheRight(d, sep, rest, i);
    GroupedModulo(n);
    if i > |rest| { assert i == |rest| + 1 && i % 4 == 0; }
  }

  function WithoutCommas(s: string): string {
    if s == "" then "" else (if s[0] == ',' then "" else [s[0]]) + WithoutCommas(s[1..])
  }

  lemma {:induction false} CommasApart(s: string, t: string)
    ensures WithoutCommas(s + t) == WithoutCommas(s) + WithoutCommas(t)
  {
    if s == "" {
      assert s + t == t && "" + WithoutCommas(t) == WithoutCommas(t);
    } else {
      ConcatTail(s, t);
      CommasApart(s[1..], t);
      Assoc(if s[0] == ',' then "" else [s[0]], WithoutCommas(s[1..]), WithoutCommas(t));
    }
  }

  lemma {:induction false} OneOrNone(c: char)
    ensures WithoutCommas([c]) == if c == ',' then "" else [c]
  {
    assert [c][1..] == "";
  }

  /** Without them the digits are left. */
  lemma {:induction false} GroupedDigits(digits: string)
    requires AllDigits(digits)
    ensures WithoutCommas(Grouped(digits, true)) == digits
  {
    if digits != "" {
      var sep, rest := if |digits| > 1 && (|digits| - 1) % 3 == 0 then "," else "", Grouped(digits[1..], true);
      GroupedDigits(digits[1..]);
      CommasApart([digits[0]] + sep, rest);
      CommasApart([digits[0]], sep);
      OneOrNone(digits[0]);
      OneOrNone(',');
      assert digits[0] != ',' by { assert DigitValue(digits[0]).Some?; }
      assert digits == [digits[0]] + digits[1..] && [digits[0]] + "" == [digits[0]];
    }
  }

  /** The "'" flag groups the digits of a plain number, after its marks. */
  lemma {:induction false} QuotedText(value: int, base: nat, fl: Flags)
    requires IsBase(base) && fl.quote && !fl.num
    ensures IntText(value, base, 0, -1, fl)
            == SignText(value, fl) + Grouped(Numeral(Magnitude(value, fl.uns), base, fl.up), true)
  {
    var l := IntLayout(value, base, 0, -1, fl);
    var digits := Numeral(Magnitude(value, fl.uns), base, fl.up);
    UngroupedShort(digits);
    assert l.zeros == 0 && l.spaces == 0 && l.prefix == "" && l.digits == digits;
    var g := Grouped(digits, l.group);
    assert g + "" == g && "" + (g + "") == g;
    assert "" + (l.sign + g) == l.sign + g;
  }

  lemma {:induction false} UngroupedShort(digits: string)
    ensures NumSep(|digits|) == 0 ==> Grouped(digits, true) == Grouped(digits, false)
  {
    if digits != "" { UngroupedShort(digits[1..]); }
  }

  // ---------------------------------------------------------------- examples

  lemma {:induction false} FiveInTwo(fl: Flags)
    requires fl == FlagsWritten("0", false)
    ensures Convert('d', [IntArg(5)], fl, 2, -1, Default) == Done("05", [])
  {
    assert SignedValue(Default, 5) == 5 && Magnitude(5, false) == 5;
    assert Numeral(5, 10, false) == "5";
    ZeroFilled(5, 10, 2, fl);
    assert Fill(1, '0') == "0";
    assert "" + ("" + ("0" + "5")) == "05";
  }

  lemma {:induction false} TwoWritten()
    ensures Write(Directive("0", Given(2), Missing, "", 'd')) == "%02d"
  {
    assert Figures(2, 10, false) == "2";
    assert "" + ("" + ['d']) == "d";
  }

  lemma {:induction false} TwoIsDirective()
    ensures IsDirective(Directive("0", Given(2), Missing, "", 'd'))
  {
    assert "" in ["", "hh", "h", "l", "ll", "L", "j", "t", "z"];
  }

  /** "%02d" of 5 prints "05". */
  lemma {:induction false} TwoDigits(d: Directive, args: seq<Arg>)
    requires d == Directive("0", Given(2), Missing, "", 'd') && args == [IntArg(5)]
    ensures Write(d) == "%02d" && Interpret(Write(d), args) == Done("05", [])
  {
    TwoWritten();
    TwoIsDirective();
    FiveInTwo(FlagsWritten("0", false));
    DirectiveAlone(d, args);
  }
}
