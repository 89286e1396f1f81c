/**
 The integer and character conversions as section 7.19.6.1 of ISO C99 lays
 them down, and exactly when the code's conversions agree with them.
 */
module SnprintfStandard {
  import opened Basics
  import opened SnprintfText
  import opened SnprintfFormat

  /** At least `precision` digits, none for a zero with precision zero; '#' makes an octal numeral begin with 0. */
  function StdDigits(u: nat, base: nat, precision: int, fl: Flags): string
    requires IsBase(base)
  {
    var plain := if u == 0 && precision == 0 then "" else Numeral(u, base, fl.up);
    var digits := Fill(precision - |plain|, '0') + plain;
    if fl.num && base == 8 && (digits == "" || digits[0] != '0') then "0" + digits else digits
  }

  /** The field: '-' pads behind, '0' without a precision pads between the marks and the digits. */
  function StdField(marks: string, digits: string, width: int, noprecision: bool, fl: Flags): string {
    var gap := width - |marks| - |digits|;
    if fl.minus then marks + digits + Fill(gap, ' ')
    else if fl.zero && noprecision then marks + Fill(gap, '0') + digits
    else Fill(gap, ' ') + marks + digits
  }

  function StdText(value: int, base: nat, width: int, precision: int, fl: Flags): string
    requires IsBase(base)
  {
    var u := Magnitude(value, fl.uns);
    StdField(SignText(value, fl) + PrefixText(u, base, fl), StdDigits(u, base, precision, fl), width, precision == -1,
             fl)
  }

  /** A zero that should print no digit. */
  predicate VanishingZero(u: nat, base: nat, precision: int, fl: Flags) {
    u == 0 && precision == 0 && !(fl.num && base == 8)
  }

  // ---------------------------------------------------------------- digits

  lemma {:induction false} NumeralHead(u: nat, base: nat, up: bool)
    requires 2 <= base <= 16
    ensures Numeral(u, base, up)[0] == '0' <==> u == 0
    decreases u
  {
    if u < base {
      DigitCharValue(u, up);
    } else {
      DivShrinks(u, base);
      NumeralHead(u / base, base, up);
    }
  }

  /** The code's digits: the numeral with zeros up to the adjusted precision. */
  lemma {:induction false} DigitsAgree(u: nat, base: nat, precision: int, fl: Flags)
    requires IsBase(base) && !VanishingZero(u, base, precision, fl)
    ensures var plain := Numeral(u, base, fl.up);
      StdDigits(u, base, precision, fl) == Fill(AdjustedPrecision(u, base, precision, fl) - |plain|, '0') + plain
  {
    var plain := Numeral(u, base, fl.up);
    NumeralHead(u, base, fl.up);
    if u == 0 && precision == 0 {
      assert plain == "0";
      assert Fill(0, '0') + "" == "";
      assert "0" + "" == Fill(-1, '0') + "0";
    } else if fl.num && base == 8 {
      var digits := Fill(precision - |plain|, '0') + plain;
      if precision <= |plain| {
        assert digits == plain;
        assert "0" + plain == Fill(1, '0') + plain;
      } else {
        assert digits[0] == '0';
      }
    }
  }

  lemma {:induction false} NoDigits(u: nat, base: nat, precision: int, fl: Flags)
    requires IsBase(base) && VanishingZero(u, base, precision, fl)
    ensures StdDigits(u, base, precision, fl) == "" && Numeral(u, base, fl.up) == "0"
  {
    assert Fill(0, '0') + "" == "";
  }

  // ---------------------------------------------------------------- the field

  lemma {:induction false} FillSum(m: int, n: int, c: char)
    requires m >= 0 && n >= 0
    ensures Fill(m + n, c) == Fill(m, c) + Fill(n, c)
  {
  }

  lemma {:induction false} FillNone(n: int, c: char)
    requires n <= 0
    ensures Fill(n, c) == ""
  {
  }

  lemma {:induction false} FillMax(n: int, c: char)
    ensures Fill(Max(n, 0), c) == Fill(n, c)
  {
  }

  lemma {:induction false} LayoutPieces(l: Layout, before: string, zeros: string, after: string)
    requires !l.group && before == Fill(l.spaces, ' ') && zeros == Fill(l.zeros, '0') && after == Fill(-l.spaces, ' ')
    ensures LayoutText(l) == before + (l.sign + (l.prefix + (zeros + (l.digits + after))))
  {
    UngroupedSame(l.digits);
  }

  /** The three ways to fill the gap, of a number whose digits come with their zeros. */
  lemma {:induction false} PadBehind(sign: string, prefix: string, digits: string, all: string, zpad: int, gap: int)
    requires all == Fill(zpad, '0') + digits
    ensures LayoutText(Layout(sign, prefix, Max(zpad, 0), digits, false, -Max(gap, 0)))
            == (sign + prefix) + all + Fill(gap, ' ')
  {
    FillMax(zpad, '0');
    FillMax(gap, ' ');
    FillNone(-Max(gap, 0), ' ');
    LayoutPieces(Layout(sign, prefix, Max(zpad, 0), digits, false, -Max(gap, 0)), "", Fill(zpad, '0'), Fill(gap, ' '));
    Front(sign, prefix, Fill(zpad, '0'), digits, Fill(gap, ' '));
  }

  lemma {:induction false} PadBetween(sign: string, prefix: string, digits: string, all: string, zpad: int, gap: int)
    requires all == Fill(zpad, '0') + digits
    ensures LayoutText(Layout(sign, prefix, Max(zpad, 0) + Max(gap, 0), digits, false, 0))
            == (sign + prefix) + Fill(gap, '0') + all
  {
    FillMax(zpad, '0');
    FillMax(gap, '0');
    FillSum(Max(gap, 0), Max(zpad, 0), '0');
    FillNone(0, ' ');
    LayoutPieces(Layout(sign, prefix, Max(zpad, 0) + Max(gap, 0), digits, false, 0),
                 "", Fill(gap, '0') + Fill(zpad, '0'), "");
    Middle(sign, prefix, Fill(gap, '0'), Fill(zpad, '0'), digits);
  }

  lemma {:induction false} PadBefore(sign: string, prefix: string, digits: string, all: string, zpad: int, gap: int)
    requires all == Fill(zpad, '0') + digits
    ensures LayoutText(Layout(sign, prefix, Max(zpad, 0), digits, false, Max(gap, 0)))
            == Fill(gap, ' ') + (sign + prefix) + all
  {
    FillMax(zpad, '0');
    FillMax(gap, ' ');
    FillNone(-Max(gap, 0), ' ');
    LayoutPieces(Layout(sign, prefix, Max(zpad, 0), digits, false, Max(gap, 0)), Fill(gap, ' '), Fill(zpad, '0'), "");
    Behind(sign, prefix, Fill(zpad, '0'), digits, Fill(gap, ' '));
  }

  lemma {:induction false} Arranged(sign: string, prefix: string, digits: string, width: int, prec: int,
                                    noprecision: bool, fl: Flags, zpad: int, gap: int)
    requires !fl.quote && zpad == prec - |digits| && gap == SlackOf(|sign| + |prefix|, |digits|, width, prec, false)
    ensures Arrange(sign, prefix, digits, width, prec, noprecision, fl)
            == if fl.minus then Layout(sign, prefix, Max(zpad, 0), digits, false, -Max(gap, 0))
               else if fl.zero && noprecision then Layout(sign, prefix, Max(zpad, 0) + Max(gap, 0), digits, false, 0)
               else Layout(sign, prefix, Max(zpad, 0), digits, false, Max(gap, 0))
  {
  }

  lemma {:induction false} GapIs(marks: nat, digits: string, all: string, width: int, prec: int)
    requires all == Fill(prec - |digits|, '0') + digits
    ensures SlackOf(marks, |digits|, width, prec, false) == width - marks - |all|
  {
  }

  /** Laying out sign, prefix, zeros and digits in pieces is laying out the marks and the digits as wholes. */
  lemma {:induction false} FieldsAgree(sign: string, prefix: string, digits: string, all: string,
                                       width: int, prec: int, noprecision: bool, fl: Flags)
    requires !fl.quote && all == Fill(prec - |digits|, '0') + digits
    ensures LayoutText(Arrange(sign, prefix, digits, width, prec, noprecision, fl))
            == StdField(sign + prefix, all, width, noprecision, fl)
  {
    var zpad, gap := prec - |digits|, width - |sign + prefix| - |all|;
    GapIs(|sign| + |prefix|, digits, all, width, prec);
    Arranged(sign, prefix, digits, width, prec, noprecision, fl, zpad, gap);
    if fl.minus {
      PadBehind(sign, prefix, digits, all, zpad, gap);
    } else if fl.zero && noprecision {
      PadBetween(sign, prefix, digits, all, zpad, gap);
    } else {
      PadBefore(sign, prefix, digits, all, zpad, gap);
    }
  }

  lemma {:induction false} Front(sign: string, prefix: string, zeros: string, digits: string, pad: string)
    ensures "" + (sign + (prefix + (zeros + (digits + pad)))) == (sign + prefix) + (zeros + digits) + pad
  {
  }

  lemma {:induction false} Middle(sign: string, prefix: string, fill: string, zeros: string, digits: string)
    ensures "" + (sign + (prefix + ((fill + zeros) + (digits + "")))) == (sign + prefix) + fill + (zeros + digits)
  {
  }

  lemma {:induction false} Behind(sign: string, prefix: string, zeros: string, digits: string, pad: string)
    ensures pad + (sign + (prefix + (zeros + (digits + "")))) == pad + (sign + prefix) + (zeros + digits)
  {
  }

  // ---------------------------------------------------------------- agreement

  /** A field of marks without digits shows no '0'. */
  lemma {:induction false} NoZeroShown(sign: string, width: int, fl: Flags)
    requires '0' !in sign
    ensures '0' !in StdField(sign, "", width, false, fl)
  {
  }

  lemma {:induction false} ZeroShown(l: Layout)
    requires l.digits == "0" && !l.group
    ensures '0' in LayoutText(l)
  {
    LayoutPieces(l, Fill(l.spaces, ' '), Fill(l.zeros, '0'), Fill(-l.spaces, ' '));
    Inside(Fill(l.spaces, ' '), l.sign, l.prefix, Fill(l.zeros, '0'), l.digits + Fill(-l.spaces, ' '), '0');
  }

  lemma {:induction false} Inside(a: string, b: string, c: string, d: string, e: string, ch: char)
    requires e != "" && e[0] == ch
    ensures ch in a + (b + (c + (d + e)))
  {
    assert (d + e)[|d|] == ch;
    assert (c + (d + e))[|c| + |d|] == ch;
    assert (b + (c + (d + e)))[|b| + |c| + |d|] == ch;
    assert (a + (b + (c + (d + e))))[|a| + |b| + |c| + |d|] == ch;
  }

  lemma {:induction false} ZeroVanishes(value: int, base: nat, width: int, precision: int, fl: Flags)
    requires IsBase(base) && !fl.quote && VanishingZero(Magnitude(value, fl.uns), base, precision, fl)
    ensures '0' in IntText(value, base, width, precision, fl) && '0' !in StdText(value, base, width, precision, fl)
  {
    var u, sign := Magnitude(value, fl.uns), SignText(value, fl);
    NoDigits(u, base, precision, fl);
    assert sign + "" == sign;
    NoZeroShown(sign, width, fl);
    ZeroShown(IntLayout(value, base, width, precision, fl));
  }

  lemma {:induction false} TextsAgree(value: int, base: nat, width: int, precision: int, fl: Flags)
    requires IsBase(base) && !fl.quote && !VanishingZero(Magnitude(value, fl.uns), base, precision, fl)
    ensures IntText(value, base, width, precision, fl) == StdText(value, base, width, precision, fl)
  {
    var u := Magnitude(value, fl.uns);
    DigitsAgree(u, base, precision, fl);
    FieldsAgree(SignText(value, fl), PrefixText(u, base, fl), Numeral(u, base, fl.up),
                StdDigits(u, base, precision, fl),
                width, AdjustedPrecision(u, base, precision, fl), precision == -1, fl);
  }

  /**
   For every value, base, width, precision and flags that C99 knows, the text
   is the standard's except for a zero with precision zero, which has no
   digits there ('#' with octal apart) and the digit 0 here.
   */
  lemma {:induction false} StandardText(value: int, base: nat, width: int, precision: int, fl: Flags)
    requires IsBase(base) && !fl.quote
    ensures IntText(value, base, width, precision, fl) == StdText(value, base, width, precision, fl)
            <==> !VanishingZero(Magnitude(value, fl.uns), base, precision, fl)
  {
    if VanishingZero(Magnitude(value, fl.uns), base, precision, fl) {
      ZeroVanishes(value, base, width, precision, fl);
    } else {
      TextsAgree(value, base, width, precision, fl);
    }
  }

  /** The standard's text of an integer conversion, with the value taken as the length modifier says. */
  function StdConversion(c: char, v: int, fl: Flags, width: int, precision: int, size: Size): string
    requires IsIntConversion(c)
  {
    if c == 'd' || c == 'i' then StdText(SignedValue(size, v), 10, width, precision, fl)
    else StdText(UnsignedValue(size, v), UnsignedBase(c), width, precision, fl.(up := fl.up || c == 'X', uns := true))
  }

  function UnsignedBase(c: char): (base: nat)
    ensures IsBase(base)
  {
    if c == 'u' then 10 else if c == 'o' then 8 else 16
  }

  lemma {:induction false} ConvertedText(c: char, v: int, rest: seq<Arg>, fl: Flags, width: int, precision: int,
                                         size: Size)
    requires IsIntConversion(c) && Convert(c, [IntArg(v)] + rest, fl, width, precision, size).Done?
    ensures Convert(c, [IntArg(v)] + rest, fl, width, precision, size).text
            == if c == 'd' || c == 'i' then IntText(SignedValue(size, v), 10, width, precision, fl)
               else IntText(UnsignedValue(size, v), UnsignedBase(c), width, precision,
                            fl.(up := fl.up || c == 'X', uns := true))
  {
    var args := [IntArg(v)] + rest;
    assert args[0].v == v;
  }

  lemma {:induction false} StandardSigned(v: int, width: int, precision: int, fl: Flags, size: Size)
    requires !fl.quote && !fl.uns
    ensures IntText(SignedValue(size, v), 10, width, precision, fl) == StdText(SignedValue(size, v), 10, width,
                                                                               precision, fl)
            <==> !(v % Values(size) == 0 && precision == 0)
  {
    ZeroValue(size, v);
    StandardText(SignedValue(size, v), 10, width, precision, fl);
  }

  lemma {:induction false} StandardUnsigned(v: int, base: nat, width: int, precision: int, fl: Flags, size: Size)
    requires IsBase(base) && !fl.quote && fl.uns
    ensures IntText(UnsignedValue(size, v), base, width, precision, fl)
            == StdText(UnsignedValue(size, v), base, width, precision, fl)
            <==> !(v % Values(size) == 0 && precision == 0 && !(fl.num && base == 8))
  {
    ZeroValue(size, v);
    StandardText(UnsignedValue(size, v), base, width, precision, fl);
  }

  /** So an integer conversion deviates exactly for a zero with precision zero, "%#o" apart. */
  lemma {:induction false} StandardConversion(c: char, v: int, rest: seq<Arg>, fl: Flags, width: int, precision: int,
                                              size: Size)
    requires IsIntConversion(c) && !fl.quote && !fl.uns
    requires Convert(c, [IntArg(v)] + rest, fl, width, precision, size).Done?
    ensures Convert(c, [IntArg(v)] + rest, fl, width, precision, size).text
            == StdConversion(c, v, fl, width, precision, size)
            <==> !(v % Values(size) == 0 && precision == 0 && !(fl.num && c == 'o'))
  {
    ConvertedText(c, v, rest, fl, width, precision, size);
    if c == 'd' || c == 'i' {
      StandardSigned(v, width, precision, fl, size);
    } else {
      StandardUnsigned(v, UnsignedBase(c), width, precision, fl.(up := fl.up || c == 'X', uns := true), size);
    }
  }

  /** The value printed is zero exactly when the argument is zero in the type the modifier names. */
  lemma {:induction false} ZeroValue(size: Size, v: int)
    ensures Magnitude(SignedValue(size, v), false) == 0 <==> v % Values(size) == 0
    ensures Magnitude(UnsignedValue(size, v), true) == 0 <==> v % Values(size) == 0
  {
    SmallZero(SignedValue(size, v));
    SmallZero(-SignedValue(size, v));
    SmallZero(UnsignedValue(size, v));
  }

  lemma {:induction false} SmallZero(x: int)
    requires -TWO64 < x < TWO64
    ensures x % TWO64 == 0 <==> x == 0
  {
    ModOf(TWO64, x, if x < 0 then x + TWO64 else x);
  }

  // ---------------------------------------------------------------- characters

  /** "%c": one character in a field of the given width. */
  function StdChar(v: int, width: int, minus: bool): string {
    var text := [Unsigned(TWO8, v) as char];
    if minus then text + Fill(width - 1, ' ') else Fill(width - 1, ' ') + text
  }

  /** The code ignores the field width of "%c", so it agrees exactly for a width of at most one. */
  lemma {:induction false} StandardCharacter(v: int, rest: seq<Arg>, fl: Flags, width: int, precision: int, size: Size)
    ensures var m := Convert('c', [IntArg(v)] + rest, fl, width, precision, size);
      m.Done? && (m.text == StdChar(v, width, fl.minus) <==> width <= 1)
  {
    var args := [IntArg(v)] + rest;
    assert args[0].v == v;
  }

  // ---------------------------------------------------------------- the inputs on which the two part

  /** A directive that ends with its conversion character. */
  lemma {:induction false} LastCharacter(c: char, args: seq<Arg>, fl: Flags, w: nat, p: int)
    requires Modifier([c]) == (Default, 0) && Convert(c, args, fl, w, p, Default).Done?
    ensures ModifierPart([c], args, fl, w, p) == Convert(c, args, fl, w, p, Default)
  {
    var m := Convert(c, args, fl, w, p, Default);
    assert [c][0..] == [c] && [c][1..] == "";
    assert Interpret("", m.args) == Done("", m.args);
    assert m.text + "" == m.text;
  }

  lemma {:induction false} OneDigit(d: char, c: char)
    requires IsDigit(d) && !IsDigit(c)
    ensures DigitSpan([d, c]) == 1 && [d, c][..1] == [d] && [d, c][1..] == [c] && Decimal(0, [d]) == Digit(d)
  {
    assert [d, c][1..] == [c];
    assert [d][1..] == "";
  }

  lemma {:induction false} NoFlagsGiven(g: string, args: seq<Arg>)
    requires g == "" || !IsFlag(g[0])
    ensures Interpret(['%'] + g, args) == WidthPart(g, args, NO_FLAGS, 0)
  {
    assert (['%'] + g)[1..] == g && g[0..] == g && g[..0] == "";
    assert Union(NO_FLAGS, FlagsOf("")) == NO_FLAGS;
  }

  lemma {:induction false} PrecisionGiven(d: char, c: char, args: seq<Arg>, fl: Flags, w: nat)
    requires IsDigit(d) && c != '*' && !IsDigit(c)
    ensures PrecisionPart([d, c], args, fl, w, 0) == ModifierPart([c], args, fl, w, Digit(d))
  {
    OneDigit(d, c);
    assert PrecisionPart([d, c], args, fl, w, 0) == PrecisionStar([d, c][1..], args, fl, w, Digit(d));
  }

  lemma {:induction false} WidthGiven(d: char, c: char, args: seq<Arg>, fl: Flags)
    requires IsDigit(d) && c != '*' && c != '.' && !IsDigit(c)
    ensures WidthPart([d, c], args, fl, 0) == ModifierPart([c], args, fl, Digit(d), -1)
  {
    OneDigit(d, c);
    assert WidthPart([d, c], args, fl, 0) == WidthStar([d, c][1..], args, fl, Digit(d));
  }

  lemma {:induction false} NoWidthGiven(g: string, args: seq<Arg>, fl: Flags)
    ensures WidthPart(['.'] + g, args, fl, 0) == PrecisionPart(g, args, fl, 0, 0)
  {
    var f := ['.'] + g;
    assert f[0..] == f && f[..0] == "" && f[1..] == g;
    assert WidthPart(f, args, fl, 0) == WidthStar(f[0..], args, fl, 0);
    assert WidthStar(f, args, fl, 0) == DotPart(f, args, fl, 0);
    assert DotPart(f, args, fl, 0) == PrecisionPart(f[1..], args, fl, 0, 0);
  }

  lemma {:induction false} ReadsPrecision(d: char, c: char, args: seq<Arg>)
    requires IsDigit(d) && !IsDigit(c) && c != '*' && Modifier([c]) == (Default, 0)
    requires Convert(c, args, NO_FLAGS, 0, Digit(d), Default).Done?
    ensures Interpret(['%'] + (['.'] + [d, c]), args) == Convert(c, args, NO_FLAGS, 0, Digit(d), Default)
  {
    NoFlagsGiven(['.'] + [d, c], args);
    NoWidthGiven([d, c], args, NO_FLAGS);
    PrecisionGiven(d, c, args, NO_FLAGS, 0);
    LastCharacter(c, args, NO_FLAGS, 0, Digit(d));
  }

  lemma {:induction false} ReadsWidth(d: char, c: char, args: seq<Arg>)
    requires IsDigit(d) && d != '0' && !IsDigit(c) && c != '*' && c != '.' && Modifier([c]) == (Default, 0)
    requires Convert(c, args, NO_FLAGS, Digit(d), -1, Default).Done?
    ensures Interpret(['%'] + [d, c], args) == Convert(c, args, NO_FLAGS, Digit(d), -1, Default)
  {
    NoFlagsGiven([d, c], args);
    WidthGiven(d, c, args, NO_FLAGS);
    LastCharacter(c, args, NO_FLAGS, Digit(d), -1);
  }

  lemma {:induction false} ZeroConverted()
    ensures Convert('d', [IntArg(0)], NO_FLAGS, 0, 0, Default) == Done("0", [])
    ensures StdConversion('d', 0, NO_FLAGS, 0, 0, Default) == ""
  {
    assert IntText(0, 10, 0, 0, NO_FLAGS) == "0";
  }

  /** "%.0d" of 0 prints "0" where the standard prints nothing. */
  lemma {:induction false} ZeroPrecision()
    ensures Interpret("%.0d", [IntArg(0)]) == Done("0", [])
    ensures StdConversion('d', 0, NO_FLAGS, 0, 0, Default) == ""
  {
    ZeroConverted();
    ReadsPrecision('0', 'd', [IntArg(0)]);
    assert ['%'] + (['.'] + ['0', 'd']) == "%.0d";
  }

  lemma {:induction false} LetterConverted()
    ensures Convert('c', [IntArg(65)], NO_FLAGS, 2, -1, Default) == Done("A", [])
    ensures StdChar(65, 2, false) == " A"
  {
  }

  /** "%2c" of 65 prints "A" where the standard prints " A". */
  lemma {:induction false} WideCharacter()
    ensures Interpret("%2c", [IntArg(65)]) == Done("A", [])
    ensures StdChar(65, 2, false) == " A"
  {
    LetterConverted();
    ReadsWidth('2', 'c', [IntArg(65)]);
    assert ['%'] + ['2', 'c'] == "%2c";
  }
}
