/** The truncating writer of snprintf and the conversions that print through it. */
module SnprintfBuffer {
  import opened Basics
  import opened SnprintfText

  // ---------------------------------------------------------------- the truncating writer

  /**
   The triple (str, len, size) that OUTCHAR works on.  `text` is everything
   written so far, as if the buffer had no end; `before` is what the memory at
   str held at first.
   */
  class Output {
    const buf: array<char>
    const size: nat
    ghost const before: seq<char>
    var len: nat
    ghost var text: string

    constructor (str: array<char>, size: nat)
      requires size <= str.Length
      ensures Valid() && buf == str && this.size == size && text == "" && before == str[..]
      ensures fresh(this)
    {
      buf, this.size, before, len, text := str, size, str[..], 0, "";
    }

    /** Only the first size-1 places ever differ from what they were, and they hold the text. */
    ghost predicate Valid()
      reads this, buf
    {
      && size <= buf.Length == |before| && len == |text|
      && (forall i | 0 <= i < buf.Length :: buf[i] == if i < len && i + 1 < size then text[i] else before[i])
    }

    method OutChar(ch: char)
      requires Valid()
      modifies this, buf
      ensures Valid() && text == old(text) + [ch]
    {
      if len + 1 < size {
        buf[len] := ch;
      }
      len := len + 1;
      text := text + [ch];
    }

    /** The loops that write a run of one padding character. */
    method Pad(n: int, ch: char)
      requires Valid()
      modifies this, buf
      ensures Valid() && text == old(text) + Fill(n, ch)
    {
      ghost var t := text;
      var k := 0;
      while k < n
        invariant 0 <= k <= Max(n, 0) && Valid() && text == t + Fill(k, ch)
      {
        OutChar(ch);
        k := k + 1;
        assert Fill(k, ch) == Fill(k - 1, ch) + [ch];
      }
      assert Fill(k, ch) == Fill(n, ch);
    }

    method PutString(s: string)
      requires Valid()
      modifies this, buf
      ensures Valid() && text == old(text) + s
    {
      ghost var t := text;
      for k := 0 to |s|
        invariant Valid() && text == t + s[..k]
      {
        OutChar(s[k]);
      }
      assert s[..|s|] == s;
    }

    /** The final '\0': after the text if it fits, else in the last place. */
    method Finish()
      requires Valid()
      modifies buf
      ensures Holds(text, before, buf[..], size)
    {
      if len < size {
        buf[len] := '\0';
      } else if size > 0 {
        buf[size - 1] := '\0';
      }
    }
  }

  /** The memory b, which was a before, after text has been printed into its first size places. */
  ghost predicate Holds(text: string, a: seq<char>, b: seq<char>, size: nat) {
    && size <= |a| == |b|
    && (size == 0 ==> b == a)
    && (size > 0 ==>
          var n := if |text| < size then |text| else size - 1;
          b[..n] == text[..n] && b[n] == '\0' && b[n + 1..] == a[n + 1..])
  }

  // ---------------------------------------------------------------- conversions

  function Backwards(s: string): (r: string)
    ensures |r| == |s|
  {
    if s == "" then "" else Backwards(s[1..]) + [s[0]]
  }

  lemma {:induction false} BackwardsAppend(s: string, c: char)
    ensures Backwards(s + [c]) == [c] + Backwards(s)
  {
    if s != "" {
      assert (s + [c])[1..] == s[1..] + [c];
      BackwardsAppend(s[1..], c);
    }
  }

  lemma {:induction false} BackwardsAt(s: string, i: nat)
    requires i < |s|
    ensures Backwards(s)[|s| - 1 - i] == s[i]
  {
    if i > 0 { BackwardsAt(s[1..], i - 1); }
  }

  method DivMod(v: nat, base: nat) returns (q: nat, d: nat)
    requires base > 0
    ensures v == q * base + d && d < base
  {
    q, d := v / base, v % base;
  }

  lemma {:induction false} DivModIs(v: nat, base: nat, q: nat, d: nat)
    requires v == q * base + d && d < base
    ensures q == v / base && d == v % base
    ensures v < base <==> q == 0
  {
    var q', d' := v / base, v % base;
    assert (q - q') * base == d' - d;
    if q > q' { MulMonotone(base, 1, q - q'); } else if q < q' { MulMonotone(base, 1, q' - q); }
    if q >= 1 { MulMonotone(base, 1, q); }
  }

  /** What is left after a digit fits in one place less. */
  lemma {:induction false} DigitRoom(v: nat, base: nat, q: nat, d: nat, room: nat)
    requires IsBase(base) && v == q * base + d && d < base && room > 0 && v < Pow(base, room)
    ensures q < Pow(base, room - 1) && (room == 1 ==> q == 0)
  {
    DivModIs(v, base, q, d);
    DivBound(v, base, Pow(base, room - 1));
  }

  lemma {:induction false} NumeralStep(v: nat, base: nat, up: bool, q: nat, d: nat)
    requires IsBase(base) && v == q * base + d && d < base
    ensures Numeral(v, base, up) == (if q == 0 then "" else Numeral(q, base, up)) + [DigitChar(d, up)]
  {
    DivModIs(v, base, q, d);
    assert "" + [DigitChar(d, up)] == [DigitChar(d, up)];
  }

  lemma {:induction false} CharMoved(total: string, front: string, c: char, done: string)
    requires total == (front + [c]) + Backwards(done)
    ensures total == front + Backwards(done + [c])
  {
    BackwardsAppend(done, c);
    Assoc(front, [c], Backwards(done));
  }

  /** The least significant digit moves from the numeral to the digits written. */
  lemma {:induction false} DigitWritten(value: nat, v: nat, base: nat, up: bool, q: nat, d: nat, done: string)
    requires IsBase(base) && v == q * base + d && d < base
    requires Numeral(value, base, up) == Numeral(v, base, up) + Backwards(done)
    ensures Numeral(value, base, up)
            == (if q == 0 then "" else Numeral(q, base, up)) + Backwards(done + [DigitChar(d, up)])
  {
    NumeralStep(v, base, up, q, d);
    CharMoved(Numeral(value, base, up), if q == 0 then "" else Numeral(q, base, up), DigitChar(d, up), done);
  }

  /** Digits into an array, least significant first; none is lost if the array has room for the value. */
  method ConvertDigits(value: nat, iconvert: array<char>, base: nat, up: bool) returns (pos: nat)
    requires IsBase(base) && iconvert.Length > 0 && value < Pow(base, iconvert.Length)
    modifies iconvert
    ensures 0 < pos <= iconvert.Length
    ensures Backwards(iconvert[..pos]) == Numeral(value, base, up)
  {
    pos := 0;
    var v: nat := value;
    assert Numeral(value, base, up) + "" == Numeral(value, base, up);
    while true
      invariant 0 <= pos < iconvert.Length
      invariant v < Pow(base, iconvert.Length - pos)
      invariant Numeral(value, base, up) == Numeral(v, base, up) + Backwards(iconvert[..pos])
      decreases iconvert.Length - pos
    {
      var q, d := DivMod(v, base);
      DigitRoom(v, base, q, d, iconvert.Length - pos);
      DigitWritten(value, v, base, up, q, d, iconvert[..pos]);
      ghost var done := iconvert[..pos];
      iconvert[pos] := DigitChar(d, up);
      pos := pos + 1;
      assert iconvert[..pos] == done + [DigitChar(d, up)];
      v := q;
      if v == 0 || pos == iconvert.Length { break; }
    }
    assert "" + Backwards(iconvert[..pos]) == Backwards(iconvert[..pos]);
  }

  /** `fmtstr` */
  method FmtStr(out: Output, value: Option<string>, width: int, precision: int, fl: Flags)
    requires out.Valid()
    modifies out, out.buf
    ensures out.Valid() && out.text == old(out.text) + StrText(value, width, precision, fl.minus)
  {
    ghost var t := out.text;
    var noprecision := precision == -1;
    var s := if value.Some? then value.value else "(null)";
    var strln := 0;
    while strln < |s| && (noprecision || strln < precision)
      invariant 0 <= strln <= |s| && (noprecision || strln <= Max(precision, 0))
    {
      strln := strln + 1;
    }
    ghost var admitted := Admitted(value, precision);
    assert s[..strln] == admitted;
    var padlen := width - strln;
    if padlen < 0 { padlen := 0; }
    if fl.minus { padlen := -padlen; }
    out.Pad(padlen, ' ');
    out.PutString(s[..strln]);
    out.Pad(-padlen, ' ');
    Joined3(t, Fill(padlen, ' '), admitted, Fill(-padlen, ' '));
    StrPieces(value, width, precision, fl.minus, padlen);
  }

  lemma {:induction false} Joined3(t: string, a: string, b: string, c: string)
    ensures t + a + b + c == t + (a + (b + c))
  {
  }

  /** The digits, with separators where asked for. */
  method PutDigits(out: Output, iconvert: array<char>, count: nat, group: bool)
    requires out.Valid() && count <= iconvert.Length && iconvert != out.buf
    modifies out, out.buf
    ensures out.Valid() && out.text == old(out.text) + Grouped(Backwards(old(iconvert[..count])), group)
  {
    ghost var stored := iconvert[..count];
    ghost var digits := Backwards(stored);
    ghost var goal := out.text + Grouped(digits, group);
    var pos := count;
    assert digits[0..] == digits;
    while pos > 0
      invariant 0 <= pos <= count && out.Valid()
      invariant forall i | 0 <= i < count :: iconvert[i] == stored[i]
      invariant goal == out.text + Grouped(digits[count - pos..], group)
    {
      BackwardsAt(stored, pos - 1);
      GroupedStep(out.text, digits, count - pos, group);
      pos := pos - 1;
      out.OutChar(iconvert[pos]);
      if group && pos > 0 && pos % 3 == 0 {
        out.OutChar(',');
      }
    }
    assert digits[count..] == "";
  }

  lemma {:induction false} GroupedStep(t: string, digits: string, i: nat, group: bool)
    requires i < |digits|
    ensures var n := |digits| - i - 1;
      t + Grouped(digits[i..], group) ==
        (if group && n > 0 && n % 3 == 0 then t + [digits[i]] + [','] else t + [digits[i]])
            + Grouped(digits[i + 1..], group)
  {
    var r := digits[i..];
    assert r[1..] == digits[i + 1..];
    var g := Grouped(r[1..], group);
    assert t + ([r[0]] + "" + g) == t + [r[0]] + g;
    assert t + ([r[0]] + "," + g) == t + [r[0]] + [','] + g;
  }

  /** The writing half of `fmtint`. */
  method PutLayout(out: Output, sign: string, hexprefix: string, zpadlen: int, iconvert: array<char>, pos: nat,
                   group: bool, spadlen: int)
    requires out.Valid() && pos <= iconvert.Length && iconvert != out.buf
    modifies out, out.buf
    ensures out.Valid()
    ensures out.text == old(out.text) +
            LayoutText(Layout(sign, hexprefix, zpadlen, Backwards(old(iconvert[..pos])), group, spadlen))
  {
    ghost var t, stored := out.text, iconvert[..pos];
    PutMarks(out, sign, hexprefix, zpadlen, spadlen);
    assert iconvert[..pos] == stored;
    PutDigits(out, iconvert, pos, group);
    out.Pad(-spadlen, ' ');
    Joined6(t, Fill(spadlen, ' '), sign, hexprefix, Fill(zpadlen, '0'), Grouped(Backwards(stored), group),
            Fill(-spadlen, ' '));
  }

  /** Everything in front of the digits. */
  method PutMarks(out: Output, sign: string, hexprefix: string, zpadlen: int, spadlen: int)
    requires out.Valid()
    modifies out, out.buf
    ensures out.Valid()
    ensures out.text == old(out.text) + Fill(spadlen, ' ') + sign + hexprefix + Fill(zpadlen, '0')
  {
    out.Pad(spadlen, ' ');
    out.PutString(sign);
    out.PutString(hexprefix);
    out.Pad(zpadlen, '0');
  }

  lemma {:induction false} Joined6(t: string, a: string, b: string, c: string, d: string, e: string, f: string)
    ensures t + a + b + c + d + e + f == t + (a + (b + (c + (d + (e + f)))))
  {
    Joined3(t, a, b, c + (d + (e + f)));
    Joined3(t + a + b, c, d, e + f);
    Joined3(t + a + b + c + d, e, f, "");
    assert e + f + "" == e + f;
  }

  /** The first computing part of `fmtint`: sign, prefix and the precision '#' may raise. */
  method PlanMarks(value: int, u: nat, pos: nat, base: nat, precision: int, fl: Flags)
      returns (sign: string, hexprefix: string, prec: int)
    requires IsBase(base) && pos == |Numeral(u, base, fl.up)|
    ensures sign == SignText(value, fl) && hexprefix == PrefixText(u, base, fl)
    ensures prec == AdjustedPrecision(u, base, precision, fl)
  {
    sign, hexprefix := "", "";
    if !fl.uns {
      if value < 0 {
        sign := "-";
      } else if fl.plus {
        sign := "+";
      } else if fl.space {
        sign := " ";
      }
    }
    prec := precision;
    if fl.num && u != 0 {
      if base == 8 {
        if prec <= pos { prec := pos + 1; }
      } else if base == 16 {
        hexprefix := if fl.up then "0X" else "0x";
      }
    }
  }

  /** The second: how much to pad with what. */
  method PlanPadding(sign: string, hexprefix: string, ghost digits: string, pos: nat, width: int, prec: int,
                     noprecision: bool, fl: Flags) returns (zpadlen: int, group: bool, spadlen: int)
    requires pos == |digits|
    ensures Layout(sign, hexprefix, zpadlen, digits, group, spadlen)
            == Arrange(sign, hexprefix, digits, width, prec, noprecision, fl)
  {
    var separators := if fl.quote then NumSep(pos) else 0;
    zpadlen := prec - pos - separators;
    spadlen := width - separators - Max(prec, pos) - |sign| - |hexprefix|;
    if zpadlen < 0 { zpadlen := 0; }
    if spadlen < 0 { spadlen := 0; }
    if fl.minus {
      spadlen := -spadlen;
    } else if fl.zero && noprecision {
      zpadlen := zpadlen + spadlen;
      spadlen := 0;
    }
    group := separators > 0;
  }

  /** Both together: everything the writing half needs. */
  method Plan(value: int, u: nat, pos: nat, base: nat, width: int, precision: int, fl: Flags)
      returns (sign: string, hexprefix: string, zpadlen: int, group: bool, spadlen: int)
    requires IsBase(base) && u == Magnitude(value, fl.uns) && pos == |Numeral(u, base, fl.up)|
    ensures Layout(sign, hexprefix, zpadlen, Numeral(u, base, fl.up), group, spadlen)
            == IntLayout(value, base, width, precision, fl)
  {
    var prec;
    sign, hexprefix, prec := PlanMarks(value, u, pos, base, precision, fl);
    zpadlen, group, spadlen :=
      PlanPadding(sign, hexprefix, Numeral(u, base, fl.up), pos, width, prec, precision == -1, fl);
  }

  /** The digit array of `fmtint`: 43 places, always enough. */
  method NewDigits(u: nat, base: nat, up: bool) returns (iconvert: array<char>, pos: nat)
    requires IsBase(base) && u < TWO128
    ensures fresh(iconvert) && pos <= iconvert.Length && Backwards(iconvert[..pos]) == Numeral(u, base, up)
  {
    iconvert := new char[43];
    ConvertLengthSuffices(u, base, up);
    pos := ConvertDigits(u, iconvert, base, up);
  }

  /** `fmtint` */
  method FmtInt(out: Output, value: int, base: nat, width: int, precision: int, fl: Flags)
    requires out.Valid() && IsBase(base)
    modifies out, out.buf
    ensures out.Valid() && out.text == old(out.text) + IntText(value, base, width, precision, fl)
  {
    var u: nat :=
      if fl.uns then Unsigned(TWO64, value) else if value >= 0 then Unsigned(TWO64, value) else Unsigned(TWO64, -value);
    var iconvert, pos := NewDigits(u, base, fl.up);
    var sign, hexprefix, zpadlen, group, spadlen := Plan(value, u, pos, base, width, precision, fl);
    PutLayout(out, sign, hexprefix, zpadlen, iconvert, pos, group, spadlen);
  }
}
