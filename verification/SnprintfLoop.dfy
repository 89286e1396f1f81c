/** The seven-state loop of `rpl_vsnprintf`, and the two passes of `rpl_vasprintf`. */
module SnprintfLoop {
  import opened Basics
  import opened SnprintfText
  import opened SnprintfFormat
  import opened SnprintfBuffer

  /** PRINT_S_DEFAULT and so on. */
  datatype Phase = AtDefault | AtFlags | AtWidth | AtDot | AtPrecision | AtMod | AtConv

  function Rank(ph: Phase): nat {
    match ph
    case AtDefault => 6
    case AtFlags => 5
    case AtWidth => 4
    case AtDot => 3
    case AtPrecision => 2
    case AtMod => 1
    case AtConv => 0
  }

  /** The precision once its numeral has begun. */
  function Begun(precision: int): (p: nat)
    requires precision >= -1
  {
    if precision == -1 then 0 else precision
  }

  /** What the rest of the format means to the loop in a given state. */
  function Rest(ph: Phase, f: string, args: seq<Arg>, fl: Flags, width: nat, precision: int, size: Size): Meaning
    requires precision >= -1
  {
    match ph
    case AtDefault => Interpret(f, args)
    case AtFlags => FlagsPart(f, args, fl)
    case AtWidth => WidthPart(f, args, fl, width)
    case AtDot => DotPart(f, args, fl, width)
    case AtPrecision => PrecisionPart(f, args, fl, width, Begun(precision))
    case AtMod => ModifierPart(f, args, fl, width, precision)
    case AtConv => ConversionPart(f, args, fl, width, precision, size)
  }

  /** The variables a directive has not yet set have their initial values. */
  predicate Clean(ph: Phase, fl: Flags, width: int, precision: int, size: Size) {
    && (ph.AtDefault? ==> fl == NO_FLAGS)
    && (Rank(ph) >= 5 ==> width == 0)
    && (Rank(ph) >= 3 ==> precision == -1)
    && (Rank(ph) >= 1 ==> size == Default)
    && 0 <= width <= INT_MAX && -1 <= precision <= INT_MAX
  }

  /** When the format ends, in whatever state, nothing more is printed. */
  lemma {:induction false} RestOfNothing(ph: Phase, args: seq<Arg>, fl: Flags, width: nat, precision: int, size: Size)
    requires Clean(ph, fl, width, precision, size)
    ensures Rest(ph, "", args, fl, width, precision, size) == Done("", args)
  {
    assert DigitSpan("") == 0 && FlagSpan("") == 0;
    assert Decimal(width, "") == width;
  }

  lemma {:induction false} PrefixedTwice(t: string, u: string, m: Meaning)
    ensures Prefixed(t, Prefixed(u, m)) == Prefixed(t + u, m)
  {
    if !m.Undefined? { assert t + (u + m.text) == (t + u) + m.text; }
  }

  lemma {:induction false} DefaultStep(t: string, f: string, args: seq<Arg>)
    requires f != "" && f[0] != '%'
    ensures Prefixed(t, Interpret(f, args)) == Prefixed(t + [f[0]], Interpret(f[1..], args))
  {
    PrefixedTwice(t, [f[0]], Interpret(f[1..], args));
  }

  lemma {:induction false} ConvStep(t: string, f: string, args: seq<Arg>, fl: Flags, w: nat, p: int, size: Size)
    requires f != "" && !ConversionPart(f, args, fl, w, p, size).Undefined?
    ensures var c := Convert(f[0], args, fl, w, p, size);
      && c.Done?
      && Prefixed(t, ConversionPart(f, args, fl, w, p, size)) == Prefixed(t + c.text, Interpret(f[1..], c.args))
  {
    var c := Convert(f[0], args, fl, w, p, size);
    PrefixedTwice(t, c.text, Interpret(f[1..], c.args));
  }

  lemma {:induction false} WidthStop(f: string, args: seq<Arg>, fl: Flags, w: nat)
    requires f != "" && !IsDigit(f[0]) && w <= INT_MAX
    ensures f[0] != '*' ==> WidthPart(f, args, fl, w) == DotPart(f, args, fl, w)
    ensures f[0] == '*' && !WidthPart(f, args, fl, w).Undefined? ==>
            && |args| > 0 && args[0].IntArg? && Signed(TWO32, args[0].v) > INT_MIN
            && var a := Signed(TWO32, args[0].v);
               WidthPart(f, args, fl, w) ==
                 if a < 0 then DotPart(f[1..], args[1..], fl.(minus := true), -a) else DotPart(f[1..], args[1..], fl, a)
  {
    assert f[..0] == "" && f[0..] == f;
    assert WidthPart(f, args, fl, w) == WidthStar(f, args, fl, w);
  }

  lemma {:induction false} PrecisionStop(f: string, args: seq<Arg>, fl: Flags, w: nat, p: nat)
    requires f != "" && !IsDigit(f[0]) && p <= INT_MAX
    ensures f[0] != '*' ==> PrecisionPart(f, args, fl, w, p) == ModifierPart(f, args, fl, w, p)
    ensures f[0] == '*' && !PrecisionPart(f, args, fl, w, p).Undefined? ==>
            && |args| > 0 && args[0].IntArg?
            && var a := Signed(TWO32, args[0].v);
               PrecisionPart(f, args, fl, w, p) == ModifierPart(f[1..], args[1..], fl, w, if a < 0 then -1 else a)
  {
    assert f[..0] == "" && f[0..] == f;
    assert PrecisionPart(f, args, fl, w, p) == PrecisionStar(f, args, fl, w, p);
  }

  /** The test that guards `10 * n + d` against overflow is exact. */
  lemma {:induction false} GuardExact(n: nat, d: nat)
    requires d <= 9
    ensures n > (INT_MAX - d) / 10 <==> 10 * n + d > INT_MAX
  {
  }

  function AddFlag(fl: Flags, c: char): Flags {
    match c
    case '-' => fl.(minus := true)
    case '+' => fl.(plus := true)
    case ' ' => fl.(space := true)
    case '#' => fl.(num := true)
    case '0' => fl.(zero := true)
    case '\'' => fl.(quote := true)
    case _ => fl
  }

  lemma {:induction false} AddFlagStep(f: string, args: seq<Arg>, fl: Flags)
    requires f != "" && IsFlag(f[0])
    ensures FlagsPart(f, args, fl) == FlagsPart(f[1..], args, AddFlag(fl, f[0]))
  {
    FlagStep(f, args, fl);
    OneFlag(fl, f[0]);
  }

  lemma {:induction false} InOne(x: char, c: char)
    ensures x in [c] <==> x == c
  {
  }

  lemma {:induction false} OneFlag(fl: Flags, c: char)
    requires IsFlag(c)
    ensures Union(fl, FlagsOf([c])) == AddFlag(fl, c)
  {
    InOne('-', c);
    InOne('+', c);
    InOne(' ', c);
    InOne('#', c);
    InOne('0', c);
    InOne('\'', c);
  }

  /** The base and flags of an unsigned conversion, as the cases fall through. */
  method PlanUnsigned(c: char, fl: Flags) returns (flags: Flags, base: nat)
    requires c == 'X' || c == 'x' || c == 'o' || c == 'u'
    ensures base == if c == 'u' then 10 else if c == 'o' then 8 else 16
    ensures flags == fl.(up := fl.up || c == 'X', uns := true)
  {
    flags, base := fl, 0;
    if c == 'X' { flags := flags.(up := true); }
    if c == 'X' || c == 'x' { base := 16; }
    if c != 'u' && base == 0 { base := 8; }
    if base == 0 { base := 10; }
    flags := flags.(uns := true);
  }

  /** PRINT_S_CONV for the conversions modelled. */
  method Emit(out: Output, c: char, args: seq<Arg>, fl: Flags, width: int, precision: int, size: Size)
      returns (rest: seq<Arg>)
    requires out.Valid() && Convert(c, args, fl, width, precision, size).Done?
    modifies out, out.buf
    ensures out.Valid() && var m := Convert(c, args, fl, width, precision, size);
      out.text == old(out.text) + m.text && rest == m.args
  {
    rest := args;
    match c {
      case 'd' | 'i' =>
        FmtInt(out, SignedValue(size, args[0].v), 10, width, precision, fl);
        rest := args[1..];
      case 'X' | 'x' | 'o' | 'u' =>
        var flags, base := PlanUnsigned(c, fl);
        FmtInt(out, UnsignedValue(size, args[0].v), base, width, precision, flags);
        rest := args[1..];
      case 'c' =>
        out.OutChar(Unsigned(TWO8, args[0].v) as char);
        rest := args[1..];
      case 's' =>
        FmtStr(out, args[0].s, width, precision, fl);
        rest := args[1..];
      case '%' =>
        out.OutChar('%');
      case _ =>
        assert out.text == old(out.text) + "";
    }
  }

  // ---------------------------------------------------------------- the loop

  /** The loop's variables: position in the format, arguments left, state, flags and so on. */
  datatype Regs = Regs(i: nat, args: seq<Arg>, state: Phase, flags: Flags, width: int, precision: int, cflags: Size)

  ghost predicate RegsOk(format: string, r: Regs) {
    r.i <= |format| && Clean(r.state, r.flags, r.width, r.precision, r.cflags)
  }

  /** What is still to be printed. */
  ghost function Left(format: string, r: Regs): Meaning
    requires RegsOk(format, r)
  {
    Rest(r.state, format[r.i..], r.args, r.flags, r.width, r.precision, r.cflags)
  }

  /** A turn consumes a character or moves to a later state of the directive. */
  ghost predicate Advances(format: string, r: Regs, n: Regs) {
    && RegsOk(format, n)
    && r.i <= n.i && (r.i == n.i ==> Rank(n.state) < Rank(r.state))
  }

  /** A turn inside a directive prints nothing and keeps what is still to be printed. */
  ghost predicate SilentTurn(format: string, r: Regs, n: Regs, overflow: bool)
    requires RegsOk(format, r)
  {
    if overflow then Left(format, r) == Overflow("")
    else Advances(format, r, n) && Left(format, n) == Left(format, r)
  }

  lemma {:induction false} FlagRead(format: string, i: nat, args: seq<Arg>, fl: Flags)
    requires i < |format| && IsFlag(format[i])
    ensures FlagsPart(format[i..], args, fl) == FlagsPart(format[i + 1..], args, AddFlag(fl, format[i]))
  {
    DropOne(format, i);
    AddFlagStep(format[i..], args, fl);
  }

  method FlagsTurn(format: string, r: Regs) returns (n: Regs)
    requires RegsOk(format, r) && r.i < |format| && r.state.AtFlags?
    ensures SilentTurn(format, r, n, false)
  {
    var ch := format[r.i];
    n := r;
    if IsFlag(ch) {
      FlagRead(format, r.i, r.args, r.flags);
      n := n.(flags := AddFlag(r.flags, ch), i := r.i + 1);
    } else {
      FlagStop(format[r.i..], r.args, r.flags);
      n := n.(state := AtWidth);
    }
  }

  method WidthTurn(format: string, r: Regs) returns (n: Regs, overflow: bool)
    requires RegsOk(format, r) && r.i < |format| && r.state.AtWidth? && !Left(format, r).Undefined?
    ensures SilentTurn(format, r, n, overflow)
  {
    if IsDigit(format[r.i]) {
      n, overflow := WidthDigit(format, r);
      ghost var w := 10 * r.width + Digit(format[r.i]);
      WidthDigitRead(format, r.i, r.args, r.flags, r.width, w);
      WidthDigitTurn(format, r, n, overflow, w);
    } else {
      overflow := false;
      n := WidthEnd(format, r);
    }
  }

  method TooLarge(w: nat, d: nat) returns (r: bool)
    requires d <= 9
    ensures r <==> 10 * w + d > INT_MAX
  {
    GuardExact(w, d);
    r := w > (INT_MAX - d) / 10;
  }

  lemma {:induction false} WidthDigitRead(format: string, i: nat, args: seq<Arg>, fl: Flags, w: nat, n: nat)
    requires i < |format| && IsDigit(format[i]) && n == 10 * w + Digit(format[i])
    ensures WidthPart(format[i..], args, fl, w)
            == if n > INT_MAX then Overflow("") else WidthPart(format[i + 1..], args, fl, n)
  {
    DropOne(format, i);
    WidthStep(format[i..], format[i + 1..], args, fl, w, n);
  }

  method WidthDigit(format: string, r: Regs) returns (n: Regs, overflow: bool)
    requires r.i < |format| && IsDigit(format[r.i]) && r.width >= 0
    ensures var w := 10 * r.width + Digit(format[r.i]);
      if w > INT_MAX then overflow && n == r else !overflow && n == r.(width := w, i := r.i + 1)
  {
    var d := Digit(format[r.i]);
    n := r;
    overflow := TooLarge(r.width, d);
    if !overflow {
      n := n.(width := 10 * r.width + d, i := r.i + 1);
    }
  }

  lemma {:induction false} SameWidthLeft(format: string, r: Regs, n: Regs)
    requires RegsOk(format, r) && RegsOk(format, n) && r.state.AtWidth? && n.state.AtWidth? && r.i < n.i
    requires WidthPart(format[r.i..], r.args, r.flags, r.width) == WidthPart(format[n.i..], n.args, n.flags, n.width)
    ensures SilentTurn(format, r, n, false)
  {
  }

  lemma {:induction false} WidthOverflows(format: string, r: Regs)
    requires RegsOk(format, r) && r.state.AtWidth?
    requires WidthPart(format[r.i..], r.args, r.flags, r.width) == Overflow("")
    ensures SilentTurn(format, r, r, true)
  {
  }

  lemma {:induction false} WidthDigitTurn(format: string, r: Regs, n: Regs, overflow: bool, w: nat)
    requires RegsOk(format, r) && r.i < |format| && r.state.AtWidth?
    requires if w > INT_MAX then overflow && n == r else !overflow && n == r.(width := w, i := r.i + 1)
    requires WidthPart(format[r.i..], r.args, r.flags, r.width)
             == if w > INT_MAX then Overflow("") else WidthPart(format[r.i + 1..], r.args, r.flags, w)
    ensures SilentTurn(format, r, n, overflow)
  {
    if overflow { WidthOverflows(format, r); } else { SameWidthLeft(format, r, n); }
  }

  method WidthEnd(format: string, r: Regs) returns (n: Regs)
    requires RegsOk(format, r) && r.i < |format| && r.state.AtWidth? && !IsDigit(format[r.i])
    requires !Left(format, r).Undefined?
    ensures SilentTurn(format, r, n, false)
  {
    DropOne(format, r.i);
    WidthStop(format[r.i..], r.args, r.flags, r.width);
    n := r;
    if format[r.i] == '*' {
      var w := Signed(TWO32, r.args[0].v);
      if w < 0 {
        n := n.(flags := r.flags.(minus := true));
        w := -w;
      }
      n := n.(width := w, args := r.args[1..], i := r.i + 1);
    }
    n := n.(state := AtDot);
  }

  method DotTurn(format: string, r: Regs) returns (n: Regs)
    requires RegsOk(format, r) && r.i < |format| && r.state.AtDot?
    ensures SilentTurn(format, r, n, false)
  {
    DropOne(format, r.i);
    if format[r.i] == '.' {
      n := r.(state := AtPrecision, i := r.i + 1);
    } else {
      n := r.(state := AtMod);
    }
  }

  method PrecisionTurn(format: string, r: Regs) returns (n: Regs, overflow: bool)
    requires RegsOk(format, r) && r.i < |format| && r.state.AtPrecision? && !Left(format, r).Undefined?
    ensures SilentTurn(format, r, n, overflow)
  {
    var precision := Begun(r.precision);
    if IsDigit(format[r.i]) {
      n, overflow := PrecisionDigit(format, r, precision);
      ghost var p := 10 * precision + Digit(format[r.i]);
      PrecisionDigitRead(format, r.i, r.args, r.flags, r.width, precision, p);
      PrecisionDigitTurn(format, r, precision, n, overflow, p);
    } else {
      overflow := false;
      n := PrecisionEnd(format, r, precision);
    }
  }

  lemma {:induction false} PrecisionDigitRead(format: string, i: nat, args: seq<Arg>, fl: Flags, w: nat, p: nat, n: nat)
    requires i < |format| && IsDigit(format[i]) && n == 10 * p + Digit(format[i])
    ensures PrecisionPart(format[i..], args, fl, w, p)
            == if n > INT_MAX then Overflow("") else PrecisionPart(format[i + 1..], args, fl, w, n)
  {
    DropOne(format, i);
    PrecisionStep(format[i..], format[i + 1..], args, fl, w, p, n);
  }

  method PrecisionDigit(format: string, r: Regs, precision: nat) returns (n: Regs, overflow: bool)
    requires r.i < |format| && IsDigit(format[r.i])
    ensures var p := 10 * precision + Digit(format[r.i]);
      if p > INT_MAX then overflow && n == r else !overflow && n == r.(precision := p, i := r.i + 1)
  {
    var d := Digit(format[r.i]);
    n := r;
    overflow := TooLarge(precision, d);
    if !overflow {
      n := n.(precision := 10 * precision + d, i := r.i + 1);
    }
  }

  lemma {:induction false} SamePrecisionLeft(format: string, r: Regs, p: nat, n: Regs)
    requires RegsOk(format, r) && RegsOk(format, n) && r.state.AtPrecision? && n.state.AtPrecision? && r.i < n.i
    requires p == Begun(r.precision) && n.precision >= 0
    requires PrecisionPart(format[r.i..], r.args, r.flags, r.width, p)
             == PrecisionPart(format[n.i..], n.args, n.flags, n.width, n.precision)
    ensures SilentTurn(format, r, n, false)
  {
  }

  lemma {:induction false} PrecisionOverflows(format: string, r: Regs, p: nat)
    requires RegsOk(format, r) && r.state.AtPrecision? && p == Begun(r.precision)
    requires PrecisionPart(format[r.i..], r.args, r.flags, r.width, p) == Overflow("")
    ensures SilentTurn(format, r, r, true)
  {
  }

  lemma {:induction false} PrecisionAdvances(format: string, r: Regs, precision: nat, n: Regs)
    requires RegsOk(format, r) && r.i < |format| && r.state.AtPrecision? && precision == Begun(r.precision)
    requires 0 <= n.precision <= INT_MAX && n == r.(precision := n.precision, i := r.i + 1)
    requires PrecisionPart(format[r.i..], r.args, r.flags, r.width, precision)
             == PrecisionPart(format[r.i + 1..], r.args, r.flags, r.width, n.precision)
    ensures SilentTurn(format, r, n, false)
  {
    SamePrecisionLeft(format, r, precision, n);
  }

  lemma {:induction false} PrecisionDigitTurn(format: string, r: Regs, precision: nat, n: Regs, overflow: bool, p: nat)
    requires RegsOk(format, r) && r.i < |format| && r.state.AtPrecision? && precision == Begun(r.precision)
    requires if p > INT_MAX then overflow && n == r else !overflow && n == r.(precision := p, i := r.i + 1)
    requires PrecisionPart(format[r.i..], r.args, r.flags, r.width, precision)
             == if p > INT_MAX then Overflow("") else PrecisionPart(format[r.i + 1..], r.args, r.flags, r.width, p)
    ensures SilentTurn(format, r, n, overflow)
  {
    if overflow { PrecisionOverflows(format, r, precision); } else { PrecisionAdvances(format, r, precision, n); }
  }

  method PrecisionEnd(format: string, r: Regs, p: nat) returns (n: Regs)
    requires RegsOk(format, r) && r.i < |format| && r.state.AtPrecision? && !IsDigit(format[r.i])
    requires p == Begun(r.precision) && !Left(format, r).Undefined?
    ensures SilentTurn(format, r, n, false)
  {
    DropOne(format, r.i);
    PrecisionStop(format[r.i..], r.args, r.flags, r.width, p);
    var precision: int := p;
    n := r;
    if format[r.i] == '*' {
      precision := Signed(TWO32, r.args[0].v);
      if precision < 0 { precision := -1; }
      n := n.(args := r.args[1..], i := r.i + 1);
    }
    n := n.(precision := precision, state := AtMod);
  }

  /** The length modifier at position i, if any, and the position after it. */
  method TakeModifier(format: string, i: nat) returns (cflags: Size, k: nat)
    requires i < |format|
    ensures i <= k <= |format| && Modifier(format[i..]) == (cflags, k - i)
  {
    var ch := format[i];
    cflags, k := Default, i;
    match ch {
      case 'h' =>
        k := k + 1;
        if k < |format| && format[k] == 'h' { k := k + 1; cflags := Char; } else { cflags := Short; }
      case 'l' =>
        k := k + 1;
        if k < |format| && format[k] == 'l' { k := k + 1; cflags := LongLong; } else { cflags := Long; }
      case 'L' => cflags, k := LongDouble, k + 1;
      case 'j' => cflags, k := IntMax, k + 1;
      case 't' => cflags, k := PtrDiff, k + 1;
      case 'z' => cflags, k := SizeT, k + 1;
      case _ =>
    }
  }

  method ModTurn(format: string, r: Regs) returns (n: Regs)
    requires RegsOk(format, r) && r.i < |format| && r.state.AtMod?
    ensures SilentTurn(format, r, n, false)
  {
    var cflags, k := TakeModifier(format, r.i);
    assert format[r.i..][k - r.i..] == format[k..];
    n := r.(cflags := cflags, i := k, state := AtConv);
  }

  /** The switch over the states inside a directive, up to its conversion. */
  method DirectiveTurn(format: string, r: Regs) returns (n: Regs, overflow: bool)
    requires RegsOk(format, r) && r.i < |format| && !r.state.AtDefault? && !r.state.AtConv?
    requires !Left(format, r).Undefined?
    ensures SilentTurn(format, r, n, overflow)
  {
    overflow := false;
    match r.state {
      case AtFlags => n := FlagsTurn(format, r);
      case AtWidth => n, overflow := WidthTurn(format, r);
      case AtDot => n := DotTurn(format, r);
      case AtPrecision => n, overflow := PrecisionTurn(format, r);
      case AtMod => n := ModTurn(format, r);
    }
  }

  /** The states that print: ordinary characters and conversions. */
  method PrintingTurn(out: Output, format: string, r: Regs) returns (n: Regs)
    requires out.Valid()
    requires RegsOk(format, r) && r.i < |format| && (r.state.AtDefault? || r.state.AtConv?)
    requires !Left(format, r).Undefined?
    modifies out, out.buf
    ensures out.Valid() && Advances(format, r, n)
    ensures Prefixed(out.text, Left(format, n)) == Prefixed(old(out.text), Left(format, r))
  {
    var ch := format[r.i];
    ghost var f := format[r.i..];
    DropOne(format, r.i);
    if r.state.AtDefault? {
      n := r.(i := r.i + 1);
      if ch == '%' {
        n := n.(state := AtFlags);
      } else {
        DefaultStep(out.text, f, r.args);
        out.OutChar(ch);
      }
    } else {
      ConvStep(out.text, f, r.args, r.flags, r.width, r.precision, r.cflags);
      var args := Emit(out, ch, r.args, r.flags, r.width, r.precision, r.cflags);
      n := Regs(r.i + 1, args, AtDefault, NO_FLAGS, 0, -1, Default);
    }
  }

  /**
   The scanning loop.  It terminates because each turn consumes a character or
   moves to a later state of the same directive.
   */
  method Format(out: Output, format: string, args: seq<Arg>) returns (overflow: bool)
    requires out.Valid() && out.text == "" && !Interpret(format, args).Undefined?
    modifies out, out.buf
    ensures out.Valid()
    ensures var m := Interpret(format, args); overflow == m.Overflow? && out.text == m.text
  {
    ghost var goal := Interpret(format, args);
    overflow := false;
    var r := Regs(0, args, AtDefault, NO_FLAGS, 0, -1, Default);
    assert format[0..] == format;
    EmptyPrefix(goal);
    while r.i < |format|
      invariant RegsOk(format, r) && out.Valid()
      invariant goal == Prefixed(out.text, Left(format, r))
      decreases |format| - r.i, Rank(r.state)
    {
      if r.state.AtDefault? || r.state.AtConv? {
        r := PrintingTurn(out, format, r);
      } else {
        var n, o := DirectiveTurn(format, r);
        if o {
          assert out.text + "" == out.text;
          return true;
        }
        r := n;
      }
    }
    assert format[r.i..] == "";
    RestOfNothing(r.state, r.args, r.flags, r.width, r.precision, r.cflags);
    assert out.text + "" == out.text;
  }

  /**
   `rpl_vsnprintf`.  Whatever the size, the buffer gets the longest part of the
   one ideal text that fits, terminated; nothing outside its first `size`
   places changes; and the value returned does not depend on the size: the
   length of that text, or -1 for an overflow or a text of INT_MAX characters
   or more.
   */
  method Vsnprintf(str: array?<char>, size: nat, format: string, args: seq<Arg>) returns (r: int)
    requires str != null ==> size <= str.Length
    requires !Interpret(format, args).Undefined?
    modifies if str == null then {} else {str}
    ensures var m := Interpret(format, args);
      && r == (if m.Overflow? || |m.text| >= 0x7fff_ffff then -1 else |m.text|)
      && (str != null ==> Holds(m.text, old(str[..]), str[..], size))
  {
    var out: Output;
    if str == null {
      var none := new char[0];
      out := new Output(none, 0);
    } else {
      out := new Output(str, size);
    }
    var overflow := Format(out, format, args);
    out.Finish();
    r := if overflow || out.len >= INT_MAX then -1 else out.len;
  }

  /** `rpl_vasprintf`: measure, allocate, print.  The second pass never truncates. */
  method Vasprintf(format: string, args: seq<Arg>, mallocFails: bool) returns (r: int, ret: array?<char>)
    requires !Interpret(format, args).Undefined?
    ensures var m := Interpret(format, args);
      if m.Overflow? || |m.text| >= 0x7fff_ffff || mallocFails then r == -1 && ret == null
      else r == |m.text| && ret != null && fresh(ret) && ret[..] == m.text + ['\0']
  {
    var len := Vsnprintf(null, 0, format, args);
    if len < 0 || mallocFails { return -1, null; }
    var a := new char[len + 1];
    r := Vsnprintf(a, len + 1, format, args);
    ret := a;
    ghost var m := Interpret(format, args);
    assert a[..] == a[..len] + [a[len]] + a[len + 1..];
  }
}
