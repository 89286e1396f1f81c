/** `strlcpy` and `strlcat` on a fixed buffer, and how they relate to each other and to snprintf. */
module BoundedStrings {
  import opened Basics
  import opened SnprintfBuffer
  import SnprintfText
  import SnprintfFormat
  import SnprintfLoop

  /** The C string at the front of b, or all of b if it is not terminated. */
  function CString(b: seq<char>): (r: string)
    ensures |r| <= |b| && r == b[..|r|] && '\0' !in r
    ensures |r| < |b| ==> b[|r|] == '\0'
  {
    if b == [] || b[0] == '\0' then "" else [b[0]] + CString(b[1..])
  }

  lemma {:induction false} CStringIs(b: seq<char>, s: string)
    requires |s| <= |b| && s == b[..|s|] && '\0' !in s && (|s| < |b| ==> b[|s|] == '\0')
    ensures CString(b) == s
  {
    if s != "" {
      assert s[0] == b[0] && s[1..] == b[1..][..|s| - 1];
      CStringIs(b[1..], s[1..]);
    }
  }

  /** `strlcpy`: copy as much as fits, always terminated unless siz is 0; the length of src is returned. */
  method Strlcpy(dst: array<char>, src: string, siz: nat) returns (r: nat)
    requires siz <= dst.Length && '\0' !in src
    modifies dst
    ensures r == |src| && Holds(src, old(dst[..]), dst[..], siz)
  {
    var d, n := 0, siz;
    var nul := false;
    if n != 0 {
      n := n - 1;
      while n != 0 && !nul
        invariant 0 <= n && (!nul ==> d + n + 1 == siz && d <= |src|)
        invariant nul ==> n > 0 && d == |src| + 1 <= siz
        invariant forall i | 0 <= i < dst.Length ::
          dst[i] == if i < d then (if i < |src| then src[i] else '\0') else old(dst[i])
        decreases n, !nul
      {
        if d < |src| {
          dst[d] := src[d];
          n := n - 1;
        } else {
          dst[d] := '\0';
          nul := true;
        }
        d := d + 1;
      }
    }
    if n == 0 {
      if siz != 0 { dst[d] := '\0'; }
      while d < |src|
        invariant d <= |src|
      {
        d := d + 1;
      }
      r := d;
    } else {
      r := d - 1;
    }
  }

  /** What appending writes, place by place, is the longer string printed over the old contents. */
  lemma {:induction false} Appended(d: string, src: string, a: seq<char>, b: seq<char>, siz: nat, top: nat)
    requires |d| < siz <= |a| == |b| && d == a[..|d|]
    requires top == if |d| + |src| < siz then |d| + |src| else siz - 1
    requires forall i | 0 <= i < |b| :: b[i] == if |d| <= i < top then src[i - |d|] else if i == top then '\0' else a[i]
    ensures Holds(d + src, a, b, siz)
  {
    assert b[..top] == (d + src)[..top];
    assert b[top + 1..] == a[top + 1..];
  }

  /** The scan for the end of the string, in at most siz places. */
  method EndOf(dst: array<char>, siz: nat) returns (d: nat)
    requires siz <= dst.Length
    ensures d == |CString(dst[..siz])|
  {
    ghost var before := dst[..siz];
    d := 0;
    while d < siz && dst[d] != '\0'
      invariant 0 <= d <= |CString(before)|
    {
      assert before[d] == dst[d];
      d := d + 1;
    }
    assert d < siz ==> before[d] == '\0';
  }

  /** `strlcat`: append as much as fits; a dst without a '\0' in its first siz places is left alone. */
  method Strlcat(dst: array<char>, src: string, siz: nat) returns (r: nat)
    requires siz <= dst.Length && '\0' !in src
    modifies dst
    ensures var d := CString(old(dst[..siz]));
      && r == |d| + |src|
      && if |d| < siz then Holds(d + src, old(dst[..]), dst[..], siz) else dst[..] == old(dst[..])
  {
    var dlen := EndOf(dst, siz);
    ghost var text := CString(dst[..siz]);
    assert text == dst[..][..dlen];
    var d := dlen;
    var n := siz - dlen;
    if n == 0 { return dlen + |src|; }
    var s := 0;
    while s < |src|
      invariant 0 <= s <= |src| && 1 <= n && d + n == siz
      invariant d == dlen + s || (n == 1 && d <= dlen + s)
      invariant forall i | 0 <= i < dst.Length :: dst[i] == if dlen <= i < d then src[i - dlen] else old(dst[i])
    {
      if n != 1 {
        dst[d] := src[s];
        d := d + 1;
        n := n - 1;
      }
      s := s + 1;
    }
    dst[d] := '\0';
    r := dlen + s;
    Appended(text, src, old(dst[..]), dst[..], siz, d);
  }

  /** The contents after printing are determined. */
  lemma {:induction false} HoldsUnique(text: string, a: seq<char>, b: seq<char>, c: seq<char>, size: nat)
    requires Holds(text, a, b, size) && Holds(text, a, c, size)
    ensures b == c
  {
    if size > 0 {
      var n := if |text| < size then |text| else size - 1;
      assert b == b[..n] + [b[n]] + b[n + 1..];
      assert c == c[..n] + [c[n]] + c[n + 1..];
    }
  }

  /** Copying a and then appending b leaves the buffer as copying a + b would. */
  lemma {:induction false} CopyThenAppend(a: string, b: string, before: seq<char>, mid: seq<char>, after: seq<char>,
                                          n: nat)
    requires n > 0 && '\0' !in a && Holds(a, before, mid, n)
    requires var d := CString(mid[..n]);
      if |d| < n then Holds(d + b, mid, after, n) else after == mid
    ensures |CString(mid[..n])| == if |a| < n then |a| else n - 1
    ensures Holds(a + b, before, after, n)
  {
    var k := if |a| < n then |a| else n - 1;
    var d := a[..k];
    CopiedString(a, before, mid, n, k);
    var m := if |d + b| < n then |d + b| else n - 1;
    assert (d + b)[..m] == (a + b)[..m];
    SameBehind(before, mid, after, k + 1, m + 1);
  }

  lemma {:induction false} CopiedString(a: string, before: seq<char>, mid: seq<char>, n: nat, k: nat)
    requires n > 0 && '\0' !in a && Holds(a, before, mid, n) && k == if |a| < n then |a| else n - 1
    ensures CString(mid[..n]) == a[..k]
  {
    assert mid[..n][..k] == mid[..k];
    CStringIs(mid[..n], a[..k]);
  }

  /** What both calls leave alone is what the first left alone. */
  lemma {:induction false} SameBehind(before: seq<char>, mid: seq<char>, after: seq<char>, j: nat, k: nat)
    requires j <= k <= |before| == |mid| == |after| && mid[j..] == before[j..] && after[k..] == mid[k..]
    ensures after[k..] == before[k..]
  {
    assert mid[j..][k - j..] == mid[k..] && before[j..][k - j..] == before[k..];
  }

  /** The two calls together. */
  method CopyAndAppend(dst: array<char>, a: string, b: string, n: nat) returns (r1: nat, r2: nat)
    requires 0 < n <= dst.Length && '\0' !in a && '\0' !in b
    modifies dst
    ensures Holds(a + b, old(dst[..]), dst[..], n)
    ensures r1 == |a| && r2 == (if |a| < n then |a| else n - 1) + |b|
  {
    ghost var before := dst[..];
    r1 := Strlcpy(dst, a, n);
    ghost var mid := dst[..];
    assert mid[..n] == dst[..n];
    r2 := Strlcat(dst, b, n);
    CopyThenAppend(a, b, before, mid, dst[..], n);
  }

  /** "%s" means the text of the string. */
  lemma {:induction false} PercentS(src: string)
    requires |src| <= SnprintfText.INT_MAX
    ensures SnprintfFormat.Interpret("%s", [SnprintfFormat.StrArg(Some(src))]) == SnprintfFormat.Done(src, [])
  {
    var args := [SnprintfFormat.StrArg(Some(src))];
    var f := "%s";
    assert f[1..] == "s";
    var g := "s";
    assert SnprintfFormat.FlagSpan(g) == 0 && SnprintfFormat.DigitSpan(g) == 0;
    assert g[0..] == g && g[..0] == "";
    SnprintfFormat.FlagStop(g, args, SnprintfText.NO_FLAGS);
    assert SnprintfFormat.Modifier(g) == (SnprintfFormat.Default, 0);
    assert g[1..] == "" && args[1..] == [];
    assert SnprintfText.StrText(Some(src), 0, -1, false) == src;
    assert SnprintfFormat.Interpret("", []) == SnprintfFormat.Done("", []);
    assert src + "" == src;
  }

  /** snprintf with "%s" and `strlcpy` leave two equal buffers equal, and return the same length if it is an int. */
  method PercentSIsCopy(a: array<char>, b: array<char>, src: string, siz: nat) returns (r: int, n: nat)
    requires a != b && a[..] == b[..] && siz <= a.Length && '\0' !in src && |src| <= SnprintfText.INT_MAX
    modifies a, b
    ensures a[..] == b[..] && Holds(src, old(a[..]), a[..], siz)
    ensures n == |src| && r == if |src| < SnprintfText.INT_MAX then |src| else -1
  {
    PercentS(src);
    ghost var before := a[..];
    assert b.Length == |b[..]| == a.Length;
    r := SnprintfLoop.Vsnprintf(a, siz, "%s", [SnprintfFormat.StrArg(Some(src))]);
    n := Strlcpy(b, src, siz);
    HoldsUnique(src, before, a[..], b[..], siz);
  }
}
