/** An index over class names: one list per first character, standing for one flat collection. */
module AlphaLists {
  import opened Basics

  const CF_ALPHABETSIZE: nat := 256

  type Buckets = seq<seq<string>>

  /** The bucket of a name; the empty name has the code of its terminator. */
  function First(s: string): nat {
    if s == "" then 0 else s[0] as int
  }

  /** Names the C code can index with: a plain char must not be negative. */
  predicate SevenBit(s: string) {
    First(s) < 128
  }

  /** Every item is in the bucket of its first character. */
  ghost predicate Bucketed(b: Buckets) {
    |b| == CF_ALPHABETSIZE && forall i, j | 0 <= i < |b| && 0 <= j < |b[i]| :: First(b[i][j]) == i
  }

  /** All items, in the order of their buckets. */
  function Flat(b: Buckets): seq<string> {
    if b == [] then [] else b[0] + Flat(b[1..])
  }

  const NO_ITEMS: Buckets := seq(CF_ALPHABETSIZE, _ => [])

  // ---------------------------------------------------------------- the collection behind the index

  /** Changing one bucket changes the collection by exactly that. */
  lemma {:induction false} FlatUpdate(b: Buckets, i: nat, l: seq<string>)
    requires i < |b|
    ensures multiset(Flat(b[i := l])) + multiset(b[i]) == multiset(Flat(b)) + multiset(l)
  {
    var c := b[i := l];
    if i == 0 {
      assert c[1..] == b[1..];
    } else {
      assert c[1..] == b[1..][i - 1 := l] && c[0] == b[0] && b[1..][i - 1] == b[i];
      FlatUpdate(b[1..], i - 1, l);
      assert multiset(Flat(c)) == multiset(b[0]) + multiset(Flat(c[1..]));
      assert multiset(Flat(b)) == multiset(b[0]) + multiset(Flat(b[1..]));
      AddCommon(multiset(b[0]), multiset(Flat(c[1..])), multiset(b[i]), multiset(Flat(b[1..])), multiset(l));
    }
  }

  lemma {:induction false} AddCommon(h: multiset<string>, a: multiset<string>, x: multiset<string>,
                                     b: multiset<string>, y: multiset<string>)
    requires a + x == b + y
    ensures (h + a) + x == (h + b) + y
  {
    assert (h + a) + x == h + (a + x) && (h + b) + y == h + (b + y);
  }

  lemma {:induction false} FlatMember(b: Buckets, s: string)
    ensures s in Flat(b) <==> exists i | 0 <= i < |b| :: s in b[i]
  {
    if b != [] {
      FlatMember(b[1..], s);
      assert forall i | 1 <= i < |b| :: b[i] == b[1..][i - 1];
      if s in Flat(b[1..]) {
        var i :| 0 <= i < |b[1..]| && s in b[1..][i];
        assert s in b[i + 1];
      }
    }
  }

  /** Looking in one bucket is looking everywhere. */
  lemma {:induction false} BucketSuffices(b: Buckets, s: string)
    requires Bucketed(b) && SevenBit(s)
    ensures s in b[First(s)] <==> s in Flat(b)
  {
    FlatMember(b, s);
  }

  function PrependTo(b: Buckets, s: string): Buckets
    requires |b| == CF_ALPHABETSIZE && SevenBit(s)
  {
    b[First(s) := [s] + b[First(s)]]
  }

  /** `IsItemIn` takes the empty name for present. */
  predicate Has(b: Buckets, s: string)
    requires |b| == CF_ALPHABETSIZE && SevenBit(s)
  {
    s == "" || s in b[First(s)]
  }

  /** A list without its first s. */
  function Without(l: seq<string>, s: string): seq<string> {
    if l == [] then [] else if l[0] == s then l[1..] else [l[0]] + Without(l[1..], s)
  }

  function DeleteFrom(b: Buckets, s: string): Buckets
    requires |b| == CF_ALPHABETSIZE && SevenBit(s)
  {
    b[First(s) := Without(b[First(s)], s)]
  }

  lemma {:induction false} WithoutItems(l: seq<string>, s: string)
    ensures multiset(Without(l, s)) == multiset(l) - multiset{s}
    ensures forall x | x in Without(l, s) :: x in l
  {
    if l != [] {
      assert l == [l[0]] + l[1..];
      if l[0] != s { WithoutItems(l[1..], s); }
    }
  }

  lemma {:induction false} PrependKeeps(b: Buckets, s: string)
    requires Bucketed(b) && SevenBit(s)
    ensures Bucketed(PrependTo(b, s))
    ensures multiset(Flat(PrependTo(b, s))) == multiset(Flat(b)) + multiset{s}
  {
    var l := b[First(s)];
    FlatUpdate(b, First(s), [s] + l);
    assert multiset([s] + l) == multiset{s} + multiset(l);
    OneMore(multiset(Flat(PrependTo(b, s))), multiset(Flat(b)), multiset(l), s);
  }

  lemma {:induction false} OneMore(a: multiset<string>, b: multiset<string>, l: multiset<string>, s: string)
    requires a + l == b + (multiset{s} + l)
    ensures a == b + multiset{s}
  {
    forall x: string ensures a[x] == (b + multiset{s})[x] {
      assert (a + l)[x] == (b + (multiset{s} + l))[x];
    }
  }

  lemma {:induction false} DeleteKeeps(b: Buckets, s: string)
    requires Bucketed(b) && SevenBit(s)
    ensures Bucketed(DeleteFrom(b, s))
    ensures multiset(Flat(DeleteFrom(b, s))) == multiset(Flat(b)) - multiset{s}
  {
    var l := b[First(s)];
    var r := Without(l, s);
    WithoutItems(l, s);
    FlatUpdate(b, First(s), r);
    forall j | 0 <= j < |r| ensures First(r[j]) == First(s) {
      assert r[j] in r;
    }
    BucketSuffices(b, s);
    assert s in multiset(l) <==> s in multiset(Flat(b));
    OneLess(multiset(Flat(DeleteFrom(b, s))), multiset(Flat(b)), multiset(l), s);
  }

  lemma {:induction false} OneLess(a: multiset<string>, b: multiset<string>, l: multiset<string>, s: string)
    requires a + l == b + (l - multiset{s}) && (s in l <==> s in b)
    ensures a == b - multiset{s}
  {
    forall x: string ensures a[x] == (b - multiset{s})[x] {
      assert (a + l)[x] == (b + (l - multiset{s}))[x];
    }
  }

  // ---------------------------------------------------------------- whole runs

  datatype Op = Prepend(s: string) | IdempPrepend(s: string) | Delete(s: string)

  function Apply(b: Buckets, op: Op): Buckets
    requires |b| == CF_ALPHABETSIZE && SevenBit(op.s)
  {
    match op
    case Prepend(s) => PrependTo(b, s)
    case IdempPrepend(s) => if Has(b, s) then b else PrependTo(b, s)
    case Delete(s) => DeleteFrom(b, s)
  }

  /** The same operation on a plain collection, with no index. */
  function ApplyFlat(m: multiset<string>, op: Op): multiset<string> {
    match op
    case Prepend(s) => m + multiset{s}
    case IdempPrepend(s) => if s == "" || s in m then m else m + multiset{s}
    case Delete(s) => m - multiset{s}
  }

  function Run(b: Buckets, ops: seq<Op>): (r: Buckets)
    requires |b| == CF_ALPHABETSIZE && forall i | 0 <= i < |ops| :: SevenBit(ops[i].s)
    ensures |r| == CF_ALPHABETSIZE
    decreases |ops|
  {
    if ops == [] then b else Run(Apply(b, ops[0]), ops[1..])
  }

  function RunFlat(m: multiset<string>, ops: seq<Op>): multiset<string>
    decreases |ops|
  {
    if ops == [] then m else RunFlat(ApplyFlat(m, ops[0]), ops[1..])
  }

  lemma {:induction false} ApplyAgrees(b: Buckets, op: Op)
    requires Bucketed(b) && SevenBit(op.s)
    ensures Bucketed(Apply(b, op)) && multiset(Flat(Apply(b, op))) == ApplyFlat(multiset(Flat(b)), op)
  {
    match op
    case Prepend(s) => PrependKeeps(b, s);
    case IdempPrepend(s) =>
      PrependKeeps(b, s);
      BucketSuffices(b, s);
    case Delete(s) => DeleteKeeps(b, s);
  }

  /** Every sequence of operations leaves the index well formed and standing for the plain collection. */
  lemma {:induction false} RunAgrees(b: Buckets, ops: seq<Op>)
    requires Bucketed(b) && forall i | 0 <= i < |ops| :: SevenBit(ops[i].s)
    ensures Bucketed(Run(b, ops)) && multiset(Flat(Run(b, ops))) == RunFlat(multiset(Flat(b)), ops)
    decreases |ops|
  {
    if ops != [] {
      ApplyAgrees(b, ops[0]);
      RunAgrees(Apply(b, ops[0]), ops[1..]);
    }
  }

  // ---------------------------------------------------------------- matching

  predicate IsAlnum(c: char) {
    '0' <= c <= '9' || 'a' <= c <= 'z' || 'A' <= c <= 'Z'
  }

  /** A pattern whose first character is taken to name the bucket. */
  predicate Anchored(pattern: string) {
    pattern != "" && (IsAlnum(pattern[0]) || pattern[0] == '_')
  }

  ghost predicate MatchesIn(l: seq<string>, pattern: string, matches: (string, string) -> bool) {
    exists j | 0 <= j < |l| :: matches(pattern, l[j])
  }

  method MatchInList(l: seq<string>, pattern: string, matches: (string, string) -> bool) returns (found: bool)
    ensures found <==> MatchesIn(l, pattern, matches)
  {
    for j := 0 to |l|
      invariant forall i | 0 <= i < j :: !matches(pattern, l[i])
    {
      if matches(pattern, l[j]) { return true; }
    }
    return false;
  }

  /** `MatchInAlphaList`; `matches` is the full-text match of a pattern against a name. */
  method MatchInAlphaList(b: Buckets, pattern: string, matches: (string, string) -> bool) returns (found: bool)
    requires Bucketed(b) && SevenBit(pattern)
    ensures found <==> IndexedMatch(b, pattern, matches)
    ensures found <==> if StartsAsWord(pattern) then SomeMatch(Flat(b), pattern[0], pattern, matches)
                       else MatchesIn(Flat(b), pattern, matches)
  {
    IndexedMatchMeaning(b, pattern, matches);
    if Anchored(pattern) {
      found := MatchInList(b[First(pattern)], pattern, matches);
    } else {
      for i := 0 to |b|
        invariant forall k | 0 <= k < i :: !MatchesIn(b[k], pattern, matches)
      {
        found := MatchInList(b[i], pattern, matches);
        if found { return; }
      }
      found := false;
    }
  }

  /** The answer `MatchInAlphaList` gives. */
  ghost predicate IndexedMatch(b: Buckets, pattern: string, matches: (string, string) -> bool)
    requires Bucketed(b) && SevenBit(pattern)
  {
    if Anchored(pattern) then MatchesIn(b[First(pattern)], pattern, matches)
    else exists i | 0 <= i < |b| :: MatchesIn(b[i], pattern, matches)
  }

  /** A match somewhere in the collection is a match in some bucket. */
  lemma {:induction false} FlatMatch(b: Buckets, pattern: string, matches: (string, string) -> bool)
    ensures MatchesIn(Flat(b), pattern, matches) <==> exists i | 0 <= i < |b| :: MatchesIn(b[i], pattern, matches)
  {
    var flat := Flat(b);
    if MatchesIn(flat, pattern, matches) {
      var j :| 0 <= j < |flat| && matches(pattern, flat[j]);
      FlatMember(b, flat[j]);
      var i :| 0 <= i < |b| && flat[j] in b[i];
      assert MatchesIn(b[i], pattern, matches);
    }
    if i :| 0 <= i < |b| && MatchesIn(b[i], pattern, matches) {
      var k :| 0 <= k < |b[i]| && matches(pattern, b[i][k]);
      FlatMember(b, b[i][k]);
      assert b[i][k] in flat;
    }
  }

  /** The first character is an ASCII letter or digit or an underscore. */
  predicate StartsAsWord(pattern: string) {
    && pattern != ""
    && var c := pattern[0];
       '0' <= c <= '9' || 'A' <= c <= 'Z' || 'a' <= c <= 'z' || c == '_'
  }

  /** Some item that begins with c matches. */
  ghost predicate SomeMatch(l: seq<string>, c: char, pattern: string, matches: (string, string) -> bool) {
    exists j | 0 <= j < |l| && l[j] != "" && l[j][0] == c :: matches(pattern, l[j])
  }

  /** The guard is true exactly of patterns that start with a letter, a digit or an underscore. */
  lemma {:induction false} AnchoredIsWord(pattern: string)
    ensures Anchored(pattern) <==> StartsAsWord(pattern)
  {
  }

  /**
   A pattern that starts with a letter, a digit or an underscore is sought
   among exactly the items with that first character; any other, among all.
   */
  lemma {:induction false} IndexedMatchMeaning(b: Buckets, pattern: string, matches: (string, string) -> bool)
    requires Bucketed(b) && SevenBit(pattern)
    ensures IndexedMatch(b, pattern, matches)
            <==> if StartsAsWord(pattern) then SomeMatch(Flat(b), pattern[0], pattern, matches)
                 else MatchesIn(Flat(b), pattern, matches)
  {
    AnchoredIsWord(pattern);
    FlatMatch(b, pattern, matches);
    if StartsAsWord(pattern) { WordMatch(b, pattern, matches); }
  }

  lemma {:induction false} WordMatch(b: Buckets, pattern: string, matches: (string, string) -> bool)
    requires Bucketed(b) && SevenBit(pattern) && Anchored(pattern)
    ensures MatchesIn(b[First(pattern)], pattern, matches) <==> SomeMatch(Flat(b), pattern[0], pattern, matches)
  {
    var l, flat := b[First(pattern)], Flat(b);
    if MatchesIn(l, pattern, matches) {
      var j :| 0 <= j < |l| && matches(pattern, l[j]);
      FlatMember(b, l[j]);
      var i :| 0 <= i < |flat| && flat[i] == l[j];
      assert First(flat[i]) == First(pattern);
    }
    if SomeMatch(flat, pattern[0], pattern, matches) {
      var i :| 0 <= i < |flat| && flat[i] != "" && flat[i][0] == pattern[0] && matches(pattern, flat[i]);
      BucketSuffices(b, flat[i]);
    }
  }

  /** ".*" finds the only item there is, in whatever bucket it is. */
  lemma {:induction false} VaguePattern(b: Buckets, s: string, matches: (string, string) -> bool)
    requires Bucketed(b) && Flat(b) == [s] && matches(".*", s)
    ensures IndexedMatch(b, ".*", matches)
  {
    IndexedMatchMeaning(b, ".*", matches);
    assert Flat(b)[0] == s;
  }

  /** A pattern that starts as a word matches only names with its own first character. */
  ghost predicate Honest(pattern: string, matches: (string, string) -> bool) {
    StartsAsWord(pattern) ==>
      forall s | First(s) < CF_ALPHABETSIZE && matches(pattern, s) :: s != "" && s[0] == pattern[0]
  }

  /** The indexed answer is that of a full scan whatever the index holds, if and only if the pattern is honest. */
  lemma {:induction false} MatchIsFullScan(pattern: string, matches: (string, string) -> bool)
    requires SevenBit(pattern)
    ensures (forall b | Bucketed(b) :: IndexedMatch(b, pattern, matches) <==> MatchesIn(Flat(b), pattern, matches))
            <==> Honest(pattern, matches)
  {
    AnchoredIsWord(pattern);
    if Honest(pattern, matches) {
      forall b | Bucketed(b) ensures IndexedMatch(b, pattern, matches) <==> MatchesIn(Flat(b), pattern, matches) {
        FlatMatch(b, pattern, matches);
        forall i | 0 <= i < |b| && Anchored(pattern) && MatchesIn(b[i], pattern, matches) ensures i == First(pattern) {
          var k :| 0 <= k < |b[i]| && matches(pattern, b[i][k]);
          assert First(b[i][k]) == i;
        }
      }
    } else {
      var s :| First(s) < CF_ALPHABETSIZE && matches(pattern, s) && !(s != "" && s[0] == pattern[0]);
      assert First(s) != First(pattern);
      var b := NO_ITEMS[First(s) := [s]];
      assert b[First(s)][0] == s;
      assert Bucketed(b) && !IndexedMatch(b, pattern, matches);
      FlatMatch(b, pattern, matches);
      assert MatchesIn(b[First(s)], pattern, matches);
    }
  }

  // ---------------------------------------------------------------- the index and its iterator

  class AlphaList {
    var list: Buckets

    constructor ()
      ensures list == NO_ITEMS && Bucketed(list)
    {
      list := seq(CF_ALPHABETSIZE, _ => []);
    }

    method InAlphaList(s: string) returns (found: bool)
      requires Bucketed(list) && SevenBit(s)
      ensures found <==> s == "" || s in Flat(list)
    {
      BucketSuffices(list, s);
      found := s == "" || s in list[First(s)];
    }

    method PrependAlphaList(s: string)
      requires Bucketed(list) && SevenBit(s)
      modifies this
      ensures Bucketed(list) && list == Apply(old(list), Prepend(s))
    {
      PrependKeeps(list, s);
      list := list[First(s) := [s] + list[First(s)]];
    }

    method IdempPrependAlphaList(s: string)
      requires Bucketed(list) && SevenBit(s)
      modifies this
      ensures Bucketed(list) && list == Apply(old(list), IdempPrepend(s))
    {
      BucketSuffices(list, s);
      var found := InAlphaList(s);
      if !found { PrependAlphaList(s); }
    }

    method DeleteFromAlphaList(s: string)
      requires Bucketed(list) && SevenBit(s)
      modifies this
      ensures Bucketed(list) && list == Apply(old(list), Delete(s))
    {
      DeleteKeeps(list, s);
      list := list[First(s) := Without(list[First(s)], s)];
    }
  }

  class AlphaListIterator {
    const al: AlphaList
    var pos: int
    var curitem: seq<string>

    constructor (al: AlphaList)
      requires Bucketed(al.list)
      ensures this.al == al && Valid() && Remaining() == Flat(al.list)
    {
      this.al, pos, curitem := al, -1, [];
      new;
      assert al.list[0..] == al.list && [] + Flat(al.list) == Flat(al.list);
    }

    ghost predicate Valid()
      reads this, al
    {
      Bucketed(al.list) && -1 <= pos < |al.list|
    }

    /** The items not yet handed out. */
    ghost function Remaining(): seq<string>
      reads this, al
      requires Valid()
    {
      curitem + Flat(al.list[pos + 1..])
    }

    /** `AlphaListIteratorNext`: the next item, or nothing once all have been handed out. */
    method Next() returns (item: Option<string>)
      requires Valid()
      modifies this
      ensures old(Remaining()) == [] ==> item == None
      ensures old(Remaining()) != [] ==>
                Valid() && item == Some(old(Remaining())[0]) && Remaining() == old(Remaining())[1..]
    {
      ghost var all := Remaining();
      while curitem == []
        invariant Valid() && Remaining() == all
        decreases |al.list| - pos, curitem == []
      {
        assert al.list[pos + 1..] == [] || al.list[pos + 1..][1..] == al.list[pos + 2..];
        pos := pos + 1;
        if pos == CF_ALPHABETSIZE { return None; }
        if al.list[pos] != [] {
          curitem := al.list[pos];
        }
      }
      item := Some(curitem[0]);
      curitem := curitem[1..];
      assert Remaining() == all[1..];
    }

    /** The caller's loop hands out every item of the collection exactly once. */
    method Drain() returns (items: seq<string>)
      requires Valid()
      modifies this
      ensures items == old(Remaining())
    {
      ghost var all := Remaining();
      items := [];
      var item := Next();
      while item.Some?
        invariant item.Some? ==> Valid() && items + [item.value] + Remaining() == all
        invariant item.None? ==> items == all
        decreases if item.Some? then 1 + |Remaining()| else 0
      {
        items := items + [item.value];
        item := Next();
      }
    }
  }
}
