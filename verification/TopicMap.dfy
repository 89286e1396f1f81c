/** The knowledge map in its own form: a hash table of topics, and association lists that grow in place. */
module TopicMap {
  import opened Basics
  import opened TopicNames
  import opened TopicWeb

  const CF_HASHTABLESIZE: nat := 8192

  datatype Topic = Topic(name: string, context: string, id: nat)

  type Table = seq<seq<Topic>>

  // ---------------------------------------------------------------- one slot

  /** The first topic of a slot's list with the given identity. */
  function Lookup(list: seq<Topic>, k: Key): Option<Topic> {
    if list == [] then None
    else if Key(list[0].name, list[0].context) == k then Some(list[0])
    else Lookup(list[1..], k)
  }

  /** No two topics of the list have the same name and context. */
  predicate NoTwins(list: seq<Topic>) {
    list == [] || (Lookup(list[1..], Key(list[0].name, list[0].context)) == None && NoTwins(list[1..]))
  }

  /** `NoTwins` says what it should. */
  lemma {:induction false} NoTwinsMeaning(list: seq<Topic>, i: nat, j: nat)
    requires NoTwins(list) && i < j < |list|
    ensures list[i].name != list[j].name || list[i].context != list[j].context
  {
    if i == 0 {
      LookupNone(list[1..], Key(list[0].name, list[0].context), j - 1);
    } else {
      NoTwinsMeaning(list[1..], i - 1, j - 1);
    }
  }

  lemma {:induction false} LookupNone(list: seq<Topic>, k: Key, j: nat)
    requires Lookup(list, k) == None && j < |list|
    ensures Key(list[j].name, list[j].context) != k
  {
    if j > 0 { LookupNone(list[1..], k, j - 1); }
  }

  /** The loop of `TopicExists` over one slot. */
  method FindTopic(list: seq<Topic>, name: string, context: string) returns (tp: Option<Topic>)
    ensures tp == Lookup(list, KeyOf(name, context))
  {
    var j := 0;
    assert list[0..] == list;
    while j < |list|
      invariant 0 <= j <= |list|
      invariant Lookup(list, KeyOf(name, context)) == Lookup(list[j..], KeyOf(name, context))
    {
      var t := list[j];
      DropOne(list, j);
      if t.name == Normal(name) {
        if |context| > 0 && t.context == Normal(context) { return Some(t); }
        if |context| == 0 && t.context == "any" { return Some(t); }
      }
      j := j + 1;
    }
    return None;
  }

  // ---------------------------------------------------------------- the table

  function Slot(hash: string -> nat, name: string): nat {
    hash(Lower(name)) % CF_HASHTABLESIZE
  }

  /** Every topic is found in its slot with its id, sits in the slot of its lower-cased name, and has no twin. */
  ghost predicate TableOk(hash: string -> nat, table: Table, ids: map<Key, nat>) {
    && |table| == CF_HASHTABLESIZE
    && (forall k: Key :: Finds(hash, table, ids, k))
    && (forall s | 0 <= s < |table| :: SlotOk(hash, table[s], s))
  }

  ghost predicate Finds(hash: string -> nat, table: Table, ids: map<Key, nat>, k: Key)
    requires |table| == CF_HASHTABLESIZE
  {
    Lookup(table[Slot(hash, k.name)], k) == if k in ids then Some(Topic(k.name, k.context, ids[k])) else None
  }

  ghost predicate SlotOk(hash: string -> nat, list: seq<Topic>, s: nat) {
    NoTwins(list) && forall j | 0 <= j < |list| :: Slot(hash, list[j].name) == s
  }

  lemma {:induction false} TableInsert(hash: string -> nat, table: Table, ids: map<Key, nat>, tp: Topic, s: nat)
    requires TableOk(hash, table, ids) && Key(tp.name, tp.context) !in ids && s == Slot(hash, tp.name)
    ensures TableOk(hash, table[s := [tp] + table[s]], ids[Key(tp.name, tp.context) := tp.id])
  {
    var k := Key(tp.name, tp.context);
    var list := [tp] + table[s];
    var t, x := table[s := list], ids[k := tp.id];
    assert list[1..] == table[s];
    assert Finds(hash, table, ids, k);
    assert SlotOk(hash, table[s], s);
    assert SlotOk(hash, list, s);
    forall q: Key ensures Finds(hash, t, x, q) {
      assert Finds(hash, table, ids, q);
    }
    forall r | 0 <= r < |t| ensures SlotOk(hash, t[r], r) {
      assert SlotOk(hash, table[r], r);
    }
  }

  lemma {:induction false} NewTopic(w: Web, k: Key)
    requires Ok(w) && k !in w.ids
    ensures var r := Web(w.ids[k := |w.ids| + 1], w.links[k := []]);
      r == Insert(w, k) && Ok(r) && |r.ids| == |w.ids| + 1
  {
    InsertOk(w, k);
  }

  /** TOPICHASH, GLOBAL_ID, CF_TOPICS and the associations of the topics. */
  class Map {
    const getHash: string -> nat
    var table: Table
    var globalId: nat
    var cfTopics: nat
    var links: map<Key, seq<Assoc>>
    ghost var ids: map<Key, nat>

    ghost function Abs(): Web
      reads this
    {
      Web(ids, links)
    }

    ghost predicate Valid()
      reads this
    {
      Ok(Abs()) && TableOk(getHash, table, ids) && globalId == |ids| + 1 && cfTopics == |ids|
    }

    constructor (getHash: string -> nat)
      ensures Valid() && Abs() == EMPTY
    {
      this.getHash := getHash;
      table := seq(CF_HASHTABLESIZE, _ => []);
      globalId, cfTopics, links := 1, 0, map[];
      ids := map[];
    }

    /** `TopicExists` */
    method TopicExists(name: string, context: string) returns (tp: Option<Topic>)
      requires Valid()
      ensures var k := KeyOf(name, context);
        tp == if k in ids then Some(Topic(k.name, k.context, ids[k])) else None
    {
      LowerNormal(name);
      tp := FindTopic(table[Slot(getHash, name)], name, context);
      assert Finds(getHash, table, ids, KeyOf(name, context));
    }

    /** `InsertTopic` with `AddTopic`: the existing topic, or a new one at the head of its slot. */
    method InsertTopic(name: string, context: string) returns (tp: Topic)
      requires Valid()
      modifies this
      ensures Valid() && Abs() == Insert(old(Abs()), KeyOf(name, context))
      ensures var k := KeyOf(name, context); k in ids && tp == Topic(k.name, k.context, ids[k])
    {
      var found := TopicExists(name, context);
      if found.Some? {
        tp := found.value;
      } else {
        tp := Topic(Normal(name), if |context| > 0 then Normal(context) else "any", globalId);
        LowerNormal(name);
        Install(tp, Slot(getHash, name));
      }
    }

    /** The branch of `AddTopic` for a topic that is not there yet. */
    method Install(tp: Topic, slot: nat)
      requires Valid() && Key(tp.name, tp.context) !in ids && tp.id == globalId && slot == Slot(getHash, tp.name)
      modifies this
      ensures Valid() && Abs() == Insert(old(Abs()), Key(tp.name, tp.context)) && ids[Key(tp.name, tp.context)] == tp.id
    {
      var k := Key(tp.name, tp.context);
      TableInsert(getHash, table, ids, tp, slot);
      NewTopic(Abs(), k);
      globalId := globalId + 1;
      table := table[slot := [tp] + table[slot]];
      links := links[k := []];
      cfTopics := cfTopics + 1;
      ids := ids[k := tp.id];
    }

    /** `IdempInsertTopic` */
    method IdempInsertTopic(classified: string) returns (tp: Topic)
      requires Valid()
      modifies this
      ensures Valid() && Abs() == Insert(old(Abs()), Named(classified))
      ensures var k := Named(classified); k in ids && tp == Topic(k.name, k.context, ids[k])
    {
      var (topic, context) := DeClassify(classified);
      tp := InsertTopic(topic, context);
    }

    /** `AssociationExists`: any backward name will do, so the forward name alone decides. */
    static method AssociationExists(list: seq<Assoc>, fwd: string, bwd: string) returns (i: nat)
      ensures i == FindAssoc(list, fwd)
    {
      if |fwd| == 0 { return |list|; }
      var n := |list|;
      assert list[..n] == list;
      while n > 0
        invariant 0 <= n <= |list|
        invariant FindAssoc(list, fwd) == if FindAssoc(list[..n], fwd) < n then FindAssoc(list[..n], fwd) else |list|
      {
        n := n - 1;
        var ta := list[n];
        assert list[..n + 1][..n] == list[..n] && list[..n + 1][n] == ta;
        var yfwd := fwd == ta.fwd || Lower(fwd) == Lower(ta.fwd);
        var ybwd := true;
        if yfwd && ybwd { return n; }
      }
      return |list|;
    }

    /** The association called fwd on topic t, created if need be. */
    method EnsureAssociation(t: Key, fwd: string, bwd: string) returns (i: nat)
      requires Valid() && t in ids
      modifies this`links
      ensures Valid() && (Abs(), i) == WithAssoc(old(Abs()), t, fwd, bwd)
    {
      i := AssociationExists(links[t], fwd, bwd);
      if i == |links[t]| {
        links := links[t := links[t] + [Assoc(fwd, bwd, [])]];
      } else {
        assert links == links[t := links[t]];
      }
    }

    method PrependAssociate(t: Key, i: nat, item: Item)
      requires Valid() && t in ids && i < |links[t]|
      modifies this`links
      ensures Valid() && Abs() == Enter(old(Abs()), t, i, item)
    {
      EnterExtends(Abs(), t, i, item);
      links := links[t := Prepended(links[t], i, item)];
    }

    /** One turn of the loop over the associates. */
    method AddAssociate(t: Key, i: nat, self: string, fwd: string, bwd: string, item: string, okToAddInverse: bool)
      requires Valid() && t in ids && i < |links[t]|
      modifies this
      ensures Valid() && Abs() == Turn(old(Abs()), t, i, self, fwd, bwd, item, okToAddInverse)
      decreases okToAddInverse, 1
    {
      ghost var w := Abs();
      var normalform := Normal(item);
      InsertOk(w, Named(normalform));
      TurnIs(w, t, i, self, fwd, bwd, item, okToAddInverse);
      var newTp := IdempInsertTopic(normalform);
      if self != normalform && !IsItemIn(links[t][i].associates, normalform) {
        EnterAssociate(t, i, newTp, normalform, self, fwd, bwd, okToAddInverse);
      }
    }

    /** A name that is not listed yet: its entry, and its inverse. */
    method EnterAssociate(t: Key, i: nat, newTp: Topic, normalform: string, self: string, fwd: string, bwd: string,
                          okToAddInverse: bool)
      requires Valid() && t in ids && i < |links[t]| && Key(newTp.name, newTp.context) in ids
      modifies this
      ensures Valid()
      ensures var r := Enter(old(Abs()), t, i, Item(normalform, newTp.id));
        var (n, c) := DeClassify(normalform);
        Ok(r) && Abs() == if okToAddInverse
                          then AssociateBack(r, Key(newTp.name, newTp.context), Classified(c, n), bwd, fwd, self) else r
      decreases okToAddInverse, 0
    {
      PrependAssociate(t, i, Item(normalform, newTp.id));
      if okToAddInverse {
        AddInverse(Key(newTp.name, newTp.context), normalform, bwd, fwd, self);
      }
    }

    method AddInverse(u: Key, normalform: string, bwd: string, fwd: string, rev: string)
      requires Valid() && u in ids
      modifies this
      ensures Valid()
      ensures var (n, c) := DeClassify(normalform); Abs() == AssociateBack(old(Abs()), u, Classified(c, n), bwd, fwd,
                                                                           rev)
      decreases false, 4
    {
      var (ndt, ndc) := DeClassify(normalform);
      ForwardOnce(Abs(), u, Classified(ndc, ndt), bwd, fwd, rev);
      AddTopicAssociation(u, bwd, fwd, [rev], false, ndc, ndt);
    }

    /** `AddTopicAssociation`.  The inverse call switches the inverse off, so the recursion is two deep. */
    method AddTopicAssociation(t: Key, fwd: string, bwd: string, items: seq<string>, okToAddInverse: bool,
                               fromContext: string, fromTopic: string)
      requires Valid() && t in ids
      modifies this
      ensures Valid()
      ensures var self := Classified(fromContext, fromTopic);
        Abs() == if okToAddInverse then Associate(old(Abs()), t, self, fwd, bwd, items)
                 else AssociateForward(old(Abs()), t, self, fwd, bwd, items)
      decreases okToAddInverse, 3
    {
      if |items| == 0 { return; }
      var i := EnsureAssociation(t, fwd, bwd);
      AddAssociates(t, i, Classified(fromContext, fromTopic), fwd, bwd, items, okToAddInverse);
    }

    method AddAssociates(t: Key, i: nat, self: string, fwd: string, bwd: string, items: seq<string>,
                         okToAddInverse: bool)
      requires Valid() && t in ids && i < |links[t]|
      modifies this
      ensures Valid() && Abs() == Turns(old(Abs()), t, i, self, fwd, bwd, items, okToAddInverse)
      decreases okToAddInverse, 2
    {
      ghost var goal := TurnsFrom(Abs(), t, i, self, fwd, bwd, items, 0, okToAddInverse);
      TurnsFromStart(Abs(), t, i, self, fwd, bwd, items, okToAddInverse);
      var k := 0;
      while k < |items|
        invariant 0 <= k <= |items| && Valid() && t in ids && i < |links[t]|
        invariant goal == TurnsFrom(Abs(), t, i, self, fwd, bwd, items, k, okToAddInverse)
      {
        AddAssociate(t, i, self, fwd, bwd, items[k], okToAddInverse);
        k := k + 1;
      }
    }
  }

  /** One turn of the loop over the associates, with or without the inverse. */
  ghost function Turn(w: Web, t: Key, i: nat, self: string, fwd: string, bwd: string, item: string,
                      inverse: bool): (r: Web)
    requires Ok(w) && t in w.ids && i < |w.links[t]|
    ensures Ok(r) && t in r.ids && i < |r.links[t]|
  {
    if inverse then AddBoth(w, t, i, self, fwd, bwd, item) else AddForward(w, t, i, self, item)
  }

  lemma {:induction false} TurnIs(w: Web, t: Key, i: nat, self: string, fwd: string, bwd: string, item: string,
                                  inverse: bool)
    requires Ok(w) && t in w.ids && i < |w.links[t]|
    requires Extends(w, Insert(w, Named(Normal(item)))) && Named(Normal(item)) in Insert(w, Named(Normal(item))).ids
    ensures var name, u := Normal(item), Named(Normal(item));
      var w1 := Insert(w, u);
      Turn(w, t, i, self, fwd, bwd, item, inverse)
      == if !IsNew(w1, t, i, self, name) then w1
         else
           var r := Enter(w1, t, i, Item(name, w1.ids[u]));
           if inverse then
             EnterExtends(w1, t, i, Item(name, w1.ids[u]));
             AssociateBack(r, u, Classified(DeClassify(name).1, DeClassify(name).0), bwd, fwd, self)
           else r
  {
  }

  ghost function Turns(w: Web, t: Key, i: nat, self: string, fwd: string, bwd: string, items: seq<string>,
                       inverse: bool): Web
    requires Ok(w) && t in w.ids && i < |w.links[t]|
  {
    if inverse then AddAll(w, t, i, self, fwd, bwd, items) else AddAllForward(w, t, i, self, items)
  }

  /** The turns for the items from k on. */
  ghost function TurnsFrom(w: Web, t: Key, i: nat, self: string, fwd: string, bwd: string, items: seq<string>, k: nat,
                           inverse: bool): Web
    requires Ok(w) && t in w.ids && i < |w.links[t]| && k <= |items|
    decreases |items| - k
  {
    if k == |items| then w
    else TurnsFrom(Turn(w, t, i, self, fwd, bwd, items[k], inverse), t, i, self, fwd, bwd, items, k + 1, inverse)
  }

  lemma {:induction false} TurnsFromIs(w: Web, t: Key, i: nat, self: string, fwd: string, bwd: string,
                                       items: seq<string>,
                                       k: nat, inverse: bool)
    requires Ok(w) && t in w.ids && i < |w.links[t]| && k <= |items|
    ensures TurnsFrom(w, t, i, self, fwd, bwd, items, k, inverse) == Turns(w, t, i, self, fwd, bwd, items[k..], inverse)
    decreases |items| - k
  {
    if k < |items| {
      DropOne(items, k);
      TurnsFromIs(Turn(w, t, i, self, fwd, bwd, items[k], inverse), t, i, self, fwd, bwd, items, k + 1, inverse);
    }
  }

  lemma {:induction false} TurnsFromStart(w: Web, t: Key, i: nat, self: string, fwd: string, bwd: string,
                                          items: seq<string>, inverse: bool)
    requires Ok(w) && t in w.ids && i < |w.links[t]|
    ensures TurnsFrom(w, t, i, self, fwd, bwd, items, 0, inverse) == Turns(w, t, i, self, fwd, bwd, items, inverse)
  {
    TurnsFromIs(w, t, i, self, fwd, bwd, items, 0, inverse);
    assert items[0..] == items;
  }
}
