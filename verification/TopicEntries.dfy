/** What is written into the map: the names each association carries, and the ids its associates carry. */
module TopicEntries {
  import opened TopicEdges
  import opened TopicNames
  import opened TopicSymmetry
  import opened TopicWeb

  // ---------------------------------------------------------------- the names of associations

  /** (t, f, b): topic t has an association entered with forward name f and backward name b. */
  type Entry = (Key, string, string)

  function Known(w: Web, k: Key): nat {
    if k in w.links then |w.links[k]| else 0
  }

  /** The associations r has beyond those of w are among `entries`. */
  ghost predicate Enters(w: Web, r: Web, entries: set<Entry>) {
    forall k, i | k in r.links && Known(w, k) <= i < |r.links[k]| ::
      (k, r.links[k][i].fwd, r.links[k][i].bwd) in entries
  }

  lemma {:induction false} EntersTransitive(a: Web, b: Web, c: Web, m: set<Entry>, n: set<Entry>)
    requires Ok(a) && Extends(a, b) && Extends(b, c) && Enters(a, b, m) && Enters(b, c, n)
    ensures Enters(a, c, m + n)
  {
    forall k, i | k in c.links && Known(a, k) <= i < |c.links[k]|
      ensures (k, c.links[k][i].fwd, c.links[k][i].bwd) in m + n
    {
      if i < Known(b, k) {
        assert Grows(b.links[k], c.links[k]);
        assert (k, b.links[k][i].fwd, b.links[k][i].bwd) in m;
      }
    }
  }

  lemma {:induction false} InsertEnters(w: Web, k: Key)
    requires Ok(w)
    ensures Enters(w, Insert(w, k), {})
  {
  }

  lemma {:induction false} WithAssocEnters(w: Web, t: Key, fwd: string, bwd: string)
    requires Ok(w) && t in w.ids
    ensures Enters(w, WithAssoc(w, t, fwd, bwd).0, {(t, fwd, bwd)})
  {
  }

  lemma {:induction false} AddForwardEnters(w: Web, t: Key, i: nat, self: string, item: string)
    requires Ok(w) && t in w.ids && i < |w.links[t]|
    ensures Enters(w, AddForward(w, t, i, self, item), {})
  {
    var r := AddForward(w, t, i, self, item);
    forall k | k in r.links ensures |r.links[k]| <= Known(w, k) {
      AddForwardKnown(w, t, i, self, item, k);
    }
  }

  lemma {:induction false} AddForwardKnown(w: Web, t: Key, i: nat, self: string, item: string, k: Key)
    requires Ok(w) && t in w.ids && i < |w.links[t]| && k in AddForward(w, t, i, self, item).links
    ensures |AddForward(w, t, i, self, item).links[k]| <= Known(w, k)
  {
    if k in w.links {
      AddForwardLinks(w, t, i, self, item, k);
    } else {
      FreshTopic(w, t, i, self, item, k);
    }
  }

  lemma {:induction false} FreshTopic(w: Web, t: Key, i: nat, self: string, item: string, k: Key)
    requires Ok(w) && t in w.ids && i < |w.links[t]|
    requires k !in w.links && k in AddForward(w, t, i, self, item).links
    ensures AddForward(w, t, i, self, item).links[k] == []
  {
  }

  lemma {:induction false} AssociateBackEnters(w: Web, u: Key, self: string, bwd: string, fwd: string, rev: string)
    requires Ok(w) && u in w.ids
    ensures Enters(w, AssociateBack(w, u, self, bwd, fwd, rev), {(u, bwd, fwd)})
  {
    var (w1, i) := WithAssoc(w, u, bwd, fwd);
    WithAssocEnters(w, u, bwd, fwd);
    AddForwardEnters(w1, u, i, self, rev);
    EntersTransitive(w, w1, AddForward(w1, u, i, self, rev), {(u, bwd, fwd)}, {});
  }

  lemma {:induction false} AddBothEnters(w: Web, t: Key, i: nat, self: string, fwd: string, bwd: string, item: string)
    requires Ok(w) && t in w.ids && i < |w.links[t]|
    ensures Enters(w, AddBoth(w, t, i, self, fwd, bwd, item), {(Named(Normal(item)), bwd, fwd)})
  {
    var u := Named(Normal(item));
    var (n, c) := DeClassify(Normal(item));
    var r := AddForward(w, t, i, self, item);
    InsertOk(w, u);
    AddForwardEnters(w, t, i, self, item);
    if IsNew(Insert(w, u), t, i, self, Normal(item)) {
      AssociateBackEnters(r, u, Classified(c, n), bwd, fwd, self);
      EntersTransitive(w, r, AssociateBack(r, u, Classified(c, n), bwd, fwd, self), {}, {(u, bwd, fwd)});
    }
  }

  /** The inverse names, for each of the items. */
  function Inverses(fwd: string, bwd: string, items: seq<string>): set<Entry> {
    set j | 0 <= j < |items| :: (Named(Normal(items[j])), bwd, fwd)
  }

  lemma {:induction false} InversesFirst(fwd: string, bwd: string, items: seq<string>)
    requires items != []
    ensures {(Named(Normal(items[0])), bwd, fwd)} + Inverses(fwd, bwd, items[1..]) <= Inverses(fwd, bwd, items)
  {
  }

  lemma {:induction false} AddAllEnters(w: Web, t: Key, i: nat, self: string, fwd: string, bwd: string,
                                        items: seq<string>)
    requires Ok(w) && t in w.ids && i < |w.links[t]|
    ensures Enters(w, AddAll(w, t, i, self, fwd, bwd, items), Inverses(fwd, bwd, items))
    decreases |items|
  {
    if items != [] {
      var r := AddBoth(w, t, i, self, fwd, bwd, items[0]);
      assert Grows(w.links[t], r.links[t]);
      AddBothEnters(w, t, i, self, fwd, bwd, items[0]);
      AddAllEnters(r, t, i, self, fwd, bwd, items[1..]);
      EntersTransitive(w, r, AddAll(r, t, i, self, fwd, bwd, items[1..]),
                       {(Named(Normal(items[0])), bwd, fwd)}, Inverses(fwd, bwd, items[1..]));
      InversesFirst(fwd, bwd, items);
    }
  }

  lemma {:induction false} AssociateEnters(w: Web, t: Key, self: string, fwd: string, bwd: string, items: seq<string>)
    requires Ok(w) && t in w.ids
    ensures Enters(w, Associate(w, t, self, fwd, bwd, items), {(t, fwd, bwd)} + Inverses(fwd, bwd, items))
  {
    if items != [] {
      var (w1, i) := WithAssoc(w, t, fwd, bwd);
      WithAssocEnters(w, t, fwd, bwd);
      AddAllEnters(w1, t, i, self, fwd, bwd, items);
      EntersTransitive(w, w1, AddAll(w1, t, i, self, fwd, bwd, items), {(t, fwd, bwd)}, Inverses(fwd, bwd, items));
    }
  }

  /** The association carries the names of the operation on its topic, or those swapped on one of its associates. */
  predicate Stems(op: Op, e: Entry) {
    op.Relate? &&
    (|| e == (KeyOf(op.name, op.context), op.fwd, op.bwd)
     || exists j | 0 <= j < |op.items| :: e == (Named(Normal(op.items[j])), op.bwd, op.fwd))
  }

  function OpEntries(op: Op): set<Entry> {
    match op
    case NewTopic(_, _) => {}
    case Relate(name, context, fwd, bwd, items) => {(KeyOf(name, context), fwd, bwd)} + Inverses(fwd, bwd, items)
  }

  lemma {:induction false} EntryStems(op: Op, e: Entry)
    ensures e in OpEntries(op) ==> Stems(op, e)
  {
  }

  lemma {:induction false} ApplyEnters(w: Web, op: Op)
    requires Ok(w)
    ensures Enters(w, Apply(w, op), OpEntries(op))
  {
    var k := KeyOf(op.name, op.context);
    InsertOk(w, k);
    InsertEnters(w, k);
    if op.Relate? {
      var self := Classified(op.context, op.name);
      AssociateEnters(Insert(w, k), k, self, op.fwd, op.bwd, op.items);
      EntersTransitive(w, Insert(w, k), Associate(Insert(w, k), k, self, op.fwd, op.bwd, op.items), {}, OpEntries(op));
    }
  }

  ghost predicate SomeStems(ops: seq<Op>, e: Entry) {
    exists i | 0 <= i < |ops| :: Stems(ops[i], e)
  }

  /** Over any run, an association a topic gains has the names of an operation on it, or of one naming it, swapped. */
  lemma {:induction false} RunEntries(w: Web, ops: seq<Op>, k: Key, i: nat)
    requires Ok(w) && k in Run(w, ops).links && Known(w, k) <= i < |Run(w, ops).links[k]|
    ensures SomeStems(ops, (k, Run(w, ops).links[k][i].fwd, Run(w, ops).links[k][i].bwd))
    decreases |ops|
  {
    if ops != [] {
      var r := Apply(w, ops[0]);
      RunExtends(r, ops[1..]);
      ApplyEnters(w, ops[0]);
      if i < Known(r, k) {
        var e := (k, r.links[k][i].fwd, r.links[k][i].bwd);
        EntryStems(ops[0], e);
        assert Grows(r.links[k], Run(r, ops[1..]).links[k]);
      } else {
        RunEntries(r, ops[1..], k, i);
        LaterStems(ops, (k, Run(w, ops).links[k][i].fwd, Run(w, ops).links[k][i].bwd));
      }
    }
  }

  lemma {:induction false} LaterStems(ops: seq<Op>, e: Entry)
    requires ops != [] && SomeStems(ops[1..], e)
    ensures SomeStems(ops, e)
  {
    var i :| 0 <= i < |ops[1..]| && Stems(ops[1..][i], e);
    assert ops[i + 1] == ops[1..][i];
  }

  /** What a run finds is still there, with its names, when it ends. */
  lemma {:induction false} RunExtends(w: Web, ops: seq<Op>)
    requires Ok(w)
    ensures Extends(w, Run(w, ops))
    decreases |ops|
  {
    if ops != [] {
      RunExtends(Apply(w, ops[0]), ops[1..]);
      ExtendsTransitive(w, Apply(w, ops[0]), Run(w, ops));
    }
  }

  /** With paired names every association of a run from the empty map carries its partner as its backward name. */
  lemma {:induction false} PartnersStored(ops: seq<Op>, partner: string -> string, k: Key, i: nat)
    requires forall j | 0 <= j < |ops| :: Paired(ops[j], partner)
    requires k in Run(EMPTY, ops).links && i < |Run(EMPTY, ops).links[k]|
    ensures var a := Run(EMPTY, ops).links[k][i]; Lower(a.bwd) == partner(Lower(a.fwd))
  {
    var a := Run(EMPTY, ops).links[k][i];
    RunEntries(EMPTY, ops, k, i);
    var j :| 0 <= j < |ops| && Stems(ops[j], (k, a.fwd, a.bwd));
    assert Paired(ops[j], partner);
  }

  // ---------------------------------------------------------------- the ids of associates

  /** The associate carries the id of the topic it names. */
  predicate ItemRight(ids: map<Key, nat>, item: Item) {
    Named(item.name) in ids && item.id == ids[Named(item.name)]
  }

  ghost predicate ListRight(ids: map<Key, nat>, list: seq<Assoc>) {
    forall i, j | 0 <= i < |list| && 0 <= j < |list[i].associates| :: ItemRight(ids, list[i].associates[j])
  }

  ghost predicate IdsRight(w: Web) {
    forall k | k in w.links :: ListRight(w.ids, w.links[k])
  }

  lemma {:induction false} InsertIds(w: Web, k: Key)
    requires Ok(w) && IdsRight(w)
    ensures IdsRight(Insert(w, k))
  {
    var r := Insert(w, k);
    forall t | t in r.links ensures ListRight(r.ids, r.links[t]) {
      if t in w.links { InsertKeeps(w, k, t); }
    }
  }

  lemma {:induction false} EnsuredRight(ids: map<Key, nat>, list: seq<Assoc>, fwd: string, bwd: string)
    requires ListRight(ids, list)
    ensures ListRight(ids, Ensured(list, fwd, bwd).0)
  {
  }

  lemma {:induction false} WithAssocIds(w: Web, t: Key, fwd: string, bwd: string)
    requires Ok(w) && t in w.ids && IdsRight(w)
    ensures IdsRight(WithAssoc(w, t, fwd, bwd).0)
  {
    EnsuredRight(w.ids, w.links[t], fwd, bwd);
  }

  lemma {:induction false} PrependedRight(ids: map<Key, nat>, list: seq<Assoc>, i: nat, item: Item)
    requires i < |list| && ListRight(ids, list) && ItemRight(ids, item)
    ensures ListRight(ids, Prepended(list, i, item))
  {
    var after := Prepended(list, i, item);
    forall a, b | 0 <= a < |after| && 0 <= b < |after[a].associates| ensures ItemRight(ids, after[a].associates[b]) {
      if a != i {
        assert after[a] == list[a];
      } else if b > 0 {
        assert after[a].associates[b] == list[a].associates[b - 1];
      }
    }
  }

  lemma {:induction false} EnterIds(w: Web, t: Key, i: nat, item: Item)
    requires t in w.links && i < |w.links[t]| && IdsRight(w) && ItemRight(w.ids, item)
    ensures IdsRight(Enter(w, t, i, item))
  {
    PrependedRight(w.ids, w.links[t], i, item);
  }

  lemma {:induction false} AddForwardIds(w: Web, t: Key, i: nat, self: string, item: string)
    requires Ok(w) && t in w.ids && i < |w.links[t]| && IdsRight(w)
    ensures IdsRight(AddForward(w, t, i, self, item))
  {
    var u := Named(Normal(item));
    InsertOk(w, u);
    InsertIds(w, u);
    var w1 := Insert(w, u);
    EnterIds(w1, t, i, Item(Normal(item), w1.ids[u]));
  }

  lemma {:induction false} AssociateBackIds(w: Web, u: Key, self: string, bwd: string, fwd: string, rev: string)
    requires Ok(w) && u in w.ids && IdsRight(w)
    ensures IdsRight(AssociateBack(w, u, self, bwd, fwd, rev))
  {
    var (w1, i) := WithAssoc(w, u, bwd, fwd);
    WithAssocIds(w, u, bwd, fwd);
    AddForwardIds(w1, u, i, self, rev);
  }

  lemma {:induction false} AddBothIds(w: Web, t: Key, i: nat, self: string, fwd: string, bwd: string, item: string)
    requires Ok(w) && t in w.ids && i < |w.links[t]| && IdsRight(w)
    ensures IdsRight(AddBoth(w, t, i, self, fwd, bwd, item))
  {
    var u := Named(Normal(item));
    var (n, c) := DeClassify(Normal(item));
    InsertOk(w, u);
    AddForwardIds(w, t, i, self, item);
    if IsNew(Insert(w, u), t, i, self, Normal(item)) {
      AssociateBackIds(AddForward(w, t, i, self, item), u, Classified(c, n), bwd, fwd, self);
    }
  }

  lemma {:induction false} AddAllIds(w: Web, t: Key, i: nat, self: string, fwd: string, bwd: string, items: seq<string>)
    requires Ok(w) && t in w.ids && i < |w.links[t]| && IdsRight(w)
    ensures IdsRight(AddAll(w, t, i, self, fwd, bwd, items))
    decreases |items|
  {
    if items != [] {
      var r := AddBoth(w, t, i, self, fwd, bwd, items[0]);
      assert Grows(w.links[t], r.links[t]);
      AddBothIds(w, t, i, self, fwd, bwd, items[0]);
      AddAllIds(r, t, i, self, fwd, bwd, items[1..]);
    }
  }

  lemma {:induction false} ApplyIds(w: Web, op: Op)
    requires Ok(w) && IdsRight(w)
    ensures IdsRight(Apply(w, op))
  {
    var k := KeyOf(op.name, op.context);
    InsertOk(w, k);
    InsertIds(w, k);
    if op.Relate? && op.items != [] {
      var (w1, i) := WithAssoc(Insert(w, k), k, op.fwd, op.bwd);
      WithAssocIds(Insert(w, k), k, op.fwd, op.bwd);
      AddAllIds(w1, k, i, Classified(op.context, op.name), op.fwd, op.bwd, op.items);
    }
  }

  /** Over every run the ids entered with associates are those of the topics they name. */
  lemma {:induction false} RunIds(w: Web, ops: seq<Op>)
    requires Ok(w) && IdsRight(w)
    ensures IdsRight(Run(w, ops))
    decreases |ops|
  {
    if ops != [] {
      ApplyIds(w, ops[0]);
      RunIds(Apply(w, ops[0]), ops[1..]);
    }
  }
}
