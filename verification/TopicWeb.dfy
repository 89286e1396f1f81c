/**
 The knowledge map as a value: which topics exist, and the associations that
 hang off each.  Every association is entered together with its inverse.
 */
module TopicWeb {
  import opened TopicNames

  datatype Item = Item(name: string, id: nat)

  datatype Assoc = Assoc(fwd: string, bwd: string, associates: seq<Item>)

  /** Ids are given out from 1; association lists are kept oldest first. */
  datatype Web = Web(ids: map<Key, nat>, links: map<Key, seq<Assoc>>)

  const EMPTY := Web(map[], map[])

  /** No id is given twice, and those given are 1 to the number of topics. */
  ghost predicate DistinctIds(ids: map<Key, nat>) {
    && (forall k | k in ids :: 1 <= ids[k] <= |ids|)
    && (forall k, l | k in ids && l in ids :: ids[k] == ids[l] ==> k == l)
  }

  ghost predicate Ok(w: Web) {
    w.ids.Keys == w.links.Keys && DistinctIds(w.ids)
  }

  /** b has the associations of a in place, under their forward and backward names. */
  ghost predicate Grows(a: seq<Assoc>, b: seq<Assoc>) {
    |a| <= |b| && forall i | 0 <= i < |a| :: b[i].fwd == a[i].fwd && b[i].bwd == a[i].bwd
  }

  /** r has all of w: its topics with their ids, and at least its associations. */
  ghost predicate Extends(w: Web, r: Web)
    requires w.ids.Keys == w.links.Keys
  {
    && Ok(r)
    && (forall k | k in w.ids :: k in r.ids && r.ids[k] == w.ids[k] && Grows(w.links[k], r.links[k]))
  }

  // ---------------------------------------------------------------- topics

  function Insert(w: Web, k: Key): Web {
    if k in w.ids then w else Web(w.ids[k := |w.ids| + 1], w.links[k := []])
  }

  lemma {:induction false} NextId(ids: map<Key, nat>, k: Key)
    requires DistinctIds(ids) && k !in ids
    ensures |ids[k := |ids| + 1]| == |ids| + 1 && DistinctIds(ids[k := |ids| + 1])
  {
    var r := ids[k := |ids| + 1];
    assert r.Keys == ids.Keys + {k};
    assert |r.Keys| == |ids| + 1;
  }

  /** Inserting a topic that exists changes nothing; a new one gets the next id and no associations. */
  lemma {:induction false} InsertOk(w: Web, k: Key)
    requires Ok(w)
    ensures Extends(w, Insert(w, k)) && k in Insert(w, k).ids
    ensures k !in w.ids ==> |Insert(w, k).ids| == |w.ids| + 1
  {
    if k !in w.ids { NextId(w.ids, k); }
  }

  // ---------------------------------------------------------------- associations

  /** The last association called fwd, in any capitalisation, is at i. */
  ghost predicate FoundAt(list: seq<Assoc>, fwd: string, i: nat) {
    && i < |list| && Lower(list[i].fwd) == Lower(fwd)
    && forall j | i < j < |list| :: Lower(list[j].fwd) != Lower(fwd)
  }

  /** `AssociationExists`: the forward name decides, in any capitalisation; an empty one is never found. */
  function FindAssoc(list: seq<Assoc>, fwd: string): (i: nat)
    ensures i <= |list|
    ensures i < |list| ==> fwd != "" && FoundAt(list, fwd, i)
    ensures i == |list| && fwd != "" ==> forall j | 0 <= j < |list| :: Lower(list[j].fwd) != Lower(fwd)
  {
    if fwd == "" || list == [] then |list|
    else
      var n := |list| - 1;
      if Lower(list[n].fwd) == Lower(fwd) then n
      else
        var i := FindAssoc(list[..n], fwd);
        if i < n then i else |list|
  }

  /** The list with an association called fwd in it, and where it is. */
  function Ensured(list: seq<Assoc>, fwd: string, bwd: string): (r: (seq<Assoc>, nat))
    ensures r.1 < |r.0| && Lower(r.0[r.1].fwd) == Lower(fwd)
  {
    var i := FindAssoc(list, fwd);
    if i < |list| then (list, i) else (list + [Assoc(fwd, bwd, [])], |list|)
  }

  predicate IsItemIn(items: seq<Item>, name: string) {
    name == "" || exists j | 0 <= j < |items| :: items[j].name == name
  }

  function Prepended(list: seq<Assoc>, i: nat, item: Item): seq<Assoc>
    requires i < |list|
  {
    list[i := list[i].(associates := [item] + list[i].associates)]
  }

  /** w with one more associate in association i of topic t. */
  function Enter(w: Web, t: Key, i: nat, item: Item): Web
    requires t in w.links && i < |w.links[t]|
  {
    w.(links := w.links[t := Prepended(w.links[t], i, item)])
  }

  lemma {:induction false} EnterExtends(w: Web, t: Key, i: nat, item: Item)
    requires Ok(w) && t in w.links && i < |w.links[t]|
    ensures Extends(w, Enter(w, t, i, item))
  {
  }

  lemma {:induction false} GrowsTransitive(a: seq<Assoc>, b: seq<Assoc>, c: seq<Assoc>)
    requires Grows(a, b) && Grows(b, c)
    ensures Grows(a, c)
  {
  }

  lemma {:induction false} ExtendsTransitive(a: Web, b: Web, c: Web)
    requires Ok(a) && Extends(a, b) && Extends(b, c)
    ensures Extends(a, c)
  {
    forall k | k in a.ids ensures Grows(a.links[k], c.links[k]) {
      GrowsTransitive(a.links[k], b.links[k], c.links[k]);
    }
  }

  /** w with an association called fwd on topic t. */
  function WithAssoc(w: Web, t: Key, fwd: string, bwd: string): (r: (Web, nat))
    requires Ok(w) && t in w.ids
    ensures Extends(w, r.0) && r.1 < |r.0.links[t]| && r.0.ids == w.ids
  {
    var (list, i) := Ensured(w.links[t], fwd, bwd);
    (w.(links := w.links[t := list]), i)
  }

  /** The item, by its normal form, is to be entered in association i of t: it is neither t itself nor there already. */
  predicate IsNew(w: Web, t: Key, i: nat, self: string, name: string)
    requires t in w.links && i < |w.links[t]|
  {
    name != self && !IsItemIn(w.links[t][i].associates, name)
  }

  /** One turn of the loop over the associates, without the inverse. */
  function AddForward(w: Web, t: Key, i: nat, self: string, item: string): (r: Web)
    requires Ok(w) && t in w.ids && i < |w.links[t]|
    ensures Extends(w, r)
  {
    var name := Normal(item);
    var u := Named(name);
    InsertOk(w, u);
    var w1 := Insert(w, u);
    if !IsNew(w1, t, i, self, name) then w1
    else
      EnterExtends(w1, t, i, Item(name, w1.ids[u]));
      ExtendsTransitive(w, w1, Enter(w1, t, i, Item(name, w1.ids[u])));
      Enter(w1, t, i, Item(name, w1.ids[u]))
  }

  /** The inverse call, which adds no inverse of its own: u becomes related by bwd to the topic called `rev`. */
  function AssociateBack(w: Web, u: Key, self: string, bwd: string, fwd: string, rev: string): (r: Web)
    requires Ok(w) && u in w.ids
    ensures Extends(w, r)
  {
    var (w1, i) := WithAssoc(w, u, bwd, fwd);
    ExtendsTransitive(w, w1, AddForward(w1, u, i, self, rev));
    AddForward(w1, u, i, self, rev)
  }

  /** One turn of the loop over the associates, with the inverse if something was entered. */
  function AddBoth(w: Web, t: Key, i: nat, self: string, fwd: string, bwd: string, item: string): (r: Web)
    requires Ok(w) && t in w.ids && i < |w.links[t]|
    ensures Extends(w, r)
  {
    var name := Normal(item);
    var u := Named(name);
    InsertOk(w, u);
    var r := AddForward(w, t, i, self, item);
    if !IsNew(Insert(w, u), t, i, self, name) then r
    else
      var (n, c) := DeClassify(name);
      ExtendsTransitive(w, r, AssociateBack(r, u, Classified(c, n), bwd, fwd, self));
      AssociateBack(r, u, Classified(c, n), bwd, fwd, self)
  }

  function AddAll(w: Web, t: Key, i: nat, self: string, fwd: string, bwd: string, items: seq<string>): (r: Web)
    requires Ok(w) && t in w.ids && i < |w.links[t]|
    ensures Extends(w, r)
    decreases |items|
  {
    if items == [] then w
    else
      var r := AddBoth(w, t, i, self, fwd, bwd, items[0]);
      ExtendsTransitive(w, r, AddAll(r, t, i, self, fwd, bwd, items[1..]));
      AddAll(r, t, i, self, fwd, bwd, items[1..])
  }

  /** `AddTopicAssociation`: t, called `self`, becomes related by fwd to each of the items, and they to t by bwd. */
  function Associate(w: Web, t: Key, self: string, fwd: string, bwd: string, items: seq<string>): (r: Web)
    requires Ok(w) && t in w.ids
    ensures Extends(w, r)
  {
    if items == [] then w
    else
      var (w1, i) := WithAssoc(w, t, fwd, bwd);
      ExtendsTransitive(w, w1, AddAll(w1, t, i, self, fwd, bwd, items));
      AddAll(w1, t, i, self, fwd, bwd, items)
  }

  /** The same call with the inverse switched off. */
  function AddAllForward(w: Web, t: Key, i: nat, self: string, items: seq<string>): (r: Web)
    requires Ok(w) && t in w.ids && i < |w.links[t]|
    ensures Extends(w, r)
    decreases |items|
  {
    if items == [] then w
    else
      var r := AddForward(w, t, i, self, items[0]);
      ExtendsTransitive(w, r, AddAllForward(r, t, i, self, items[1..]));
      AddAllForward(r, t, i, self, items[1..])
  }

  function AssociateForward(w: Web, t: Key, self: string, fwd: string, bwd: string, items: seq<string>): (r: Web)
    requires Ok(w) && t in w.ids
    ensures Extends(w, r)
  {
    if items == [] then w
    else
      var (w1, i) := WithAssoc(w, t, fwd, bwd);
      ExtendsTransitive(w, w1, AddAllForward(w1, t, i, self, items));
      AddAllForward(w1, t, i, self, items)
  }

  lemma {:induction false} ForwardOnce(w: Web, t: Key, self: string, fwd: string, bwd: string, item: string)
    requires Ok(w) && t in w.ids
    ensures AssociateForward(w, t, self, fwd, bwd, [item]) == AssociateBack(w, t, self, fwd, bwd, item)
  {
    var (w1, i) := WithAssoc(w, t, fwd, bwd);
    ForwardAllOnce(w1, t, i, self, item);
  }

  lemma {:induction false} ForwardAllOnce(w: Web, t: Key, i: nat, self: string, item: string)
    requires Ok(w) && t in w.ids && i < |w.links[t]|
    ensures AddAllForward(w, t, i, self, [item]) == AddForward(w, t, i, self, item)
  {
    var items := [item];
    assert items[1..] == [];
    var r := AddForward(w, t, i, self, item);
    assert AddAllForward(r, t, i, self, []) == r;
  }
}
