/** The association graph: which edges each step of an insertion adds. */
module TopicEdges {
  import opened TopicNames
  import opened TopicWeb

  /** (t, f, u): u is an associate of t under the association whose lower-cased forward name is f. */
  type Edge = (Key, string, Key)

  ghost predicate HasEdge(list: seq<Assoc>, f: string, u: Key) {
    exists i, j | 0 <= i < |list| && 0 <= j < |list[i].associates| ::
      Lower(list[i].fwd) == f && Named(list[i].associates[j].name) == u
  }

  ghost predicate Related(w: Web, t: Key, f: string, u: Key) {
    t in w.links && HasEdge(w.links[t], f, u)
  }

  /** r has the edges of w and those of `added`, and no others. */
  ghost predicate AddsExactly(w: Web, r: Web, added: set<Edge>) {
    forall x, f, y :: Related(r, x, f, y) <==> Related(w, x, f, y) || (x, f, y) in added
  }

  lemma {:induction false} AddsTransitive(a: Web, b: Web, c: Web, m: set<Edge>, n: set<Edge>)
    requires AddsExactly(a, b, m) && AddsExactly(b, c, n)
    ensures AddsExactly(a, c, m + n)
  {
  }

  // ---------------------------------------------------------------- entering names

  lemma {:induction false} InsertKeeps(w: Web, k: Key, t: Key)
    requires w.ids.Keys == w.links.Keys && t in w.links
    ensures t in Insert(w, k).links && Insert(w, k).links[t] == w.links[t]
  {
    if k !in w.ids {
      assert k != t;
    }
  }

  lemma {:induction false} InsertEdges(w: Web, k: Key)
    requires Ok(w)
    ensures AddsExactly(w, Insert(w, k), {})
  {
  }

  lemma {:induction false} EnsuredEdges(list: seq<Assoc>, fwd: string, bwd: string, f: string, y: Key)
    ensures HasEdge(Ensured(list, fwd, bwd).0, f, y) <==> HasEdge(list, f, y)
  {
    var after := Ensured(list, fwd, bwd).0;
    if HasEdge(list, f, y) {
      var a, b :| 0 <= a < |list| && 0 <= b < |list[a].associates| &&
                  Lower(list[a].fwd) == f && Named(list[a].associates[b].name) == y;
      assert after[a] == list[a];
    }
    if HasEdge(after, f, y) {
      var a, b :| 0 <= a < |after| && 0 <= b < |after[a].associates| &&
                  Lower(after[a].fwd) == f && Named(after[a].associates[b].name) == y;
      assert a < |list| && list[a] == after[a];
    }
  }

  lemma {:induction false} WithAssocEdges(w: Web, t: Key, fwd: string, bwd: string)
    requires Ok(w) && t in w.ids
    ensures AddsExactly(w, WithAssoc(w, t, fwd, bwd).0, {})
    ensures var (r, i) := WithAssoc(w, t, fwd, bwd); Lower(r.links[t][i].fwd) == Lower(fwd)
  {
    forall f, y {
      EnsuredEdges(w.links[t], fwd, bwd, f, y);
    }
  }

  lemma {:induction false} EdgeAt(list: seq<Assoc>, i: nat, j: nat)
    requires i < |list| && j < |list[i].associates|
    ensures HasEdge(list, Lower(list[i].fwd), Named(list[i].associates[j].name))
  {
    assert Lower(list[i].fwd) == Lower(list[i].fwd);
  }

  lemma {:induction false} PrependedAt(list: seq<Assoc>, i: nat, item: Item, a: nat, b: nat)
    requires i < |list| && a < |list| && b < |list[a].associates|
    ensures var after, k := Prepended(list, i, item), if a == i then b + 1 else b;
      after[a].fwd == list[a].fwd && k < |after[a].associates| && after[a].associates[k] == list[a].associates[b]
  {
    assert ([item] + list[i].associates)[1..] == list[i].associates;
  }

  lemma {:induction false} PrependedKeeps(list: seq<Assoc>, i: nat, item: Item, f: string, y: Key)
    requires i < |list|
    ensures HasEdge(list, f, y) ==> HasEdge(Prepended(list, i, item), f, y)
    ensures HasEdge(Prepended(list, i, item), Lower(list[i].fwd), Named(item.name))
  {
    var after := Prepended(list, i, item);
    if HasEdge(list, f, y) {
      var a, b :| 0 <= a < |list| && 0 <= b < |list[a].associates| &&
                  Lower(list[a].fwd) == f && Named(list[a].associates[b].name) == y;
      PrependedAt(list, i, item, a, b);
      EdgeAt(after, a, if a == i then b + 1 else b);
    }
    EdgeAt(after, i, 0);
  }

  lemma {:induction false} PrependedEdges(list: seq<Assoc>, i: nat, item: Item, f: string, y: Key)
    requires i < |list|
    ensures HasEdge(Prepended(list, i, item), f, y)
            <==> HasEdge(list, f, y) || (f == Lower(list[i].fwd) && y == Named(item.name))
  {
    var after := Prepended(list, i, item);
    PrependedKeeps(list, i, item, f, y);
    if HasEdge(after, f, y) {
      var a, b :| 0 <= a < |after| && 0 <= b < |after[a].associates| &&
                  Lower(after[a].fwd) == f && Named(after[a].associates[b].name) == y;
      if a != i {
        assert list[a] == after[a];
      } else if b > 0 {
        assert list[a].associates[b - 1] == after[a].associates[b];
      }
    }
  }

  lemma {:induction false} EnterEdges(w: Web, t: Key, i: nat, item: Item)
    requires t in w.links && i < |w.links[t]|
    ensures AddsExactly(w, Enter(w, t, i, item), {(t, Lower(w.links[t][i].fwd), Named(item.name))})
  {
    forall x, f, y
      ensures Related(Enter(w, t, i, item), x, f, y)
              <==> Related(w, x, f, y) || (x, f, y) == (t, Lower(w.links[t][i].fwd), Named(item.name))
    {
      if x == t { PrependedEdges(w.links[t], i, item, f, y); }
    }
  }

  /** Entering an item adds its edge, unless it is the topic itself or the empty name. */
  function ForwardEdge(t: Key, f: string, self: string, item: string): set<Edge> {
    if Normal(item) == self || item == "" then {} else {(t, f, Named(Normal(item)))}
  }

  /** A name that is listed is an edge already. */
  lemma {:induction false} ListedEdge(list: seq<Assoc>, i: nat, name: string)
    requires i < |list| && name != "" && IsItemIn(list[i].associates, name)
    ensures HasEdge(list, Lower(list[i].fwd), Named(name))
  {
    var j :| 0 <= j < |list[i].associates| && list[i].associates[j].name == name;
    EdgeAt(list, i, j);
  }

  lemma {:induction false} AddForwardEdges(w: Web, t: Key, i: nat, self: string, item: string)
    requires Ok(w) && t in w.ids && i < |w.links[t]|
    ensures AddsExactly(w, AddForward(w, t, i, self, item), ForwardEdge(t, Lower(w.links[t][i].fwd), self, item))
  {
    var u := Named(Normal(item));
    InsertOk(w, u);
    InsertEdges(w, u);
    InsertKeeps(w, u, t);
    if IsNew(w, t, i, self, Normal(item)) {
      var entered := Item(Normal(item), Insert(w, u).ids[u]);
      EnterEdges(Insert(w, u), t, i, entered);
      AddsTransitive(w, Insert(w, u), Enter(Insert(w, u), t, i, entered), {},
                     ForwardEdge(t, Lower(w.links[t][i].fwd), self, item));
    } else if Normal(item) != self && item != "" {
      ListedEdge(w.links[t], i, Normal(item));
    }
  }

  lemma {:induction false} AssociateBackEdges(w: Web, u: Key, self: string, bwd: string, fwd: string, rev: string)
    requires Ok(w) && u in w.ids
    ensures AddsExactly(w, AssociateBack(w, u, self, bwd, fwd, rev), ForwardEdge(u, Lower(bwd), self, rev))
  {
    var (w1, i) := WithAssoc(w, u, bwd, fwd);
    WithAssocEdges(w, u, bwd, fwd);
    AddForwardEdges(w1, u, i, self, rev);
    AddsTransitive(w, w1, AddForward(w1, u, i, self, rev), {}, ForwardEdge(u, Lower(bwd), self, rev));
  }

  // ---------------------------------------------------------------- the edges of one insertion

  /** The topic t is well named and `self` is its classified name. */
  ghost predicate Calls(t: Key, self: string) {
    exists name, context :: WellFormed(name, context) && t == KeyOf(name, context) && self == Classified(context, name)
  }

  /** What relating t by f/b to one item should add: the edge and its inverse. */
  function ItemEdges(t: Key, self: string, f: string, b: string, item: string): set<Edge> {
    var u := Named(Normal(item));
    if Normal(item) == self || item == "" then {}
    else if u == t then {(t, f, t)}
    else {(t, f, u), (u, b, t)}
  }

  /** Going back from the item to t: the inverse call finds t again and does not take it for itself. */
  lemma {:induction false} BackEdge(t: Key, self: string, b: string, name: string)
    requires Calls(t, self)
    ensures var (n, c) := DeClassify(name);
      ForwardEdge(Named(name), b, Classified(c, n), self) == if Named(name) == t then {} else {(Named(name), b, t)}
  {
    var tname, context :| WellFormed(tname, context) && t == KeyOf(tname, context) && self
        == Classified(context, tname);
    ClassifiedNormal(context, tname);
    ClassifiedNamed(context, tname);
    var (n, c) := DeClassify(name);
    assert self != "" by { assert |self| >= 2; }
    if Classified(c, n) == self {
      ClassifiedInjective(context, tname, name);
    }
  }

  /** A new item's edge and the edge of the inverse call. */
  lemma {:induction false} BothEdges(t: Key, self: string, f: string, b: string, item: string)
    requires Calls(t, self) && Normal(item) != self && item != ""
    ensures var (n, c) := DeClassify(Normal(item));
      ForwardEdge(t, f, self, item) + ForwardEdge(Named(Normal(item)), b, Classified(c, n), self)
      == ItemEdges(t, self, f, b, item)
  {
    BackEdge(t, self, b, Normal(item));
  }

  /** A new item: its edge is entered, and then the inverse. */
  lemma {:induction false} AddBothNew(w: Web, t: Key, i: nat, self: string, fwd: string, bwd: string, item: string)
    requires Ok(w) && t in w.ids && i < |w.links[t]| && Calls(t, self)
    requires Lower(w.links[t][i].fwd) == Lower(fwd)
    requires var u := Named(Normal(item)); Extends(w, Insert(w, u)) && IsNew(Insert(w, u), t, i, self, Normal(item))
    ensures AddsExactly(w, AddBoth(w, t, i, self, fwd, bwd, item), ItemEdges(t, self, Lower(fwd), Lower(bwd), item))
  {
    var u := Named(Normal(item));
    var (n, c) := DeClassify(Normal(item));
    var r := AddForward(w, t, i, self, item);
    assert u in r.ids by { InsertOk(w, u); }
    AddForwardEdges(w, t, i, self, item);
    AssociateBackEdges(r, u, Classified(c, n), bwd, fwd, self);
    BothEdges(t, self, Lower(fwd), Lower(bwd), item);
    AddsTransitive(w, r, AssociateBack(r, u, Classified(c, n), bwd, fwd, self),
                   ForwardEdge(t, Lower(fwd), self, item),
                   ForwardEdge(u, Lower(bwd), Classified(c, n), self));
  }

  /** A turn with a new item adds its edge and the inverse; any other turn adds nothing. */
  lemma {:induction false} AddBothEdges(w: Web, t: Key, i: nat, self: string, fwd: string, bwd: string, item: string)
    requires Ok(w) && t in w.ids && i < |w.links[t]| && Calls(t, self)
    requires Lower(w.links[t][i].fwd) == Lower(fwd)
    ensures AddsExactly(w, AddBoth(w, t, i, self, fwd, bwd, item),
                        if IsNew(w, t, i, self, Normal(item))
                        then ItemEdges(t, self, Lower(fwd), Lower(bwd), item) else {})
  {
    var u := Named(Normal(item));
    InsertOk(w, u);
    InsertKeeps(w, u, t);
    if IsNew(w, t, i, self, Normal(item)) {
      AddBothNew(w, t, i, self, fwd, bwd, item);
    } else {
      InsertEdges(w, u);
    }
  }

  /**
   A turn adds exactly the edge and its inverse if and only if the item is
   new, or nothing is asked for, or the inverse is there already.  An item
   that is listed gets no inverse, whatever backward name is given this time.
   */
  lemma {:induction false} AddBothAnswers(w: Web, t: Key, i: nat, self: string, fwd: string, bwd: string, item: string)
    requires Ok(w) && t in w.ids && i < |w.links[t]| && Calls(t, self)
    requires Lower(w.links[t][i].fwd) == Lower(fwd)
    ensures var u := Named(Normal(item));
      AddsExactly(w, AddBoth(w, t, i, self, fwd, bwd, item), ItemEdges(t, self, Lower(fwd), Lower(bwd), item))
      <==> IsNew(w, t, i, self, Normal(item)) || Normal(item) == self || item == "" || u == t
           || Related(w, u, Lower(bwd), t)
  {
    AddBothEdges(w, t, i, self, fwd, bwd, item);
    if !IsNew(w, t, i, self, Normal(item)) && Normal(item) != self && item != "" {
      ListedEdge(w.links[t], i, Normal(item));
      ListedTurn(w, AddBoth(w, t, i, self, fwd, bwd, item), t, self, Lower(fwd), Lower(bwd), item);
    }
  }

  lemma {:induction false} ListedTurn(w: Web, r: Web, t: Key, self: string, f: string, b: string, item: string)
    requires AddsExactly(w, r, {}) && Related(w, t, f, Named(Normal(item)))
    requires Normal(item) != self && item != ""
    ensures var u := Named(Normal(item));
      AddsExactly(w, r, ItemEdges(t, self, f, b, item)) <==> u == t || Related(w, u, b, t)
  {
    var u := Named(Normal(item));
    if u != t && AddsExactly(w, r, ItemEdges(t, self, f, b, item)) {
      assert (u, b, t) in ItemEdges(t, self, f, b, item);
    }
  }

  // ---------------------------------------------------------------- the edges of one insertion

  function Names(items: seq<Item>): set<string> {
    set j | 0 <= j < |items| :: items[j].name
  }

  /** The names listed under fwd, in any capitalisation. */
  function Listed(list: seq<Assoc>, fwd: string): set<string> {
    var i := FindAssoc(list, fwd);
    if i < |list| then Names(list[i].associates) else {}
  }

  /** The edges of the items that are not among the names `listed`. */
  function EdgesOf(listed: set<string>, t: Key, self: string, f: string, b: string, items: seq<string>): set<Edge> {
    set k, e | 0 <= k < |items| && Normal(items[k]) !in listed && e in ItemEdges(t, self, f, b, items[k]) :: e
  }

  lemma {:induction false} EdgeIn(listed: set<string>, t: Key, self: string, f: string, b: string, items: seq<string>,
                                  k: nat, e: Edge)
    requires k < |items| && Normal(items[k]) !in listed && e in ItemEdges(t, self, f, b, items[k])
    ensures e in EdgesOf(listed, t, self, f, b, items)
  {
  }

  lemma {:induction false} EdgeFrom(listed: set<string>, t: Key, self: string, f: string, b: string,
                                    items: seq<string>, e: Edge)
    returns (k: nat)
    requires e in EdgesOf(listed, t, self, f, b, items)
    ensures k < |items| && Normal(items[k]) !in listed && e in ItemEdges(t, self, f, b, items[k])
  {
    k :| 0 <= k < |items| && Normal(items[k]) !in listed && e in ItemEdges(t, self, f, b, items[k]);
  }

  /** Once an item has been entered, the same item later in the list adds nothing new. */
  lemma {:induction false} EdgesOfRest(listed: set<string>, more: set<string>,
                                       t: Key, self: string, f: string, b: string, items: seq<string>)
    requires items != []
    requires more == listed || more == listed + {Normal(items[0])}
    ensures (if Normal(items[0]) in listed then {} else ItemEdges(t, self, f, b, items[0]))
            + EdgesOf(more, t, self, f, b, items[1..])
            == EdgesOf(listed, t, self, f, b, items)
  {
  }

  /** What a turn without the inverse does to the list of a topic that is there. */
  lemma {:induction false} AddForwardLinks(w: Web, t: Key, i: nat, self: string, item: string, k: Key)
    requires Ok(w) && t in w.ids && i < |w.links[t]| && k in w.links
    ensures var u := Named(Normal(item));
      && k in AddForward(w, t, i, self, item).links && u in Insert(w, u).ids
      && AddForward(w, t, i, self, item).links[k]
         == if k == t && IsNew(w, t, i, self, Normal(item))
            then Prepended(w.links[t], i, Item(Normal(item), Insert(w, u).ids[u])) else w.links[k]
  {
    InsertKeeps(w, Named(Normal(item)), t);
    InsertKeeps(w, Named(Normal(item)), k);
  }

  lemma {:induction false} PrependedNames(list: seq<Assoc>, i: nat, item: Item)
    requires i < |list|
    ensures Names(Prepended(list, i, item)[i].associates) == Names(list[i].associates) + {item.name}
  {
    NamesPrepended(item, list[i].associates);
  }

  lemma {:induction false} AddForwardNames(w: Web, t: Key, i: nat, self: string, item: string)
    requires Ok(w) && t in w.ids && i < |w.links[t]|
    ensures Names(AddForward(w, t, i, self, item).links[t][i].associates)
            == Names(w.links[t][i].associates)
               + if IsNew(w, t, i, self, Normal(item)) then {Normal(item)} else {}
  {
    var u := Named(Normal(item));
    AddForwardLinks(w, t, i, self, item, t);
    if IsNew(w, t, i, self, Normal(item)) {
      PrependedNames(w.links[t], i, Item(Normal(item), Insert(w, u).ids[u]));
    }
  }

  lemma {:induction false} NamesPrepended(item: Item, items: seq<Item>)
    ensures Names([item] + items) == {item.name} + Names(items)
  {
    var all := [item] + items;
    assert all[0] == item;
    forall j | 0 <= j < |items| ensures all[j + 1] == items[j] {
    }
    assert forall n :: n in Names(all) <==> n == item.name || n in Names(items);
  }

  /** The inverse call does not touch t's list, not even when it goes to t itself. */
  lemma {:induction false} BackKeeps(w: Web, u: Key, name: string, bwd: string, fwd: string, rev: string, t: Key,
                                     i: nat)
    requires Ok(w) && u in w.ids && t in w.ids && i < |w.links[t]|
    requires u != t || Normal(rev) == name
    ensures var r := AssociateBack(w, u, name, bwd, fwd, rev);
      i < |r.links[t]| && r.links[t][i].associates == w.links[t][i].associates
  {
    var (w1, j) := WithAssoc(w, u, bwd, fwd);
    AddForwardLinks(w1, u, j, name, rev, t);
  }

  lemma {:induction false} AddBothNames(w: Web, t: Key, i: nat, self: string, fwd: string, bwd: string, item: string)
    requires Ok(w) && t in w.ids && i < |w.links[t]| && Calls(t, self)
    ensures Names(AddBoth(w, t, i, self, fwd, bwd, item).links[t][i].associates)
            == Names(w.links[t][i].associates)
               + if IsNew(w, t, i, self, Normal(item)) then {Normal(item)} else {}
  {
    var u := Named(Normal(item));
    var (n, c) := DeClassify(Normal(item));
    InsertOk(w, u);
    InsertKeeps(w, u, t);
    AddForwardNames(w, t, i, self, item);
    if IsNew(w, t, i, self, Normal(item)) {
      if u == t { SelfNamed(t, self, Normal(item)); }
      BackKeeps(AddForward(w, t, i, self, item), u, Classified(c, n), bwd, fwd, self, t, i);
    }
  }

  /** A name of t in any spelling is classified as t's own name. */
  lemma {:induction false} SelfNamed(t: Key, self: string, name: string)
    requires Calls(t, self) && Named(name) == t
    ensures var (n, c) := DeClassify(name); Normal(self) == Classified(c, n)
  {
    var tname, context :| WellFormed(tname, context) && t == KeyOf(tname, context) && self
        == Classified(context, tname);
    ClassifiedNormal(context, tname);
    var (n, c) := DeClassify(name);
    SameKeySameName(n, c, tname, context);
  }

  lemma {:induction false} SameKeySameName(n: string, c: string, name: string, context: string)
    requires c != "" && context != "" && KeyOf(n, c) == KeyOf(name, context)
    ensures Classified(c, n) == Classified(context, name)
  {
  }

  lemma {:induction false} AddAllEdges(w: Web, t: Key, i: nat, self: string, fwd: string, bwd: string,
                                       items: seq<string>)
    requires Ok(w) && t in w.ids && i < |w.links[t]| && Calls(t, self)
    requires Lower(w.links[t][i].fwd) == Lower(fwd)
    ensures AddsExactly(w, AddAll(w, t, i, self, fwd, bwd, items),
                        EdgesOf(Names(w.links[t][i].associates), t, self, Lower(fwd), Lower(bwd), items))
    decreases |items|
  {
    if items != [] {
      var r := AddBoth(w, t, i, self, fwd, bwd, items[0]);
      assert Grows(w.links[t], r.links[t]);
      AddAllEdges(r, t, i, self, fwd, bwd, items[1..]);
      AddBothEdges(w, t, i, self, fwd, bwd, items[0]);
      AddBothNames(w, t, i, self, fwd, bwd, items[0]);
      OneMore(w, r, AddAll(r, t, i, self, fwd, bwd, items[1..]), t, i, self, Lower(fwd), Lower(bwd), items);
    }
  }

  /** The edges of the first item together with those of the rest. */
  lemma {:induction false} OneMore(w: Web, r: Web, s: Web, t: Key, i: nat, self: string, f: string, b: string,
                                   items: seq<string>)
    requires items != [] && t in w.links && i < |w.links[t]| && t in r.links && i < |r.links[t]|
    requires var isNew := IsNew(w, t, i, self, Normal(items[0]));
      && AddsExactly(w, r, if isNew then ItemEdges(t, self, f, b, items[0]) else {})
      && Names(r.links[t][i].associates)
         == Names(w.links[t][i].associates) + if isNew then {Normal(items[0])} else {}
    requires AddsExactly(r, s, EdgesOf(Names(r.links[t][i].associates), t, self, f, b, items[1..]))
    ensures AddsExactly(w, s, EdgesOf(Names(w.links[t][i].associates), t, self, f, b, items))
  {
    var listed, more := Names(w.links[t][i].associates), Names(r.links[t][i].associates);
    var first := if IsNew(w, t, i, self, Normal(items[0])) then ItemEdges(t, self, f, b, items[0]) else {};
    AddsTransitive(w, r, s, first, EdgesOf(more, t, self, f, b, items[1..]));
    EdgesOfRest(listed, more, t, self, f, b, items);
    assert first == if Normal(items[0]) in listed then {} else ItemEdges(t, self, f, b, items[0]) by {
      NewIsUnlisted(w.links[t][i].associates, Normal(items[0]));
    }
  }

  lemma {:induction false} NewIsUnlisted(items: seq<Item>, name: string)
    ensures IsItemIn(items, name) <==> name == "" || name in Names(items)
  {
  }

  lemma {:induction false} EnsuredNames(list: seq<Assoc>, fwd: string, bwd: string)
    ensures var (r, i) := Ensured(list, fwd, bwd); Names(r[i].associates) == Listed(list, fwd)
  {
  }

  /** One insertion adds exactly the edges of the associates that are not listed yet, and their inverses. */
  lemma {:induction false} AssociateEdges(w: Web, t: Key, self: string, fwd: string, bwd: string, items: seq<string>)
    requires Ok(w) && t in w.ids && Calls(t, self)
    ensures AddsExactly(w, Associate(w, t, self, fwd, bwd, items),
                        EdgesOf(Listed(w.links[t], fwd), t, self, Lower(fwd), Lower(bwd), items))
  {
    if items != [] {
      var (w1, i) := WithAssoc(w, t, fwd, bwd);
      WithAssocEdges(w, t, fwd, bwd);
      AddAllEdges(w1, t, i, self, fwd, bwd, items);
      EnsuredNames(w.links[t], fwd, bwd);
      AddsTransitive(w, w1, AddAll(w1, t, i, self, fwd, bwd, items), {},
                     EdgesOf(Listed(w.links[t], fwd), t, self, Lower(fwd), Lower(bwd), items));
    }
  }
}
