/** What an insertion leaves listed: everything asked for, so that asking again adds nothing. */
module TopicListed {
  import opened TopicEdges
  import opened TopicNames
  import opened TopicWeb

  lemma {:induction false} FoundOnce(list: seq<Assoc>, fwd: string, i: nat)
    requires fwd != "" && FoundAt(list, fwd, i)
    ensures FindAssoc(list, fwd) == i
  {
    var j := FindAssoc(list, fwd);
    assert j < |list| ==> j <= i && i <= j;
  }

  lemma {:induction false} PrependedFound(list: seq<Assoc>, i: nat, item: Item, fwd: string, j: nat)
    requires i < |list| && FoundAt(list, fwd, j)
    ensures FoundAt(Prepended(list, i, item), fwd, j)
  {
  }

  /** An association added for another name does not get in the way. */
  lemma {:induction false} EnsuredFound(list: seq<Assoc>, bwd: string, back: string, fwd: string, i: nat)
    requires fwd != "" && FoundAt(list, fwd, i)
    ensures FoundAt(Ensured(list, bwd, back).0, fwd, i)
  {
    assert bwd == "" ==> |Lower(bwd)| != |Lower(fwd)|;
  }

  lemma {:induction false} EnsuredFinds(list: seq<Assoc>, fwd: string, bwd: string)
    ensures var (r, i) := Ensured(list, fwd, bwd); FoundAt(r, fwd, i)
  {
  }

  lemma {:induction false} AddForwardFound(w: Web, t: Key, j: nat, self: string, item: string, k: Key, fwd: string,
                                           i: nat)
    requires Ok(w) && t in w.ids && j < |w.links[t]| && k in w.links && FoundAt(w.links[k], fwd, i)
    ensures FoundAt(AddForward(w, t, j, self, item).links[k], fwd, i)
  {
    var u := Named(Normal(item));
    AddForwardLinks(w, t, j, self, item, k);
    if k == t && IsNew(w, t, j, self, Normal(item)) {
      PrependedFound(w.links[t], j, Item(Normal(item), Insert(w, u).ids[u]), fwd, i);
    }
  }

  lemma {:induction false} BackFound(w: Web, u: Key, name: string, bwd: string, back: string, rev: string, t: Key,
                                     fwd: string, i: nat)
    requires Ok(w) && u in w.ids && t in w.links && fwd != "" && FoundAt(w.links[t], fwd, i)
    ensures FoundAt(AssociateBack(w, u, name, bwd, back, rev).links[t], fwd, i)
  {
    var (w1, j) := WithAssoc(w, u, bwd, back);
    if u == t { EnsuredFound(w.links[t], bwd, back, fwd, i); }
    AddForwardFound(w1, u, j, name, rev, t, fwd, i);
  }

  lemma {:induction false} AddBothFound(w: Web, t: Key, i: nat, self: string, fwd: string, bwd: string, item: string)
    requires Ok(w) && t in w.ids && fwd != "" && FoundAt(w.links[t], fwd, i)
    ensures FoundAt(AddBoth(w, t, i, self, fwd, bwd, item).links[t], fwd, i)
  {
    var u := Named(Normal(item));
    var (n, c) := DeClassify(Normal(item));
    InsertOk(w, u);
    AddForwardFound(w, t, i, self, item, t, fwd, i);
    if IsNew(Insert(w, u), t, i, self, Normal(item)) {
      BackFound(AddForward(w, t, i, self, item), u, Classified(c, n), bwd, fwd, self, t, fwd, i);
    }
  }

  /** Every item that asks for an edge is among the names. */
  ghost predicate AllListed(listed: set<string>, self: string, items: seq<string>) {
    forall k | 0 <= k < |items| && Normal(items[k]) != self && items[k] != "" :: Normal(items[k]) in listed
  }

  lemma {:induction false} AddAllLists(w: Web, t: Key, i: nat, self: string, fwd: string, bwd: string,
                                       items: seq<string>)
    requires Ok(w) && t in w.ids && Calls(t, self) && fwd != "" && FoundAt(w.links[t], fwd, i)
    ensures var r := AddAll(w, t, i, self, fwd, bwd, items);
      && FoundAt(r.links[t], fwd, i)
      && Names(w.links[t][i].associates) <= Names(r.links[t][i].associates)
      && AllListed(Names(r.links[t][i].associates), self, items)
    decreases |items|
  {
    if items != [] {
      var r := AddBoth(w, t, i, self, fwd, bwd, items[0]);
      AddBothFound(w, t, i, self, fwd, bwd, items[0]);
      AddBothNames(w, t, i, self, fwd, bwd, items[0]);
      AddAllLists(r, t, i, self, fwd, bwd, items[1..]);
      var s := AddAll(r, t, i, self, fwd, bwd, items[1..]);
      assert Normal(items[0]) == self || items[0] == "" || Normal(items[0]) in Names(r.links[t][i].associates) by {
        NewIsUnlisted(w.links[t][i].associates, Normal(items[0]));
      }
      AllListedMore(Names(s.links[t][i].associates), self, items);
    }
  }

  lemma {:induction false} AllListedMore(listed: set<string>, self: string, items: seq<string>)
    requires items != [] && AllListed(listed, self, items[1..])
    requires Normal(items[0]) == self || items[0] == "" || Normal(items[0]) in listed
    ensures AllListed(listed, self, items)
  {
    var rest := items[1..];
    assert forall k | 1 <= k < |items| :: items[k] == rest[k - 1];
  }

  /** After an insertion everything it asked for is listed under its forward name. */
  lemma {:induction false} AssociateLists(w: Web, t: Key, self: string, fwd: string, bwd: string, items: seq<string>)
    requires Ok(w) && t in w.ids && Calls(t, self) && fwd != ""
    ensures AllListed(Listed(Associate(w, t, self, fwd, bwd, items).links[t], fwd), self, items)
  {
    if items != [] {
      var (w1, i) := WithAssoc(w, t, fwd, bwd);
      EnsuredFinds(w.links[t], fwd, bwd);
      AddAllLists(w1, t, i, self, fwd, bwd, items);
      FoundOnce(AddAll(w1, t, i, self, fwd, bwd, items).links[t], fwd, i);
    }
  }

  lemma {:induction false} NothingUnlisted(listed: set<string>, t: Key, self: string, f: string, b: string,
                                           items: seq<string>)
    requires AllListed(listed, self, items)
    ensures EdgesOf(listed, t, self, f, b, items) == {}
  {
    forall k | 0 <= k < |items| && Normal(items[k]) !in listed ensures ItemEdges(t, self, f, b, items[k]) == {} {
    }
  }
}
