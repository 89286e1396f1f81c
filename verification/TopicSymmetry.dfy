/** The association graph over insertions and runs: when inverses are complete, and the symmetry that runs keep. */
module TopicSymmetry {
  import opened TopicEdges
  import opened TopicListed
  import opened TopicNames
  import opened TopicWeb

  // ---------------------------------------------------------------- one insertion and its inverses

  /** The item asks for an edge to another topic, which has to be answered. */
  predicate Asks(t: Key, self: string, item: string) {
    Normal(item) != self && item != "" && Named(Normal(item)) != t
  }

  /** The inverse is there, or some spelling of the same topic is about to be entered. */
  ghost predicate WillBeAnswered(w: Web, t: Key, self: string, fwd: string, bwd: string, items: seq<string>, u: Key)
    requires t in w.links
  {
    || Related(w, u, Lower(bwd), t)
    || exists j | 0 <= j < |items| ::
         Asks(t, self, items[j]) && Normal(items[j]) !in Listed(w.links[t], fwd) && Named(Normal(items[j])) == u
  }

  /** Names that are listed are edges already. */
  lemma {:induction false} ListedEdges(list: seq<Assoc>, fwd: string, name: string)
    requires name in Listed(list, fwd) && name != ""
    ensures HasEdge(list, Lower(fwd), Named(name))
  {
    var i := FindAssoc(list, fwd);
    NewIsUnlisted(list[i].associates, name);
    ListedEdge(list, i, name);
  }

  /**
   An insertion adds exactly the edges asked for and their inverses if and
   only if every associate asked for is unlisted or answered anyway: one that
   is listed already gets no inverse under a backward name given now.
   */
  lemma {:induction false} AssociateAnswers(w: Web, t: Key, self: string, fwd: string, bwd: string, items: seq<string>)
    requires Ok(w) && t in w.ids && Calls(t, self)
    ensures AddsExactly(w, Associate(w, t, self, fwd, bwd, items),
                        EdgesOf({}, t, self, Lower(fwd), Lower(bwd), items))
            <==> forall k | 0 <= k < |items| && Asks(t, self, items[k]) ::
                   WillBeAnswered(w, t, self, fwd, bwd, items, Named(Normal(items[k])))
  {
    var r, asked := Associate(w, t, self, fwd, bwd, items), EdgesOf({}, t, self, Lower(fwd), Lower(bwd), items);
    AssociateEdges(w, t, self, fwd, bwd, items);
    if AddsExactly(w, r, asked) {
      forall k | 0 <= k < |items| && Asks(t, self, items[k])
        ensures WillBeAnswered(w, t, self, fwd, bwd, items, Named(Normal(items[k])))
      {
        AnsweredAfter(w, r, t, self, fwd, bwd, items, k);
      }
    } else if forall k | 0 <= k < |items| && Asks(t, self, items[k]) ::
                WillBeAnswered(w, t, self, fwd, bwd, items, Named(Normal(items[k]))) {
      AllAnswered(w, r, t, self, fwd, bwd, items);
    }
  }

  lemma {:induction false} AllAnswered(w: Web, r: Web, t: Key, self: string, fwd: string, bwd: string,
                                       items: seq<string>)
    requires t in w.links
    requires AddsExactly(w, r, EdgesOf(Listed(w.links[t], fwd), t, self, Lower(fwd), Lower(bwd), items))
    requires forall k | 0 <= k < |items| && Asks(t, self, items[k]) ::
               WillBeAnswered(w, t, self, fwd, bwd, items, Named(Normal(items[k])))
    ensures AddsExactly(w, r, EdgesOf({}, t, self, Lower(fwd), Lower(bwd), items))
  {
    var f, b := Lower(fwd), Lower(bwd);
    var asked, added := EdgesOf({}, t, self, f, b, items), EdgesOf(Listed(w.links[t], fwd), t, self, f, b, items);
    forall e | e in asked ensures e in added || Related(w, e.0, e.1, e.2) {
      var k := EdgeFrom({}, t, self, f, b, items, e);
      AskedIsThere(w, t, self, fwd, bwd, items, k, e);
    }
    SameEdges(w, r, asked, added);
  }

  lemma {:induction false} BackEdgeOf(t: Key, self: string, f: string, b: string, item: string, u: Key)
    requires u != t
    ensures (u, b, t) in ItemEdges(t, self, f, b, item) <==> Asks(t, self, item) && Named(Normal(item)) == u
  {
  }

  lemma {:induction false} AnsweredAfter(w: Web, r: Web, t: Key, self: string, fwd: string, bwd: string,
                                         items: seq<string>, k: nat)
    requires t in w.links && k < |items| && Asks(t, self, items[k])
    requires AddsExactly(w, r, EdgesOf({}, t, self, Lower(fwd), Lower(bwd), items))
    requires AddsExactly(w, r, EdgesOf(Listed(w.links[t], fwd), t, self, Lower(fwd), Lower(bwd), items))
    ensures WillBeAnswered(w, t, self, fwd, bwd, items, Named(Normal(items[k])))
  {
    var u, f, b := Named(Normal(items[k])), Lower(fwd), Lower(bwd);
    EdgeIn({}, t, self, f, b, items, k, (u, b, t));
    if !Related(w, u, b, t) {
      assert Related(r, u, b, t);
      var j := EdgeFrom(Listed(w.links[t], fwd), t, self, f, b, items, (u, b, t));
      BackEdgeOf(t, self, f, b, items[j], u);
    }
  }

  lemma {:induction false} AskedIsThere(w: Web, t: Key, self: string, fwd: string, bwd: string, items: seq<string>,
                                        k: nat, e: Edge)
    requires t in w.links && k < |items| && e in ItemEdges(t, self, Lower(fwd), Lower(bwd), items[k])
    requires Asks(t, self, items[k]) ==> WillBeAnswered(w, t, self, fwd, bwd, items, Named(Normal(items[k])))
    ensures e in EdgesOf(Listed(w.links[t], fwd), t, self, Lower(fwd), Lower(bwd), items) || Related(w, e.0, e.1, e.2)
  {
    var name, f, b := Normal(items[k]), Lower(fwd), Lower(bwd);
    var u := Named(name);
    if name in Listed(w.links[t], fwd) {
      ListedEdges(w.links[t], fwd, name);
      if e != (t, f, u) && !Related(w, u, b, t) {
        var j :| 0 <= j < |items| && Asks(t, self, items[j]) && Normal(items[j]) !in Listed(w.links[t], fwd)
                 && Named(Normal(items[j])) == u;
        assert e in ItemEdges(t, self, f, b, items[j]);
      }
    }
  }

  lemma {:induction false} SameEdges(w: Web, r: Web, asked: set<Edge>, added: set<Edge>)
    requires AddsExactly(w, r, added) && added <= asked
    requires forall e | e in asked :: e in added || Related(w, e.0, e.1, e.2)
    ensures AddsExactly(w, r, asked)
  {
    forall x, f, y ensures Related(r, x, f, y) <==> Related(w, x, f, y) || (x, f, y) in asked {
      if (x, f, y) in asked {
        var e := (x, f, y);
        assert e in added || Related(w, e.0, e.1, e.2);
      }
    }
  }

  // ---------------------------------------------------------------- whole runs

  /** A promise installs a topic, or installs it and relates it to others. */
  datatype Op =
    | NewTopic(name: string, context: string)
    | Relate(name: string, context: string, fwd: string, bwd: string, items: seq<string>)

  function Apply(w: Web, op: Op): (r: Web)
    requires Ok(w)
    ensures Extends(w, r)
  {
    var k := KeyOf(op.name, op.context);
    InsertOk(w, k);
    var w1 := Insert(w, k);
    match op
    case NewTopic(_, _) => w1
    case Relate(name, context, fwd, bwd, items) =>
      ExtendsTransitive(w, w1, Associate(w1, k, Classified(context, name), fwd, bwd, items));
      Associate(w1, k, Classified(context, name), fwd, bwd, items)
  }

  function Run(w: Web, ops: seq<Op>): (r: Web)
    requires Ok(w)
    ensures Ok(r)
    decreases |ops|
  {
    if ops == [] then w else Run(Apply(w, ops[0]), ops[1..])
  }

  predicate Sound(op: Op) {
    op.Relate? ==> WellFormed(op.name, op.context)
  }

  /** The names listed for t under fwd, if t is there. */
  function ListedFor(w: Web, t: Key, fwd: string): set<string> {
    if t in w.links then Listed(w.links[t], fwd) else {}
  }

  /** The edges an operation is about to add. */
  function OpEdges(w: Web, op: Op): set<Edge> {
    match op
    case NewTopic(_, _) => {}
    case Relate(name, context, fwd, bwd, items) =>
      var t := KeyOf(name, context);
      EdgesOf(ListedFor(w, t, fwd), t, Classified(context, name), Lower(fwd), Lower(bwd), items)
  }

  lemma {:induction false} InsertListed(w: Web, t: Key, fwd: string)
    requires w.ids.Keys == w.links.Keys
    ensures t in Insert(w, t).links && Listed(Insert(w, t).links[t], fwd) == ListedFor(w, t, fwd)
  {
    if t in w.links { InsertKeeps(w, t, t); }
  }

  lemma {:induction false} CallsIntro(name: string, context: string)
    requires WellFormed(name, context)
    ensures Calls(KeyOf(name, context), Classified(context, name))
  {
  }

  lemma {:induction false} ApplyEdges(w: Web, op: Op)
    requires Ok(w) && Sound(op)
    ensures AddsExactly(w, Apply(w, op), OpEdges(w, op))
  {
    var k := KeyOf(op.name, op.context);
    InsertOk(w, k);
    InsertEdges(w, k);
    var w1 := Insert(w, k);
    if op.Relate? {
      CallsIntro(op.name, op.context);
      AssociateEdges(w1, k, Classified(op.context, op.name), op.fwd, op.bwd, op.items);
      InsertListed(w, k, op.fwd);
      AddsTransitive(w, w1, Associate(w1, k, Classified(op.context, op.name), op.fwd, op.bwd, op.items),
                     {}, OpEdges(w, op));
    }
  }

  /** Whatever backward name comes with it, the same insertion made again adds no edge at all. */
  lemma {:induction false} RelatedAgain(w: Web, op: Op, bwd: string)
    requires Ok(w) && Sound(op) && op.Relate? && op.fwd != ""
    ensures AddsExactly(Apply(w, op), Apply(Apply(w, op), op.(bwd := bwd)), {})
  {
    var k, self := KeyOf(op.name, op.context), Classified(op.context, op.name);
    InsertOk(w, k);
    CallsIntro(op.name, op.context);
    var r := Apply(w, op);
    ApplyEdges(r, op.(bwd := bwd));
    AssociateLists(Insert(w, k), k, self, op.fwd, op.bwd, op.items);
    NothingUnlisted(Listed(r.links[k], op.fwd), k, self, Lower(op.fwd), Lower(bwd), op.items);
  }

  // ---------------------------------------------------------------- symmetry

  /** Forward and backward name are each other's partners in any capitalisation. */
  predicate Paired(op: Op, partner: string -> string) {
    op.Relate? ==> partner(Lower(op.fwd)) == Lower(op.bwd) && partner(Lower(op.bwd)) == Lower(op.fwd)
  }

  /** Between different topics every edge has its inverse under the partner name. */
  ghost predicate Symmetric(w: Web, partner: string -> string) {
    forall x, f, y | x != y && Related(w, x, f, y) :: Related(w, y, partner(f), x)
  }

  /** What is about to be added has its partners among the edges that are there or are added with it. */
  ghost predicate Completes(w: Web, added: set<Edge>, partner: string -> string) {
    forall x, f, y | x != y && (x, f, y) in added :: (y, partner(f), x) in added || Related(w, y, partner(f), x)
  }

  lemma {:induction false} SymmetricGrows(w: Web, r: Web, added: set<Edge>, partner: string -> string)
    requires AddsExactly(w, r, added) && Symmetric(w, partner)
    ensures Symmetric(r, partner) <==> Completes(w, added, partner)
  {
    if Symmetric(r, partner) {
      forall x, f, y | x != y && (x, f, y) in added
        ensures (y, partner(f), x) in added || Related(w, y, partner(f), x)
      {
        assert Related(r, x, f, y) && Related(r, y, partner(f), x);
      }
    }
    if Completes(w, added, partner) {
      forall x, f, y | x != y && Related(r, x, f, y) ensures Related(r, y, partner(f), x) {
        assert Related(w, x, f, y) || (x, f, y) in added;
      }
    }
  }

  /** Whatever names it is given, an insertion keeps the graph symmetric exactly when it completes its own edges. */
  lemma {:induction false} ApplySymmetric(w: Web, op: Op, partner: string -> string)
    requires Ok(w) && Sound(op) && Symmetric(w, partner)
    ensures Symmetric(Apply(w, op), partner) <==> Completes(w, OpEdges(w, op), partner)
    ensures Paired(op, partner) ==> Symmetric(Apply(w, op), partner)
  {
    ApplyEdges(w, op);
    SymmetricGrows(w, Apply(w, op), OpEdges(w, op), partner);
    if Paired(op, partner) { PairedCompletes(w, op, partner); }
  }

  lemma {:induction false} PairedItem(t: Key, self: string, f: string, b: string, item: string,
                                      partner: string -> string, e: Edge)
    requires partner(f) == b && partner(b) == f && e.0 != e.2 && e in ItemEdges(t, self, f, b, item)
    ensures (e.2, partner(e.1), e.0) in ItemEdges(t, self, f, b, item)
  {
  }

  lemma {:induction false} PairedEdge(listed: set<string>, t: Key, self: string, f: string, b: string,
                                      items: seq<string>, partner: string -> string, e: Edge)
    requires partner(f) == b && partner(b) == f && e.0 != e.2 && e in EdgesOf(listed, t, self, f, b, items)
    ensures (e.2, partner(e.1), e.0) in EdgesOf(listed, t, self, f, b, items)
  {
    var k := EdgeFrom(listed, t, self, f, b, items, e);
    PairedItem(t, self, f, b, items[k], partner, e);
    EdgeIn(listed, t, self, f, b, items, k, (e.2, partner(e.1), e.0));
  }

  lemma {:induction false} PairedCompletes(w: Web, op: Op, partner: string -> string)
    requires Paired(op, partner)
    ensures Completes(w, OpEdges(w, op), partner)
  {
    if op.Relate? {
      var t := KeyOf(op.name, op.context);
      var listed := ListedFor(w, t, op.fwd);
      forall x, g, y | x != y && (x, g, y) in OpEdges(w, op) ensures (y, partner(g), x) in OpEdges(w, op) {
        PairedEdge(listed, t, Classified(op.context, op.name), Lower(op.fwd), Lower(op.bwd), op.items, partner,
                   (x, g, y));
      }
    }
  }

  /** Every run of insertions with paired names keeps the graph symmetric between different topics. */
  lemma {:induction false} RunSymmetric(w: Web, ops: seq<Op>, partner: string -> string)
    requires Ok(w) && Symmetric(w, partner)
    requires forall i | 0 <= i < |ops| :: Sound(ops[i]) && Paired(ops[i], partner)
    ensures Symmetric(Run(w, ops), partner)
    decreases |ops|
  {
    if ops != [] {
      ApplySymmetric(w, ops[0], partner);
      RunSymmetric(Apply(w, ops[0]), ops[1..], partner);
    }
  }

  // ---------------------------------------------------------------- a topic related to itself

  /** An associate written in full as context::topic, in normal form. */
  predicate Canonical(item: string) {
    var (n, c) := DeClassify(Normal(item));
    Normal(item) == Classified(c, n)
  }

  /** The associate names t in another spelling than its own. */
  predicate NamesSelf(t: Key, self: string, item: string) {
    item != "" && Normal(item) != self && Named(Normal(item)) == t
  }

  predicate AnyNamesSelf(t: Key, self: string, items: seq<string>) {
    exists j | 0 <= j < |items| :: NamesSelf(t, self, items[j])
  }

  /** The operation relates t under f to an associate that names t itself in another spelling. */
  predicate RelatesSelf(op: Op, t: Key, f: string) {
    && op.Relate? && KeyOf(op.name, op.context) == t && Lower(op.fwd) == f
    && AnyNamesSelf(t, Classified(op.context, op.name), op.items)
  }

  lemma {:induction false} ItemSelfEdge(u: Key, self: string, g: string, b: string, item: string, t: Key, f: string)
    ensures (t, f, t) in ItemEdges(u, self, g, b, item) <==> u == t && g == f && NamesSelf(t, self, item)
  {
  }

  /** A self edge comes from an associate that names the topic; one that is listed has left its edge before. */
  lemma {:induction false} InsertionSelfEdge(list: seq<Assoc>, u: Key, self: string, fwd: string, b: string,
                                             items: seq<string>, t: Key, f: string)
    ensures (t, f, t) in EdgesOf(Listed(list, fwd), u, self, Lower(fwd), b, items)
            ==> u == t && Lower(fwd) == f && AnyNamesSelf(t, self, items)
    ensures u == t && Lower(fwd) == f && AnyNamesSelf(t, self, items)
            ==> HasEdge(list, f, t) || (t, f, t) in EdgesOf(Listed(list, fwd), u, self, Lower(fwd), b, items)
  {
    var listed, g := Listed(list, fwd), Lower(fwd);
    if (t, f, t) in EdgesOf(listed, u, self, g, b, items) {
      var k := EdgeFrom(listed, u, self, g, b, items, (t, f, t));
      ItemSelfEdge(u, self, g, b, items[k], t, f);
    }
    if u == t && g == f && AnyNamesSelf(t, self, items) {
      var k :| 0 <= k < |items| && NamesSelf(t, self, items[k]);
      ItemSelfEdge(t, self, f, b, items[k], t, f);
      if Normal(items[k]) in listed {
        ListedEdges(list, fwd, Normal(items[k]));
      } else {
        EdgeIn(listed, t, self, f, b, items, k, (t, f, t));
      }
    }
  }

  lemma {:induction false} OpSelfEdge(w: Web, op: Op, t: Key, f: string)
    ensures (t, f, t) in OpEdges(w, op) ==> RelatesSelf(op, t, f)
    ensures RelatesSelf(op, t, f) ==> Related(w, t, f, t) || (t, f, t) in OpEdges(w, op)
  {
    if op.Relate? {
      var u := KeyOf(op.name, op.context);
      InsertionSelfEdge(if u in w.links then w.links[u] else [], u, Classified(op.context, op.name),
                        op.fwd, Lower(op.bwd), op.items, t, f);
    }
  }

  lemma {:induction false} ApplySelfEdges(w: Web, op: Op, t: Key, f: string)
    requires Ok(w) && Sound(op)
    ensures Related(Apply(w, op), t, f, t) <==> Related(w, t, f, t) || RelatesSelf(op, t, f)
  {
    ApplyEdges(w, op);
    OpSelfEdge(w, op, t, f);
  }

  predicate AnyRelatesSelf(ops: seq<Op>, t: Key, f: string) {
    exists i | 0 <= i < |ops| :: RelatesSelf(ops[i], t, f)
  }

  lemma {:induction false} FirstOrLater(ops: seq<Op>, t: Key, f: string)
    requires ops != []
    ensures AnyRelatesSelf(ops, t, f) <==> RelatesSelf(ops[0], t, f) || AnyRelatesSelf(ops[1..], t, f)
  {
    var rest := ops[1..];
    if AnyRelatesSelf(rest, t, f) {
      var i :| 0 <= i < |rest| && RelatesSelf(rest[i], t, f);
      assert ops[i + 1] == rest[i];
    }
    if AnyRelatesSelf(ops, t, f) {
      var i :| 0 <= i < |ops| && RelatesSelf(ops[i], t, f);
      assert i > 0 ==> rest[i - 1] == ops[i];
    }
  }

  /** Over any run, a topic becomes related to itself exactly by an associate of its own in another spelling. */
  lemma {:induction false} SelfEdges(w: Web, ops: seq<Op>, t: Key, f: string)
    requires Ok(w) && forall i | 0 <= i < |ops| :: Sound(ops[i])
    ensures Related(Run(w, ops), t, f, t) <==> Related(w, t, f, t) || AnyRelatesSelf(ops, t, f)
    decreases |ops|
  {
    if ops != [] {
      ApplySelfEdges(w, ops[0], t, f);
      SelfEdges(Apply(w, ops[0]), ops[1..], t, f);
      FirstOrLater(ops, t, f);
    }
  }

  ghost predicate Irreflexive(w: Web) {
    forall t, f :: !Related(w, t, f, t)
  }

  lemma {:induction false} CanonicalItem(name: string, context: string, item: string)
    requires WellFormed(name, context) && Canonical(item)
    ensures !NamesSelf(KeyOf(name, context), Classified(context, name), item)
  {
    if Named(Normal(item)) == KeyOf(name, context) {
      CallsIntro(name, context);
      ClassifiedNormal(context, name);
      SelfNamed(KeyOf(name, context), Classified(context, name), Normal(item));
    }
  }

  lemma {:induction false} CanonicalOp(op: Op, t: Key, f: string)
    requires Sound(op) && (op.Relate? ==> forall j | 0 <= j < |op.items| :: Canonical(op.items[j]))
    ensures !RelatesSelf(op, t, f)
  {
    if op.Relate? {
      forall j | 0 <= j < |op.items|
        ensures !NamesSelf(KeyOf(op.name, op.context), Classified(op.context, op.name), op.items[j])
      {
        CanonicalItem(op.name, op.context, op.items[j]);
      }
    }
  }

  /**
   With canonical associates no topic is ever related to itself, so the graph
   is symmetric without exception: u is an associate of t under f if and only
   if t is one of u under f's partner.
   */
  lemma {:induction false} CanonicalRuns(w: Web, ops: seq<Op>, partner: string -> string)
    requires Ok(w) && Symmetric(w, partner) && Irreflexive(w)
    requires forall i | 0 <= i < |ops| :: Sound(ops[i]) && Paired(ops[i], partner)
    requires forall i | 0 <= i < |ops| && ops[i].Relate? ::
               forall j | 0 <= j < |ops[i].items| :: Canonical(ops[i].items[j])
    ensures Irreflexive(Run(w, ops)) && Symmetric(Run(w, ops), partner)
    ensures forall t, f, u | partner(partner(f)) == f ::
              Related(Run(w, ops), t, f, u) <==> Related(Run(w, ops), u, partner(f), t)
  {
    var r := Run(w, ops);
    RunSymmetric(w, ops, partner);
    forall t, f ensures !Related(r, t, f, t) {
      SelfEdges(w, ops, t, f);
      forall i | 0 <= i < |ops| ensures !RelatesSelf(ops[i], t, f) {
        CanonicalOp(ops[i], t, f);
      }
    }
    EitherWay(r, partner);
  }

  lemma {:induction false} EitherWay(w: Web, partner: string -> string)
    requires Symmetric(w, partner) && Irreflexive(w)
    ensures forall t, f, u | partner(partner(f)) == f :: Related(w, t, f, u) <==> Related(w, u, partner(f), t)
  {
  }

  // ---------------------------------------------------------------- inputs that break the symmetry

  lemma {:induction false} BareName()
    ensures KeyOf("t", "any") == Key("t", "any") && Classified("any", "t") == "any::t"
    ensures Normal("t") == "t" && Named("t") == Key("t", "any") && WellFormed("t", "any")
    ensures Lower("f") == "f" && Lower("b") == "b"
  {
    assert Lower("t") == "t" && Lower("any") == "any";
    assert !HasSpecial("t") && !HasSpecial("any");
    assert !Contains("t", "::");
  }

  /** The self edge such an associate adds has no inverse under a different backward name. */
  lemma {:induction false} SelfReference(w: Web, t: Key, self: string, fwd: string, bwd: string, item: string)
    requires Ok(w) && t in w.ids && Calls(t, self) && NamesSelf(t, self, item)
    requires Lower(fwd) != Lower(bwd) && !Related(w, t, Lower(bwd), t)
    ensures var r := Associate(w, t, self, fwd, bwd, [item]);
      Related(r, t, Lower(fwd), t) && !Related(r, t, Lower(bwd), t)
  {
    AssociateEdges(w, t, self, fwd, bwd, [item]);
    assert [item][0] == item;
    InsertionSelfEdge(w.links[t], t, self, fwd, Lower(bwd), [item], t, Lower(fwd));
    InsertionSelfEdge(w.links[t], t, self, fwd, Lower(bwd), [item], t, Lower(bwd));
  }

  /** A topic named by its bare name among its own associates: an edge to itself and no inverse. */
  lemma {:induction false} BareSelfReference()
    ensures var t := Key("t", "any");
      var w := Insert(EMPTY, t);
      && Ok(w) && t in w.ids
      && var r := Associate(w, t, "any::t", "f", "b", ["t"]);
         Related(r, t, "f", t) && !Related(r, t, "b", t)
  {
    var t := Key("t", "any");
    BareName();
    InsertOk(EMPTY, t);
    CallsIntro("t", "any");
    NothingRelated(Insert(EMPTY, t), t);
    SelfReference(Insert(EMPTY, t), t, "any::t", "f", "b", "t");
  }

  lemma {:induction false} NothingRelated(w: Web, t: Key)
    requires w == Insert(EMPTY, t)
    ensures forall x, f, y :: !Related(w, x, f, y)
  {
  }

  lemma {:induction false} OneItem(t: Key, self: string, f: string, b: string, item: string)
    ensures EdgesOf({}, t, self, f, b, [item]) == ItemEdges(t, self, f, b, item)
  {
    assert [item][0] == item;
    forall e | e in ItemEdges(t, self, f, b, item) {
      EdgeIn({}, t, self, f, b, [item], 0, e);
    }
  }

  /** The edges after relating two topics in an empty map. */
  lemma {:induction false} OneEdge(r: Web, t: Key, f: string, u: Key, b: string, c: string)
    requires AddsExactly(EMPTY, r, {(t, f, u), (u, b, t)}) && t != u && c != b
    ensures Related(r, t, f, u) && Related(r, u, b, t) && !Related(r, u, c, t)
  {
  }

  /** An associate is entered and then entered again with another backward name: that name is never used. */
  lemma {:induction false} SecondBackwardName(op: Op, item: string, bwd: string)
    requires op.Relate? && Sound(op) && op.items == [item] && op.fwd != ""
    requires Asks(KeyOf(op.name, op.context), Classified(op.context, op.name), item) && Lower(bwd) != Lower(op.bwd)
    ensures var t, u := KeyOf(op.name, op.context), Named(Normal(item));
      var r := Run(EMPTY, [op, op.(bwd := bwd)]);
      Related(r, t, Lower(op.fwd), u) && Related(r, u, Lower(op.bwd), t) && !Related(r, u, Lower(bwd), t)
  {
    var t, u, self := KeyOf(op.name, op.context), Named(Normal(item)), Classified(op.context, op.name);
    ApplyEdges(EMPTY, op);
    OneItem(t, self, Lower(op.fwd), Lower(op.bwd), item);
    OneEdge(Apply(EMPTY, op), t, Lower(op.fwd), u, Lower(op.bwd), Lower(bwd));
    RelatedAgain(EMPTY, op, bwd);
    RunTwo(EMPTY, op, op.(bwd := bwd));
  }

  lemma {:induction false} RunTwo(w: Web, a: Op, b: Op)
    requires Ok(w)
    ensures Run(w, [a, b]) == Apply(Apply(w, a), b)
  {
    assert [a, b][1..] == [b] && [b][1..] == [];
    assert Run(Apply(w, a), [b]) == Run(Apply(Apply(w, a), b), []);
  }

  lemma {:induction false} OtherName()
    ensures Normal("u") == "u" && Named("u") == Key("u", "any") && Lower("c") == "c"
  {
    assert Lower("u") == "u" && !HasSpecial("u") && !Contains("u", "::");
    assert Lower("any") == "any" && !HasSpecial("any");
  }

  /** t is related to u by f/b and then by f/c: u is related back to t by b, and never by c. */
  lemma {:induction false} NeverRelatedBack()
    ensures var t, u := Key("t", "any"), Key("u", "any");
      var r := Run(EMPTY, [Relate("t", "any", "f", "b", ["u"]), Relate("t", "any", "f", "c", ["u"])]);
      Related(r, t, "f", u) && Related(r, u, "b", t) && !Related(r, u, "c", t)
  {
    BareName();
    OtherName();
    SecondBackwardName(Relate("t", "any", "f", "b", ["u"]), "u", "c");
  }
}
