/**
 How evaluating a script builds a query: every builtin call makes a table object with
 a fresh identifier and links to its parents, and `ToSpec` flattens the tables into
 a `Spec`.
 */
module QueryCompile {
  import opened Sequences
  import opened QuerySpec

  /** A table object; its operation spec is reduced to its kind. */
  datatype TableObject = TableObject(id: OperationID, kind: string, parents: seq<TableObject>)

  function OperationOf(t: TableObject): Operation {
    Operation(t.id, t.kind)
  }

  function OperationsOf(ts: seq<TableObject>): (ops: seq<Operation>)
    ensures |ops| == |ts| && forall i | 0 <= i < |ts| :: ops[i] == OperationOf(ts[i])
  {
    seq(|ts|, i requires 0 <= i < |ts| => OperationOf(ts[i]))
  }

  // ----- buildSpec -----

  /** The state `buildSpec` works on: the tables listed so far, standing for the
      operations of the spec, its edges, and the visited identifiers. */
  datatype Building = Building(tables: seq<TableObject>, edges: seq<Edge>, visited: set<OperationID>)

  const EMPTY := Building([], [], {})

  function Build(t: TableObject, b: Building): Building
    decreases t, 1
  {
    var b' := BuildParents(t.parents, t.id, b);
    Building(b'.tables + [t], b'.edges, b'.visited + {t.id})
  }

  function BuildParents(ps: seq<TableObject>, child: OperationID, b: Building): Building
    decreases ps, 0
  {
    if ps == [] then b else
    var b' := if ps[0].id in b.visited then b else Build(ps[0], b);
    BuildParents(ps[1..], child, b'.(edges := b'.edges + [Edge(ps[0].id, child)]))
  }

  class SpecBuilder {
    var operations: seq<Operation>
    var edges: seq<Edge>
    var visited: set<OperationID>
    ghost var tables: seq<TableObject>

    ghost predicate Valid()
      reads this
    {
      operations == OperationsOf(tables)
    }

    ghost function State(): Building
      reads this
    {
      Building(tables, edges, visited)
    }

    constructor ()
      ensures Valid() && State() == EMPTY
    {
      operations, edges, visited, tables := [], [], {}, [];
    }

    /** `TableObject.buildSpec`. */
    method BuildSpec(t: TableObject)
      requires Valid()
      modifies this
      ensures Valid() && State() == Build(t, old(State()))
      decreases t
    {
      for i := 0 to |t.parents|
        invariant Valid()
        invariant BuildParents(t.parents[i..], t.id, State()) == BuildParents(t.parents, t.id, old(State()))
      {
        var p := t.parents[i];
        assert t.parents[i..][1..] == t.parents[i + 1..];
        if p.id !in visited {
          BuildSpec(p);
        }
        edges := edges + [Edge(p.id, t.id)];
      }
      visited := visited + {t.id};
      operations, tables := operations + [OperationOf(t)], tables + [t];
    }
  }

  // ----- what it lists -----

  function Size(t: TableObject): nat
    decreases t, 1
  {
    1 + SizeAll(t.parents)
  }

  function SizeAll(ts: seq<TableObject>): nat
    decreases ts, 0
  {
    if ts == [] then 0 else Size(ts[0]) + SizeAll(ts[1..])
  }

  lemma {:induction false} ParentIsSmaller(ps: seq<TableObject>, i: nat)
    requires i < |ps|
    ensures Size(ps[i]) <= SizeAll(ps)
  {
    if i > 0 { ParentIsSmaller(ps[1..], i - 1); }
  }

  /** The edges from `ps` to one child. */
  function EdgesTo(ps: seq<TableObject>, child: OperationID): seq<Edge> {
    if ps == [] then [] else [Edge(ps[0].id, child)] + EdgesTo(ps[1..], child)
  }

  /** One edge for every link from a listed table to one of its parents. */
  function Links(ts: seq<TableObject>): seq<Edge> {
    if ts == [] then [] else EdgesTo(ts[0].parents, ts[0].id) + Links(ts[1..])
  }

  lemma {:induction false} LinksAppend(a: seq<TableObject>, b: seq<TableObject>)
    ensures Links(a + b) == Links(a) + Links(b)
  {
    if a == [] {
      assert a + b == b;
    } else {
      LinksAppend(a[1..], b);
      assert (a + b)[0] == a[0] && (a + b)[1..] == a[1..] + b;
      Associates(EdgesTo(a[0].parents, a[0].id), Links(a[1..]), Links(b));
    }
  }

  lemma LinksOne(t: TableObject)
    ensures Links([t]) == EdgesTo(t.parents, t.id)
  {
    assert [t][1..] == [];
  }

  lemma LinksLast(ts: seq<TableObject>, t: TableObject)
    ensures Links(ts + [t]) == Links(ts) + EdgesTo(t.parents, t.id)
  {
    LinksAppend(ts, [t]);
    LinksOne(t);
  }

  /** `u` is `t` or one of its ancestors. */
  predicate Under(u: TableObject, t: TableObject)
    decreases t
  {
    u == t || exists i | 0 <= i < |t.parents| :: Under(u, t.parents[i])
  }

  function TableIDs(ts: seq<TableObject>): set<OperationID> {
    set t | t in ts :: t.id
  }

  /** A world of tables: closed under parents, with one table to an identifier. */
  predicate World(w: set<TableObject>) {
    && (forall t, p | t in w && p in t.parents :: p in w)
    && (forall t, u | t in w && u in w && t.id == u.id :: t == u)
  }

  /** The tables listed so far are distinct tables of the world, each after its
      parents, and exactly they are visited. */
  predicate Listed(w: set<TableObject>, b: Building) {
    && (forall t | t in b.tables :: t in w)
    && b.visited == TableIDs(b.tables)
    && (forall i, j | 0 <= i < j < |b.tables| :: b.tables[i] != b.tables[j])
    && (forall i, p | 0 <= i < |b.tables| && p in b.tables[i].parents :: p in b.tables[..i])
  }

  /** `b'` continues `b` with ancestors of tables in `ps`, at most `size` large. */
  predicate Continues(b: Building, b': Building, ps: seq<TableObject>, size: nat) {
    && |b.tables| <= |b'.tables| && b'.tables[..|b.tables|] == b.tables
    && forall u | u in b'.tables[|b.tables|..] :: Size(u) <= size && exists p | p in ps :: Under(u, p)
  }

  /** Conservation of links: between `b` and `b'` exactly the links of the newly listed
      tables, and `extra`, have been added. */
  predicate AddsLinks(b: Building, b': Building, extra: seq<Edge>)
    requires |b.tables| <= |b'.tables|
  {
    multiset(b'.edges) == multiset(b.edges + Links(b'.tables[|b.tables|..]) + extra)
  }

  lemma {:induction false} BuildLists(w: set<TableObject>, t: TableObject, b: Building)
    requires World(w) && t in w && Listed(w, b) && t.id !in b.visited
    ensures var b' := Build(t, b);
            && Listed(w, b') && Continues(b, b', [t], Size(t))
            && t.id in b'.visited && AddsLinks(b, b', [])
    decreases t, 1
  {
    var b1 := BuildParents(t.parents, t.id, b);
    BuildParentsLists(w, t.parents, t.id, b);
    StillUnlisted(t, b, b1);
    ListedAppend(w, t, b1);
    ContinuesWith(b, b1, t);
    LinksWith(b, b1, t);
  }

  /** A table is larger than its ancestors, so listing them does not list it. */
  lemma StillUnlisted(t: TableObject, b: Building, b1: Building)
    requires Continues(b, b1, t.parents, SizeAll(t.parents)) && t !in b.tables
    ensures t !in b1.tables
  {
    assert b1.tables == b1.tables[..|b.tables|] + b1.tables[|b.tables|..];
  }

  lemma ContinuesWith(b: Building, b1: Building, t: TableObject)
    requires Continues(b, b1, t.parents, SizeAll(t.parents))
    ensures Continues(b, Building(b1.tables + [t], b1.edges, b1.visited + {t.id}), [t], Size(t))
  {
    var ts := b1.tables + [t];
    forall u | u in ts[|b.tables|..] ensures Size(u) <= Size(t) && exists p | p in [t] :: Under(u, p) {
      assert ts[|b.tables|..] == b1.tables[|b.tables|..] + [t];
      if u in b1.tables[|b.tables|..] {
        var p :| p in t.parents && Under(u, p);
        var i :| 0 <= i < |t.parents| && t.parents[i] == p;
      }
      assert t in [t] && Under(u, t);
    }
    assert ts[..|b.tables|] == b1.tables[..|b.tables|];
  }

  lemma LinksWith(b: Building, b1: Building, t: TableObject)
    requires |b.tables| <= |b1.tables| && AddsLinks(b, b1, EdgesTo(t.parents, t.id))
    ensures AddsLinks(b, Building(b1.tables + [t], b1.edges, b1.visited + {t.id}), [])
  {
    var news1 := b1.tables[|b.tables|..];
    assert (b1.tables + [t])[|b.tables|..] == news1 + [t];
    LinksLast(news1, t);
    Associates(b.edges, Links(news1), EdgesTo(t.parents, t.id));
    NothingAdded(b.edges + Links(news1 + [t]));
  }

  lemma ListedAppend(w: set<TableObject>, t: TableObject, b: Building)
    requires World(w) && t in w && Listed(w, b) && t !in b.tables
    requires forall p | p in t.parents :: p in b.tables
    ensures Listed(w, Building(b.tables + [t], b.edges, b.visited + {t.id}))
  {
    var ts := b.tables + [t];
    forall i, p | 0 <= i < |ts| && p in ts[i].parents ensures p in ts[..i] {
      if i < |b.tables| { assert ts[..i] == b.tables[..i]; } else { assert ts[..i] == b.tables; }
    }
    assert TableIDs(ts) == TableIDs(b.tables) + {t.id};
  }

  lemma {:induction false} BuildParentsLists(w: set<TableObject>, ps: seq<TableObject>, child: OperationID, b: Building)
    requires World(w) && Listed(w, b) && forall p | p in ps :: p in w
    ensures var b' := BuildParents(ps, child, b);
            && Listed(w, b') && Continues(b, b', ps, SizeAll(ps))
            && (forall p | p in ps :: p in b'.tables)
            && AddsLinks(b, b', EdgesTo(ps, child))
    decreases ps, 0
  {
    if ps == [] {
      assert b.tables[|b.tables|..] == [];
    } else {
      var b1 := if ps[0].id in b.visited then b else Build(ps[0], b);
      OneParentLists(w, ps[0], b);
      var b2 := b1.(edges := b1.edges + [Edge(ps[0].id, child)]);
      BuildParentsLists(w, ps[1..], child, b2);
      var b3 := BuildParents(ps[1..], child, b2);
      ContinuesTwice(b, b2, b3, ps);
      LinksTwice(b, b1, b2, b3, ps, child);
      ListedStays(b2, b3, ps[0]);
    }
  }

  lemma {:induction false} OneParentLists(w: set<TableObject>, p: TableObject, b: Building)
    requires World(w) && Listed(w, b) && p in w
    ensures var b' := if p.id in b.visited then b else Build(p, b);
            && Listed(w, b') && Continues(b, b', [p], Size(p)) && p in b'.tables && AddsLinks(b, b', [])
    decreases p, 2
  {
    if p.id in b.visited {
      assert b.tables[|b.tables|..] == [];
      assert b.edges + Links([]) + [] == b.edges;
      VisitedIsListed(w, b, p);
    } else {
      BuildLists(w, p, b);
      VisitedIsListed(w, Build(p, b), p);
    }
  }

  lemma VisitedIsListed(w: set<TableObject>, b: Building, p: TableObject)
    requires World(w) && Listed(w, b) && p in w && p.id in b.visited
    ensures p in b.tables
  {
    var q :| q in b.tables && q.id == p.id;
  }

  lemma ListedStays(b: Building, b': Building, p: TableObject)
    requires |b.tables| <= |b'.tables| && b'.tables[..|b.tables|] == b.tables && p in b.tables
    ensures p in b'.tables
  {
    var i :| 0 <= i < |b.tables| && b.tables[i] == p;
    assert b'.tables[..|b.tables|][i] == p;
  }

  lemma ContinuesTwice(b: Building, b2: Building, b3: Building, ps: seq<TableObject>)
    requires ps != []
    requires Continues(b, b2, [ps[0]], Size(ps[0]))
    requires Continues(b2, b3, ps[1..], SizeAll(ps[1..]))
    ensures Continues(b, b3, ps, SizeAll(ps))
  {
    forall u | u in b3.tables[|b.tables|..] ensures Size(u) <= SizeAll(ps) && exists p | p in ps :: Under(u, p) {
      var i :| |b.tables| <= i < |b3.tables| && b3.tables[i] == u;
      if i < |b2.tables| {
        assert u == b2.tables[..|b2.tables|][i] == b3.tables[..|b2.tables|][i];
        assert u in b2.tables[|b.tables|..];
        var p :| p in [ps[0]] && Under(u, p);
        assert p in ps;
      } else {
        assert u in b3.tables[|b2.tables|..];
        var p :| p in ps[1..] && Under(u, p);
        assert p in ps;
      }
    }
    assert b3.tables[..|b.tables|] == b3.tables[..|b2.tables|][..|b.tables|];
  }

  lemma LinksTwice(b: Building, b1: Building, b2: Building, b3: Building, ps: seq<TableObject>, child: OperationID)
    requires ps != []
    requires |b.tables| <= |b1.tables| <= |b3.tables| && b1.tables == b2.tables == b3.tables[..|b2.tables|]
    requires AddsLinks(b, b1, []) && b2.edges == b1.edges + [Edge(ps[0].id, child)]
    requires AddsLinks(b2, b3, EdgesTo(ps[1..], child))
    ensures AddsLinks(b, b3, EdgesTo(ps, child))
  {
    var news1, rest := b1.tables[|b.tables|..], b3.tables[|b2.tables|..];
    TailSplits(b3.tables, |b.tables|, |b2.tables|);
    LinksAppend(news1, rest);
    LinksReorder(b.edges, Links(news1), b1.edges, [Edge(ps[0].id, child)], Links(rest), EdgesTo(ps[1..], child));
  }

  lemma TailSplits(ts: seq<TableObject>, i: nat, j: nat)
    requires i <= j <= |ts|
    ensures ts[i..] == ts[..j][i..] + ts[j..]
  {
  }

  lemma LinksReorder(e0: seq<Edge>, l1: seq<Edge>, e1: seq<Edge>, e: seq<Edge>, rest: seq<Edge>, x: seq<Edge>)
    requires multiset(e1) == multiset(e0 + l1 + [])
    ensures multiset((e1 + e) + rest + x) == multiset(e0 + (l1 + rest) + (e + x))
  {
    assert e0 + l1 + [] == e0 + l1;
    var m0, ml, me, mr, mx := multiset(e0), multiset(l1), multiset(e), multiset(rest), multiset(x);
    assert multiset((e1 + e) + rest + x) == m0 + ml + me + mr + mx;
    assert multiset(e0 + (l1 + rest) + (e + x)) == m0 + (ml + mr) + (me + mx);
  }

  /** `TableObject.ToSpec` lists exactly the table and its ancestors, each once and
      after its parents, and one edge for every link. */
  lemma TableToSpec(w: set<TableObject>, t: TableObject)
    requires World(w) && t in w
    ensures var b := Build(t, EMPTY);
            && Listed(w, b) && (forall u :: u in b.tables <==> Under(u, t))
            && multiset(b.edges) == multiset(Links(b.tables))
  {
    var b := Build(t, EMPTY);
    BuildLists(w, t, EMPTY);
    VisitedIsListed(w, b, t);
    assert b.tables[0..] == b.tables && [] + Links(b.tables) + [] == Links(b.tables);
    forall u ensures u in b.tables <==> Under(u, t) {
      if u in b.tables { assert exists p | p in [t] :: Under(u, p); }
      if Under(u, t) { AncestorsAreListed(w, b, u, t); }
    }
  }

  lemma {:induction false} AncestorsAreListed(w: set<TableObject>, b: Building, u: TableObject, t: TableObject)
    requires Listed(w, b) && t in b.tables && Under(u, t)
    ensures u in b.tables
    decreases t
  {
    if u != t {
      var k :| 0 <= k < |t.parents| && Under(u, t.parents[k]);
      var i :| 0 <= i < |b.tables| && b.tables[i] == t;
      assert t.parents[k] in b.tables[..i];
      AncestorsAreListed(w, b, u, t.parents[k]);
    }
  }

  // ----- such specs are valid -----

  /** An edge of `Links` leads from a parent to its table. */
  lemma {:induction false} LinkSource(ts: seq<TableObject>, e: Edge) returns (i: nat, k: nat)
    requires e in Links(ts)
    ensures i < |ts| && k < |ts[i].parents| && e == Edge(ts[i].parents[k].id, ts[i].id)
  {
    if e in EdgesTo(ts[0].parents, ts[0].id) {
      i := 0;
      k := EdgeSource(ts[0].parents, ts[0].id, e);
    } else {
      i, k := LinkSource(ts[1..], e);
      i := i + 1;
    }
  }

  lemma {:induction false} EdgeSource(ps: seq<TableObject>, child: OperationID, e: Edge) returns (k: nat)
    requires e in EdgesTo(ps, child)
    ensures k < |ps| && e == Edge(ps[k].id, child)
  {
    if e == Edge(ps[0].id, child) {
      k := 0;
    } else {
      k := EdgeSource(ps[1..], child, e);
      k := k + 1;
    }
  }

  /** A listing with one edge for every link is an acyclic spec that `prepare` accepts,
      and in which every edge goes forward. */
  lemma ListedIsAccepted(w: set<TableObject>, b: Building)
    requires World(w) && Listed(w, b) && multiset(b.edges) == multiset(Links(b.tables))
    ensures var ops := OperationsOf(b.tables);
            && UniqueIDs(ops) && KnownEdges(ops, b.edges) && EdgesForward(b.edges, ops) && Acyclic(b.edges)
            && (b.tables != [] ==> Accepts(ops, b.edges))
  {
    var ops := OperationsOf(b.tables);
    ListedIDsAreUnique(w, b);
    forall e | e in b.edges ensures exists i, j | 0 <= i < j < |ops| :: e == Edge(ops[i].id, ops[j].id) {
      var _, _ := EdgeGoesForward(w, b, e);
    }
    forall i, e | 0 <= i < |ops| && e in b.edges && e.parent == ops[i].id
      ensures exists j :: i < j < |ops| && ops[j].id == e.child
    {
      var i', j := EdgeGoesForward(w, b, e);
    }
    ForwardIsAcyclic(b.edges, ops);
    if b.tables != [] { AcyclicIsAccepted(ops, b.edges); }
  }

  lemma ListedIDsAreUnique(w: set<TableObject>, b: Building)
    requires World(w) && Listed(w, b)
    ensures UniqueIDs(OperationsOf(b.tables))
  {
    forall i, j | 0 <= i < j < |b.tables| ensures b.tables[i].id != b.tables[j].id {
      assert b.tables[i] in w && b.tables[j] in w;
    }
  }

  lemma EdgeGoesForward(w: set<TableObject>, b: Building, e: Edge) returns (i: nat, j: nat)
    requires Listed(w, b) && multiset(b.edges) == multiset(Links(b.tables)) && e in b.edges
    ensures i < j < |b.tables| && e == Edge(OperationsOf(b.tables)[i].id, OperationsOf(b.tables)[j].id)
  {
    assert e in multiset(b.edges);
    var k;
    j, k := LinkSource(b.tables, e);
    assert b.tables[j].parents[k] in b.tables[..j];
    i :| 0 <= i < j && b.tables[i] == b.tables[j].parents[k];
  }

  /** No table has two parents with the same identifier. */
  predicate DistinctParents(ts: seq<TableObject>) {
    forall t | t in ts :: DistinctIDs(t.parents)
  }

  predicate DistinctIDs(ts: seq<TableObject>) {
    forall i, j | 0 <= i < j < |ts| :: ts[i].id != ts[j].id
  }

  /** Then no link gives rise to two edges. */
  lemma {:induction false} LinksAreDistinct(ts: seq<TableObject>, e: Edge)
    requires DistinctIDs(ts) && DistinctParents(ts)
    ensures multiset(Links(ts))[e] == if e in Links(ts) then 1 else 0
  {
    if ts != [] {
      LinksAreDistinct(ts[1..], e);
      EdgesToAreDistinct(ts[0].parents, ts[0].id, e);
      assert ts[0] in ts;
      if e in Links(ts[1..]) && e in EdgesTo(ts[0].parents, ts[0].id) {
        var _, _ := LinkSource(ts[1..], e);
        var _ := EdgeSource(ts[0].parents, ts[0].id, e);
      }
    }
  }

  lemma {:induction false} EdgesToAreDistinct(ps: seq<TableObject>, child: OperationID, e: Edge)
    requires DistinctIDs(ps)
    ensures multiset(EdgesTo(ps, child))[e] == if e in EdgesTo(ps, child) then 1 else 0
  {
    if ps != [] {
      EdgesToAreDistinct(ps[1..], child, e);
      if e in EdgesTo(ps[1..], child) && e == Edge(ps[0].id, child) {
        var _ := EdgeSource(ps[1..], child, e);
      }
    }
  }
}
