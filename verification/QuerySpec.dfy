/**
 `query.Spec`: a query as a graph of operations, and the depth-first topological sort
 that validates it.
 */
module QuerySpec {
  import opened Options

  type OperationID = string

  datatype Operation = Operation(id: OperationID, kind: string)

  datatype Edge = Edge(parent: OperationID, child: OperationID)

  datatype Error = DuplicateID | UnknownChild | UnknownParent | NoRoots | FoundCycle

  datatype Result = Ok | Fail(error: Error)

  // ----- the graph -----

  predicate UniqueIDs(ops: seq<Operation>) {
    forall i, j | 0 <= i < j < |ops| :: ops[i].id != ops[j].id
  }

  predicate Known(ops: seq<Operation>, id: OperationID) {
    exists i | 0 <= i < |ops| :: ops[i].id == id
  }

  predicate KnownEdges(ops: seq<Operation>, edges: seq<Edge>) {
    forall e | e in edges :: Known(ops, e.child) && Known(ops, e.parent)
  }

  predicate IsRoot(edges: seq<Edge>, id: OperationID) {
    forall e | e in edges :: e.child != id
  }

  predicate HasRoot(ops: seq<Operation>, edges: seq<Edge>) {
    exists o | o in ops :: IsRoot(edges, o.id)
  }

  /** The error for an edge with an unknown end: the child is looked up first. */
  predicate BadEdge(ops: seq<Operation>, e: Edge, error: Error) {
    if Known(ops, e.child) then !Known(ops, e.parent) && error == UnknownParent else error == UnknownChild
  }

  /** The error is that of the first edge with an unknown end. */
  predicate FirstBadEdge(ops: seq<Operation>, edges: seq<Edge>, error: Error) {
    exists k | 0 <= k < |edges| :: KnownEdges(ops, edges[..k]) && BadEdge(ops, edges[k], error)
  }

  /** The error of a spec that is not accepted. */
  predicate Rejected(ops: seq<Operation>, edges: seq<Edge>, error: Error) {
    if !UniqueIDs(ops) then error == DuplicateID
    else if !KnownEdges(ops, edges) then FirstBadEdge(ops, edges, error)
    else if !HasRoot(ops, edges) then error == NoRoots
    else error == FoundCycle
  }

  /** A spec has one error. */
  lemma RejectedOnce(ops: seq<Operation>, edges: seq<Edge>, error: Error, other: Error)
    requires Rejected(ops, edges, error) && Rejected(ops, edges, other)
    ensures error == other
  {
    if UniqueIDs(ops) && !KnownEdges(ops, edges) {
      var i :| 0 <= i < |edges| && KnownEdges(ops, edges[..i]) && BadEdge(ops, edges[i], error);
      var j :| 0 <= j < |edges| && KnownEdges(ops, edges[..j]) && BadEdge(ops, edges[j], other);
      assert i < j ==> edges[i] in edges[..j];
      assert j < i ==> edges[j] in edges[..i];
    }
  }

  /** A non-empty walk along edges. */
  predicate Path(edges: seq<Edge>, p: seq<OperationID>) {
    |p| > 0 && forall i | 0 <= i < |p| - 1 :: Edge(p[i], p[i + 1]) in edges
  }

  predicate Repeats(p: seq<OperationID>) {
    exists i, j | 0 <= i < j < |p| :: p[i] == p[j]
  }

  ghost predicate Reaches(edges: seq<Edge>, a: OperationID, b: OperationID) {
    exists p :: Path(edges, p) && p[0] == a && p[|p| - 1] == b
  }

  /** A walk from `a` that runs into itself: a cycle that `a` reaches. */
  ghost predicate ReachesCycle(edges: seq<Edge>, a: OperationID) {
    exists p :: Path(edges, p) && p[0] == a && Repeats(p)
  }

  ghost predicate Acyclic(edges: seq<Edge>) {
    forall p | Path(edges, p) :: !Repeats(p)
  }

  /** What `prepare` accepts. */
  ghost predicate Accepts(ops: seq<Operation>, edges: seq<Edge>) {
    && UniqueIDs(ops) && KnownEdges(ops, edges) && HasRoot(ops, edges)
    && forall o | o in ops && IsRoot(edges, o.id) :: !ReachesCycle(edges, o.id)
  }

  ghost predicate FromRoot(ops: seq<Operation>, edges: seq<Edge>, id: OperationID) {
    exists r :: r in ops && IsRoot(edges, r.id) && Reaches(edges, r.id, id)
  }

  predicate Distinct(ops: seq<Operation>) {
    forall i, j | 0 <= i < j < |ops| :: ops[i] != ops[j]
  }

  /** Every edge that leaves a listed operation leads to one listed later. */
  predicate EdgesForward(edges: seq<Edge>, sorted: seq<Operation>) {
    forall i, e | 0 <= i < |sorted| && e in edges && e.parent == sorted[i].id ::
      exists j :: i < j < |sorted| && sorted[j].id == e.child
  }

  /** The order `prepare` computes: the operations reachable from roots, each once, and
      every operation before its children. */
  ghost predicate TopologicalOrder(ops: seq<Operation>, edges: seq<Edge>, sorted: seq<Operation>) {
    && Distinct(sorted) && EdgesForward(edges, sorted)
    && (forall o | o in sorted :: o in ops && FromRoot(ops, edges, o.id))
    && (forall o | o in ops && FromRoot(ops, edges, o.id) :: o in sorted)
  }

  /** What the documentation of `Walk` promises: every operation comes after all of its parents. */
  predicate ParentsFirst(edges: seq<Edge>, sorted: seq<Operation>) {
    forall i, e | 0 <= i < |sorted| && e in edges && e.child == sorted[i].id ::
      exists j :: 0 <= j < i && sorted[j].id == e.parent
  }

  /** Every edge that leaves a listed operation leads to one listed earlier. */
  predicate EdgesBackward(edges: seq<Edge>, sorted: seq<Operation>) {
    forall i, e | 0 <= i < |sorted| && e in edges && e.parent == sorted[i].id ::
      exists j :: 0 <= j < i && sorted[j].id == e.child
  }

  /** What a failed `prepare` leaves in the list: some operations, children first. */
  ghost predicate Stale(ops: seq<Operation>, edges: seq<Edge>, sorted: seq<Operation>) {
    Distinct(sorted) && EdgesBackward(edges, sorted) && forall o | o in sorted :: o in ops
  }

  /** The operations without parents, in the order of the spec. */
  function RootsOf(ops: seq<Operation>, edges: seq<Edge>): seq<Operation> {
    if ops == [] then [] else
    var n := |ops| - 1;
    RootsOf(ops[..n], edges) + if IsRoot(edges, ops[n].id) then [ops[n]] else []
  }

  lemma {:induction false} RootsOfIff(ops: seq<Operation>, edges: seq<Edge>, o: Operation)
    ensures o in RootsOf(ops, edges) <==> o in ops && IsRoot(edges, o.id)
  {
    if ops != [] {
      var n := |ops| - 1;
      RootsOfIff(ops[..n], edges, o);
      assert ops == ops[..n] + [ops[n]];
    }
  }

  // ----- chains of first children -----

  /** The child that the first edge out of an operation leads to. */
  function FirstChild(edges: seq<Edge>, id: OperationID): Option<OperationID> {
    if edges == [] then None
    else if edges[0].parent == id then Some(edges[0].child)
    else FirstChild(edges[1..], id)
  }

  lemma {:induction false} FirstChildLast(edges: seq<Edge>, e: Edge, id: OperationID)
    ensures FirstChild(edges + [e], id) ==
              if FirstChild(edges, id).Some? then FirstChild(edges, id)
              else if e.parent == id then Some(e.child) else None
  {
    if edges == [] {
      assert [] + [e] == [e] && [e][1..] == [];
    } else {
      assert (edges + [e])[1..] == edges[1..] + [e];
      FirstChildLast(edges[1..], e, id);
    }
  }

  lemma {:induction false} FirstChildIff(edges: seq<Edge>, id: OperationID)
    ensures FirstChild(edges, id).Some? ==> Edge(id, FirstChild(edges, id).value) in edges
    ensures FirstChild(edges, id).None? ==> forall e | e in edges :: e.parent != id
  {
    if edges != [] {
      FirstChildIff(edges[1..], id);
      assert edges == [edges[0]] + edges[1..];
    }
  }

  /** Where `n` steps from an operation to its first child lead. */
  function Nth(edges: seq<Edge>, id: OperationID, n: nat): Option<OperationID>
    decreases n
  {
    if n == 0 then Some(id) else
    match FirstChild(edges, id)
    case Some(c) => Nth(edges, c, n - 1)
    case None => None
  }

  /** The chain of first children never ends. */
  ghost predicate Endless(edges: seq<Edge>, id: OperationID) {
    forall n: nat :: Nth(edges, id, n).Some?
  }

  /** It ends after `n` steps, at an operation without children. */
  predicate EndsAfter(edges: seq<Edge>, id: OperationID, n: nat) {
    Nth(edges, id, n).Some? && FirstChild(edges, Nth(edges, id, n).value).None?
  }

  lemma {:induction false} ChainEnds(edges: seq<Edge>, id: OperationID, n: nat) returns (m: nat)
    requires Nth(edges, id, n).None?
    ensures EndsAfter(edges, id, m)
    decreases n
  {
    m := 0;
    if FirstChild(edges, id).Some? {
      m := ChainEnds(edges, FirstChild(edges, id).value, n - 1);
      m := m + 1;
    }
  }

  lemma {:induction false} EndIsUnique(edges: seq<Edge>, id: OperationID, m: nat, n: nat)
    requires EndsAfter(edges, id, m) && EndsAfter(edges, id, n)
    ensures m == n
    decreases m
  {
    if m > 0 && n > 0 {
      EndIsUnique(edges, FirstChild(edges, id).value, m - 1, n - 1);
    }
  }

  lemma {:induction false} EndFromThere(edges: seq<Edge>, id: OperationID, n: nat, m: nat)
    requires EndsAfter(edges, id, n) && m <= n
    ensures Nth(edges, id, m).Some? && EndsAfter(edges, Nth(edges, id, m).value, n - m)
    decreases n
  {
    if m > 0 {
      EndFromThere(edges, FirstChild(edges, id).value, n - 1, m - 1);
    }
  }

  lemma {:induction false} NthNext(edges: seq<Edge>, id: OperationID, n: nat)
    requires Nth(edges, id, n + 1).Some?
    ensures Nth(edges, id, n).Some?
    ensures FirstChild(edges, Nth(edges, id, n).value) == Nth(edges, id, n + 1)
    decreases n
  {
    if n > 0 {
      NthNext(edges, FirstChild(edges, id).value, n - 1);
    } else {
      assert Nth(edges, FirstChild(edges, id).value, 0) == FirstChild(edges, id);
    }
  }

  /** A chain that ends does not come back to where it began. */
  lemma ChainDoesNotReturn(edges: seq<Edge>, id: OperationID, n: nat, m: nat)
    requires EndsAfter(edges, id, n) && 0 < m <= n
    ensures Nth(edges, id, m) != Some(id)
  {
    EndFromThere(edges, id, n, m);
    if Nth(edges, id, m) == Some(id) {
      EndIsUnique(edges, id, n, n - m);
    }
  }

  /** No operation of the chain, up to `n` steps, is in `temp`. */
  ghost predicate Clear(edges: seq<Edge>, id: OperationID, n: nat, temp: set<OperationID>) {
    forall m: nat | m <= n :: Nth(edges, id, m).Some? ==> Nth(edges, id, m).value !in temp
  }

  /** If the chain ends without meeting `temp`, its end is in `perm`. */
  ghost predicate Lands(edges: seq<Edge>, id: OperationID, temp: set<OperationID>, perm: set<OperationID>) {
    forall n: nat | EndsAfter(edges, id, n) && Clear(edges, id, n, temp) :: Nth(edges, id, n).value in perm
  }

  /** The chain never ends, nor meets `perm`. */
  ghost predicate EndlessApart(edges: seq<Edge>, id: OperationID, perm: set<OperationID>) {
    forall n: nat :: Nth(edges, id, n).Some? && Nth(edges, id, n).value !in perm
  }

  lemma EndlessApartNext(edges: seq<Edge>, id: OperationID, perm: set<OperationID>)
    requires EndlessApart(edges, id, perm)
    ensures id !in perm && FirstChild(edges, id).Some? && EndlessApart(edges, FirstChild(edges, id).value, perm)
  {
    assert Nth(edges, id, 0) == Some(id) && Nth(edges, id, 1).Some?;
    var c := FirstChild(edges, id).value;
    forall n: nat ensures Nth(edges, c, n).Some? && Nth(edges, c, n).value !in perm {
      assert Nth(edges, id, n + 1) == Nth(edges, c, n);
    }
  }

  lemma LandsBefore(edges: seq<Edge>, id: OperationID, temp: set<OperationID>, perm: set<OperationID>)
    requires FirstChild(edges, id).Some? && Lands(edges, FirstChild(edges, id).value, temp + {id}, perm)
    ensures Lands(edges, id, temp, perm)
  {
    var c := FirstChild(edges, id).value;
    forall n: nat | EndsAfter(edges, id, n) && Clear(edges, id, n, temp) ensures Nth(edges, id, n).value in perm {
      assert n > 0 && Nth(edges, c, n - 1) == Nth(edges, id, n);
      ClearNext(edges, id, n, temp);
    }
  }

  lemma ClearNext(edges: seq<Edge>, id: OperationID, n: nat, temp: set<OperationID>)
    requires n > 0 && EndsAfter(edges, id, n) && Clear(edges, id, n, temp)
    ensures FirstChild(edges, id).Some? && Clear(edges, FirstChild(edges, id).value, n - 1, temp + {id})
  {
    var c := FirstChild(edges, id).value;
    forall m: nat | m <= n - 1 && Nth(edges, c, m).Some? ensures Nth(edges, c, m).value !in temp + {id} {
      assert Nth(edges, id, m + 1) == Nth(edges, c, m);
      ChainDoesNotReturn(edges, id, n, m + 1);
    }
  }

  /** What a search from an operation does to its chain: the end is reached if there is one; and
      if there is none, and nothing on it was marked, the search fails without listing anything. */
  ghost predicate Traced(
    edges: seq<Edge>, id: OperationID, temp: set<OperationID>, before: set<OperationID>, perm: set<OperationID>,
    nothing: bool)
  {
    Lands(edges, id, temp, perm) && (EndlessApart(edges, id, before) ==> nothing)
  }

  lemma TracedStill(
    edges: seq<Edge>, id: OperationID, temp: set<OperationID>, before: set<OperationID>, perm: set<OperationID>,
    perm': set<OperationID>)
    requires Traced(edges, id, temp, before, perm, false) && perm <= perm'
    ensures Traced(edges, id, temp, before, perm', false)
  {
  }

  lemma VisitedLands(edges: seq<Edge>, id: OperationID, temp: set<OperationID>, perm: set<OperationID>)
    requires FirstChild(edges, id).None? ==> id in perm
    requires FirstChild(edges, id).Some? ==> Lands(edges, FirstChild(edges, id).value, temp + {id}, perm)
    ensures Lands(edges, id, temp, perm)
  {
    if FirstChild(edges, id).Some? {
      LandsBefore(edges, id, temp, perm);
    } else {
      LandsAtOnce(edges, id, temp, perm);
    }
  }

  lemma LandsAtOnce(edges: seq<Edge>, id: OperationID, temp: set<OperationID>, perm: set<OperationID>)
    requires id in temp || (FirstChild(edges, id).None? && id in perm)
    ensures Lands(edges, id, temp, perm)
  {
    assert Nth(edges, id, 0) == Some(id);
  }

  /** The children map lists the children of every operation with the first child first. */
  ghost predicate FirstLinked(edges: seq<Edge>, children: map<OperationID, seq<Operation>>) {
    forall id :: FirstOf(Get(children, id)) == FirstChild(edges, id)
  }

  function FirstOf(cs: seq<Operation>): Option<OperationID> {
    if cs == [] then None else Some(cs[0].id)
  }

  lemma FirstLinkedAppend(edges: seq<Edge>, children: map<OperationID, seq<Operation>>, e: Edge, c: Operation)
    requires FirstLinked(edges, children) && c.id == e.child
    ensures FirstLinked(edges + [e], children[e.parent := Get(children, e.parent) + [c]])
  {
    var children' := children[e.parent := Get(children, e.parent) + [c]];
    forall id ensures FirstOf(Get(children', id)) == FirstChild(edges + [e], id) {
      FirstChildLast(edges, e, id);
      assert FirstOf(Get(children, id)) == FirstChild(edges, id);
    }
  }

  /** What is marked permanently is so with its whole chain. */
  lemma {:induction false} ChainStaysMarked(
    ops: seq<Operation>, edges: seq<Edge>, children: map<OperationID, seq<Operation>>, sorted: seq<Operation>,
    perm: set<OperationID>, o: Operation, n: nat)
    requires Linked(ops, edges, children) && FirstLinked(edges, children)
    requires Settled(ops, edges, sorted, perm) && o in ops && o.id in perm
    ensures Nth(edges, o.id, n).Some? ==> Nth(edges, o.id, n).value in perm
    decreases n
  {
    if n > 0 && FirstChild(edges, o.id).Some? {
      assert FirstOf(Get(children, o.id)) == FirstChild(edges, o.id);
      var c := Get(children, o.id)[0];
      assert c in Get(children, o.id);
      ChildIsMarked(ops, edges, sorted, perm, o, c);
      ChainStaysMarked(ops, edges, children, sorted, perm, c, n - 1);
    }
  }

  lemma ChildIsMarked(
    ops: seq<Operation>, edges: seq<Edge>, sorted: seq<Operation>, perm: set<OperationID>, o: Operation, c: Operation)
    requires Settled(ops, edges, sorted, perm) && o in ops && o.id in perm && c in ops && Edge(o.id, c.id) in edges
    ensures c.id in perm
  {
    var i :| 0 <= i < |sorted| && sorted[i] == o;
    assert c in sorted[..i];
  }

  lemma MarkedLands(
    ops: seq<Operation>, edges: seq<Edge>, children: map<OperationID, seq<Operation>>, sorted: seq<Operation>,
    perm: set<OperationID>, o: Operation, temp: set<OperationID>)
    requires Linked(ops, edges, children) && FirstLinked(edges, children)
    requires Settled(ops, edges, sorted, perm) && o in ops && o.id in perm
    ensures Lands(edges, o.id, temp, perm) && !EndlessApart(edges, o.id, perm)
  {
    forall n: nat | EndsAfter(edges, o.id, n) ensures Nth(edges, o.id, n).value in perm {
      ChainStaysMarked(ops, edges, children, sorted, perm, o, n);
    }
    assert Nth(edges, o.id, 0) == Some(o.id);
  }

  // ----- where a failed search stops -----

  /** The first root that reaches a cycle. */
  ghost predicate FirstCyclic(edges: seq<Edge>, roots: seq<Operation>, k: int) {
    && 0 <= k < |roots| && ReachesCycle(edges, roots[k].id)
    && forall j | 0 <= j < k :: !ReachesCycle(edges, roots[j].id)
  }

  /** The roots before it have no children, and its own chain of first children never ends. */
  ghost predicate FindsNothing(edges: seq<Edge>, roots: seq<Operation>, k: int)
    requires 0 <= k < |roots|
  {
    (forall j | 0 <= j < k :: FirstChild(edges, roots[j].id).None?) && Endless(edges, roots[k].id)
  }

  /** The first root that reaches a cycle is such a one. */
  ghost predicate FailsAtOnce(edges: seq<Edge>, roots: seq<Operation>) {
    exists k :: FirstCyclic(edges, roots, k) && FindsNothing(edges, roots, k)
  }

  /** The search stopped below this root: all roots before it are in the list, and the end of its
      chain of first children, if there is one; and nothing but roots where nothing else is found. */
  ghost predicate StuckAt(edges: seq<Edge>, roots: seq<Operation>, sorted: seq<Operation>, k: int) {
    && FirstCyclic(edges, roots, k)
    && (forall j | 0 <= j < k :: roots[j] in sorted)
    && Lands(edges, roots[k].id, {}, IDs(sorted))
    && (FindsNothing(edges, roots, k) ==> forall o | o in sorted :: IsRoot(edges, o.id))
  }

  /** The outcome of a failed search. */
  ghost predicate Failed(
    ops: seq<Operation>, edges: seq<Edge>, roots: seq<Operation>, sorted: seq<Operation>, r: Result)
  {
    && r == Fail(FoundCycle) && Stale(ops, edges, sorted) && Stuck(edges, roots, sorted)
    && exists o :: o in roots && ReachesCycle(edges, o.id)
  }

  ghost predicate Stuck(edges: seq<Edge>, roots: seq<Operation>, sorted: seq<Operation>) {
    exists k :: StuckAt(edges, roots, sorted, k)
  }

  function IDs(ops: seq<Operation>): set<OperationID> {
    set o | o in ops :: o.id
  }

  // ----- the depth-first search -----

  function Get(m: map<OperationID, seq<Operation>>, id: OperationID): seq<Operation> {
    if id in m then m[id] else []
  }

  /** The children map holds, for every parent, the child operations of its edges. */
  ghost predicate Linked(ops: seq<Operation>, edges: seq<Edge>, children: map<OperationID, seq<Operation>>) {
    forall id, c :: c in Get(children, id) <==> c in ops && Edge(id, c.id) in edges
  }

  /** The list being built, children first: distinct operations, exactly the permanently
      marked ones, each after all of its children. */
  ghost predicate Settled(ops: seq<Operation>, edges: seq<Edge>, sorted: seq<Operation>, perm: set<OperationID>) {
    && Distinct(sorted)
    && (forall o | o in sorted :: o in ops && o.id in perm)
    && (forall o | o in ops && o.id in perm :: o in sorted)
    && (forall i, c | 0 <= i < |sorted| && c in ops && Edge(sorted[i].id, c.id) in edges :: c in sorted[..i])
  }

  lemma ReachesItself(edges: seq<Edge>, a: OperationID)
    ensures Reaches(edges, a, a)
  {
    assert Path(edges, [a]);
  }

  lemma ReachesStep(edges: seq<Edge>, a: OperationID, b: OperationID, c: OperationID)
    requires Edge(a, b) in edges && Reaches(edges, b, c)
    ensures Reaches(edges, a, c)
  {
    var p :| Path(edges, p) && p[0] == b && p[|p| - 1] == c;
    var q := [a] + p;
    assert forall i | 0 <= i < |q| - 1 :: Edge(q[i], q[i + 1]) in edges by {
      forall i | 0 <= i < |q| - 1 ensures Edge(q[i], q[i + 1]) in edges {
        if i > 0 { assert q[i] == p[i - 1] && q[i + 1] == p[i]; }
      }
    }
  }

  /** A search from `a` has added to the marks only what `a` reaches. */
  ghost predicate Found(edges: seq<Edge>, a: OperationID, before: set<OperationID>, after: set<OperationID>) {
    before <= after && forall x | x in after && x !in before :: Reaches(edges, a, x)
  }

  lemma FoundStep(
    edges: seq<Edge>, a: OperationID, b: OperationID, start: set<OperationID>, before: set<OperationID>,
    after: set<OperationID>)
    requires Edge(a, b) in edges && Found(edges, a, start, before) && Found(edges, b, before, after)
    ensures Found(edges, a, start, after)
  {
    forall x | x in after && x !in before ensures Reaches(edges, a, x) { ReachesStep(edges, a, b, x); }
  }

  predicate AllMarked(cs: seq<Operation>, perm: set<OperationID>) {
    forall c | c in cs :: c.id in perm
  }

  lemma AllMarkedNext(cs: seq<Operation>, k: nat, before: set<OperationID>, perm: set<OperationID>)
    requires k < |cs| && AllMarked(cs[..k], before) && before <= perm && cs[k].id in perm
    ensures AllMarked(cs[..k + 1], perm)
  {
    assert cs[..k + 1] == cs[..k] + [cs[k]];
  }

  lemma PathAppend(edges: seq<Edge>, p: seq<OperationID>, b: OperationID)
    requires Path(edges, p) && Edge(p[|p| - 1], b) in edges
    ensures Path(edges, p + [b]) && (p + [b])[0] == p[0]
  {
  }

  /** Listing an operation whose children are all listed keeps the list settled. */
  lemma SettledAppend(
    ops: seq<Operation>, edges: seq<Edge>, sorted: seq<Operation>, perm: set<OperationID>, o: Operation)
    requires UniqueIDs(ops) && Settled(ops, edges, sorted, perm)
    requires o in ops && o.id !in perm
    requires forall c | c in ops && Edge(o.id, c.id) in edges :: c.id in perm
    ensures Settled(ops, edges, sorted + [o], perm + {o.id})
  {
    var sorted' := sorted + [o];
    forall i, c | 0 <= i < |sorted'| && c in ops && Edge(sorted'[i].id, c.id) in edges ensures c in sorted'[..i] {
      if i == |sorted| {
        assert sorted'[..i] == sorted;
      } else {
        assert sorted'[..i] == sorted[..i];
      }
    }
  }

  class Marks {
    var temp: set<OperationID>
    var perm: set<OperationID>

    constructor ()
      ensures temp == perm == {}
    {
      temp, perm := {}, {};
    }
  }

  class Spec {
    const operations: seq<Operation>
    const edges: seq<Edge>
    var sorted: seq<Operation>
    var children: map<OperationID, seq<Operation>>
    var parents: map<OperationID, seq<Operation>>

    constructor (operations: seq<Operation>, edges: seq<Edge>)
      ensures this.operations == operations && this.edges == edges
      ensures sorted == [] && children == map[] && parents == map[]
    {
      this.operations, this.edges := operations, edges;
      sorted, children, parents := [], map[], map[];
    }

    /** `visit`. The ghost `stack` is the path of temporarily marked operations that
        leads to `o`; on failure `lasso` extends it to a walk that repeats. */
    method Visit(
      marks: Marks, o: Operation, ghost stack: seq<OperationID>)
      returns (r: Result, ghost lasso: seq<OperationID>)
      requires UniqueIDs(operations) && Linked(operations, edges, children) && FirstLinked(edges, children)
      requires o in operations && Path(edges, stack + [o.id])
      requires marks.temp == (set id | id in stack) <= IDs(operations) && marks.temp !! marks.perm
      requires Settled(operations, edges, sorted, marks.perm)
      modifies this`sorted, marks
      ensures Settled(operations, edges, sorted, marks.perm) && old(marks.perm) <= marks.perm
      ensures r.Ok? ==>
                && marks.temp == old(marks.temp) && marks.temp !! marks.perm
                && o.id in marks.perm && Found(edges, o.id, old(marks.perm), marks.perm)
      ensures r.Fail? ==>
                && r.error == FoundCycle
                && Path(edges, lasso) && lasso[0] == (stack + [o.id])[0] && Repeats(lasso)
      ensures Traced(edges, o.id, old(marks.temp), old(marks.perm), marks.perm, r.Fail? && sorted == old(sorted))
      decreases IDs(operations) - marks.temp - marks.perm, 0
    {
      var id := o.id;
      lasso := stack + [id];
      r := Ok;
      if id in marks.temp {
        ghost var i :| 0 <= i < |stack| && stack[i] == id;
        assert lasso[i] == lasso[|stack|];
        LandsAtOnce(edges, id, marks.temp, marks.perm);
        r := Fail(FoundCycle);
      } else if id !in marks.perm {
        ghost var start := marks.perm;
        assert FirstOf(Get(children, id)) == FirstChild(edges, id);
        if EndlessApart(edges, id, start) {
          EndlessApartNext(edges, id, start);
        }
        assert id in IDs(operations) - old(marks.temp) - old(marks.perm);
        marks.temp := marks.temp + {id};
        r, lasso := VisitChildren(marks, id, Get(children, id), stack + [id]);
        if r.Ok? {
          SettledAppend(operations, edges, sorted, marks.perm, o);
          ReachesItself(edges, id);
          marks.perm := marks.perm + {id};
          marks.temp := marks.temp - {id};
          sorted := sorted + [o];
        }
        VisitedLands(edges, id, old(marks.temp), marks.perm);
      } else {
        MarkedLands(operations, edges, children, sorted, marks.perm, o, marks.temp);
      }
    }

    /** The loop of `visit` over the children of the operation that `stack` ends with. */
    method VisitChildren(marks: Marks, id: OperationID, cs: seq<Operation>, ghost stack: seq<OperationID>)
      returns (r: Result, ghost lasso: seq<OperationID>)
      requires UniqueIDs(operations) && Linked(operations, edges, children) && FirstLinked(edges, children)
      requires Path(edges, stack) && stack[|stack| - 1] == id && cs == Get(children, id)
      requires marks.temp == (set x | x in stack) <= IDs(operations) && marks.temp !! marks.perm
      requires Settled(operations, edges, sorted, marks.perm)
      modifies this`sorted, marks
      ensures Settled(operations, edges, sorted, marks.perm) && old(marks.perm) <= marks.perm
      ensures r.Ok? ==>
                && marks.temp == old(marks.temp) && marks.temp !! marks.perm
                && AllMarked(cs, marks.perm) && Found(edges, id, old(marks.perm), marks.perm)
      ensures r.Fail? ==>
                && r.error == FoundCycle
                && Path(edges, lasso) && lasso[0] == stack[0] && Repeats(lasso)
      ensures cs == [] ==> r.Ok?
      ensures cs != [] ==>
                Traced(edges, cs[0].id, old(marks.temp), old(marks.perm), marks.perm, r.Fail? && sorted == old(sorted))
      decreases IDs(operations) - marks.temp - marks.perm, 1
    {
      r, lasso := Ok, stack;
      var k := 0;
      while k < |cs| && r.Ok?
        invariant 0 <= k <= |cs|
        invariant Settled(operations, edges, sorted, marks.perm) && old(marks.perm) <= marks.perm
        invariant r.Ok? ==> marks.temp == old(marks.temp) && marks.temp !! marks.perm
        invariant r.Ok? ==> AllMarked(cs[..k], marks.perm)
        invariant r.Ok? ==> Found(edges, id, old(marks.perm), marks.perm)
        invariant r.Fail? ==> r.error == FoundCycle && Path(edges, lasso) && lasso[0] == stack[0] && Repeats(lasso)
        invariant k == 0 ==> r.Ok? && marks.perm == old(marks.perm) && sorted == old(sorted)
        invariant k > 0 ==>
                    Traced(edges, cs[0].id, old(marks.temp), old(marks.perm), marks.perm,
                      r.Fail? && sorted == old(sorted))
      {
        ghost var before := marks.perm;
        assert cs[k] in Get(children, id);
        PathAppend(edges, stack, cs[k].id);
        r, lasso := Visit(marks, cs[k], stack);
        if k > 0 {
          TracedStill(edges, cs[0].id, old(marks.temp), old(marks.perm), before, marks.perm);
        }
        if r.Ok? {
          FoundStep(edges, id, cs[k].id, old(marks.perm), before, marks.perm);
          AllMarkedNext(cs, k, before, marks.perm);
        }
        k := k + 1;
      }
      assert cs[..|cs|] == cs;
    }

    /** `computeLookup`. */
    method ComputeLookup() returns (r: Result, lookup: map<OperationID, Operation>)
      ensures r == if UniqueIDs(operations) then Ok else Fail(DuplicateID)
      ensures r.Ok? ==> IsLookup(operations, lookup)
    {
      lookup := map[];
      for k := 0 to |operations|
        invariant UniqueIDs(operations[..k]) && IsLookup(operations[..k], lookup)
      {
        var o := operations[k];
        if o.id in lookup {
          var i :| 0 <= i < k && operations[i].id == o.id;
          return Fail(DuplicateID), lookup;
        }
        lookup := lookup[o.id := o];
        assert operations[..k + 1] == operations[..k] + [o];
      }
      assert operations[..|operations|] == operations;
      r := Ok;
    }

    /** The edge loop of `determineParentsChildrenAndRoots`. */
    method LinkEdges(lookup: map<OperationID, Operation>)
      returns (r: Result, parents: map<OperationID, seq<Operation>>, children: map<OperationID, seq<Operation>>)
      requires UniqueIDs(operations) && IsLookup(operations, lookup)
      ensures r.Ok? <==> KnownEdges(operations, edges)
      ensures r.Fail? ==> FirstBadEdge(operations, edges, r.error)
      ensures r.Ok? ==> Linked(operations, edges, children) && Linked(operations, Flip(edges), parents)
      ensures r.Ok? ==> FirstLinked(edges, children)
    {
      parents, children := map[], map[];
      for k := 0 to |edges|
        invariant KnownEdges(operations, edges[..k])
        invariant Linked(operations, edges[..k], children)
        invariant Linked(operations, Flip(edges[..k]), parents)
        invariant FirstLinked(edges[..k], children)
      {
        var e := edges[k];
        if e.child !in lookup {
          return Fail(UnknownChild), parents, children;
        }
        ChildLinked(operations, edges, k, children, lookup[e.child]);
        children := children[e.parent := Get(children, e.parent) + [lookup[e.child]]];
        if e.parent !in lookup {
          return Fail(UnknownParent), parents, children;
        }
        ParentLinked(operations, edges, k, parents, lookup[e.parent]);
        parents := parents[e.child := Get(parents, e.child) + [lookup[e.parent]]];
        assert edges[..k + 1] == edges[..k] + [e];
      }
      assert edges[..|edges|] == edges;
      r := Ok;
    }

    /** `determineParentsChildrenAndRoots`. */
    method DetermineParentsChildrenAndRoots()
      returns (r: Result, parents: map<OperationID, seq<Operation>>, children: map<OperationID, seq<Operation>>,
        roots: seq<Operation>)
      ensures r.Ok? <==> UniqueIDs(operations) && KnownEdges(operations, edges)
      ensures r.Fail? ==>
                if UniqueIDs(operations) then FirstBadEdge(operations, edges, r.error) else r.error == DuplicateID
      ensures r.Ok? ==> Linked(operations, edges, children) && Linked(operations, Flip(edges), parents)
      ensures r.Ok? ==> FirstLinked(edges, children) && roots == RootsOf(operations, edges)
    {
      parents, children, roots := map[], map[], [];
      var lookup;
      r, lookup := ComputeLookup();
      if r.Ok? {
        r, parents, children := LinkEdges(lookup);
        if r.Ok? {
          roots := FindRoots(parents);
        }
      }
    }

    /** The loop over the operations that collects those without parents. */
    method FindRoots(parents: map<OperationID, seq<Operation>>) returns (roots: seq<Operation>)
      requires KnownEdges(operations, edges) && Linked(operations, Flip(edges), parents)
      ensures roots == RootsOf(operations, edges)
    {
      roots := [];
      for k := 0 to |operations|
        invariant roots == RootsOf(operations[..k], edges)
      {
        RootIff(operations, edges, parents, operations[k].id);
        if Get(parents, operations[k].id) == [] {
          roots := roots + [operations[k]];
        }
        assert operations[..k + 1][..k] == operations[..k];
      }
      assert operations[..|operations|] == operations;
    }

    /** The visits of `prepare`: from every root, on empty marks and an empty list. */
    method VisitRoots(roots: seq<Operation>) returns (r: Result)
      requires UniqueIDs(operations) && KnownEdges(operations, edges)
      requires Linked(operations, edges, children) && FirstLinked(edges, children)
      requires roots == RootsOf(operations, edges)
      requires sorted == []
      modifies this`sorted
      ensures r.Ok? <==> forall o | o in roots :: !ReachesCycle(edges, o.id)
      ensures r.Fail? ==> r.error == FoundCycle && Stale(operations, edges, sorted) && Stuck(edges, roots, sorted)
      ensures r.Ok? ==> TopologicalOrder(operations, edges, Reversed(sorted))
    {
      var marks := new Marks();
      r := Ok;
      var k := 0;
      while k < |roots| && r.Ok?
        invariant 0 <= k <= |roots| && fresh(marks)
        invariant r.Ok? ==> marks.temp == {} && Settled(operations, edges, sorted, marks.perm)
        invariant r.Ok? ==> Covered(edges, roots, marks.perm, k)
        invariant r.Fail? ==> Failed(operations, edges, roots, sorted, r)
      {
        r := VisitRoot(marks, roots, k);
        k := k + 1;
      }
      if r.Ok? {
        AllCovered(operations, edges, roots, sorted, marks.perm);
      }
    }

    /** The visit from one root, when those before it are done. */
    method VisitRoot(marks: Marks, roots: seq<Operation>, k: nat) returns (r: Result)
      requires UniqueIDs(operations) && KnownEdges(operations, edges)
      requires Linked(operations, edges, children) && FirstLinked(edges, children)
      requires roots == RootsOf(operations, edges) && k < |roots|
      requires marks.temp == {} && Settled(operations, edges, sorted, marks.perm)
      requires Covered(edges, roots, marks.perm, k)
      modifies this`sorted, marks
      ensures r.Ok? ==>
                && marks.temp == {} && Settled(operations, edges, sorted, marks.perm)
                && Covered(edges, roots, marks.perm, k + 1)
      ensures r.Fail? ==> Failed(operations, edges, roots, sorted, r)
    {
      ghost var before, was := marks.perm, sorted;
      RootsOfIff(operations, edges, roots[k]);
      assert Path(edges, [] + [roots[k].id]);
      ghost var lasso;
      r, lasso := Visit(marks, roots[k], []);
      if r.Fail? {
        StuckThere(operations, edges, roots, was, sorted, before, marks.perm, k, lasso);
      } else {
        CoveredNext(edges, roots, before, marks.perm, k);
      }
    }

    /** The loop at the end of `prepare`. */
    method ReverseSorted()
      modifies this`sorted
      ensures sorted == Reversed(old(sorted))
    {
      var n := |sorted|;
      ghost var was := sorted;
      var i, j := 0, n - 1;
      while i < j
        invariant |sorted| == n && 0 <= i && j == n - 1 - i && i <= j + 1
        invariant forall k | 0 <= k < i :: sorted[k] == was[n - 1 - k] && sorted[n - 1 - k] == was[k]
        invariant forall k | i <= k <= j :: sorted[k] == was[k]
      {
        sorted := sorted[i := sorted[j]][j := sorted[i]];
        i, j := i + 1, j - 1;
      }
    }

    /** `prepare`. It succeeds exactly on the graphs that `Accepts` describes, and then
        `sorted` is a topological order. */
    method Prepare() returns (r: Result)
      modifies this
      ensures r.Ok? <==> Accepts(operations, edges)
      ensures r.Ok? ==> TopologicalOrder(operations, edges, sorted)
      ensures r.Ok? ==> Linked(operations, edges, children) && Linked(operations, Flip(edges), parents)
      ensures r.Fail? ==> Rejected(operations, edges, r.error) && Stale(operations, edges, sorted)
      ensures r.Fail? && UniqueIDs(operations) && KnownEdges(operations, edges) && HasRoot(operations, edges) ==>
                r.error == FoundCycle && Stuck(edges, RootsOf(operations, edges), sorted)
    {
      sorted := [];
      var roots, ps, cs;
      r, ps, cs, roots := DetermineParentsChildrenAndRoots();
      if r.Ok? {
        AcceptsIff(operations, edges, roots);
        if roots == [] {
          r := Fail(NoRoots);
        } else {
          parents, children := ps, cs;
          r := VisitRoots(roots);
          if r.Ok? {
            ReverseSorted();
          }
        }
      }
    }

    /** `Walk`; `f` says for each operation whether the callback succeeds. A list that is already
        there is taken as it is; otherwise the spec is prepared and the list is a topological
        order. The callback is called along the list, and on all of it unless it fails. */
    method Walk(f: Operation -> bool) returns (prepared: Result, visited: seq<Operation>)
      modifies this
      ensures prepared.Ok? <==> old(sorted) != [] || Accepts(operations, edges)
      ensures prepared.Fail? ==> visited == [] && Rejected(operations, edges, prepared.error)
      ensures prepared.Fail? ==> Stale(operations, edges, sorted)
      ensures prepared.Ok? ==>
                if old(sorted) != [] then sorted == old(sorted) else TopologicalOrder(operations, edges, sorted)
      ensures prepared.Ok? ==> visited <= sorted
      ensures forall i | 0 <= i < |visited| - 1 :: f(visited[i])
      ensures prepared.Ok? && visited != sorted ==> visited != [] && !f(visited[|visited| - 1])
    {
      visited := [];
      prepared := EnsureSorted();
      if prepared.Ok? {
        visited := VisitAlong(sorted, f);
      }
    }

    method EnsureSorted() returns (prepared: Result)
      modifies this
      ensures prepared.Ok? <==> old(sorted) != [] || Accepts(operations, edges)
      ensures prepared.Fail? ==> Rejected(operations, edges, prepared.error) && Stale(operations, edges, sorted)
      ensures prepared.Ok? ==>
                if old(sorted) != [] then sorted == old(sorted) else TopologicalOrder(operations, edges, sorted)
    {
      prepared := Ok;
      if sorted == [] {
        prepared := Prepare();
      }
    }

    /** The callbacks of `Walk`, in order, up to the first that fails. */
    static method VisitAlong(ops: seq<Operation>, f: Operation -> bool) returns (visited: seq<Operation>)
      ensures visited <= ops
      ensures forall i | 0 <= i < |visited| - 1 :: f(visited[i])
      ensures visited != ops ==> visited != [] && !f(visited[|visited| - 1])
    {
      visited := [];
      for k := 0 to |ops|
        invariant visited == ops[..k] && forall i | 0 <= i < k :: f(ops[i])
      {
        visited := ops[..k + 1];
        if !f(ops[k]) {
          return;
        }
      }
    }
  }

  function Reversed(ops: seq<Operation>): (rev: seq<Operation>)
    ensures |rev| == |ops| && forall k | 0 <= k < |ops| :: rev[k] == ops[|ops| - 1 - k]
  {
    seq(|ops|, k requires 0 <= k < |ops| => ops[|ops| - 1 - k])
  }

  /** The finished list, read backwards, is a topological order. */
  lemma SettledIsOrder(ops: seq<Operation>, edges: seq<Edge>, sorted: seq<Operation>, perm: set<OperationID>)
    requires UniqueIDs(ops) && KnownEdges(ops, edges) && Settled(ops, edges, sorted, perm)
    requires forall o | o in ops && IsRoot(edges, o.id) :: o.id in perm
    requires forall id | id in perm :: FromRoot(ops, edges, id)
    ensures TopologicalOrder(ops, edges, Reversed(sorted))
  {
    forall o ensures o in Reversed(sorted) <==> o in sorted { InReversed(sorted, o); }
    SettledForward(ops, edges, sorted, perm);
    forall o | o in ops && FromRoot(ops, edges, o.id) ensures o in Reversed(sorted) {
      SettledComplete(ops, edges, sorted, perm, o);
    }
  }

  lemma InReversed(ops: seq<Operation>, o: Operation)
    ensures o in Reversed(ops) <==> o in ops
  {
    if o in ops {
      var i :| 0 <= i < |ops| && ops[i] == o;
      assert Reversed(ops)[|ops| - 1 - i] == o;
    }
  }

  lemma SettledForward(ops: seq<Operation>, edges: seq<Edge>, sorted: seq<Operation>, perm: set<OperationID>)
    requires KnownEdges(ops, edges) && Settled(ops, edges, sorted, perm)
    ensures EdgesForward(edges, Reversed(sorted))
  {
    SettledIsStale(ops, edges, sorted, perm);
    BackwardReversed(edges, sorted);
  }

  /** Read backwards, edges that go backward go forward. */
  lemma BackwardReversed(edges: seq<Edge>, sorted: seq<Operation>)
    requires EdgesBackward(edges, sorted)
    ensures EdgesForward(edges, Reversed(sorted))
  {
    var rev := Reversed(sorted);
    forall i, e | 0 <= i < |rev| && e in edges && e.parent == rev[i].id
      ensures exists j :: i < j < |rev| && rev[j].id == e.child
    {
      var k := |rev| - 1 - i;
      assert rev[i] == sorted[k];
      var m :| 0 <= m < k && sorted[m].id == e.child;
      assert rev[|rev| - 1 - m] == sorted[m];
    }
  }

  lemma SettledBefore(
    ops: seq<Operation>, edges: seq<Edge>, sorted: seq<Operation>, perm: set<OperationID>, k: nat, e: Edge)
    returns (m: nat)
    requires KnownEdges(ops, edges) && Settled(ops, edges, sorted, perm)
    requires k < |sorted| && e in edges && e.parent == sorted[k].id
    ensures m < k && sorted[m].id == e.child
  {
    var c :| 0 <= c < |ops| && ops[c].id == e.child;
    assert Edge(sorted[k].id, ops[c].id) == e;
    assert ops[c] in sorted[..k];
    m :| 0 <= m < k && sorted[m] == ops[c];
  }

  lemma SettledIsStale(ops: seq<Operation>, edges: seq<Edge>, sorted: seq<Operation>, perm: set<OperationID>)
    requires KnownEdges(ops, edges) && Settled(ops, edges, sorted, perm)
    ensures Stale(ops, edges, sorted)
  {
    forall i, e | 0 <= i < |sorted| && e in edges && e.parent == sorted[i].id
      ensures exists j :: 0 <= j < i && sorted[j].id == e.child
    {
      var j := SettledBefore(ops, edges, sorted, perm, i, e);
    }
  }

  lemma AcceptsIff(ops: seq<Operation>, edges: seq<Edge>, roots: seq<Operation>)
    requires UniqueIDs(ops) && KnownEdges(ops, edges) && roots == RootsOf(ops, edges)
    ensures HasRoot(ops, edges) <==> roots != []
    ensures Accepts(ops, edges) <==> roots != [] && forall o | o in roots :: !ReachesCycle(edges, o.id)
  {
    forall o ensures o in roots <==> o in ops && IsRoot(edges, o.id) {
      RootsOfIff(ops, edges, o);
    }
    assert roots != [] ==> roots[0] in roots;
  }

  /** One of the first `k` roots reaches it. */
  ghost predicate FromEarlier(edges: seq<Edge>, roots: seq<Operation>, k: nat, id: OperationID)
    requires k <= |roots|
  {
    exists j :: 0 <= j < k && Reaches(edges, roots[j].id, id)
  }

  /** The first `k` roots are marked, and only what they reach is. */
  ghost predicate Covered(edges: seq<Edge>, roots: seq<Operation>, perm: set<OperationID>, k: nat)
    requires k <= |roots|
  {
    (forall j | 0 <= j < k :: roots[j].id in perm) && OnlyReached(edges, roots, perm, k)
  }

  ghost predicate OnlyReached(edges: seq<Edge>, roots: seq<Operation>, perm: set<OperationID>, k: nat)
    requires k <= |roots|
  {
    forall id | id in perm :: FromEarlier(edges, roots, k, id)
  }

  lemma CoveredNext(
    edges: seq<Edge>, roots: seq<Operation>, before: set<OperationID>, perm: set<OperationID>, k: nat)
    requires k < |roots| && Covered(edges, roots, before, k)
    requires roots[k].id in perm && Found(edges, roots[k].id, before, perm)
    ensures Covered(edges, roots, perm, k + 1)
  {
    OnlyReachedNext(edges, roots, before, perm, k);
  }

  lemma OnlyReachedNext(
    edges: seq<Edge>, roots: seq<Operation>, before: set<OperationID>, perm: set<OperationID>, k: nat)
    requires k < |roots| && OnlyReached(edges, roots, before, k) && Found(edges, roots[k].id, before, perm)
    ensures OnlyReached(edges, roots, perm, k + 1)
  {
    forall id | id in perm ensures FromEarlier(edges, roots, k + 1, id) {
      if id in before {
        EarlierStill(edges, roots, k, id);
      } else {
        NowEarlier(edges, roots, k, id);
      }
    }
  }

  lemma NowEarlier(edges: seq<Edge>, roots: seq<Operation>, k: nat, id: OperationID)
    requires k < |roots| && Reaches(edges, roots[k].id, id)
    ensures FromEarlier(edges, roots, k + 1, id)
  {
  }

  lemma EarlierStill(edges: seq<Edge>, roots: seq<Operation>, k: nat, id: OperationID)
    requires k < |roots| && FromEarlier(edges, roots, k, id)
    ensures FromEarlier(edges, roots, k + 1, id)
  {
    var j :| 0 <= j < k && Reaches(edges, roots[j].id, id);
    assert 0 <= j < k + 1;
  }

  /** Roots without children are all that they reach. */
  lemma ChildlessCovered(edges: seq<Edge>, roots: seq<Operation>, perm: set<OperationID>, k: nat, id: OperationID)
    requires k <= |roots| && Covered(edges, roots, perm, k) && id in perm
    requires forall j | 0 <= j < k :: FirstChild(edges, roots[j].id).None?
    ensures exists j :: 0 <= j < k && roots[j].id == id
  {
    assert FromEarlier(edges, roots, k, id);
    var j :| 0 <= j < k && Reaches(edges, roots[j].id, id);
    var p :| Path(edges, p) && p[0] == roots[j].id && p[|p| - 1] == id;
    PathHasChild(edges, p);
  }

  lemma PathHasChild(edges: seq<Edge>, p: seq<OperationID>)
    requires Path(edges, p)
    ensures |p| > 1 ==> FirstChild(edges, p[0]).Some?
  {
    if |p| > 1 {
      FirstChildIff(edges, p[0]);
      assert Edge(p[0], p[1]) in edges;
    }
  }

  /** An endless chain below such roots meets none of them. */
  lemma EndlessIsApart(edges: seq<Edge>, roots: seq<Operation>, perm: set<OperationID>, k: nat)
    requires k < |roots| && Covered(edges, roots, perm, k) && FindsNothing(edges, roots, k)
    ensures EndlessApart(edges, roots[k].id, perm)
  {
    forall n: nat ensures Nth(edges, roots[k].id, n).Some? && Nth(edges, roots[k].id, n).value !in perm {
      assert Nth(edges, roots[k].id, n).Some? && Nth(edges, roots[k].id, n + 1).Some?;
      NthNext(edges, roots[k].id, n);
      var x := Nth(edges, roots[k].id, n).value;
      if x in perm {
        ChildlessCovered(edges, roots, perm, k, x);
      }
    }
  }

  lemma NothingElseFound(
    ops: seq<Operation>, edges: seq<Edge>, roots: seq<Operation>, was: seq<Operation>, before: set<OperationID>, k: nat)
    requires k < |roots| && roots == RootsOf(ops, edges) && Covered(edges, roots, before, k)
    requires Settled(ops, edges, was, before) && FindsNothing(edges, roots, k)
    ensures forall o | o in was :: IsRoot(edges, o.id)
  {
    forall o | o in was ensures IsRoot(edges, o.id) {
      ChildlessCovered(edges, roots, before, k, o.id);
      var j :| 0 <= j < k && roots[j].id == o.id;
      RootsOfIff(ops, edges, roots[j]);
    }
  }

  lemma StuckThere(
    ops: seq<Operation>, edges: seq<Edge>, roots: seq<Operation>, was: seq<Operation>, sorted: seq<Operation>,
    before: set<OperationID>, perm: set<OperationID>, k: nat, lasso: seq<OperationID>)
    requires k < |roots| && roots == RootsOf(ops, edges) && UniqueIDs(ops) && KnownEdges(ops, edges)
    requires Settled(ops, edges, was, before) && Settled(ops, edges, sorted, perm)
    requires Covered(edges, roots, before, k) && before <= perm
    requires Path(edges, lasso) && lasso[0] == roots[k].id && Repeats(lasso)
    requires Lands(edges, roots[k].id, {}, perm)
    requires EndlessApart(edges, roots[k].id, before) ==> sorted == was
    ensures Stale(ops, edges, sorted) && Stuck(edges, roots, sorted)
    ensures roots[k] in roots && ReachesCycle(edges, roots[k].id)
  {
    SettledIsStale(ops, edges, sorted, perm);
    forall j | 0 <= j < k ensures roots[j] in sorted && !ReachesCycle(edges, roots[j].id) {
      RootsOfIff(ops, edges, roots[j]);
      assert roots[j].id in perm;
      SettledHasNoCycle(ops, edges, sorted, perm, roots[j]);
    }
    RootsOfIff(ops, edges, roots[k]);
    LandsInList(ops, edges, sorted, perm, roots[k].id);
    if FindsNothing(edges, roots, k) {
      EndlessIsApart(edges, roots, before, k);
      NothingElseFound(ops, edges, roots, was, before, k);
    }
    assert StuckAt(edges, roots, sorted, k);
  }

  lemma LandsInList(
    ops: seq<Operation>, edges: seq<Edge>, sorted: seq<Operation>, perm: set<OperationID>, id: OperationID)
    requires KnownEdges(ops, edges) && Settled(ops, edges, sorted, perm) && Lands(edges, id, {}, perm) && Known(ops, id)
    ensures Lands(edges, id, {}, IDs(sorted))
  {
    forall n: nat | EndsAfter(edges, id, n) && Clear(edges, id, n, {}) ensures Nth(edges, id, n).value in IDs(sorted) {
      var x := Nth(edges, id, n).value;
      NthIsKnown(ops, edges, id, n);
      var i :| 0 <= i < |ops| && ops[i].id == x;
      assert ops[i] in ops && ops[i] in sorted;
    }
  }

  lemma {:induction false} NthIsKnown(ops: seq<Operation>, edges: seq<Edge>, id: OperationID, n: nat)
    requires KnownEdges(ops, edges) && Known(ops, id) && Nth(edges, id, n).Some?
    ensures Known(ops, Nth(edges, id, n).value)
    decreases n
  {
    if n > 0 {
      FirstChildIff(edges, id);
      var e := Edge(id, FirstChild(edges, id).value);
      assert e in edges && Known(ops, e.child);
      NthIsKnown(ops, edges, e.child, n - 1);
    }
  }

  lemma AllCovered(
    ops: seq<Operation>, edges: seq<Edge>, roots: seq<Operation>, sorted: seq<Operation>, perm: set<OperationID>)
    requires UniqueIDs(ops) && KnownEdges(ops, edges) && Settled(ops, edges, sorted, perm)
    requires roots == RootsOf(ops, edges) && Covered(edges, roots, perm, |roots|)
    ensures TopologicalOrder(ops, edges, Reversed(sorted))
    ensures forall o | o in roots :: !ReachesCycle(edges, o.id)
  {
    forall o | o in ops && IsRoot(edges, o.id) ensures o.id in perm {
      RootsOfIff(ops, edges, o);
    }
    forall id | id in perm ensures FromRoot(ops, edges, id) {
      assert FromEarlier(edges, roots, |roots|, id);
      var j :| 0 <= j < |roots| && Reaches(edges, roots[j].id, id);
      RootsOfIff(ops, edges, roots[j]);
    }
    SettledIsOrder(ops, edges, sorted, perm);
    forall o | o in roots ensures !ReachesCycle(edges, o.id) {
      RootsOfIff(ops, edges, o);
      SettledHasNoCycle(ops, edges, sorted, perm, o);
    }
  }

  lemma SettledComplete(
    ops: seq<Operation>, edges: seq<Edge>, sorted: seq<Operation>, perm: set<OperationID>, o: Operation)
    requires KnownEdges(ops, edges) && Settled(ops, edges, sorted, perm)
    requires forall o | o in ops && IsRoot(edges, o.id) :: o.id in perm
    requires o in ops && FromRoot(ops, edges, o.id)
    ensures o in sorted
  {
    var r :| r in ops && IsRoot(edges, r.id) && Reaches(edges, r.id, o.id);
    var p :| Path(edges, p) && p[0] == r.id && p[|p| - 1] == o.id;
    PathStaysMarked(ops, edges, sorted, perm, p, |p| - 1);
  }

  /** Marks are closed under edges, so a walk from a marked operation stays marked. */
  lemma {:induction false} PathStaysMarked(
    ops: seq<Operation>, edges: seq<Edge>, sorted: seq<Operation>, perm: set<OperationID>, p: seq<OperationID>, k: nat)
    requires KnownEdges(ops, edges) && Settled(ops, edges, sorted, perm)
    requires Path(edges, p) && k < |p| && p[0] in perm && Known(ops, p[0])
    ensures p[k] in perm && Known(ops, p[k])
  {
    if k > 0 {
      PathStaysMarked(ops, edges, sorted, perm, p, k - 1);
      var a :| 0 <= a < |ops| && ops[a].id == p[k - 1];
      assert Edge(p[k - 1], p[k]) in edges;
      var c :| 0 <= c < |ops| && ops[c].id == p[k];
      var i :| 0 <= i < |sorted| && sorted[i] == ops[a];
      assert ops[c] in sorted[..i];
    }
  }

  /** The position of a marked operation in the list. */
  ghost function Position(
    ops: seq<Operation>, edges: seq<Edge>, sorted: seq<Operation>, perm: set<OperationID>, id: OperationID): (i: nat)
    requires Settled(ops, edges, sorted, perm) && id in perm && Known(ops, id)
    ensures i < |sorted| && sorted[i].id == id
  {
    var a :| 0 <= a < |ops| && ops[a].id == id;
    var i :| 0 <= i < |sorted| && sorted[i] == ops[a];
    i
  }

  lemma EdgeLowersPosition(
    ops: seq<Operation>, edges: seq<Edge>, sorted: seq<Operation>, perm: set<OperationID>, a: OperationID,
    b: OperationID)
    requires Settled(ops, edges, sorted, perm) && Edge(a, b) in edges
    requires a in perm && Known(ops, a) && b in perm && Known(ops, b)
    ensures Position(ops, edges, sorted, perm, b) < Position(ops, edges, sorted, perm, a)
  {
    var i, j := Position(ops, edges, sorted, perm, a), Position(ops, edges, sorted, perm, b);
    assert sorted[j] in sorted;
    assert sorted[j] in sorted[..i];
    var m :| 0 <= m < i && sorted[m] == sorted[j];
  }

  /** Along a walk from a marked operation the positions decrease, so it cannot repeat. */
  /** The walk is along marked operations. */
  ghost predicate AllOn(ops: seq<Operation>, perm: set<OperationID>, p: seq<OperationID>) {
    forall k | 0 <= k < |p| :: p[k] in perm && Known(ops, p[k])
  }

  lemma {:induction false} PositionsDecrease(
    ops: seq<Operation>, edges: seq<Edge>, sorted: seq<Operation>, perm: set<OperationID>, p: seq<OperationID>,
    i: nat, j: nat)
    requires KnownEdges(ops, edges) && Settled(ops, edges, sorted, perm)
    requires Path(edges, p) && i < j < |p|
    requires AllOn(ops, perm, p)
    ensures Position(ops, edges, sorted, perm, p[j]) < Position(ops, edges, sorted, perm, p[i])
    decreases j
  {
    assert Edge(p[j - 1], p[j - 1 + 1]) in edges;
    EdgeLowersPosition(ops, edges, sorted, perm, p[j - 1], p[j]);
    if i < j - 1 {
      PositionsDecrease(ops, edges, sorted, perm, p, i, j - 1);
    }
  }

  lemma SettledHasNoCycle(
    ops: seq<Operation>, edges: seq<Edge>, sorted: seq<Operation>, perm: set<OperationID>, o: Operation)
    requires UniqueIDs(ops) && KnownEdges(ops, edges) && Settled(ops, edges, sorted, perm)
    requires o in ops && o.id in perm
    ensures !ReachesCycle(edges, o.id)
  {
    if ReachesCycle(edges, o.id) {
      var p :| Path(edges, p) && p[0] == o.id && Repeats(p);
      var i, j :| 0 <= i < j < |p| && p[i] == p[j];
      forall k | 0 <= k < |p| ensures p[k] in perm && Known(ops, p[k]) {
        PathStaysMarked(ops, edges, sorted, perm, p, k);
      }
      PositionsDecrease(ops, edges, sorted, perm, p, i, j);
    }
  }

  // ----- acyclic specs -----

  /** Walking edges backwards in an acyclic graph ends at a root. The operations not
      yet met are `rest`. */
  lemma {:induction false} WalkBack(ops: seq<Operation>, edges: seq<Edge>, p: seq<OperationID>, rest: set<OperationID>)
    requires KnownEdges(ops, edges) && Acyclic(edges)
    requires Path(edges, p) && Known(ops, p[0])
    requires forall id | Known(ops, id) && id !in p :: id in rest
    ensures FromRoot(ops, edges, p[|p| - 1])
    decreases rest
  {
    if IsRoot(edges, p[0]) {
      var a :| 0 <= a < |ops| && ops[a].id == p[0];
      assert Reaches(edges, ops[a].id, p[|p| - 1]);
    } else {
      var e :| e in edges && e.child == p[0];
      assert Edge(e.parent, p[0]) == e;
      PathPrepend(edges, e.parent, p);
      AcyclicExtends(edges, e.parent, p);
      WalkBack(ops, edges, [e.parent] + p, rest - {e.parent});
    }
  }

  lemma AcyclicExtends(edges: seq<Edge>, a: OperationID, p: seq<OperationID>)
    requires Acyclic(edges) && Path(edges, [a] + p)
    ensures a !in p
  {
    if a in p {
      var i :| 0 <= i < |p| && p[i] == a;
      assert ([a] + p)[0] == ([a] + p)[i + 1];
      assert Repeats([a] + p);
    }
  }

  lemma PathPrepend(edges: seq<Edge>, a: OperationID, p: seq<OperationID>)
    requires Path(edges, p) && Edge(a, p[0]) in edges
    ensures Path(edges, [a] + p)
  {
    var q := [a] + p;
    forall i | 0 <= i < |q| - 1 ensures Edge(q[i], q[i + 1]) in edges {
      if i > 0 { assert q[i] == p[i - 1] && q[i + 1] == p[i]; }
    }
  }

  lemma AcyclicFromRoot(ops: seq<Operation>, edges: seq<Edge>, o: Operation)
    requires KnownEdges(ops, edges) && Acyclic(edges) && o in ops
    ensures FromRoot(ops, edges, o.id)
  {
    var i :| 0 <= i < |ops| && ops[i] == o;
    assert Path(edges, [o.id]);
    WalkBack(ops, edges, [o.id], IDs(ops));
  }

  /** Every non-empty acyclic spec is accepted. */
  lemma AcyclicIsAccepted(ops: seq<Operation>, edges: seq<Edge>)
    requires UniqueIDs(ops) && KnownEdges(ops, edges) && ops != [] && Acyclic(edges)
    ensures Accepts(ops, edges)
  {
    AcyclicFromRoot(ops, edges, ops[0]);
  }

  /** Along a walk the positions in a topological order increase. */
  lemma {:induction false} PositionsIncrease(
    edges: seq<Edge>, sorted: seq<Operation>, p: seq<OperationID>, i: nat, j: nat, a: nat)
    requires EdgesForward(edges, sorted) && Path(edges, p) && i < j < |p|
    requires a < |sorted| && sorted[a].id == p[i]
    ensures exists b :: a < b < |sorted| && sorted[b].id == p[j]
    decreases j
  {
    assert Edge(p[j - 1], p[j]) in edges;
    if i < j - 1 {
      PositionsIncrease(edges, sorted, p, i, j - 1, a);
      var b :| a < b < |sorted| && sorted[b].id == p[j - 1];
      assert Edge(sorted[b].id, p[j]) in edges;
    }
  }

  /** The order lists all operations exactly when the whole graph is acyclic: a cycle
      that no root reaches is accepted, but its operations are left out. */
  lemma OrderCompleteIffAcyclic(ops: seq<Operation>, edges: seq<Edge>, sorted: seq<Operation>)
    requires UniqueIDs(ops) && KnownEdges(ops, edges) && TopologicalOrder(ops, edges, sorted)
    ensures multiset(sorted) == multiset(ops) <==> Acyclic(edges)
  {
    if Acyclic(edges) {
      forall o | o in ops ensures o in sorted { AcyclicFromRoot(ops, edges, o); }
      SameElements(sorted, ops);
    }
    if multiset(sorted) == multiset(ops) {
      forall i, j | 0 <= i < j < |sorted| ensures sorted[i].id != sorted[j].id {
        assert sorted[i] in sorted && sorted[j] in sorted;
        if sorted[i].id == sorted[j].id { SameOperation(ops, sorted[i], sorted[j]); }
      }
      forall e | e in edges ensures Known(sorted, e.parent) {
        var k :| 0 <= k < |ops| && ops[k].id == e.parent;
        assert ops[k] in multiset(ops);
        assert ops[k] in sorted;
      }
      ForwardIsAcyclic(edges, sorted);
    }
  }

  // ----- what `Walk` promises -----

  /** Every operation comes after all of its parents exactly when whatever a root reaches has only
      parents that roots reach as well. */
  lemma ParentsFirstIff(ops: seq<Operation>, edges: seq<Edge>, sorted: seq<Operation>)
    requires UniqueIDs(ops) && KnownEdges(ops, edges) && TopologicalOrder(ops, edges, sorted)
    ensures ParentsFirst(edges, sorted)
            <==> forall e | e in edges && FromRoot(ops, edges, e.child) :: FromRoot(ops, edges, e.parent)
  {
    if ParentsFirst(edges, sorted) {
      forall e | e in edges && FromRoot(ops, edges, e.child) ensures FromRoot(ops, edges, e.parent) {
        var i := ListedAt(ops, edges, sorted, e.child);
        var j :| 0 <= j < i && sorted[j].id == e.parent;
        assert sorted[j] in sorted;
      }
    }
    if forall e | e in edges && FromRoot(ops, edges, e.child) :: FromRoot(ops, edges, e.parent) {
      forall i, e | 0 <= i < |sorted| && e in edges && e.child == sorted[i].id
        ensures exists j :: 0 <= j < i && sorted[j].id == e.parent
      {
        ParentComesFirst(ops, edges, sorted, i, e);
      }
    }
  }

  lemma ListedAt(ops: seq<Operation>, edges: seq<Edge>, sorted: seq<Operation>, id: OperationID) returns (i: nat)
    requires TopologicalOrder(ops, edges, sorted) && Known(ops, id) && FromRoot(ops, edges, id)
    ensures i < |sorted| && sorted[i].id == id
  {
    var k :| 0 <= k < |ops| && ops[k].id == id;
    assert ops[k] in ops && ops[k] in sorted;
    i :| 0 <= i < |sorted| && sorted[i] == ops[k];
  }

  lemma ParentComesFirst(ops: seq<Operation>, edges: seq<Edge>, sorted: seq<Operation>, i: nat, e: Edge)
    requires UniqueIDs(ops) && KnownEdges(ops, edges) && TopologicalOrder(ops, edges, sorted)
    requires i < |sorted| && e in edges && e.child == sorted[i].id
    requires FromRoot(ops, edges, e.child) ==> FromRoot(ops, edges, e.parent)
    ensures exists j :: 0 <= j < i && sorted[j].id == e.parent
  {
    assert sorted[i] in sorted;
    var j := ListedAt(ops, edges, sorted, e.parent);
    var k :| j < k < |sorted| && sorted[k].id == e.child;
    assert sorted[k] in sorted;
    SameOperation(ops, sorted[i], sorted[k]);
    assert k == i;
  }

  // A root r with a child c, and a cycle of a and b that no root reaches but that leads to c.
  const HIDDEN_OPS := [Operation("r", ""), Operation("a", ""), Operation("b", ""), Operation("c", "")]
  const HIDDEN_EDGES := [Edge("a", "b"), Edge("b", "a"), Edge("a", "c"), Edge("r", "c")]

  lemma HiddenStep(p: seq<OperationID>, i: nat)
    requires Path(HIDDEN_EDGES, p)
    ensures i + 1 < |p| ==> (p[i], p[i + 1]) in {("a", "b"), ("b", "a"), ("a", "c"), ("r", "c")}
  {
    if i + 1 < |p| {
      assert Edge(p[i], p[i + 1]) in HIDDEN_EDGES;
    }
  }

  lemma HiddenPath(p: seq<OperationID>)
    requires Path(HIDDEN_EDGES, p) && p[0] == "r"
    ensures p == ["r"] || p == ["r", "c"]
  {
    HiddenStep(p, 0);
    HiddenStep(p, 1);
  }

  lemma HiddenRoot(id: OperationID)
    ensures IsRoot(HIDDEN_EDGES, id) <==> id !in {"a", "b", "c"}
  {
    assert HIDDEN_EDGES[0].child == "b" && HIDDEN_EDGES[1].child == "a" && HIDDEN_EDGES[2].child == "c";
  }

  lemma HiddenIsKnown()
    ensures UniqueIDs(HIDDEN_OPS) && KnownEdges(HIDDEN_OPS, HIDDEN_EDGES)
  {
    assert HIDDEN_OPS[0].id == "r" && HIDDEN_OPS[1].id == "a" && HIDDEN_OPS[2].id == "b" && HIDDEN_OPS[3].id == "c";
  }

  lemma HiddenIsAccepted()
    ensures Accepts(HIDDEN_OPS, HIDDEN_EDGES)
  {
    HiddenIsKnown();
    assert HIDDEN_OPS[0] in HIDDEN_OPS;
    HiddenRoot("r");
    forall o | o in HIDDEN_OPS && IsRoot(HIDDEN_EDGES, o.id) ensures !ReachesCycle(HIDDEN_EDGES, o.id) {
      HiddenRoot(o.id);
      forall p | Path(HIDDEN_EDGES, p) && p[0] == "r" ensures !Repeats(p) { HiddenPath(p); }
    }
  }

  lemma HiddenReach(id: OperationID)
    ensures FromRoot(HIDDEN_OPS, HIDDEN_EDGES, id) <==> id in {"r", "c"}
  {
    var r := HIDDEN_OPS[0];
    HiddenRoot("r");
    assert r in HIDDEN_OPS && Path(HIDDEN_EDGES, ["r"]) && Path(HIDDEN_EDGES, ["r", "c"]);
    assert Reaches(HIDDEN_EDGES, "r", ["r"][0]) && Reaches(HIDDEN_EDGES, "r", ["r", "c"][1]);
    forall o | o in HIDDEN_OPS && IsRoot(HIDDEN_EDGES, o.id) && Reaches(HIDDEN_EDGES, o.id, id)
      ensures id in {"r", "c"}
    {
      HiddenRoot(o.id);
      var p :| Path(HIDDEN_EDGES, p) && p[0] == o.id && p[|p| - 1] == id;
      HiddenPath(p);
    }
  }

  lemma HiddenIsCyclic()
    ensures !Acyclic(HIDDEN_EDGES)
  {
    var p := ["a", "b", "a"];
    assert Path(HIDDEN_EDGES, p) && p[0] == p[2];
  }

  /** This spec is accepted although it has a cycle, which its order leaves out. */
  lemma HiddenCycleIsAccepted(sorted: seq<Operation>)
    requires TopologicalOrder(HIDDEN_OPS, HIDDEN_EDGES, sorted)
    ensures Accepts(HIDDEN_OPS, HIDDEN_EDGES) && multiset(sorted) != multiset(HIDDEN_OPS)
  {
    HiddenIsKnown();
    HiddenIsAccepted();
    HiddenIsCyclic();
    OrderCompleteIffAcyclic(HIDDEN_OPS, HIDDEN_EDGES, sorted);
  }

  /** And the child of the cycle is listed although that parent never comes. */
  lemma HiddenParentIsMissing(sorted: seq<Operation>)
    requires TopologicalOrder(HIDDEN_OPS, HIDDEN_EDGES, sorted)
    ensures !ParentsFirst(HIDDEN_EDGES, sorted)
  {
    HiddenIsKnown();
    HiddenReach("a");
    HiddenReach("c");
    assert HIDDEN_EDGES[2] == Edge("a", "c");
    ParentsFirstIff(HIDDEN_OPS, HIDDEN_EDGES, sorted);
  }

  /** A list that a failed `prepare` left behind has parents first only if it holds nothing but
      roots: otherwise a second `Walk`, which takes the list as it is, visits children first. */
  lemma StaleParentsFirstIff(ops: seq<Operation>, edges: seq<Edge>, sorted: seq<Operation>)
    requires UniqueIDs(ops) && Stale(ops, edges, sorted)
    ensures ParentsFirst(edges, sorted) <==> forall o | o in sorted :: IsRoot(edges, o.id)
  {
    SubsetIDsAreUnique(ops, sorted);
    forall i, e | 0 <= i < |sorted| && e in edges && e.child == sorted[i].id ensures !ParentsFirst(edges, sorted) {
      ParentNotFirst(edges, sorted, i, e);
    }
  }

  lemma SubsetIDsAreUnique(ops: seq<Operation>, sorted: seq<Operation>)
    requires UniqueIDs(ops) && Distinct(sorted) && forall o | o in sorted :: o in ops
    ensures UniqueIDs(sorted)
  {
    forall i, j | 0 <= i < j < |sorted| ensures sorted[i].id != sorted[j].id {
      assert sorted[i] in sorted && sorted[j] in sorted;
      if sorted[i].id == sorted[j].id { SameOperation(ops, sorted[i], sorted[j]); }
    }
  }

  lemma ParentNotFirst(edges: seq<Edge>, sorted: seq<Operation>, i: nat, e: Edge)
    requires UniqueIDs(sorted) && EdgesBackward(edges, sorted)
    requires i < |sorted| && e in edges && e.child == sorted[i].id
    ensures !ParentsFirst(edges, sorted)
  {
    forall j | 0 <= j < i ensures sorted[j].id != e.parent {
      BackwardEdge(edges, sorted, j, e);
    }
  }

  lemma BackwardEdge(edges: seq<Edge>, sorted: seq<Operation>, j: nat, e: Edge)
    requires EdgesBackward(edges, sorted) && j < |sorted| && e in edges
    ensures sorted[j].id == e.parent ==> exists k :: 0 <= k < j && sorted[k].id == e.child
  {
  }

  /** In terms of the spec: a walk after a failed `prepare` visits parents first if and only if the
      roots before the first that reaches a cycle have no children, and the chain of first children
      of that one never ends. */
  lemma FailedWalkIff(ops: seq<Operation>, edges: seq<Edge>, sorted: seq<Operation>)
    requires UniqueIDs(ops) && Stale(ops, edges, sorted) && Stuck(edges, RootsOf(ops, edges), sorted)
    ensures ParentsFirst(edges, sorted) <==> FailsAtOnce(edges, RootsOf(ops, edges))
  {
    var roots := RootsOf(ops, edges);
    var k :| StuckAt(edges, roots, sorted, k);
    StaleParentsFirstIff(ops, edges, sorted);
    if FailsAtOnce(edges, roots) {
      var i :| FirstCyclic(edges, roots, i) && FindsNothing(edges, roots, i);
      FirstCyclicIsOne(edges, roots, i, k);
    }
    if ParentsFirst(edges, sorted) {
      ListOfRootsFoundNothing(edges, roots, sorted, k);
    }
  }

  lemma FirstCyclicIsOne(edges: seq<Edge>, roots: seq<Operation>, i: int, k: int)
    requires FirstCyclic(edges, roots, i) && FirstCyclic(edges, roots, k)
    ensures i == k
  {
  }

  lemma ListOfRootsFoundNothing(edges: seq<Edge>, roots: seq<Operation>, sorted: seq<Operation>, k: int)
    requires StuckAt(edges, roots, sorted, k) && EdgesBackward(edges, sorted)
    requires forall o | o in sorted :: IsRoot(edges, o.id)
    ensures FindsNothing(edges, roots, k)
  {
    forall j | 0 <= j < k ensures FirstChild(edges, roots[j].id).None? {
      ListedParentHasListedChild(edges, sorted, roots[j]);
    }
    forall n: nat ensures Nth(edges, roots[k].id, n).Some? {
      if Nth(edges, roots[k].id, n).None? {
        var m := ChainEnds(edges, roots[k].id, n);
        EndOfCyclicIsListed(edges, roots[k].id, sorted, m);
      }
    }
  }

  lemma ListedParentHasListedChild(edges: seq<Edge>, sorted: seq<Operation>, o: Operation)
    requires EdgesBackward(edges, sorted) && o in sorted
    ensures FirstChild(edges, o.id).Some? ==> exists u :: u in sorted && !IsRoot(edges, u.id)
  {
    if FirstChild(edges, o.id).Some? {
      FirstChildIff(edges, o.id);
      var e := Edge(o.id, FirstChild(edges, o.id).value);
      var i :| 0 <= i < |sorted| && sorted[i] == o;
      BackwardEdge(edges, sorted, i, e);
      var j :| 0 <= j < i && sorted[j].id == e.child;
      assert sorted[j] in sorted && !IsRoot(edges, sorted[j].id);
    }
  }

  lemma CyclicHasChild(edges: seq<Edge>, id: OperationID)
    requires ReachesCycle(edges, id)
    ensures FirstChild(edges, id).Some?
  {
    var p :| Path(edges, p) && p[0] == id && Repeats(p);
    PathHasChild(edges, p);
  }

  lemma EndOfCyclicIsListed(edges: seq<Edge>, id: OperationID, sorted: seq<Operation>, m: nat)
    requires ReachesCycle(edges, id) && Lands(edges, id, {}, IDs(sorted)) && EndsAfter(edges, id, m)
    ensures exists o :: o in sorted && !IsRoot(edges, o.id)
  {
    CyclicHasChild(edges, id);
    assert Clear(edges, id, m, {});
    var x := Nth(edges, id, m).value;
    var o :| o in sorted && o.id == x;
    assert m > 0;
    NthNext(edges, id, m - 1);
    FirstChildIff(edges, Nth(edges, id, m - 1).value);
    assert Edge(Nth(edges, id, m - 1).value, x) in edges && !IsRoot(edges, o.id);
  }

  // Two roots: r with a child c, and s, which reaches a cycle.
  const FAILING_OPS := [Operation("r", ""), Operation("c", ""), Operation("s", ""), Operation("a", "")]
  const FAILING_EDGES := [Edge("r", "c"), Edge("s", "a"), Edge("a", "a")]

  lemma FailingRoots()
    ensures RootsOf(FAILING_OPS, FAILING_EDGES) == [FAILING_OPS[0], FAILING_OPS[2]]
  {
    var ops, edges := FAILING_OPS, FAILING_EDGES;
    assert edges[0].child == "c" && edges[1].child == "a";
    assert IsRoot(edges, "r") && !IsRoot(edges, "c") && IsRoot(edges, "s") && !IsRoot(edges, "a");
    RootsOfFour(ops[0], ops[1], ops[2], ops[3], edges);
  }

  lemma RootsOfFour(a: Operation, b: Operation, c: Operation, d: Operation, edges: seq<Edge>)
    requires IsRoot(edges, a.id) && !IsRoot(edges, b.id) && IsRoot(edges, c.id) && !IsRoot(edges, d.id)
    ensures RootsOf([a, b, c, d], edges) == [a, c]
  {
    RootsOfLast([], a, edges);
    RootsOfLast([a], b, edges);
    RootsOfLast([a, b], c, edges);
    RootsOfLast([a, b, c], d, edges);
    assert [] + [a] == [a] && [a] + [b] == [a, b] && [a, b] + [c] == [a, b, c] && [a, b, c] + [d] == [a, b, c, d];
  }

  lemma RootsOfLast(ops: seq<Operation>, o: Operation, edges: seq<Edge>)
    ensures RootsOf(ops + [o], edges) == RootsOf(ops, edges) + if IsRoot(edges, o.id) then [o] else []
  {
    assert (ops + [o])[..|ops|] == ops;
  }

  lemma FailingPath(p: seq<OperationID>)
    requires Path(FAILING_EDGES, p) && p[0] == "r"
    ensures !Repeats(p)
  {
    FailingStep(p, 0);
    FailingStep(p, 1);
  }

  lemma FailingStep(p: seq<OperationID>, i: nat)
    requires Path(FAILING_EDGES, p)
    ensures i + 1 < |p| ==> (p[i], p[i + 1]) in {("r", "c"), ("s", "a"), ("a", "a")}
  {
    if i + 1 < |p| {
      assert Edge(p[i], p[i + 1]) in FAILING_EDGES;
    }
  }

  lemma FailingIsRejected()
    ensures UniqueIDs(FAILING_OPS) && KnownEdges(FAILING_OPS, FAILING_EDGES) && HasRoot(FAILING_OPS, FAILING_EDGES)
    ensures !Accepts(FAILING_OPS, FAILING_EDGES)
  {
    var ops, edges := FAILING_OPS, FAILING_EDGES;
    assert ops[0].id == "r" && ops[1].id == "c" && ops[2].id == "s" && ops[3].id == "a";
    assert IsRoot(edges, "s") && ops[2] in ops;
    var p := ["s", "a", "a"];
    assert Path(edges, p) && p[1] == p[2];
    assert ReachesCycle(edges, ops[2].id);
  }

  lemma FailingListHoldsRoot(sorted: seq<Operation>)
    requires Stuck(FAILING_EDGES, RootsOf(FAILING_OPS, FAILING_EDGES), sorted)
    ensures FAILING_OPS[0] in sorted
  {
    FailingRoots();
    forall p | Path(FAILING_EDGES, p) && p[0] == "r" ensures !Repeats(p) { FailingPath(p); }
    assert !ReachesCycle(FAILING_EDGES, "r");
    var roots := RootsOf(FAILING_OPS, FAILING_EDGES);
    var k :| StuckAt(FAILING_EDGES, roots, sorted, k);
    assert roots[0].id == "r" && k == 1;
  }

  /** What failing to prepare it leaves holds r, and before it c. */
  lemma FailingListIsBackward(sorted: seq<Operation>)
    requires Stale(FAILING_OPS, FAILING_EDGES, sorted) && FAILING_OPS[0] in sorted
    ensures !ParentsFirst(FAILING_EDGES, sorted)
  {
    FailingIsRejected();
    SubsetIDsAreUnique(FAILING_OPS, sorted);
    var i :| 0 <= i < |sorted| && sorted[i] == FAILING_OPS[0];
    var e := FAILING_EDGES[0];
    BackwardEdge(FAILING_EDGES, sorted, i, e);
    var j :| 0 <= j < i && sorted[j].id == e.child;
    ParentNotFirst(FAILING_EDGES, sorted, j, e);
  }

  /** A spec that fails to validate and is walked all the same: the walk reports no error and
      visits a child before its parent. */
  method WalkAfterFailure() returns (spec: Spec, validated: Result, walked: Result, visited: seq<Operation>)
    ensures validated == Fail(FoundCycle) && walked == Ok && visited != []
    ensures !ParentsFirst(spec.edges, visited)
  {
    spec := new Spec(FAILING_OPS, FAILING_EDGES);
    FailingIsRejected();
    validated := spec.Prepare();
    FailingListHoldsRoot(spec.sorted);
    FailingListIsBackward(spec.sorted);
    walked, visited := spec.Walk(o => true);
  }

  /** A list in which every edge goes forward leaves no room for a cycle. */
  lemma ForwardIsAcyclic(edges: seq<Edge>, sorted: seq<Operation>)
    requires UniqueIDs(sorted) && EdgesForward(edges, sorted)
    requires forall e | e in edges :: Known(sorted, e.parent)
    ensures Acyclic(edges)
  {
    forall p | Path(edges, p) && Repeats(p) ensures false {
      var i, j :| 0 <= i < j < |p| && p[i] == p[j];
      assert Edge(p[i], p[i + 1]) in edges;
      assert Known(sorted, Edge(p[i], p[i + 1]).parent);
      var a :| 0 <= a < |sorted| && sorted[a].id == p[i];
      PositionsIncrease(edges, sorted, p, i, j, a);
    }
  }

  lemma SameElements(a: seq<Operation>, b: seq<Operation>)
    requires Distinct(a) && Distinct(b) && forall o :: o in a <==> o in b
    ensures multiset(a) == multiset(b)
  {
    forall o ensures multiset(a)[o] == multiset(b)[o] {
      CountDistinct(a, o);
      CountDistinct(b, o);
    }
  }

  lemma {:induction false} CountDistinct(a: seq<Operation>, o: Operation)
    requires Distinct(a)
    ensures multiset(a)[o] == if o in a then 1 else 0
  {
    if a != [] {
      var n := |a| - 1;
      CountDistinct(a[..n], o);
      assert a == a[..n] + [a[n]];
    }
  }

  /** A map from every identifier to its operation. */
  ghost predicate IsLookup(ops: seq<Operation>, lookup: map<OperationID, Operation>) {
    && (forall id :: id in lookup <==> Known(ops, id))
    && forall id | id in lookup :: lookup[id] in ops && lookup[id].id == id
  }

  function Flip(edges: seq<Edge>): (flipped: seq<Edge>)
    ensures |flipped| == |edges|
  {
    seq(|edges|, i requires 0 <= i < |edges| => Edge(edges[i].child, edges[i].parent))
  }

  lemma FlipHas(edges: seq<Edge>, a: OperationID, b: OperationID)
    ensures Edge(a, b) in Flip(edges) <==> Edge(b, a) in edges
  {
    if Edge(b, a) in edges {
      var i :| 0 <= i < |edges| && edges[i] == Edge(b, a);
      assert Flip(edges)[i] == Edge(a, b);
    }
  }

  lemma SameOperation(ops: seq<Operation>, a: Operation, b: Operation)
    requires UniqueIDs(ops) && a in ops && b in ops && a.id == b.id
    ensures a == b
  {
    var i :| 0 <= i < |ops| && ops[i] == a;
    var j :| 0 <= j < |ops| && ops[j] == b;
  }

  lemma LinkedAppend(
    ops: seq<Operation>, edges: seq<Edge>, children: map<OperationID, seq<Operation>>, e: Edge, c: Operation)
    requires UniqueIDs(ops) && Linked(ops, edges, children) && c in ops && c.id == e.child
    ensures Linked(ops, edges + [e], children[e.parent := Get(children, e.parent) + [c]])
  {
    var children' := children[e.parent := Get(children, e.parent) + [c]];
    forall id, o ensures o in Get(children', id) <==> o in ops && Edge(id, o.id) in edges + [e] {
      assert Edge(id, o.id) in edges + [e] <==> Edge(id, o.id) in edges || Edge(id, o.id) == e;
      assert o in Get(children, id) <==> o in ops && Edge(id, o.id) in edges;
      assert Edge(e.parent, c.id) == e;
      if id == e.parent {
        assert o in Get(children', id) <==> o in Get(children, id) || o == c;
        if o in ops && Edge(id, o.id) == e { SameOperation(ops, o, c); }
      }
    }
  }

  /** An operation is a root exactly when it has no parents. */
  lemma ChildLinked(
    ops: seq<Operation>, edges: seq<Edge>, k: nat, children: map<OperationID, seq<Operation>>, c: Operation)
    requires k < |edges| && Linked(ops, edges[..k], children) && FirstLinked(edges[..k], children)
    requires UniqueIDs(ops) && c in ops && c.id == edges[k].child
    ensures var children' := children[edges[k].parent := Get(children, edges[k].parent) + [c]];
            Linked(ops, edges[..k + 1], children') && FirstLinked(edges[..k + 1], children')
  {
    assert edges[..k + 1] == edges[..k] + [edges[k]];
    LinkedAppend(ops, edges[..k], children, edges[k], c);
    FirstLinkedAppend(edges[..k], children, edges[k], c);
  }

  lemma ParentLinked(
    ops: seq<Operation>, edges: seq<Edge>, k: nat, parents: map<OperationID, seq<Operation>>, p: Operation)
    requires k < |edges| && Linked(ops, Flip(edges[..k]), parents)
    requires UniqueIDs(ops) && p in ops && p.id == edges[k].parent
    ensures Linked(ops, Flip(edges[..k + 1]), parents[edges[k].child := Get(parents, edges[k].child) + [p]])
  {
    var e := Edge(edges[k].child, edges[k].parent);
    assert Flip(edges[..k + 1]) == Flip(edges[..k]) + [e];
    LinkedAppend(ops, Flip(edges[..k]), parents, e, p);
  }

  lemma RootIff(ops: seq<Operation>, edges: seq<Edge>, parents: map<OperationID, seq<Operation>>, id: OperationID)
    requires KnownEdges(ops, edges) && Linked(ops, Flip(edges), parents)
    ensures Get(parents, id) == [] <==> IsRoot(edges, id)
  {
    if Get(parents, id) != [] {
      var o := Get(parents, id)[0];
      FlipHas(edges, id, o.id);
    }
    if !IsRoot(edges, id) {
      var e :| e in edges && e.child == id;
      var i :| 0 <= i < |ops| && ops[i].id == e.parent;
      FlipHas(edges, id, e.parent);
      assert ops[i] in Get(parents, id);
    }
  }
}
