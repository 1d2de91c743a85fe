/**
 The query domain: identifiers of operations, the parents of a call, and the spec of
 a whole script.
 */
module QueryDomain {
  import opened Options
  import opened Sequences
  import opened QuerySpec
  import opened QueryCompile
  import opened Strings
  import opened Decimals

  // ----- identifiers -----

  function NewID(name: string, n: nat): OperationID {
    name + Decimal(n)
  }

  predicate EndsInDigit(name: string) {
    name != [] && Digit(name[|name| - 1])
  }

  /** Names that end in a digit can make two calls share an identifier. */
  lemma DigitNamesCollide()
    ensures NewID("a", 11) == NewID("a1", 1) == "a11"
  {
    assert Decimal(11) == Decimal(1) + [DigitChar(1)];
  }

  /** Whether a name is another one followed by a number, which does not start with 0. */
  predicate Extends(name: string, longer: string) {
    |name| < |longer| && longer[..|name|] == name && AllDigits(longer[|name|..]) && longer[|name|] != '0'
  }

  ghost predicate Collide(name: string, name': string) {
    exists m: nat, n: nat :: m != n && NewID(name, m) == NewID(name', n)
  }

  /** The counter at which a name takes the identifier that a longer one has from the start. */
  lemma ExtensionMeets(name: string, longer: string) returns (m: nat)
    requires Extends(name, longer)
    ensures m > 0 && NewID(name, m) == NewID(longer, 0)
  {
    var d := longer[|name|..];
    assert AllDigits(d + "0") by { assert Digit('0'); }
    DecimalParse(d + "0");
    m := Parse(d + "0");
    assert longer == name + d;
    assert name + (d + "0") == (name + d) + "0";
    assert Decimal(0) == "0";
  }

  lemma ExtensionCollides(name: string, longer: string)
    requires Extends(name, longer)
    ensures Collide(name, longer)
  {
    var m := ExtensionMeets(name, longer);
  }

  lemma CollisionExtends(name: string, m: nat, name': string, n: nat)
    requires m != n && NewID(name, m) == NewID(name', n) && |name| <= |name'|
    ensures Extends(name, name')
  {
    var id := NewID(name, m);
    assert name == id[..|name|] && name' == id[..|name'|];
    assert Decimal(m) == id[|name|..] && Decimal(n) == id[|name'|..];
    if |name| == |name'| {
      ParseDecimal(m);
      ParseDecimal(n);
    } else {
      assert name'[|name|..] == Decimal(m)[..|name'| - |name|];
      assert |Decimal(m)| > 1;
      NoLeadingZero(m);
    }
  }

  /** Two function names can ever share an identifier exactly when one is the other followed by a number. */
  lemma NamesCollideIff(name: string, name': string)
    ensures Collide(name, name') <==> Extends(name, name') || Extends(name', name)
  {
    if Collide(name, name') {
      var m: nat, n: nat :| m != n && NewID(name, m) == NewID(name', n);
      if |name| <= |name'| {
        CollisionExtends(name, m, name', n);
      } else {
        CollisionExtends(name', n, name, m);
      }
    }
    if Extends(name, name') {
      ExtensionCollides(name, name');
    }
    if Extends(name', name) {
      ExtensionCollides(name', name);
      var m: nat, n: nat :| m != n && NewID(name', m) == NewID(name, n);
      assert n != m && NewID(name, n) == NewID(name', m);
    }
  }

  // ----- the parents of a call -----

  /** `AddParent`: a parent whose identifier is already there is dropped. */
  function AddParent(parents: seq<TableObject>, p: TableObject): seq<TableObject> {
    if exists q | q in parents :: q.id == p.id then parents else parents + [p]
  }

  function AddParents(parents: seq<TableObject>, added: seq<TableObject>): seq<TableObject>
    decreases added
  {
    if added == [] then parents else AddParents(AddParent(parents, added[0]), added[1..])
  }

  class Administration {
    var parents: seq<TableObject>

    constructor ()
      ensures parents == []
    {
      parents := [];
    }

    /** `Administration.AddParent`. */
    method Add(np: TableObject)
      modifies this
      ensures parents == AddParent(old(parents), np)
    {
      for i := 0 to |parents|
        invariant parents == old(parents) && forall j | 0 <= j < i :: parents[j].id != np.id
      {
        if parents[i].id == np.id {
          return;
        }
      }
      parents := parents + [np];
    }
  }

  /** The sort by identifier that `Call` applies to the parents. */
  function SortByID(ts: seq<TableObject>): seq<TableObject> {
    if ts == [] then [] else Insert(ts[0], SortByID(ts[1..]))
  }

  function Insert(t: TableObject, ts: seq<TableObject>): seq<TableObject> {
    if ts == [] || Before(t.id, ts[0].id) then [t] + ts else [ts[0]] + Insert(t, ts[1..])
  }

  predicate Increasing(ts: seq<TableObject>) {
    forall i, j | 0 <= i < j < |ts| :: Before(ts[i].id, ts[j].id)
  }

  lemma {:induction false} InsertSorts(t: TableObject, ts: seq<TableObject>)
    requires Increasing(ts) && forall u | u in ts :: u.id != t.id
    ensures Increasing(Insert(t, ts)) && forall u :: u in Insert(t, ts) <==> u == t || u in ts
  {
    if ts != [] {
      if Before(t.id, ts[0].id) {
        forall j | 0 < j < |ts| ensures Before(t.id, ts[j].id) { BeforeTransitive(t.id, ts[0].id, ts[j].id); }
      } else {
        InsertSorts(t, ts[1..]);
        BeforeTotal(t.id, ts[0].id);
        var rest := Insert(t, ts[1..]);
        forall j | 0 <= j < |rest| ensures Before(ts[0].id, rest[j].id) {
          assert rest[j] in rest;
        }
        assert ts == [ts[0]] + ts[1..];
      }
    }
  }

  lemma {:induction false} SortSorts(ts: seq<TableObject>)
    requires DistinctIDs(ts)
    ensures Increasing(SortByID(ts)) && forall u :: u in SortByID(ts) <==> u in ts
  {
    if ts != [] {
      SortSorts(ts[1..]);
      InsertSorts(ts[0], SortByID(ts[1..]));
      assert ts == [ts[0]] + ts[1..];
    }
  }

  lemma IncreasingIsDistinct(ts: seq<TableObject>)
    requires Increasing(ts)
    ensures DistinctIDs(ts)
  {
    forall i, j | 0 <= i < j < |ts| ensures ts[i].id != ts[j].id { BeforeIrreflexive(ts[i].id); }
  }

  lemma {:induction false} IncreasingIsUnique(a: seq<TableObject>, b: seq<TableObject>)
    requires Increasing(a) && Increasing(b) && forall t :: t in a <==> t in b
    ensures a == b
  {
    assert a != [] ==> a[0] in b;
    assert b != [] ==> b[0] in a;
    if a != [] && b != [] {
      HeadsAgree(a, b);
      IncreasingIsDistinct(a);
      IncreasingIsDistinct(b);
      assert a == [a[0]] + a[1..] && b == [b[0]] + b[1..];
      forall t ensures t in a[1..] <==> t in b[1..] {
        assert t in a <==> t == a[0] || t in a[1..];
        assert t in b <==> t == b[0] || t in b[1..];
      }
      IncreasingIsUnique(a[1..], b[1..]);
    }
  }

  lemma HeadsAgree(a: seq<TableObject>, b: seq<TableObject>)
    requires a != [] && b != [] && Increasing(a) && Increasing(b) && forall t :: t in a <==> t in b
    ensures a[0] == b[0]
  {
    if a[0] != b[0] {
      assert a[0] in b && b[0] in a;
      var i :| 0 <= i < |b| && b[i] == a[0];
      var j :| 0 <= j < |a| && a[j] == b[0];
      BeforeTransitive(a[0].id, b[0].id, a[0].id);
      BeforeIrreflexive(a[0].id);
    }
  }

  /** The parents a call ends up with. */
  function FinalParents(added: seq<TableObject>): seq<TableObject> {
    var parents := AddParents([], added);
    if |parents| > 1 then SortByID(parents) else parents
  }

  lemma AddParentsKeeps(parents: seq<TableObject>, added: seq<TableObject>)
    requires DistinctIDs(parents)
    ensures DistinctIDs(AddParents(parents, added))
    ensures forall t | t in AddParents(parents, added) :: t in parents || t in added
    ensures forall t | t in parents :: t in AddParents(parents, added)
    ensures forall t | t in added :: exists u | u in AddParents(parents, added) :: u.id == t.id
  {
    AddParentsDistinct(parents, added);
    forall t | t in added ensures exists u | u in AddParents(parents, added) :: u.id == t.id {
      var u := AddedStays(parents, added, t);
    }
    forall t ensures t in AddParents(parents, added) ==> t in parents || t in added
             ensures t in parents ==> t in AddParents(parents, added)
    {
      AddParentsHolds(parents, added, t);
    }
  }

  lemma {:induction false} AddParentsDistinct(parents: seq<TableObject>, added: seq<TableObject>)
    requires DistinctIDs(parents)
    ensures DistinctIDs(AddParents(parents, added))
    decreases added
  {
    if added != [] {
      AddParentsDistinct(AddParent(parents, added[0]), added[1..]);
    }
  }

  lemma {:induction false} AddParentsHolds(parents: seq<TableObject>, added: seq<TableObject>, t: TableObject)
    ensures t in AddParents(parents, added) ==> t in parents || t in added
    ensures t in parents ==> t in AddParents(parents, added)
    decreases added
  {
    if added != [] {
      AddParentsHolds(AddParent(parents, added[0]), added[1..], t);
    }
  }

  lemma {:induction false} AddedStays(parents: seq<TableObject>, added: seq<TableObject>, t: TableObject)
    returns (u: TableObject)
    requires t in added
    ensures u in AddParents(parents, added) && u.id == t.id
    decreases added
  {
    var p := AddParent(parents, added[0]);
    if t == added[0] {
      u := AddedIsThere(parents, t);
      AddParentsHolds(p, added[1..], u);
    } else {
      u := AddedStays(p, added[1..], t);
    }
  }

  lemma AddedIsThere(parents: seq<TableObject>, t: TableObject) returns (u: TableObject)
    ensures u in AddParent(parents, t) && u.id == t.id
  {
    var p := AddParent(parents, t);
    if q :| q in parents && q.id == t.id {
      u := q;
    } else {
      assert p[|parents|] == t;
      u := t;
    }
  }

  /** The final parents are in increasing order of identifier, without duplicates, and
      cover every parent added. */
  lemma FinalParentsSorted(added: seq<TableObject>)
    ensures Increasing(FinalParents(added)) && DistinctIDs(FinalParents(added))
    ensures forall t | t in FinalParents(added) :: t in added
    ensures forall t | t in added :: exists u | u in FinalParents(added) :: u.id == t.id
  {
    var parents := AddParents([], added);
    AddParentsKeeps([], added);
    if |parents| > 1 {
      SortSorts(parents);
    }
    IncreasingIsDistinct(FinalParents(added));
  }

  /** The order in which parents are added does not matter, only which they are. */
  lemma ParentsAreCanonical(added: seq<TableObject>, added': seq<TableObject>)
    requires forall t :: t in added <==> t in added'
    requires forall t, u | t in added && u in added && t.id == u.id :: t == u
    ensures FinalParents(added) == FinalParents(added')
  {
    FinalParentsSorted(added);
    FinalParentsSorted(added');
    forall t ensures t in FinalParents(added) <==> t in FinalParents(added') {
      if t in FinalParents(added) {
        var u :| u in FinalParents(added') && u.id == t.id;
        assert u in added && t in added;
      }
      if t in FinalParents(added') {
        var u :| u in FinalParents(added) && u.id == t.id;
        assert u in added && t in added;
      }
    }
    IncreasingIsUnique(FinalParents(added), FinalParents(added'));
  }

  // ----- the domain -----

  datatype Domain = Domain(id: nat, tables: seq<TableObject>)

  const START := Domain(0, [])

  /** A call of a builtin: `added` are the parents its constructor adds, in its order,
      and `failed` says whether the constructor reports an error instead. */
  datatype Call = Call(name: string, kind: string, added: seq<TableObject>, failed: bool)

  function TableOf(d: Domain, c: Call): TableObject {
    TableObject(NewID(c.name, d.id), c.kind, FinalParents(c.added))
  }

  function Step(d: Domain, c: Call): Domain {
    Domain(d.id + 1, if c.failed then d.tables else d.tables + [TableOf(d, c)])
  }

  function After(d: Domain, calls: seq<Call>): Domain
    decreases calls
  {
    if calls == [] then d else After(Step(d, calls[0]), calls[1..])
  }

  /** `buildSpec` on every table in turn, whether visited or not. */
  function BuildAll(ts: seq<TableObject>, b: Building): Building
    decreases ts
  {
    if ts == [] then b else BuildAll(ts[1..], Build(ts[0], b))
  }

  class QueryDomain {
    var id: nat
    var operations: seq<TableObject>

    ghost function State(): Domain
      reads this
    {
      Domain(id, operations)
    }

    constructor ()
      ensures State() == START
    {
      id, operations := 0, [];
    }

    /** `function.Call`: a table, or nothing but an error when the constructor fails. */
    method Run(c: Call) returns (r: Option<TableObject>)
      modifies this
      ensures State() == Step(old(State()), c)
      ensures r == if c.failed then None else Some(TableOf(old(State()), c))
    {
      var opID := NewID(c.name, id);
      id := id + 1;
      var a := new Administration();
      for k := 0 to |c.added|
        invariant id == old(id) + 1 && operations == old(operations)
        invariant fresh(a) && AddParents(a.parents, c.added[k..]) == AddParents([], c.added)
      {
        assert c.added[k..][1..] == c.added[k + 1..];
        a.Add(c.added[k]);
      }
      if c.failed {
        r := None;
      } else {
        var parents := if |a.parents| > 1 then SortByID(a.parents) else a.parents;
        var t := TableObject(opID, c.kind, parents);
        operations := operations + [t];
        r := Some(t);
      }
    }

    /** `queryDomain.ToSpec`. */
    method ToSpec() returns (operations: seq<Operation>, edges: seq<Edge>)
      ensures var b := BuildAll(this.operations, EMPTY);
              operations == OperationsOf(b.tables) && edges == b.edges
    {
      var spec := new SpecBuilder();
      for k := 0 to |this.operations|
        invariant fresh(spec) && spec.Valid()
        invariant BuildAll(this.operations[k..], spec.State()) == BuildAll(this.operations, EMPTY)
      {
        assert this.operations[k..][1..] == this.operations[k + 1..];
        spec.BuildSpec(this.operations[k]);
      }
      operations, edges := spec.operations, spec.edges;
    }
  }

  // ----- every run yields a valid spec -----

  /** No name is another one followed by a number. */
  ghost predicate Apart(names: set<string>) {
    forall a, b | a in names && b in names :: !Extends(a, b)
  }

  /** Names that do not end in a digit are apart. */
  lemma NamesWithoutDigitsAreApart(names: set<string>)
    requires forall a | a in names :: !EndsInDigit(a)
    ensures Apart(names)
  {
    forall a, b | a in names && b in names ensures !Extends(a, b) {
      ExtensionEndsInDigit(a, b);
    }
  }

  lemma ExtensionEndsInDigit(name: string, longer: string)
    ensures Extends(name, longer) ==> EndsInDigit(longer)
  {
    if Extends(name, longer) {
      assert Digit(longer[|name|..][|longer| - |name| - 1]);
    }
  }

  /** The calls have these function names and take their parents from earlier calls. */
  predicate Legal(names: set<string>, d: Domain, calls: seq<Call>)
    decreases calls
  {
    calls == [] ||
    (&& calls[0].name in names && (forall p | p in calls[0].added :: p in d.tables)
     && Legal(names, Step(d, calls[0]), calls[1..]))
  }

  /** What such calls keep: each table's parents are distinct earlier tables, and the
      identifiers come from distinct counters below the next one. */
  ghost predicate Sound(names: set<string>, d: Domain) {
    && ParentsEarlier(d.tables)
    && DistinctParents(d.tables) && DistinctIDs(d.tables)
    && forall t | t in d.tables :: Numbered(names, t, d.id)
  }

  ghost predicate Numbered(names: set<string>, t: TableObject, id: nat) {
    exists name, n: nat :: n < id && name in names && t.id == NewID(name, n)
  }

  lemma NumberedLater(names: set<string>, t: TableObject, id: nat)
    requires Numbered(names, t, id)
    ensures Numbered(names, t, id + 1)
  {
    var name, n: nat :| n < id && name in names && t.id == NewID(name, n);
    assert n < id + 1;
  }

  lemma StepIsSound(names: set<string>, d: Domain, c: Call)
    requires Sound(names, d) && Apart(names) && c.name in names && forall p | p in c.added :: p in d.tables
    ensures Sound(names, Step(d, c))
  {
    forall t | t in d.tables ensures Numbered(names, t, d.id + 1) { NumberedLater(names, t, d.id); }
    if !c.failed {
      var t, ts := TableOf(d, c), Step(d, c).tables;
      FinalParentsSorted(c.added);
      assert d.id < d.id + 1;
      forall u | u in d.tables ensures u.id != t.id { NewTableIsNew(names, d, c, u); }
      forall i, p | 0 <= i < |ts| && p in ts[i].parents ensures p in ts[..i] {
        if i < |d.tables| { assert ts[..i] == d.tables[..i]; } else { assert ts[..i] == d.tables; }
      }
    }
  }

  lemma NewTableIsNew(names: set<string>, d: Domain, c: Call, u: TableObject)
    requires Sound(names, d) && Apart(names) && c.name in names && u in d.tables
    ensures u.id != TableOf(d, c).id
  {
    var name, n: nat :| n < d.id && name in names && u.id == NewID(name, n);
    NamesCollideIff(name, c.name);
  }

  lemma {:induction false} RunIsSound(names: set<string>, d: Domain, calls: seq<Call>)
    requires Sound(names, d) && Apart(names) && Legal(names, d, calls)
    ensures Sound(names, After(d, calls))
    decreases calls
  {
    if calls != [] {
      StepIsSound(names, d, calls[0]);
      RunIsSound(names, Step(d, calls[0]), calls[1..]);
    }
  }

  /** When all parents have been visited, `buildSpec` only adds the edges to them. */
  lemma {:induction false} ParentsVisited(ps: seq<TableObject>, child: OperationID, b: Building)
    requires forall p | p in ps :: p.id in b.visited
    ensures BuildParents(ps, child, b) == b.(edges := b.edges + EdgesTo(ps, child))
    decreases ps
  {
    if ps == [] {
      NothingAdded(b.edges);
    } else {
      var e := [Edge(ps[0].id, child)];
      ParentsVisited(ps[1..], child, b.(edges := b.edges + e));
      Associates(b.edges, e, EdgesTo(ps[1..], child));
    }
  }

  /** Every table comes after its parents. */
  predicate ParentsEarlier(ts: seq<TableObject>) {
    forall i, p | 0 <= i < |ts| && p in ts[i].parents :: p in ts[..i]
  }

  lemma {:induction false} BuildAllFrom(ts: seq<TableObject>, k: nat)
    requires ParentsEarlier(ts) && k <= |ts|
    ensures BuildAll(ts[k..], AllListed(ts[..k])) == AllListed(ts)
    decreases |ts| - k
  {
    if k == |ts| {
      assert ts[..k] == ts && ts[k..] == [];
    } else {
      ListNext(ts, k);
      assert ts[k..][0] == ts[k] && ts[k..][1..] == ts[k + 1..];
      BuildAllFrom(ts, k + 1);
    }
  }

  /** Listing a table whose parents are all listed adds the table and its links. */
  lemma ListNext(ts: seq<TableObject>, k: nat)
    requires k < |ts| && forall p | p in ts[k].parents :: p in ts[..k]
    ensures Build(ts[k], AllListed(ts[..k])) == AllListed(ts[..k + 1])
  {
    var t, b := ts[k], AllListed(ts[..k]);
    ParentsVisited(t.parents, t.id, b);
    assert ts[..k + 1] == ts[..k] + [t];
    LinksLast(ts[..k], t);
    assert TableIDs(ts[..k + 1]) == TableIDs(ts[..k]) + {t.id};
  }

  /** The tables of a sound domain, all listed in call order. */
  function AllListed(tables: seq<TableObject>): Building {
    Building(tables, Links(tables), TableIDs(tables))
  }

  lemma SoundIsListed(names: set<string>, d: Domain)
    requires Sound(names, d)
    ensures var w := set t | t in d.tables; World(w) && Listed(w, AllListed(d.tables))
  {
    var w := set t | t in d.tables;
    forall t, p | t in w && p in t.parents ensures p in w {
      var i :| 0 <= i < |d.tables| && d.tables[i] == t;
      assert p in d.tables[..i];
    }
  }

  lemma BuildAllIsListed(names: set<string>, d: Domain)
    requires Sound(names, d)
    ensures BuildAll(d.tables, EMPTY) == AllListed(d.tables)
  {
    BuildAllFrom(d.tables, 0);
    assert d.tables[0..] == d.tables && d.tables[..0] == [] && TableIDs([]) == {};
  }

  /** Over every legal run of functions whose names are apart, `ToSpec` lists the operations in
      call order, which puts each after its parents, with exactly one edge for every link to a
      parent; and when there is an operation at all, the spec is a graph that `prepare` accepts.
      */
  lemma GeneratedSpecIsValid(names: set<string>, calls: seq<Call>, tables: seq<TableObject>, b: Building)
    requires Apart(names) && Legal(names, START, calls) && tables == After(START, calls).tables
    requires b == BuildAll(tables, EMPTY)
    ensures b.tables == tables && b.edges == Links(tables)
    ensures forall e | e in b.edges :: multiset(b.edges)[e] == 1
    ensures UniqueIDs(OperationsOf(tables)) && EdgesForward(b.edges, OperationsOf(tables)) && Acyclic(b.edges)
    ensures tables != [] ==> Accepts(OperationsOf(tables), b.edges)
  {
    var d := After(START, calls);
    RunIsSound(names, START, calls);
    BuildAllIsListed(names, d);
    SoundIsListed(names, d);
    ListedIsAccepted((set t | t in d.tables), b);
    forall e | e in b.edges ensures multiset(b.edges)[e] == 1 { LinksAreDistinct(tables, e); }
  }

  /** In particular, over every legal run of functions whose names do not end in a digit. */
  lemma DigitFreeSpecIsValid(names: set<string>, calls: seq<Call>, tables: seq<TableObject>, b: Building)
    requires forall name | name in names :: !EndsInDigit(name)
    requires Legal(names, START, calls) && tables == After(START, calls).tables && b == BuildAll(tables, EMPTY)
    ensures b.tables == tables && b.edges == Links(tables) && UniqueIDs(OperationsOf(tables))
    ensures tables != [] ==> Accepts(OperationsOf(tables), b.edges)
  {
    NamesWithoutDigitsAreApart(names);
    GeneratedSpecIsValid(names, calls, tables, b);
  }

  // ----- the spec, read off the calls -----

  /** The numbers of the calls that do not fail, in call order. */
  function Succeeding(calls: seq<Call>): seq<nat> {
    if calls == [] then []
    else
      var n := |calls| - 1;
      Succeeding(calls[..n]) + if calls[n].failed then [] else [n]
  }

  lemma {:induction false} SucceedingIff(calls: seq<Call>, k: nat)
    ensures k in Succeeding(calls) <==> k < |calls| && !calls[k].failed
  {
    if calls != [] {
      var n := |calls| - 1;
      SucceedingIff(calls[..n], k);
      assert k < n ==> calls[..n][k] == calls[k];
    }
  }

  lemma {:induction false} SucceedingIncreases(calls: seq<Call>, i: nat, j: nat)
    requires i < j < |Succeeding(calls)|
    ensures Succeeding(calls)[i] < Succeeding(calls)[j]
  {
    var n := |calls| - 1;
    var earlier := Succeeding(calls[..n]);
    if j < |earlier| {
      SucceedingIncreases(calls[..n], i, j);
    } else {
      assert earlier[i] in earlier;
      SucceedingIff(calls[..n], earlier[i]);
    }
  }

  lemma {:induction false} AfterLast(d: Domain, calls: seq<Call>, n: nat)
    requires |calls| == n + 1
    ensures After(d, calls) == Step(After(d, calls[..n]), calls[n])
    decreases n
  {
    if n > 0 {
      AfterLast(Step(d, calls[0]), calls[1..], n - 1);
      assert calls[..n][1..] == calls[1..][..n - 1];
    }
  }

  lemma {:induction false} AfterCounts(calls: seq<Call>)
    ensures After(START, calls).id == |calls| && |After(START, calls).tables| == |Succeeding(calls)|
  {
    if calls != [] {
      AfterCounts(calls[..|calls| - 1]);
      AfterLast(START, calls, |calls| - 1);
    }
  }

  /** The table of call number `k` has that call's kind, its name followed by the number, and the
      parents it added. */
  predicate Reflects(t: TableObject, calls: seq<Call>, k: nat) {
    && k < |calls| && !calls[k].failed
    && t.id == calls[k].name + Decimal(k) && t.kind == calls[k].kind && t.parents == FinalParents(calls[k].added)
  }

  lemma ReflectsLonger(t: TableObject, calls: seq<Call>, n: nat, k: nat)
    requires n <= |calls| && Reflects(t, calls[..n], k)
    ensures Reflects(t, calls, k)
  {
    assert calls[..n][k] == calls[k];
  }

  /** A run adds one table for every call that does not fail. */
  lemma {:induction false} TableOfCall(calls: seq<Call>, i: nat)
    requires i < |Succeeding(calls)| == |After(START, calls).tables|
    ensures Reflects(After(START, calls).tables[i], calls, Succeeding(calls)[i])
  {
    var n := |calls| - 1;
    var earlier := calls[..n];
    AfterCounts(earlier);
    AfterLast(START, calls, n);
    if i < |Succeeding(earlier)| {
      TableOfCall(earlier, i);
      ReflectsLonger(After(START, earlier).tables[i], calls, n, Succeeding(earlier)[i]);
    }
  }

  /** One of the tables has this identifier. */
  ghost predicate HasID(ts: seq<TableObject>, x: OperationID) {
    exists t | t in ts :: t.id == x
  }

  lemma {:induction false} EdgeToIff(ps: seq<TableObject>, child: OperationID, x: OperationID)
    ensures Edge(x, child) in EdgesTo(ps, child) <==> HasID(ps, x)
  {
    if ps != [] {
      EdgeToIff(ps[1..], child, x);
      assert ps == [ps[0]] + ps[1..];
    }
  }

  lemma {:induction false} LinkIff(ts: seq<TableObject>, i: nat, x: OperationID)
    requires DistinctIDs(ts) && i < |ts|
    ensures Edge(x, ts[i].id) in Links(ts) <==> HasID(ts[i].parents, x)
  {
    EdgeToIff(ts[0].parents, ts[0].id, x);
    if i > 0 {
      LinkIff(ts[1..], i - 1, x);
      if Edge(x, ts[i].id) in EdgesTo(ts[0].parents, ts[0].id) {
        var _ := EdgeSource(ts[0].parents, ts[0].id, Edge(x, ts[i].id));
      }
    } else if Edge(x, ts[0].id) in Links(ts[1..]) {
      var _, _ := LinkSource(ts[1..], Edge(x, ts[0].id));
    }
  }

  lemma SameIDs(a: seq<TableObject>, b: seq<TableObject>, x: OperationID)
    requires (forall t | t in a :: t in b) && (forall t | t in b :: HasID(a, t.id))
    ensures HasID(a, x) <==> HasID(b, x)
  {
    if HasID(a, x) {
      var t :| t in a && t.id == x;
      assert t in b;
    }
  }

  lemma ParentIDs(added: seq<TableObject>, x: OperationID)
    ensures HasID(FinalParents(added), x) <==> HasID(added, x)
  {
    var final := FinalParents(added);
    assert (forall t | t in final :: t in added) && (forall t | t in added :: HasID(final, t.id)) by {
      FinalParentsSorted(added);
    }
    SameIDs(final, added, x);
  }

  /** The operation of call number `k` has that call's kind, and its name followed by the number. */
  predicate OperationOfCall(op: Operation, calls: seq<Call>, k: nat) {
    k < |calls| && !calls[k].failed && op.id == calls[k].name + Decimal(k) && op.kind == calls[k].kind
  }

  /** Over every legal run the spec has one operation for each call that does not fail, in call
      order, of that call's kind and named after it and its number. */
  lemma SpecOfCalls(names: set<string>, calls: seq<Call>, b: Building, i: nat)
    requires Apart(names) && Legal(names, START, calls) && b == BuildAll(After(START, calls).tables, EMPTY)
    ensures |OperationsOf(b.tables)| == |Succeeding(calls)|
    ensures i < |Succeeding(calls)| ==> OperationOfCall(OperationsOf(b.tables)[i], calls, Succeeding(calls)[i])
  {
    GeneratedSpecIsValid(names, calls, After(START, calls).tables, b);
    AfterCounts(calls);
    if i < |Succeeding(calls)| { TableOfCall(calls, i); }
  }

  /** And the edges into the operation of a call come from exactly the parents that it added. */
  lemma EdgesOfCalls(names: set<string>, calls: seq<Call>, b: Building, k: nat, x: OperationID)
    requires Apart(names) && Legal(names, START, calls) && b == BuildAll(After(START, calls).tables, EMPTY)
    requires k < |calls| && !calls[k].failed
    ensures Edge(x, calls[k].name + Decimal(k)) in b.edges <==> HasID(calls[k].added, x)
  {
    var ts := After(START, calls).tables;
    assert b.edges == Links(ts) && DistinctIDs(ts) by {
      RunIsSound(names, START, calls);
      GeneratedSpecIsValid(names, calls, ts, b);
    }
    SucceedingIff(calls, k);
    var i: nat :| i < |Succeeding(calls)| && Succeeding(calls)[i] == k;
    assert i < |ts| && Reflects(ts[i], calls, k) by {
      AfterCounts(calls);
      TableOfCall(calls, i);
    }
    LinkIff(ts, i, x);
    ParentIDs(calls[k].added, x);
  }

  /** There are no other edges, and none twice. */
  lemma NoOtherEdges(names: set<string>, calls: seq<Call>, b: Building, e: Edge)
    requires Apart(names) && Legal(names, START, calls) && b == BuildAll(After(START, calls).tables, EMPTY)
    requires e in b.edges
    ensures multiset(b.edges)[e] == 1 && exists op | op in OperationsOf(b.tables) :: op.id == e.child
  {
    GeneratedSpecIsValid(names, calls, After(START, calls).tables, b);
    var i, _ := LinkSource(b.tables, e);
    assert OperationsOf(b.tables)[i].id == e.child;
  }

  // ----- and when it does not -----

  /** Calls that fail, which only use up the counter. */
  function Failures(name: string, k: nat): seq<Call> {
    if k == 0 then [] else [Call(name, "", [], true)] + Failures(name, k - 1)
  }

  lemma {:induction false} FailuresCount(names: set<string>, name: string, k: nat, d: Domain, rest: seq<Call>)
    requires name in names
    ensures After(d, Failures(name, k) + rest) == After(Domain(d.id + k, d.tables), rest)
    ensures Legal(names, Domain(d.id + k, d.tables), rest) ==> Legal(names, d, Failures(name, k) + rest)
  {
    var calls := Failures(name, k) + rest;
    if k == 0 {
      assert calls == rest;
    } else {
      assert calls[0] == Call(name, "", [], true) && calls[1..] == Failures(name, k - 1) + rest;
      FailuresCount(names, name, k - 1, Domain(d.id + 1, d.tables), rest);
    }
  }

  /** The longer name is called first, and the other one when the counter gets there. */
  function CollidingRun(name: string, longer: string, m: nat): seq<Call>
    requires m > 0
  {
    [Call(longer, "", [], false)] + (Failures(name, m - 1) + [Call(name, "", [], false)])
  }

  lemma CollidingRunResult(names: set<string>, name: string, longer: string, m: nat)
    requires name in names && longer in names && m > 0
    ensures Legal(names, START, CollidingRun(name, longer, m))
    ensures After(START, CollidingRun(name, longer, m)).tables
            == [TableObject(NewID(longer, 0), "", []), TableObject(NewID(name, m), "", [])]
  {
    var calls, last := CollidingRun(name, longer, m), [Call(name, "", [], false)];
    var d := Step(START, calls[0]);
    assert calls[1..] == Failures(name, m - 1) + last;
    assert d == Domain(1, [TableObject(NewID(longer, 0), "", [])]);
    FailuresCount(names, name, m - 1, d, last);
    OneMoreCall(names, Domain(m, d.tables), last[0]);
  }

  lemma OneMoreCall(names: set<string>, d: Domain, c: Call)
    requires c.name in names && c.added == [] && !c.failed
    ensures Legal(names, d, [c]) && After(d, [c]) == Step(d, c)
    ensures Step(d, c).tables == d.tables + [TableObject(NewID(c.name, d.id), c.kind, [])]
  {
    assert [c][1..] == [];
  }

  /** Tables without parents are listed as they are. */
  lemma {:induction false} BuildOrphans(ts: seq<TableObject>, b: Building)
    requires forall t | t in ts :: t.parents == []
    ensures BuildAll(ts, b).tables == b.tables + ts
  {
    if ts != [] {
      assert ts[0] in ts && Build(ts[0], b).tables == b.tables + [ts[0]];
      BuildOrphans(ts[1..], Build(ts[0], b));
      assert b.tables + [ts[0]] + ts[1..] == b.tables + ts;
    }
  }

  /** Every legal run of functions with these names gives a spec with unique identifiers. */
  ghost predicate AlwaysUnique(names: set<string>) {
    forall calls | Legal(names, START, calls) ::
      UniqueIDs(OperationsOf(BuildAll(After(START, calls).tables, EMPTY).tables))
  }

  lemma CollisionInSpec(names: set<string>, name: string, longer: string)
    requires name in names && longer in names && Extends(name, longer)
    ensures !AlwaysUnique(names)
  {
    var m := ExtensionMeets(name, longer);
    var calls := CollidingRun(name, longer, m);
    CollidingRunResult(names, name, longer, m);
    var tables := After(START, calls).tables;
    BuildOrphans(tables, EMPTY);
    assert BuildAll(tables, EMPTY).tables == tables;
    assert OperationsOf(tables)[0].id == OperationsOf(tables)[1].id;
  }

  /** Specs always have unique identifiers if and only if no name is another one followed by a number. */
  lemma AlwaysUniqueIffApart(names: set<string>)
    ensures AlwaysUnique(names) <==> Apart(names)
  {
    if Apart(names) {
      forall calls | Legal(names, START, calls)
        ensures UniqueIDs(OperationsOf(BuildAll(After(START, calls).tables, EMPTY).tables))
      {
        var tables := After(START, calls).tables;
        GeneratedSpecIsValid(names, calls, tables, BuildAll(tables, EMPTY));
      }
    } else {
      var a, b :| a in names && b in names && Extends(a, b);
      CollisionInSpec(names, a, b);
    }
  }
}
