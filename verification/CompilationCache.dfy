/**
 `CompilationCache`: a trie over the types of the parameters, in parameter order,
 whose leaves keep the result of compiling a function for those types.
 */
module CompilationCache {
  import opened Options
  import opened Semantic
  import opened Compiler
  import opened CompilerCorrectness

  /** The function being cached: its parameter names, and what the compiler returns
      for it under given parameter types. Nothing else about the compiler matters to
      the cache. */
  datatype Source<!F> = Source(params: seq<string>, compile: map<string, Type> -> Outcome<F>)

  /** The source that a function expression stands for. */
  function SourceOf(params: seq<string>, body: Expr): Source<Func> {
    Source(params, types => CompileFunction(body, types))
  }

  /** A way down the trie. */
  datatype Trail = Root | Step(up: Trail, t: Type)

  /** The type a type map gives a name; a missing name reads as the nil type. */
  function TypeFor(types: map<string, Type>, name: string): Type {
    if name in types then types[name] else NoType
  }

  /** The way the types of `params` lead on from `trail`. */
  function Follow(trail: Trail, params: seq<string>, types: map<string, Type>): Trail
    decreases params
  {
    if params == [] then trail
    else Follow(Step(trail, TypeFor(types, params[0])), params[1..], types)
  }

  /** The nodes of a trie, by the trail that leads to each. */
  type Nodes<!F> = map<Trail, Node<F>>

  /** `nodes` is a tree: distinct trails lead to distinct nodes, and the children of a
      node are the nodes one step further down. */
  ghost predicate Tree<F>(nodes: Nodes<F>)
    reads nodes.Values
  {
    Trails(nodes) && forall x | x in nodes :: LinkedAt(nodes, x)
  }

  ghost predicate Trails<F>(nodes: Nodes<F>) {
    && Root in nodes
    && (forall x | x in nodes :: x.Step? ==> x.up in nodes)
    && (forall x, y | x in nodes && y in nodes && nodes[x] == nodes[y] :: x == y)
  }

  ghost predicate LinkedAt<F>(nodes: Nodes<F>, x: Trail)
    requires x in nodes
    reads nodes[x]
  {
    && (forall t :: t in nodes[x].children <==> Step(x, t) in nodes)
    && (forall t | t in nodes[x].children :: nodes[x].children[t] == nodes[Step(x, t)])
  }

  /** A new node at the end of a new trail. */
  lemma TrailsGrow<F>(nodes: Nodes<F>, trail: Trail, t: Type, child: Node<F>)
    requires Trails(nodes) && trail in nodes && Step(trail, t) !in nodes
    requires forall x | x in nodes :: nodes[x] != child
    ensures Trails(nodes[Step(trail, t) := child])
    ensures forall u :: Step(Step(trail, t), u) !in nodes[Step(trail, t) := child]
  {
  }

  /** What the trie keeps at the end of a trail. */
  ghost function Cached<F>(nodes: Nodes<F>, trail: Trail): Option<Outcome<F>>
    reads nodes.Values
  {
    if trail in nodes then nodes[trail].result else None
  }

  /** `compilationCacheNode`; `result` stands for the pair of fields `fn` and `err`. */
  class Node<!F> {
    var children: map<Type, Node<F>>
    var result: Option<Outcome<F>>

    constructor ()
      ensures children == map[] && result == None
    {
      children := map[];
      result := None;
    }

    /** A new child for type `t`. */
    method Grow(t: Type, ghost nodes: Nodes<F>, ghost trail: Trail) returns (child: Node<F>, ghost nodes': Nodes<F>)
      requires Tree(nodes) && trail in nodes && nodes[trail] == this && t !in children
      modifies this
      ensures Tree(nodes')
      ensures nodes' == nodes[Step(trail, t) := child] && Step(trail, t) !in nodes && fresh(child)
      ensures child.result == None && forall x | x in nodes :: nodes[x].result == old(nodes[x].result)
    {
      assert LinkedAt(nodes, trail);
      child := new Node<F>();
      TrailsGrow(nodes, trail, t, child);
      nodes' := nodes[Step(trail, t) := child];
      children := children[t := child];
      forall x | x in nodes' ensures LinkedAt(nodes', x) {
        assert x in nodes ==> old(LinkedAt(nodes, x));
      }
    }

    /** The child for type `t`, created when missing. */
    method Child(t: Type, ghost nodes: Nodes<F>, ghost trail: Trail) returns (child: Node<F>, ghost nodes': Nodes<F>)
      requires Tree(nodes) && trail in nodes && nodes[trail] == this
      modifies this
      ensures Step(trail, t) in nodes' && nodes'[Step(trail, t)] == child
      ensures Tree(nodes')
      ensures forall x | x in nodes :: x in nodes' && nodes'[x] == nodes[x]
      ensures forall x | x in nodes' && x !in nodes :: fresh(nodes'[x])
      ensures forall x :: Cached(nodes', x) == old(Cached(nodes, x))
    {
      if t in children {
        child, nodes' := children[t], nodes;
      } else {
        child, nodes' := Grow(t, nodes, trail);
      }
    }

    /** `compilationCacheNode.compile`, at parameter `idx`. A panic of the compiler is
        passed on and nothing is kept. */
    method Compile(fn: Source<F>, idx: nat, types: map<string, Type>, ghost nodes: Nodes<F>, ghost trail: Trail)
      returns (r: Outcome<F>, ghost compiled: bool, ghost nodes': Nodes<F>)
      requires idx <= |fn.params|
      requires Tree(nodes) && trail in nodes && nodes[trail] == this
      modifies nodes.Values
      ensures Tree(nodes')
      ensures forall x | x in nodes :: x in nodes' && nodes'[x] == nodes[x]
      ensures forall x | x in nodes' && x !in nodes :: fresh(nodes'[x])
      ensures var leaf := Follow(trail, fn.params[idx..], types);
              && (compiled <==> old(Cached(nodes, leaf)).None?)
              && r == (if compiled then fn.compile(types) else old(Cached(nodes, leaf)).value)
              && Cached(nodes', leaf) == (if compiled && r.Panic? then None else Some(r))
              && forall x | x != leaf :: Cached(nodes', x) == old(Cached(nodes, x))
      decreases |fn.params| - idx
    {
      if idx == |fn.params| {
        nodes' := nodes;
        compiled := result.None?;
        if result.None? {
          r := fn.compile(types);
          if !r.Panic? { result := Some(r); }
        } else {
          r := result.value;
        }
      } else {
        assert fn.params[idx..][1..] == fn.params[idx + 1..];
        var t := TypeFor(types, fn.params[idx]);
        var child;
        child, nodes' := Child(t, nodes, trail);
        r, compiled, nodes' := child.Compile(fn, idx + 1, types, nodes', Step(trail, t));
      }
    }
  }

  // ----- the cache -----

  function Names(params: seq<string>): set<string> {
    set name | name in params
  }

  /** Two type maps lead to the same leaf only by agreeing on every parameter. */
  lemma {:induction false} FollowInjective(
    x: Trail, y: Trail, params: seq<string>, types: map<string, Type>, types': map<string, Type>)
    requires Follow(x, params, types) == Follow(y, params, types')
    ensures x == y
    ensures forall name | name in params :: TypeFor(types, name) == TypeFor(types', name)
    decreases params
  {
    if params != [] {
      FollowInjective(Step(x, TypeFor(types, params[0])), Step(y, TypeFor(types', params[0])), params[1..], types,
        types');
    }
  }

  lemma LeafIdentifiesTypes(params: seq<string>, types: map<string, Type>, types': map<string, Type>)
    requires types.Keys == types'.Keys == Names(params)
    requires Follow(Root, params, types) == Follow(Root, params, types')
    ensures types == types'
  {
    FollowInjective(Root, Root, params, types, types');
    forall name | name in types ensures types[name] == types'[name] {
      assert name in params;
      assert TypeFor(types, name) == TypeFor(types', name);
    }
  }

  /** Both maps give a name the same type, or neither gives it one. */
  predicate Alike(types: map<string, Type>, types': map<string, Type>, name: string) {
    var has, has' := name in types && types[name] != NoType, name in types' && types'[name] != NoType;
    if has && has' then types[name] == types'[name] else !has && !has'
  }

  lemma {:induction false} AlikeFollow(
    trail: Trail, params: seq<string>, types: map<string, Type>, types': map<string, Type>)
    requires forall name | name in params :: Alike(types, types', name)
    ensures Follow(trail, params, types) == Follow(trail, params, types')
    decreases params
  {
    if params != [] {
      assert Alike(types, types', params[0]);
      AlikeFollow(Step(trail, TypeFor(types, params[0])), params[1..], types, types');
    }
  }

  /** Two type maps share a leaf exactly when they are alike on every parameter. */
  lemma SameLeafIff(params: seq<string>, types: map<string, Type>, types': map<string, Type>)
    ensures Follow(Root, params, types) == Follow(Root, params, types')
            <==> forall name | name in params :: Alike(types, types', name)
  {
    if Follow(Root, params, types) == Follow(Root, params, types') {
      FollowInjective(Root, Root, params, types, types');
      forall name | name in params ensures Alike(types, types', name) {
        assert TypeFor(types, name) == TypeFor(types', name);
      }
    }
    if forall name | name in params :: Alike(types, types', name) {
      AlikeFollow(Root, params, types, types');
    }
  }

  /** What a cache keeps: a result for every leaf that has been compiled. */
  type Memo<!F> = map<Trail, Outcome<F>>

  /** One call, as the trie answers it: the kept result, or a fresh compilation. */
  function Answer<F>(fn: Source<F>, memo: Memo<F>, types: map<string, Type>): Outcome<F> {
    var leaf := Follow(Root, fn.params, types);
    if leaf in memo then memo[leaf] else fn.compile(types)
  }

  /** The results a call leaves behind; a panic leaves none. */
  function After<F>(fn: Source<F>, memo: Memo<F>, types: map<string, Type>): Memo<F> {
    var r := Answer(fn, memo, types);
    if r.Panic? then memo else memo[Follow(Root, fn.params, types) := r]
  }

  /** Every type map over exactly the parameters finds either nothing or what the
      compiler returns for it. */
  ghost predicate Faithful<F>(fn: Source<F>, memo: Memo<F>) {
    forall types: map<string, Type> {:trigger Follow(Root, fn.params, types)} | types.Keys == Names(fn.params) ::
      Follow(Root, fn.params, types) in memo
      ==> memo[Follow(Root, fn.params, types)] == fn.compile(types)
  }

  /** A faithful cache answers as the compiler does, errors included, and stays faithful. */
  lemma AnswerIsCompilation<F>(fn: Source<F>, memo: Memo<F>, types: map<string, Type>)
    requires Faithful(fn, memo) && types.Keys == Names(fn.params)
    ensures Answer(fn, memo, types) == fn.compile(types)
    ensures Faithful(fn, After(fn, memo, types))
  {
    var leaf := Follow(Root, fn.params, types);
    forall other: map<string, Type> | other.Keys == Names(fn.params) && Follow(Root, fn.params, other) == leaf
      ensures other == types
    {
      LeafIdentifiesTypes(fn.params, other, types);
    }
  }

  /** The leaves that hold a result after a sequence of calls. */
  function AfterAll<F>(fn: Source<F>, memo: Memo<F>, calls: seq<map<string, Type>>): Memo<F>
    decreases calls
  {
    if calls == [] then memo else AfterAll(fn, After(fn, memo, calls[0]), calls[1..])
  }

  /** How often the compiler runs over a sequence of calls. */
  function Compilations<F>(fn: Source<F>, memo: Memo<F>, calls: seq<map<string, Type>>): nat
    decreases calls
  {
    if calls == [] then 0
    else (if Follow(Root, fn.params, calls[0]) in memo then 0 else 1)
         + Compilations(fn, After(fn, memo, calls[0]), calls[1..])
  }

  /** Over every sequence of calls with type maps over exactly the parameters, each
      call is answered as the compiler would, and the cache is faithful afterwards. */
  lemma {:induction false} EveryAnswerIsCompilation<F>(
    fn: Source<F>, memo: Memo<F>, calls: seq<map<string, Type>>, i: nat)
    requires Faithful(fn, memo) && i < |calls|
    requires forall j | 0 <= j < |calls| :: calls[j].Keys == Names(fn.params)
    ensures Answer(fn, AfterAll(fn, memo, calls[..i]), calls[i]) == fn.compile(calls[i])
    decreases i
  {
    AnswerIsCompilation(fn, memo, calls[0]);
    if i > 0 {
      EveryAnswerIsCompilation(fn, After(fn, memo, calls[0]), calls[1..], i - 1);
      assert calls[..i][1..] == calls[1..][..i - 1];
    }
  }

  /** The cache in front of the row-function compiler, from empty. */
  lemma CacheAgreesWithCompiler(params: seq<string>, body: Expr, calls: seq<map<string, Type>>, i: nat)
    requires i < |calls| && forall j | 0 <= j < |calls| :: calls[j].Keys == Names(params)
    ensures Answer(SourceOf(params, body), AfterAll(SourceOf(params, body), map[], calls[..i]), calls[i])
            == CompileFunction(body, calls[i])
  {
    EveryAnswerIsCompilation(SourceOf(params, body), map[], calls, i);
  }

  /** In full generality, whatever names the type maps have: a call is answered with
      the compilation of the first call that agrees with it on the parameters. */
  lemma {:induction false} AnswerIsFirstCompilation<F>(
    fn: Source<F>, memo: Memo<F>, calls: seq<map<string, Type>>, j: nat, i: nat)
    requires j <= i < |calls|
    requires var leaf := Follow(Root, fn.params, calls[i]);
             && leaf !in memo && Follow(Root, fn.params, calls[j]) == leaf
             && forall k | 0 <= k < j :: Follow(Root, fn.params, calls[k]) != leaf
    requires !fn.compile(calls[j]).Panic?
    ensures Answer(fn, AfterAll(fn, memo, calls[..i]), calls[i]) == fn.compile(calls[j])
    decreases j
  {
    if i > 0 {
      assert calls[..i][1..] == calls[1..][..i - 1];
      if j > 0 {
        AnswerIsFirstCompilation(fn, After(fn, memo, calls[0]), calls[1..], j - 1, i - 1);
      } else {
        KeptForever(fn, After(fn, memo, calls[0]), calls[1..][..i - 1], Follow(Root, fn.params, calls[i]));
      }
    }
  }

  /** The first type map that compiles at a leaf decides: a later one that reaches the leaf gets
      what the compiler would return for it exactly when the two maps are equal, names that are
      no parameters included. */
  lemma AnswerIsExactIff(params: seq<string>, body: Expr, calls: seq<map<string, Type>>, j: nat, i: nat)
    requires j <= i < |calls| && CompileFunction(body, calls[j]).Ok?
    requires var leaf := Follow(Root, params, calls[i]);
             && Follow(Root, params, calls[j]) == leaf
             && forall k | 0 <= k < j :: Follow(Root, params, calls[k]) != leaf
    ensures Answer(SourceOf(params, body), AfterAll(SourceOf(params, body), map[], calls[..i]), calls[i])
            == CompileFunction(body, calls[i])
            <==> calls[i] == calls[j]
  {
    AnswerIsFirstCompilation(SourceOf(params, body), map[], calls, j, i);
  }

  /** The type maps have every one of these names, with the same types. */
  predicate AgreeOn(names: set<string>, types: map<string, Type>, types': map<string, Type>) {
    forall name | name in names :: name in types && name in types' && types[name] == types'[name]
  }

  /** Type maps that agree on the names of a body declare it alike. */
  lemma {:induction false} DeclareAgrees(
    e: Expr, names: set<string>, types: map<string, Type>, types': map<string, Type>)
    requires OnlyParams(e, names) && AgreeOn(names, types, types')
    ensures Declare(e, types) == Declare(e, types')
    decreases e, 1
  {
    match e
    case Member(obj, _) => DeclareAgrees(obj, names, types, types');
    case ObjectLit(props) => DeclarePropertiesAgrees(props, names, types, types');
    case ArrayLit(elems) => DeclareElementsAgrees(elems, names, types, types');
    case Unary(_, arg) => DeclareAgrees(arg, names, types, types');
    case Binary(_, l, r) => DeclareAgrees(l, names, types, types'); DeclareAgrees(r, names, types, types');
    case Logical(_, l, r) => DeclareAgrees(l, names, types, types'); DeclareAgrees(r, names, types, types');
    case _ =>
  }

  lemma {:induction false} DeclarePropertiesAgrees(
    props: seq<Property>, names: set<string>, types: map<string, Type>, types': map<string, Type>)
    requires (forall i | 0 <= i < |props| :: OnlyParams(props[i].value, names)) && AgreeOn(names, types, types')
    ensures DeclareProperties(props, types) == DeclareProperties(props, types')
    decreases props, 0
  {
    if props != [] {
      DeclareAgrees(props[0].value, names, types, types');
      DeclarePropertiesAgrees(props[1..], names, types, types');
    }
  }

  lemma {:induction false} DeclareElementsAgrees(
    elems: seq<Expr>, names: set<string>, types: map<string, Type>, types': map<string, Type>)
    requires (forall i | 0 <= i < |elems| :: OnlyParams(elems[i], names)) && AgreeOn(names, types, types')
    ensures DeclareElements(elems, types) == DeclareElements(elems, types')
    decreases elems, 0
  {
    if elems != [] {
      DeclareAgrees(elems[0], names, types, types');
      DeclareElementsAgrees(elems[1..], names, types, types');
    }
  }

  lemma SameLeafAgrees(params: seq<string>, types: map<string, Type>, types': map<string, Type>)
    requires Follow(Root, params, types) == Follow(Root, params, types')
    requires Names(params) <= types.Keys && Names(params) <= types'.Keys
    ensures AgreeOn(Names(params), types, types')
  {
    FollowInjective(Root, Root, params, types, types');
    forall name | name in Names(params) ensures types[name] == types'[name] {
      assert TypeFor(types, name) == TypeFor(types', name);
    }
  }

  /** For a body over the parameters, and a first call at the leaf that may also end in an error: a
      later call gets what the compiler would return for it exactly when the two type maps are
      equal or the body does not compile. */
  lemma ClosedAnswerIsExactIff(params: seq<string>, body: Expr, calls: seq<map<string, Type>>, j: nat, i: nat)
    requires OnlyParams(body, Names(params)) && forall k | 0 <= k < |calls| :: Names(params) <= calls[k].Keys
    requires j <= i < |calls| && !CompileFunction(body, calls[j]).Panic?
    requires var leaf := Follow(Root, params, calls[i]);
             && Follow(Root, params, calls[j]) == leaf
             && forall k | 0 <= k < j :: Follow(Root, params, calls[k]) != leaf
    ensures Answer(SourceOf(params, body), AfterAll(SourceOf(params, body), map[], calls[..i]), calls[i])
            == CompileFunction(body, calls[i])
            <==> calls[i] == calls[j] || CompileFunction(body, calls[j]).Err?
  {
    AnswerIsFirstCompilation(SourceOf(params, body), map[], calls, j, i);
    SameLeafAgrees(params, calls[i], calls[j]);
    DeclareAgrees(body, Names(params), calls[i], calls[j]);
  }

  lemma {:induction false} KeptForever<F>(fn: Source<F>, memo: Memo<F>, calls: seq<map<string, Type>>, leaf: Trail)
    requires leaf in memo
    ensures leaf in AfterAll(fn, memo, calls) && AfterAll(fn, memo, calls)[leaf] == memo[leaf]
    decreases calls
  {
    if calls != [] {
      KeptForever(fn, After(fn, memo, calls[0]), calls[1..], leaf);
    }
  }

  /** Equal type maps are compiled at most once: unless the compiler panics, it runs
      once for every leaf the calls fill. */
  lemma {:induction false} CompiledOncePerLeaf<F>(fn: Source<F>, memo: Memo<F>, calls: seq<map<string, Type>>)
    requires forall x | x in memo :: !memo[x].Panic?
    requires forall j | 0 <= j < |calls| :: !fn.compile(calls[j]).Panic?
    ensures AfterAll(fn, memo, calls).Keys
            == memo.Keys + set j | 0 <= j < |calls| :: Follow(Root, fn.params, calls[j])
    ensures |AfterAll(fn, memo, calls).Keys| == |memo.Keys| + Compilations(fn, memo, calls)
    decreases calls
  {
    if calls != [] {
      OneCallFillsOneLeaf(fn, memo, calls[0]);
      CompiledOncePerLeaf(fn, After(fn, memo, calls[0]), calls[1..]);
      LeavesOf(fn, calls);
    }
  }

  lemma OneCallFillsOneLeaf<F>(fn: Source<F>, memo: Memo<F>, types: map<string, Type>)
    requires forall x | x in memo :: !memo[x].Panic?
    requires !fn.compile(types).Panic?
    ensures var leaf, after := Follow(Root, fn.params, types), After(fn, memo, types);
            && after.Keys == memo.Keys + {leaf}
            && |after.Keys| == |memo.Keys| + (if leaf in memo then 0 else 1)
            && forall x | x in after :: !after[x].Panic?
  {
    assert After(fn, memo, types).Keys == memo.Keys + {Follow(Root, fn.params, types)};
    if Follow(Root, fn.params, types) in memo {
      assert After(fn, memo, types).Keys == memo.Keys;
    }
  }

  lemma LeavesOf<F>(fn: Source<F>, calls: seq<map<string, Type>>)
    requires calls != []
    ensures (set j | 0 <= j < |calls| :: Follow(Root, fn.params, calls[j]))
            == {Follow(Root, fn.params, calls[0])} + set j | 0 <= j < |calls[1..]| ::
              Follow(Root, fn.params, calls[1..][j])
  {
    forall j | 0 < j < |calls|
      ensures Follow(Root, fn.params, calls[j]) in set i | 0 <= i < |calls[1..]| ::
              Follow(Root, fn.params, calls[1..][i])
    {
      assert calls[1..][j - 1] == calls[j];
    }
  }

  /** A name that is no parameter is ignored on the way down, so that a later call gets
      the function compiled for an earlier one, and the two can behave differently. */
  lemma ExtraNamesAreConfused(p: Platform)
    ensures var fn := SourceOf(["a"], Ident("a", None));
            var types, more := map["a" := Basic(Int)], map["a" := Basic(Int), "b" := Basic(Int)];
            var answer := Answer(fn, After(fn, map[], types), more);
            && answer.Ok? && fn.compile(more).Ok?
            && Evaluates(p, answer.value, map["a" := IntValue(1)], Ok(IntValue(1)))
            && Evaluates(p, fn.compile(more).value, map["a" := IntValue(1)], Panic)
  {
    var fn := SourceOf(["a"], Ident("a", None));
    var types, more := map["a" := Basic(Int)], map["a" := Basic(Int), "b" := Basic(Int)];
    assert Follow(Root, fn.params, types) == Step(Root, Basic(Int)) == Follow(Root, fn.params, more);
    assert "b" in more.Keys;
  }

  /** The leaves of the trie hold exactly the results in `memo`. */
  ghost predicate Holds<F>(nodes: Nodes<F>, memo: Memo<F>)
    reads nodes.Values
  {
    Tree(nodes) && forall x :: Cached(nodes, x) == if x in memo then Some(memo[x]) else None
  }

  class Cache<!F> {
    const fn: Source<F>
    const root: Node<F>

    constructor (fn: Source<F>)
      ensures this.fn == fn && fresh(root) && Holds(map[Root := root], map[])
    {
      this.fn := fn;
      root := new Node<F>();
    }

    /** `CompilationCache.Compile`. */
    method Compile(types: map<string, Type>, ghost nodes: Nodes<F>, ghost memo: Memo<F>)
      returns (r: Outcome<F>, ghost runs: nat, ghost nodes': Nodes<F>)
      requires Holds(nodes, memo) && nodes[Root] == root
      modifies nodes.Values
      ensures Holds(nodes', After(fn, memo, types)) && nodes'[Root] == root
      ensures forall x | x in nodes' && x !in nodes :: fresh(nodes'[x])
      ensures r == Answer(fn, memo, types) && runs == Compilations(fn, memo, [types])
    {
      assert fn.params[0..] == fn.params;
      ghost var compiled;
      r, compiled, nodes' := root.Compile(fn, 0, types, nodes, Root);
      runs := if compiled then 1 else 0;
    }
  }
}
