/**
 `arrowFunc.Resolve`: before a closure is shipped to the compiler, every identifier
 that is not a parameter is replaced by the value it has in the captured scope.
 */
module Resolve {
  import opened Options
  import opened Semantic
  import opened Interpreter
  import opened Compiler
  import opened CompilerCorrectness

  /** `resolveIdentifiers`. It has no case for member expressions, which therefore
      stay as they are, whatever identifiers they contain. */
  function ResolveIdentifiers(params: set<string>, captured: Scope, e: Expr): Outcome<Expr>
    decreases e, 1
  {
    match e
    case Ident(name, _) =>
      if name in params then Ok(e) else
      (match Lookup(captured, name)
       case Some(v) => ResolveValue(v)
       case None => Err)
    case ObjectLit(props) =>
      (match ResolveProperties(params, captured, props)
       case Ok(ps) => Ok(ObjectLit(ps))
       case _ => Err)
    case ArrayLit(elems) =>
      (match ResolveElements(params, captured, elems)
       case Ok(es) => Ok(ArrayLit(es))
       case _ => Err)
    case Unary(op, arg) =>
      (match ResolveIdentifiers(params, captured, arg)
       case Ok(a) => Ok(Unary(op, a))
       case failure => failure)
    case Binary(op, left, right) =>
      (match (ResolveIdentifiers(params, captured, left), ResolveIdentifiers(params, captured, right))
       case (Ok(l), Ok(r)) => Ok(Binary(op, l, r))
       case _ => Err)
    case Logical(op, left, right) =>
      (match (ResolveIdentifiers(params, captured, left), ResolveIdentifiers(params, captured, right))
       case (Ok(l), Ok(r)) => Ok(Logical(op, l, r))
       case _ => Err)
    case _ => Ok(e)
  }

  function ResolveProperties(params: set<string>, captured: Scope, props: seq<Property>): Outcome<seq<Property>>
    decreases props, 0
  {
    if props == [] then Ok([]) else
    match (ResolveIdentifiers(params, captured, props[0].value), ResolveProperties(params, captured, props[1..]))
    case (Ok(e), Ok(rest)) => Ok([Property(props[0].key, e)] + rest)
    case _ => Err
  }

  function ResolveElements(params: set<string>, captured: Scope, elems: seq<Expr>): Outcome<seq<Expr>>
    decreases elems, 0
  {
    if elems == [] then Ok([]) else
    match (ResolveIdentifiers(params, captured, elems[0]), ResolveElements(params, captured, elems[1..]))
    case (Ok(e), Ok(rest)) => Ok([e] + rest)
    case _ => Err
  }

  /** `resolveValue`: the literal that denotes a value. It compares the type of the value
      with the kinds `Array` and `Object`, which the type of an array or an object never
      is, so that its cases for these are not reached and it reports an error. */
  function ResolveValue(v: Value): Outcome<Expr> {
    match v
    case BoolValue(b) => Ok(BoolLit(b))
    case IntValue(i) => Ok(IntLit(i))
    case UIntValue(u) => Ok(UIntLit(u))
    case FloatValue(f) => Ok(FloatLit(f))
    case StringValue(s) => Ok(StringLit(s))
    case RegexpValue(r) => Ok(RegexpLit(r))
    case TimeValue(t) => Ok(TimeLit(t))
    case DurationValue(d) => Ok(DurationLit(d))
    case ArrayValue(_, _) => Err
    case ObjectValue(_) => Err
  }

  // ----- when it succeeds, and what is left -----

  /** A value that is neither an array nor an object. */
  predicate Scalar(v: Value) {
    !v.ArrayValue? && !v.ObjectValue?
  }

  /** Every identifier outside member expressions is a parameter or is bound to a scalar in
      the captured scope. */
  predicate Resolvable(params: set<string>, captured: Scope, e: Expr)
    decreases e
  {
    match e
    case Ident(name, _) => name in params || (Lookup(captured, name).Some? && Scalar(Lookup(captured, name).value))
    case ObjectLit(props) => forall i | 0 <= i < |props| :: Resolvable(params, captured, props[i].value)
    case ArrayLit(elems) => forall i | 0 <= i < |elems| :: Resolvable(params, captured, elems[i])
    case Unary(_, arg) => Resolvable(params, captured, arg)
    case Binary(_, l, r) => Resolvable(params, captured, l) && Resolvable(params, captured, r)
    case Logical(_, l, r) => Resolvable(params, captured, l) && Resolvable(params, captured, r)
    case _ => true
  }

  /** Every identifier is one of `names`. */
  predicate Mentions(e: Expr, names: set<string>)
    decreases e
  {
    match e
    case Ident(name, _) => name in names
    case Member(obj, _) => Mentions(obj, names)
    case ObjectLit(props) => forall i | 0 <= i < |props| :: Mentions(props[i].value, names)
    case ArrayLit(elems) => forall i | 0 <= i < |elems| :: Mentions(elems[i], names)
    case Unary(_, arg) => Mentions(arg, names)
    case Binary(_, l, r) => Mentions(l, names) && Mentions(r, names)
    case Logical(_, l, r) => Mentions(l, names) && Mentions(r, names)
    case _ => true
  }

  /** Member expressions are rooted at parameters. */
  predicate MembersRooted(e: Expr, params: set<string>)
    decreases e
  {
    match e
    case Member(obj, _) => Mentions(obj, params)
    case ObjectLit(props) => forall i | 0 <= i < |props| :: MembersRooted(props[i].value, params)
    case ArrayLit(elems) => forall i | 0 <= i < |elems| :: MembersRooted(elems[i], params)
    case Unary(_, arg) => MembersRooted(arg, params)
    case Binary(_, l, r) => MembersRooted(l, params) && MembersRooted(r, params)
    case Logical(_, l, r) => MembersRooted(l, params) && MembersRooted(r, params)
    case _ => true
  }

  /** Resolution succeeds exactly when every identifier it looks at is bound to a scalar. */
  lemma {:induction false} ResolveSucceedsIff(params: set<string>, captured: Scope, e: Expr)
    ensures ResolveIdentifiers(params, captured, e).Ok? <==> Resolvable(params, captured, e)
    decreases e, 1
  {
    match e
    case ObjectLit(props) => ResolvePropertiesSucceedsIff(params, captured, props);
    case ArrayLit(elems) => ResolveElementsSucceedsIff(params, captured, elems);
    case Unary(_, arg) => ResolveSucceedsIff(params, captured, arg);
    case Binary(_, l, r) =>
      ResolveSucceedsIff(params, captured, l);
      ResolveSucceedsIff(params, captured, r);
    case Logical(_, l, r) =>
      ResolveSucceedsIff(params, captured, l);
      ResolveSucceedsIff(params, captured, r);
    case _ =>
  }

  lemma {:induction false} ResolvePropertiesSucceedsIff(params: set<string>, captured: Scope, props: seq<Property>)
    ensures ResolveProperties(params, captured, props).Ok?
            <==> forall i | 0 <= i < |props| :: Resolvable(params, captured, props[i].value)
    decreases props, 0
  {
    if props != [] {
      ResolveSucceedsIff(params, captured, props[0].value);
      ResolvePropertiesSucceedsIff(params, captured, props[1..]);
      assert props == [props[0]] + props[1..];
    }
  }

  lemma {:induction false} ResolveElementsSucceedsIff(params: set<string>, captured: Scope, elems: seq<Expr>)
    ensures ResolveElements(params, captured, elems).Ok?
            <==> forall i | 0 <= i < |elems| :: Resolvable(params, captured, elems[i])
    decreases elems, 0
  {
    if elems != [] {
      ResolveSucceedsIff(params, captured, elems[0]);
      ResolveElementsSucceedsIff(params, captured, elems[1..]);
      assert elems == [elems[0]] + elems[1..];
    }
  }

  /** A captured array or object keeps a body from being resolved that the interpreter runs. */
  lemma CapturedArrayIsRejected(p: Platform)
    ensures var xs := ArrayValue([IntValue(1)], Basic(Int));
            && ResolveIdentifiers({}, [map["xs" := xs]], Ident("xs", None)) == Err
            && Interpret(p, Ident("xs", None), [map[], map["xs" := xs]]) == Ok(xs)
  {
    var xs := ArrayValue([IntValue(1)], Basic(Int));
    LookupThroughArgs(map[], [map["xs" := xs]], "xs");
    assert [map[]] + [map["xs" := xs]] == [map[], map["xs" := xs]];
  }

  /** The resolved body mentions only parameters exactly when its member expressions
      are rooted at parameters. */
  lemma {:induction false} ResolvedIsClosedIff(params: set<string>, captured: Scope, e: Expr)
    requires ResolveIdentifiers(params, captured, e).Ok?
    ensures Mentions(ResolveIdentifiers(params, captured, e).value, params) <==> MembersRooted(e, params)
    decreases e, 1
  {
    match e
    case ObjectLit(props) => ResolvedPropertiesClosedIff(params, captured, props);
    case ArrayLit(elems) => ResolvedElementsClosedIff(params, captured, elems);
    case Unary(_, arg) => ResolvedIsClosedIff(params, captured, arg);
    case Binary(_, l, r) =>
      ResolvedIsClosedIff(params, captured, l);
      ResolvedIsClosedIff(params, captured, r);
    case Logical(_, l, r) =>
      ResolvedIsClosedIff(params, captured, l);
      ResolvedIsClosedIff(params, captured, r);
    case _ =>
  }

  /** A member of a captured object is left as it is, and fails once the scope is gone. */
  lemma CapturedMemberIsKept(p: Platform)
    ensures var e := Member(Ident("o", None), "a");
            var captured := [map["o" := ObjectValue(map["a" := IntValue(1)])]];
            && !MembersRooted(e, {}) && ResolveIdentifiers({}, captured, e) == Ok(e)
            && Interpret(p, e, [map[]] + captured) == Ok(IntValue(1))
            && Interpret(p, e, [map[]]) == Err
  {
    var captured := [map["o" := ObjectValue(map["a" := IntValue(1)])]];
    LookupThroughArgs(map[], captured, "o");
  }

  lemma {:induction false} ResolvedPropertiesClosedIff(params: set<string>, captured: Scope, props: seq<Property>)
    requires ResolveProperties(params, captured, props).Ok?
    ensures var out := ResolveProperties(params, captured, props).value;
            (forall i | 0 <= i < |out| :: Mentions(out[i].value, params))
            <==> forall i | 0 <= i < |props| :: MembersRooted(props[i].value, params)
    decreases props, 0
  {
    if props != [] {
      ResolvedIsClosedIff(params, captured, props[0].value);
      ResolvedPropertiesClosedIff(params, captured, props[1..]);
      var out, rest := ResolveProperties(params, captured, props).value,
        ResolveProperties(params, captured, props[1..]).value;
      assert out == [out[0]] + rest && props == [props[0]] + props[1..];
      forall i | 0 <= i < |rest| ensures out[i + 1] == rest[i] {}
    }
  }

  lemma {:induction false} ResolvedElementsClosedIff(params: set<string>, captured: Scope, elems: seq<Expr>)
    requires ResolveElements(params, captured, elems).Ok?
    ensures var out := ResolveElements(params, captured, elems).value;
            (forall i | 0 <= i < |out| :: Mentions(out[i], params))
            <==> forall i | 0 <= i < |elems| :: MembersRooted(elems[i], params)
    decreases elems, 0
  {
    if elems != [] {
      ResolvedIsClosedIff(params, captured, elems[0]);
      ResolvedElementsClosedIff(params, captured, elems[1..]);
      var out, rest := ResolveElements(params, captured, elems).value,
        ResolveElements(params, captured, elems[1..]).value;
      assert out == [out[0]] + rest && elems == [elems[0]] + elems[1..];
      forall i | 0 <= i < |rest| ensures out[i + 1] == rest[i] {}
    }
  }

  // ----- meaning -----

  /** Round trip: a value that resolves is a scalar, and interpreting its literal gives it back. */
  lemma LiteralRoundTrip(p: Platform, v: Value, scope: Scope)
    ensures ResolveValue(v).Ok? <==> Scalar(v)
    ensures Scalar(v) ==> Interpret(p, ResolveValue(v).value, scope) == Ok(v)
  {
  }

  lemma LookupThroughArgs(args: Args, captured: Scope, name: string)
    ensures Lookup([args] + captured, name) == if name in args then Some(args[name]) else Lookup(captured, name)
  {
    assert ([args] + captured)[1..] == captured;
  }

  /** An expression that mentions only arguments does not see the captured scope. */
  lemma {:induction false} CapturedIrrelevant(p: Platform, e: Expr, args: Args, captured: Scope)
    requires Mentions(e, args.Keys)
    ensures Interpret(p, e, [args] + captured) == Interpret(p, e, [args])
    decreases e, 1
  {
    match e
    case Ident(name, _) => LookupThroughArgs(args, captured, name);
    case Member(obj, _) => CapturedIrrelevant(p, obj, args, captured);
    case ObjectLit(props) => CapturedIrrelevantProperties(p, props, args, captured, map[]);
    case ArrayLit(elems) => CapturedIrrelevantElements(p, elems, args, captured, None);
    case Unary(_, arg) => CapturedIrrelevant(p, arg, args, captured);
    case Binary(_, l, r) =>
      CapturedIrrelevant(p, l, args, captured);
      CapturedIrrelevant(p, r, args, captured);
    case Logical(_, l, r) =>
      CapturedIrrelevant(p, l, args, captured);
      CapturedIrrelevant(p, r, args, captured);
    case _ =>
  }

  lemma {:induction false} CapturedIrrelevantProperties(
    p: Platform, props: seq<Property>, args: Args, captured: Scope, acc: map<string, Value>)
    requires forall i | 0 <= i < |props| :: Mentions(props[i].value, args.Keys)
    ensures InterpretProperties(p, props, [args] + captured, acc) == InterpretProperties(p, props, [args], acc)
    decreases props, 0
  {
    if props != [] {
      CapturedIrrelevant(p, props[0].value, args, captured);
      match Interpret(p, props[0].value, [args])
      case Ok(v) => CapturedIrrelevantProperties(p, props[1..], args, captured, acc[props[0].key := v]);
      case _ =>
    }
  }

  lemma {:induction false} CapturedIrrelevantElements(
    p: Platform, elems: seq<Expr>, args: Args, captured: Scope, et: Option<Type>)
    requires forall i | 0 <= i < |elems| :: Mentions(elems[i], args.Keys)
    ensures InterpretElements(p, elems, [args] + captured, et) == InterpretElements(p, elems, [args], et)
    decreases elems, 0
  {
    if elems != [] {
      CapturedIrrelevant(p, elems[0], args, captured);
      match Interpret(p, elems[0], [args])
      case Ok(v) =>
        CapturedIrrelevantElements(p, elems[1..], args, captured, Some(if et.Some? then et.value else TypeOfValue(v)));
      case _ =>
    }
  }

  /** Resolution preserves meaning: under any arguments for the parameters, the
      resolved body on its own and the original body in its captured scope have the
      same outcome, be it a value, an error or a panic. */
  lemma {:induction false} ResolvePreservesMeaning(p: Platform, captured: Scope, e: Expr, args: Args)
    requires ResolveIdentifiers(args.Keys, captured, e).Ok?
    requires MembersRooted(e, args.Keys)
    ensures Interpret(p, ResolveIdentifiers(args.Keys, captured, e).value, [args])
            == Interpret(p, e, [args] + captured)
    decreases e, 1
  {
    match e
    case Ident(_, _) => ResolveIdentPreservesMeaning(p, captured, e, args);
    case Member(_, _) => CapturedIrrelevant(p, e, args, captured);
    case ObjectLit(props) => ResolvePropertiesPreservesMeaning(p, captured, props, args, map[]);
    case ArrayLit(elems) => ResolveElementsPreservesMeaning(p, captured, elems, args, None);
    case Unary(_, arg) => ResolvePreservesMeaning(p, captured, arg, args);
    case Binary(_, _, _) => ResolveBinaryPreservesMeaning(p, captured, e, args);
    case Logical(_, _, _) => ResolveLogicalPreservesMeaning(p, captured, e, args);
    case _ =>
  }

  lemma {:induction false} ResolveBinaryPreservesMeaning(p: Platform, captured: Scope, e: Expr, args: Args)
    requires e.Binary? && ResolveIdentifiers(args.Keys, captured, e).Ok? && MembersRooted(e, args.Keys)
    ensures Interpret(p, ResolveIdentifiers(args.Keys, captured, e).value, [args])
            == Interpret(p, e, [args] + captured)
    decreases e, 0
  {
    ResolvePreservesMeaning(p, captured, e.left, args);
    ResolvePreservesMeaning(p, captured, e.right, args);
  }

  lemma {:induction false} ResolveLogicalPreservesMeaning(p: Platform, captured: Scope, e: Expr, args: Args)
    requires e.Logical? && ResolveIdentifiers(args.Keys, captured, e).Ok? && MembersRooted(e, args.Keys)
    ensures Interpret(p, ResolveIdentifiers(args.Keys, captured, e).value, [args])
            == Interpret(p, e, [args] + captured)
    decreases e, 0
  {
    ResolvePreservesMeaning(p, captured, e.lleft, args);
    ResolvePreservesMeaning(p, captured, e.lright, args);
  }

  lemma ResolveIdentPreservesMeaning(p: Platform, captured: Scope, e: Expr, args: Args)
    requires e.Ident? && ResolveIdentifiers(args.Keys, captured, e).Ok?
    ensures Interpret(p, ResolveIdentifiers(args.Keys, captured, e).value, [args])
            == Interpret(p, e, [args] + captured)
  {
    LookupThroughArgs(args, captured, e.name);
    if e.name !in args { LiteralRoundTrip(p, Lookup(captured, e.name).value, [args]); }
  }

  lemma {:induction false} ResolvePropertiesPreservesMeaning(
    p: Platform, captured: Scope, props: seq<Property>, args: Args, acc: map<string, Value>)
    requires ResolveProperties(args.Keys, captured, props).Ok?
    requires forall i | 0 <= i < |props| :: MembersRooted(props[i].value, args.Keys)
    ensures InterpretProperties(p, ResolveProperties(args.Keys, captured, props).value, [args], acc)
            == InterpretProperties(p, props, [args] + captured, acc)
    decreases props, 0
  {
    if props != [] {
      var out := ResolveProperties(args.Keys, captured, props).value;
      assert out[1..] == ResolveProperties(args.Keys, captured, props[1..]).value;
      ResolvePreservesMeaning(p, captured, props[0].value, args);
      match Interpret(p, props[0].value, [args] + captured)
      case Ok(v) => ResolvePropertiesPreservesMeaning(p, captured, props[1..], args, acc[props[0].key := v]);
      case _ =>
    }
  }

  lemma {:induction false} ResolveElementsPreservesMeaning(
    p: Platform, captured: Scope, elems: seq<Expr>, args: Args, et: Option<Type>)
    requires ResolveElements(args.Keys, captured, elems).Ok?
    requires forall i | 0 <= i < |elems| :: MembersRooted(elems[i], args.Keys)
    ensures InterpretElements(p, ResolveElements(args.Keys, captured, elems).value, [args], et)
            == InterpretElements(p, elems, [args] + captured, et)
    decreases elems, 0
  {
    if elems != [] {
      var out := ResolveElements(args.Keys, captured, elems).value;
      assert out[1..] == ResolveElements(args.Keys, captured, elems[1..]).value;
      ResolvePreservesMeaning(p, captured, elems[0], args);
      match Interpret(p, elems[0], [args] + captured)
      case Ok(v) =>
        ResolveElementsPreservesMeaning(p, captured, elems[1..], args,
          Some(if et.Some? then et.value else TypeOfValue(v)));
      case _ =>
    }
  }

  // ----- from closure to compiled function -----

  lemma OnlyParamsMentions(e: Expr, names: set<string>)
    requires OnlyParams(e, names)
    ensures Mentions(e, names)
  {
  }

  /** The types of the arguments, which is what row functions are compiled for. */
  function ArgTypes(args: Args): (types: map<string, Type>)
    ensures types.Keys == args.Keys && WellTyped(types, args)
  {
    map name | name in args :: TypeOfValue(args[name])
  }

  /** The whole pipeline: a closure is resolved, its body compiled for the types of
      the arguments, and the compiled function run. It returns the value that calling
      the closure in the interpreter would return. */
  lemma ClosureCompiledCorrectly(p: Platform, captured: Scope, body: Expr, args: Args, resolved: Expr, fn: Func)
    requires ResolveIdentifiers(args.Keys, captured, body) == Ok(resolved)
    requires OnlyParams(resolved, args.Keys)
    requires CompileFunction(resolved, ArgTypes(args)) == Ok(fn)
    requires Supported(Declare(resolved, ArgTypes(args)))
    requires Interpret(p, body, [args] + captured).Ok?
    ensures var v := Interpret(p, body, [args] + captured).value;
            && fn.root.t == TypeOfValue(v)
            && Evaluates(p, fn, args, if HasMethod(KindOfValue(v)) then Ok(v) else Err)
  {
    OnlyParamsMentions(resolved, args.Keys);
    ResolvedIsClosedIff(args.Keys, captured, body);
    ResolvePreservesMeaning(p, captured, body, args);
    CompiledFunctionCorrect(p, resolved, ArgTypes(args), args);
  }
}
