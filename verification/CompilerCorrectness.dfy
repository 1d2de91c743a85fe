/**
 Compiled row functions mean what the interpreter says they mean.
 */
module CompilerCorrectness {
  import opened Options
  import opened Semantic
  import opened Interpreter
  import opened Compiler

  // ----- the three operator tables agree -----

  /** The compiler's table and the interpreter's table hold the same function under
      every signature, a division by zero panicking in both. */
  lemma BinaryTablesAgree(p: Platform, op: Operator, l: Value, r: Value)
    ensures CompiledBinary(p, op, l, r) == InterpretedBinary(p, op, l, r)
  {
  }

  /** The three tables have the same keys. */
  lemma BinarySignaturesAgree(p: Platform, op: Operator, l: Value, r: Value)
    ensures InterpretedBinary(p, op, l, r).Some? <==> CompiledSignature(op, KindOfValue(l), KindOfValue(r))
    ensures CompiledBinary(p, op, l, r).Some? <==> CompiledSignature(op, KindOfValue(l), KindOfValue(r))
  {
    BinaryTablesAgree(p, op, l, r);
  }

  lemma StaticSignaturesAgree(op: Operator, l: Kind, r: Kind)
    ensures CompiledSignature(op, l, r) <==> BinaryType(op, l, r) != Invalid
  {
  }

  /** An entry yields the kind the static table announces, or panics. */
  lemma BinaryTypesAgree(p: Platform, op: Operator, l: Value, r: Value)
    ensures match CompiledBinary(p, op, l, r)
            case Some(Ok(v)) => TypeOfValue(v) == Basic(BinaryType(op, KindOfValue(l), KindOfValue(r)))
            case Some(other) => other.Panic?
            case None => true
  {
  }

  // ----- the fragment -----

  /** Every identifier is declared, and bound in `args` to a value of its type. */
  predicate Bound(e: Expr, args: Args)
    decreases e
  {
    match e
    case Ident(name, decl) => decl.Some? && name in args && TypeOfValue(args[name]) == decl.value
    case Member(obj, _) => Bound(obj, args)
    case ObjectLit(props) => forall i | 0 <= i < |props| :: Bound(props[i].value, args)
    case ArrayLit(elems) => forall i | 0 <= i < |elems| :: Bound(elems[i], args)
    case Unary(_, arg) => Bound(arg, args)
    case Binary(_, l, r) => Bound(l, args) && Bound(r, args)
    case Logical(_, l, r) => Bound(l, args) && Bound(r, args)
    case _ => true
  }

  /** The kind of the static type, `Invalid` when there is none. */
  function StaticKind(e: Expr): Kind {
    var t := TypeOf(e);
    if t.Some? && t.value != NoType then KindOf(t.value) else Invalid
  }

  /** The two things the compiler accepts but does not run as the interpreter does
      are absent: indexing an array, and an object literal property whose kind
      `eval` cannot wrap. */
  predicate Supported(e: Expr)
    decreases e
  {
    match e
    case Member(obj, _) => Supported(obj) && StaticKind(obj) != Array
    case ObjectLit(props) =>
      forall i | 0 <= i < |props| :: Supported(props[i].value) && HasValue(StaticKind(props[i].value))
    case ArrayLit(elems) => forall i | 0 <= i < |elems| :: Supported(elems[i])
    case Unary(_, arg) => Supported(arg)
    case Binary(_, l, r) => Supported(l) && Supported(r)
    case Logical(_, l, r) => Supported(l) && Supported(r)
    case _ => true
  }

  // ----- compilation preserves meaning -----

  lemma CompiledType(e: Expr, ev: Evaluator)
    requires Compile(e) == Ok(ev)
    ensures TypeOf(e) == Some(ev.t)
  {
  }

  /** An evaluator has the type of `v`, and its method for the kind of `v` returns `v`. */
  ghost predicate Yields(p: Platform, ev: Evaluator, args: Args, v: Value) {
    && ev.t == TypeOfValue(v)
    && (HasMethod(KindOfValue(v)) ==> EvalAs(p, ev, KindOfValue(v), args) == Ok(v))
  }

  /** The hypotheses of the main theorem. */
  ghost predicate Runs(p: Platform, e: Expr, args: Args) {
    && Compile(e).Ok? && Bound(e, args) && Supported(e)
    && Interpret(p, e, [args]).Ok?
  }

  /** Whenever the interpreter yields a value, the compiled body has that value's
      type, and its method for the value's kind returns that very value. */
  lemma {:induction false} CompilePreservesMeaning(p: Platform, e: Expr, args: Args)
    requires Runs(p, e, args)
    ensures Yields(p, Compile(e).value, args, Interpret(p, e, [args]).value)
    decreases e, 1
  {
    match e
    case Member(_, _) => MemberPreservesMeaning(p, e, args);
    case ObjectLit(_) => ObjectPreservesMeaning(p, e, args);
    case Unary(op, arg) =>
      CompilePreservesMeaning(p, arg, args);
      CompiledType(arg, Compile(arg).value);
      UnaryYields(p, op, Compile(arg).value, args, Interpret(p, arg, [args]).value, Interpret(p, e, [args]).value);
    case Binary(_, _, _) => BinaryPreservesMeaning(p, e, args);
    case Logical(_, _, _) => LogicalPreservesMeaning(p, e, args);
    case _ => LeafYields(p, e, args);
  }

  lemma LeafYields(p: Platform, e: Expr, args: Args)
    requires Runs(p, e, args)
    requires !(e.Member? || e.ObjectLit? || e.Unary? || e.Binary? || e.Logical?)
    ensures Yields(p, Compile(e).value, args, Interpret(p, e, [args]).value)
  {
  }

  lemma {:induction false} MemberPreservesMeaning(p: Platform, e: Expr, args: Args)
    requires e.Member? && Runs(p, e, args)
    ensures Yields(p, Compile(e).value, args, Interpret(p, e, [args]).value)
    decreases e, 0
  {
    CompilePreservesMeaning(p, e.obj, args);
    CompiledType(e.obj, Compile(e.obj).value);
  }

  lemma {:induction false} ObjectPreservesMeaning(p: Platform, e: Expr, args: Args)
    requires e.ObjectLit? && Runs(p, e, args)
    ensures Yields(p, Compile(e).value, args, Interpret(p, e, [args]).value)
    decreases e, 0
  {
    PropertiesPreserveMeaning(p, e.props, args, map[], map[], map[]);
    MapYields(p, CompileProperties(e.props, map[]).value, PropertyTypes(e.props, map[]).value,
              InterpretProperties(p, e.props, [args], map[]).value.props, args);
  }

  lemma {:induction false} BinaryPreservesMeaning(p: Platform, e: Expr, args: Args)
    requires e.Binary? && Runs(p, e, args)
    ensures Yields(p, Compile(e).value, args, Interpret(p, e, [args]).value)
    decreases e, 0
  {
    var le, re := Compile(e.left).value, Compile(e.right).value;
    var l, r := Interpret(p, e.left, [args]).value, Interpret(p, e.right, [args]).value;
    CompilePreservesMeaning(p, e.left, args);
    CompilePreservesMeaning(p, e.right, args);
    CompiledType(e.left, le);
    CompiledType(e.right, re);
    BinaryYields(p, e.bop, le, re, args, l, r, Interpret(p, e, [args]).value);
  }

  lemma {:induction false} LogicalPreservesMeaning(p: Platform, e: Expr, args: Args)
    requires e.Logical? && Runs(p, e, args)
    ensures Yields(p, Compile(e).value, args, Interpret(p, e, [args]).value)
    decreases e, 0
  {
    CompilePreservesMeaning(p, e.lleft, args);
    if Interpret(p, e.lleft, [args]).value.b != (e.lop == Or) {
      CompilePreservesMeaning(p, e.lright, args);
    }
  }

  lemma UnaryYields(p: Platform, op: Operator, node: Evaluator, args: Args, a: Value, v: Value)
    requires Yields(p, node, args, a)
    requires InterpretedUnary(p, op, a) == Ok(v)
    ensures Yields(p, UnaryEval(node.t, node), args, v)
  {
  }

  lemma BinaryYields(p: Platform, op: Operator, le: Evaluator, re: Evaluator, args: Args, l: Value, r: Value, v: Value)
    requires Yields(p, le, args, l) && Yields(p, re, args, r)
    requires CompiledSignature(op, KindOfValue(l), KindOfValue(r))
    requires InterpretedBinary(p, op, l, r) == Some(Ok(v))
    ensures var t := Basic(BinaryType(op, KindOfValue(l), KindOfValue(r)));
            Yields(p, BinaryEval(t, op, KindOfValue(l), KindOfValue(r), le, re), args, v)
  {
    BinaryFunctionsAgree(p, op, l, r);
  }

  lemma BinaryFunctionsAgree(p: Platform, op: Operator, l: Value, r: Value)
    requires CompiledSignature(op, KindOfValue(l), KindOfValue(r))
    ensures HasMethod(KindOfValue(l)) && HasMethod(KindOfValue(r))
    ensures CompiledBinary(p, op, l, r) == InterpretedBinary(p, op, l, r)
    ensures match CompiledBinary(p, op, l, r)
            case Some(Ok(v)) =>
              && TypeOfValue(v) == Basic(BinaryType(op, KindOfValue(l), KindOfValue(r)))
              && KindOfValue(v) != Regexp && KindOfValue(v) != Object
            case Some(other) => other.Panic?
            case None => false
  {
    BinaryTablesAgree(p, op, l, r);
    BinarySignaturesAgree(p, op, l, r);
    BinaryTypesAgree(p, op, l, r);
  }

  /** The types are those of the values. */
  ghost predicate SameTypes(types: map<string, Type>, vals: map<string, Value>) {
    types.Keys == vals.Keys && forall k | k in vals :: types[k] == TypeOfValue(vals[k])
  }

  /** The evaluators, each set on an object, give the values. */
  ghost predicate SameValues(p: Platform, evs: map<string, Evaluator>, vals: map<string, Value>, args: Args) {
    evs.Keys == vals.Keys && forall k | k in vals :: EvalProperty(p, evs[k], args) == Ok(vals[k])
  }

  lemma MapYields(
    p: Platform, evs: map<string, Evaluator>, types: map<string, Type>, vals: map<string, Value>, args: Args)
    requires SameTypes(types, vals) && SameValues(p, evs, vals, args)
    ensures Yields(p, MapEval(ObjectOf(types), evs), args, ObjectValue(vals))
  {
    ObjectTypeFromProperties(types, vals);
    MapEvalFromProperties(p, evs, ObjectOf(types), vals, args);
  }

  lemma ObjectTypeFromProperties(types: map<string, Type>, vals: map<string, Value>)
    requires SameTypes(types, vals)
    ensures TypeOfValue(ObjectValue(vals)) == ObjectOf(types)
  {
    assert types == map k | k in vals :: TypeOfValue(vals[k]);
  }

  lemma MapEvalFromProperties(
    p: Platform, evs: map<string, Evaluator>, t: Type, vals: map<string, Value>, args: Args)
    requires SameValues(p, evs, vals, args)
    ensures EvalMap(p, MapEval(t, evs), args) == Ok(ObjectValue(vals))
  {
    assert vals == map k | k in evs :: EvalProperty(p, evs[k], args).value;
  }

  lemma SameValuesWith(
    p: Platform, evs: map<string, Evaluator>, vals: map<string, Value>, args: Args, key: string, ev: Evaluator,
    v: Value)
    requires SameValues(p, evs, vals, args) && EvalProperty(p, ev, args) == Ok(v)
    ensures SameValues(p, evs[key := ev], vals[key := v], args)
  {
  }

  lemma {:induction false} PropertyPreservesMeaning(p: Platform, e: Expr, args: Args)
    requires Compile(e).Ok? && Interpret(p, e, [args]).Ok?
    requires Bound(e, args) && Supported(e) && HasValue(StaticKind(e))
    ensures TypeOf(e) == Some(TypeOfValue(Interpret(p, e, [args]).value))
    ensures EvalProperty(p, Compile(e).value, args) == Interpret(p, e, [args])
    decreases e, 2
  {
    CompiledType(e, Compile(e).value);
    CompilePreservesMeaning(p, e, args);
  }

  /** Every property is bound, supported and of a kind that `eval` can wrap. */
  predicate Wrappable(props: seq<Property>, args: Args) {
    forall i | 0 <= i < |props| ::
      Bound(props[i].value, args) && Supported(props[i].value) && HasValue(StaticKind(props[i].value))
  }

  lemma PropertiesPreserveMeaning(
    p: Platform, props: seq<Property>, args: Args,
    evs: map<string, Evaluator>, types: map<string, Type>, vals: map<string, Value>)
    requires CompileProperties(props, evs).Ok? && PropertyTypes(props, types).Some?
    requires InterpretProperties(p, props, [args], vals).Ok? && Wrappable(props, args)
    requires SameTypes(types, vals) && SameValues(p, evs, vals, args)
    ensures InterpretProperties(p, props, [args], vals).value.ObjectValue?
    ensures var built := InterpretProperties(p, props, [args], vals).value.props;
            && SameTypes(PropertyTypes(props, types).value, built)
            && SameValues(p, CompileProperties(props, evs).value, built, args)
    decreases props, 1
  {
    PropertiesPreserveTypes(p, props, args, evs, types, vals);
    PropertiesPreserveValues(p, props, args, evs, vals);
  }

  lemma {:induction false} PropertiesPreserveTypes(
    p: Platform, props: seq<Property>, args: Args,
    evs: map<string, Evaluator>, types: map<string, Type>, vals: map<string, Value>)
    requires CompileProperties(props, evs).Ok? && PropertyTypes(props, types).Some?
    requires InterpretProperties(p, props, [args], vals).Ok? && Wrappable(props, args)
    requires SameTypes(types, vals)
    ensures InterpretProperties(p, props, [args], vals).value.ObjectValue?
    ensures SameTypes(PropertyTypes(props, types).value, InterpretProperties(p, props, [args], vals).value.props)
    decreases props, 0
  {
    if props != [] {
      var e, key := props[0].value, props[0].key;
      var ev, v, t := Compile(e).value, Interpret(p, e, [args]).value, TypeOf(e).value;
      PropertyPreservesMeaning(p, e, args);
      PropertiesPreserveTypes(p, props[1..], args, evs[key := ev], types[key := t], vals[key := v]);
    }
  }

  lemma {:induction false} PropertiesPreserveValues(
    p: Platform, props: seq<Property>, args: Args, evs: map<string, Evaluator>, vals: map<string, Value>)
    requires CompileProperties(props, evs).Ok?
    requires InterpretProperties(p, props, [args], vals).Ok? && Wrappable(props, args)
    requires SameValues(p, evs, vals, args)
    ensures InterpretProperties(p, props, [args], vals).value.ObjectValue?
    ensures SameValues(p, CompileProperties(props, evs).value,
            InterpretProperties(p, props, [args], vals).value.props, args)
    decreases props, 0
  {
    if props != [] {
      var e, key := props[0].value, props[0].key;
      var ev, v := Compile(e).value, Interpret(p, e, [args]).value;
      PropertyPreservesMeaning(p, e, args);
      SameValuesWith(p, evs, vals, args, key, ev, v);
      PropertiesPreserveValues(p, props[1..], args, evs[key := ev], vals[key := v]);
    }
  }

  // ----- on checked bodies the outcomes are equal, panics included -----

  /** Where a unary operator means something to the interpreter and its kind has a method. */
  predicate UnaryFits(op: Operator, k: Kind) {
    (op == Not && k == Bool) || (op == Sub && k in {Int, Float})
  }

  predicate DistinctKeys(props: seq<Property>) {
    forall i, j | 0 <= i < j < |props| :: props[i].key != props[j].key
  }

  /** Operand kinds the compiler itself does not check: a unary operator fits its
      operand, logical operands are booleans, members exist, keys are distinct. */
  predicate Checked(e: Expr)
    decreases e
  {
    match e
    case Member(obj, prop) =>
      Checked(obj) && (match TypeOf(obj) case Some(ObjectOf(props)) => prop in props case _ => false)
    case ObjectLit(props) =>
      && (forall i | 0 <= i < |props| :: Checked(props[i].value) && HasValue(StaticKind(props[i].value)))
      && DistinctKeys(props)
    case ArrayLit(_) => false
    case Unary(op, arg) =>
      && Checked(arg)
      && UnaryFits(op, StaticKind(arg))
    case Binary(_, l, r) => Checked(l) && Checked(r)
    case Logical(_, l, r) => Checked(l) && Checked(r) && StaticKind(l) == Bool && StaticKind(r) == Bool
    case _ => true
  }

  lemma CheckedIsSupported(e: Expr)
    requires Checked(e)
    ensures Supported(e)
    decreases e
  {
    match e
    case Member(obj, _) => CheckedIsSupported(obj);
    case ObjectLit(props) =>
      forall i | 0 <= i < |props| ensures Supported(props[i].value) { CheckedIsSupported(props[i].value); }
    case Unary(_, arg) => CheckedIsSupported(arg);
    case Binary(_, l, r) => CheckedIsSupported(l); CheckedIsSupported(r);
    case Logical(_, l, r) => CheckedIsSupported(l); CheckedIsSupported(r);
    case _ =>
  }

  /** The compiled method for the static kind of a body and the interpreter have the
      same outcome: the same value, or a panic in both. */
  ghost predicate SameOutcome(p: Platform, e: Expr, args: Args)
    requires Compile(e).Ok?
  {
    var ev, outcome := Compile(e).value, Interpret(p, e, [args]);
    && TypeOf(e) == Some(ev.t)
    && outcome != Err
    && (outcome.Ok? ==> TypeOfValue(outcome.value) == ev.t)
    && (HasMethod(StaticKind(e)) ==> EvalAs(p, ev, StaticKind(e), args) == outcome)
  }

  lemma {:induction false} CheckedSameOutcome(p: Platform, e: Expr, args: Args)
    requires Compile(e).Ok? && Bound(e, args) && Checked(e)
    ensures SameOutcome(p, e, args)
    decreases e, 1
  {
    CheckedIsSupported(e);
    CompiledType(e, Compile(e).value);
    if Interpret(p, e, [args]).Ok? {
      CompilePreservesMeaning(p, e, args);
    } else {
      CheckedPanics(p, e, args);
    }
  }

  /** A checked body that yields no value. */
  ghost predicate Fails(p: Platform, e: Expr, args: Args) {
    Compile(e).Ok? && Bound(e, args) && Checked(e) && !Interpret(p, e, [args]).Ok?
  }

  /** The interpreter panics on it, and so does its compiled form. */
  ghost predicate BothPanic(p: Platform, e: Expr, args: Args)
    requires Compile(e).Ok?
  {
    && Interpret(p, e, [args]) == Panic
    && (HasMethod(StaticKind(e)) ==> EvalAs(p, Compile(e).value, StaticKind(e), args) == Panic)
  }

  lemma {:induction false} CheckedPanics(p: Platform, e: Expr, args: Args)
    requires Fails(p, e, args)
    ensures BothPanic(p, e, args)
    decreases e, 0, 1
  {
    match e
    case Member(_, _) => MemberPanics(p, e, args);
    case ObjectLit(_) => ObjectPanics(p, e, args);
    case Unary(_, _) => UnaryPanics(p, e, args);
    case Binary(_, _, _) => BinaryPanics(p, e, args);
    case Logical(_, _, _) => LogicalPanics(p, e, args);
    case _ =>
  }

  lemma {:induction false} ObjectPanics(p: Platform, e: Expr, args: Args)
    requires e.ObjectLit? && Fails(p, e, args)
    ensures BothPanic(p, e, args)
    decreases e, 0, 0
  {
    PropertiesPanic(p, e.props, args, map[], map[]);
    MapEvalPanics(p, Compile(e).value, args);
  }

  lemma {:induction false} MemberPanics(p: Platform, e: Expr, args: Args)
    requires e.Member? && Fails(p, e, args)
    ensures BothPanic(p, e, args)
    decreases e, 0, 0
  {
    CheckedSameOutcome(p, e.obj, args);
  }

  lemma {:induction false} UnaryPanics(p: Platform, e: Expr, args: Args)
    requires e.Unary? && Fails(p, e, args)
    ensures BothPanic(p, e, args)
    decreases e, 0, 0
  {
    CheckedSameOutcome(p, e.arg, args);
    UnaryInterpretPanics(p, e, args);
    UnaryEvalPanics(p, Compile(e).value, StaticKind(e), args);
  }

  lemma UnaryInterpretPanics(p: Platform, e: Expr, args: Args)
    requires e.Unary? && Fails(p, e, args) && SameOutcome(p, e.arg, args)
    ensures Interpret(p, e.arg, [args]) == Panic && Interpret(p, e, [args]) == Panic
  {
  }

  lemma UnaryEvalPanics(p: Platform, ev: Evaluator, k: Kind, args: Args)
    requires ev.UnaryEval? && !EvalAs(p, ev.node, k, args).Ok?
    ensures EvalAs(p, ev, k, args) == Panic
  {
  }

  lemma {:induction false} LogicalPanics(p: Platform, e: Expr, args: Args)
    requires e.Logical? && Fails(p, e, args)
    ensures BothPanic(p, e, args)
    decreases e, 0, 0
  {
    CheckedSameOutcome(p, e.lleft, args);
    CheckedSameOutcome(p, e.lright, args);
    LogicalInterpretPanics(p, e, args);
    LogicalEvalPanics(p, e.lop, Compile(e.lleft).value, Compile(e.lright).value, args);
  }

  lemma LogicalInterpretPanics(p: Platform, e: Expr, args: Args)
    requires e.Logical? && Fails(p, e, args) && SameOutcome(p, e.lleft, args) && SameOutcome(p, e.lright, args)
    ensures Interpret(p, e, [args]) == Panic
    ensures Interpret(p, e.lleft, [args]) == Panic
            || (Interpret(p, e.lleft, [args]) == Ok(BoolValue(e.lop == And)) && Interpret(p, e.lright, [args]) == Panic)
  {
  }

  lemma LogicalEvalPanics(p: Platform, op: LogicalOperator, le: Evaluator, re: Evaluator, args: Args)
    ensures EvalAs(p, LogicalEval(Basic(Bool), op, le, re), Bool, args) ==
            match EvalAs(p, le, Bool, args)
            case Ok(BoolValue(l)) => if l == (op == Or) then Ok(BoolValue(l)) else EvalAs(p, re, Bool, args)
            case _ => Panic
  {
  }

  lemma {:induction false} BinaryPanics(p: Platform, e: Expr, args: Args)
    requires e.Binary? && Fails(p, e, args)
    ensures BothPanic(p, e, args)
    decreases e, 0, 0
  {
    var le, re := Compile(e.left).value, Compile(e.right).value;
    var lo, ro := Interpret(p, e.left, [args]), Interpret(p, e.right, [args]);
    CheckedSameOutcome(p, e.left, args);
    if lo.Ok? {
      CheckedSameOutcome(p, e.right, args);
      if ro.Ok? {
        BinaryFunctionsAgree(p, e.bop, lo.value, ro.value);
      }
    }
    assert HasMethod(le.t.kind) && HasMethod(re.t.kind);
    BinaryEvalPanics(p, Compile(e).value, StaticKind(e), args);
  }

  lemma BinaryEvalPanics(p: Platform, ev: Evaluator, k: Kind, args: Args)
    requires ev.BinaryEval?
    requires match (EvalAs(p, ev.left, ev.lkind, args), EvalAs(p, ev.right, ev.rkind, args))
             case (Ok(l), Ok(r)) => CompiledBinary(p, ev.bop, l, r) == Some(Panic)
             case _ => true
    ensures EvalAs(p, ev, k, args) == Panic
  {
  }

  lemma {:induction false} PropertiesPanic(
    p: Platform, props: seq<Property>, args: Args, evs: map<string, Evaluator>, vals: map<string, Value>)
    requires CompileProperties(props, evs).Ok?
    requires forall i | 0 <= i < |props| ::
               Bound(props[i].value, args) && Checked(props[i].value) && HasValue(StaticKind(props[i].value))
    requires DistinctKeys(props)
    requires forall i | 0 <= i < |props| :: props[i].key !in vals
    requires !InterpretProperties(p, props, [args], vals).Ok?
    ensures InterpretProperties(p, props, [args], vals) == Panic
    ensures exists k :: k in CompileProperties(props, evs).value
                        && !EvalProperty(p, CompileProperties(props, evs).value[k], args).Ok?
    decreases props, 0
  {
    var e, key := props[0].value, props[0].key;
    var ev := Compile(e).value;
    CheckedSameOutcome(p, e, args);
    CompiledType(e, ev);
    if Interpret(p, e, [args]).Ok? {
      PropertiesPanic(p, props[1..], args, evs[key := ev], vals[key := Interpret(p, e, [args]).value]);
    } else {
      CompiledKeyKept(props[1..], evs[key := ev], key);
    }
  }

  lemma CompiledKeyKept(props: seq<Property>, evs: map<string, Evaluator>, key: string)
    requires CompileProperties(props, evs).Ok?
    requires key in evs && forall i | 0 <= i < |props| :: props[i].key != key
    ensures key in CompileProperties(props, evs).value
    ensures CompileProperties(props, evs).value[key] == evs[key]
  {
  }

  // ----- where the compiler and the interpreter part -----

  /** An object literal whose properties run: its compiled form yields the interpreter's object
      exactly when no key is repeated, which the interpreter rejects, and `eval` can wrap every
      property. */
  lemma ObjectLiteralExact(p: Platform, props: seq<Property>, args: Args, ev: Evaluator)
    requires Compile(ObjectLit(props)) == Ok(ev)
    requires forall i | 0 <= i < |props| :: Runs(p, props[i].value, args)
    ensures EvalAs(p, ev, Object, args) == Interpret(p, ObjectLit(props), [args])
            <==> DistinctKeys(props) && forall i | 0 <= i < |props| :: HasValue(StaticKind(props[i].value))
  {
    EvalReportsNoError(p, ev, Object, args);
    RepeatedKeyIsError(p, props, args, map[]);
    if DistinctKeys(props) {
      ObjectLiteralWraps(p, props, args);
    }
  }

  /** Where every property has a value, the interpreter fails exactly on a repeated key. */
  lemma {:induction false} RepeatedKeyIsError(p: Platform, props: seq<Property>, args: Args, vals: map<string, Value>)
    requires forall i | 0 <= i < |props| :: Interpret(p, props[i].value, [args]).Ok?
    ensures var o := InterpretProperties(p, props, [args], vals);
            && !o.Panic?
            && (o.Ok? <==> DistinctKeys(props) && forall i | 0 <= i < |props| :: props[i].key !in vals)
  {
    if props != [] {
      var key, v := props[0].key, Interpret(p, props[0].value, [args]).value;
      RepeatedKeyIsError(p, props[1..], args, vals[key := v]);
      assert props == [props[0]] + props[1..];
      DistinctKeysSplit(props);
    }
  }

  lemma DistinctKeysSplit(props: seq<Property>)
    requires props != []
    ensures DistinctKeys(props)
            <==> DistinctKeys(props[1..]) && forall i | 0 <= i < |props[1..]| :: props[1..][i].key != props[0].key
  {
    if DistinctKeys(props[1..]) && forall i | 0 <= i < |props[1..]| :: props[1..][i].key != props[0].key {
      forall i, j | 0 <= i < j < |props| ensures props[i].key != props[j].key {
        assert props[j] == props[1..][j - 1];
        assert i > 0 ==> props[i] == props[1..][i - 1];
      }
    }
  }

  lemma {:induction false} ObjectLiteralWraps(p: Platform, props: seq<Property>, args: Args)
    requires Compile(ObjectLit(props)).Ok?
    requires Interpret(p, ObjectLit(props), [args]).Ok?
    requires forall i | 0 <= i < |props| :: Bound(props[i].value, args) && Supported(props[i].value)
    ensures EvalAs(p, Compile(ObjectLit(props)).value, Object, args) == Interpret(p, ObjectLit(props), [args])
            <==> forall i | 0 <= i < |props| :: HasValue(StaticKind(props[i].value))
  {
    if forall i | 0 <= i < |props| :: HasValue(StaticKind(props[i].value)) {
      ObjectPreservesMeaning(p, ObjectLit(props), args);
    } else {
      UnwrappableObject(p, props, args);
    }
  }

  lemma UnwrappableObject(p: Platform, props: seq<Property>, args: Args)
    requires Compile(ObjectLit(props)).Ok?
    requires Interpret(p, ObjectLit(props), [args]).Ok?
    requires exists i | 0 <= i < |props| :: !HasValue(StaticKind(props[i].value))
    ensures EvalAs(p, Compile(ObjectLit(props)).value, Object, args) == Panic
  {
    UnwrappableProperty(p, props, args, map[], map[]);
    MapEvalPanics(p, Compile(ObjectLit(props)).value, args);
  }

  lemma MapEvalPanics(p: Platform, ev: Evaluator, args: Args)
    requires ev.MapEval? && exists k :: k in ev.props && !EvalProperty(p, ev.props[k], args).Ok?
    ensures EvalMap(p, ev, args) == Panic
  {
  }

  lemma {:induction false} UnwrappableProperty(
    p: Platform, props: seq<Property>, args: Args, evs: map<string, Evaluator>, vals: map<string, Value>)
    requires CompileProperties(props, evs).Ok?
    requires InterpretProperties(p, props, [args], vals).Ok?
    requires exists i | 0 <= i < |props| :: !HasValue(StaticKind(props[i].value))
    ensures exists k :: k in CompileProperties(props, evs).value
                        && !EvalProperty(p, CompileProperties(props, evs).value[k], args).Ok?
    decreases props
  {
    var e, key := props[0].value, props[0].key;
    var ev, v := Compile(e).value, Interpret(p, e, [args]).value;
    if HasValue(StaticKind(e)) {
      UnwrappableProperty(p, props[1..], args, evs[key := ev], vals[key := v]);
    } else {
      CompiledType(e, ev);
      KeysNotRepeated(p, props[1..], args, vals[key := v]);
      CompiledKeyKept(props[1..], evs[key := ev], key);
    }
  }

  lemma {:induction false} KeysNotRepeated(p: Platform, props: seq<Property>, args: Args, vals: map<string, Value>)
    requires InterpretProperties(p, props, [args], vals).Ok?
    ensures forall i | 0 <= i < |props| :: props[i].key !in vals
  {
    if props != [] {
      KeysNotRepeated(p, props[1..], args, vals[props[0].key := Interpret(p, props[0].value, [args]).value]);
    }
  }

  /** An object inside an object literal: the interpreter builds it, the compiled form panics. */
  lemma NestedObjectPanics(p: Platform, args: Args)
    ensures var e := ObjectLit([Property("a", ObjectLit([]))]);
            && Compile(e).Ok? && EvalAs(p, Compile(e).value, Object, args) == Panic
            && Interpret(p, e, [args]) == Ok(ObjectValue(map["a" := ObjectValue(map[])]))
  {
    var inner := Property("a", ObjectLit([]));
    SingleProperty(p, inner, args);
    assert StaticKind([inner][0].value) == Object;
    UnwrappableObject(p, [inner], args);
  }

  lemma SingleProperty(p: Platform, prop: Property, args: Args)
    requires Compile(prop.value).Ok? && Interpret(p, prop.value, [args]).Ok?
    requires TypeOf(prop.value).Some? && TypeOf(prop.value).value != NoType
    ensures Compile(ObjectLit([prop])).Ok?
    ensures Interpret(p, ObjectLit([prop]), [args])
            == Ok(ObjectValue(map[prop.key := Interpret(p, prop.value, [args]).value]))
  {
    var v, ev, t := Interpret(p, prop.value, [args]).value, Compile(prop.value).value, TypeOf(prop.value).value;
    assert [prop][1..] == [];
    assert InterpretProperties(p, [prop], [args], map[]) == InterpretProperties(p, [], [args], map[prop.key := v]);
    assert CompileProperties([prop], map[]) == CompileProperties([], map[prop.key := ev]);
    assert PropertyTypes([prop], map[]) == PropertyTypes([], map[prop.key := t]);
  }

  lemma SameKeyTwice(key: string, x: Expr, y: Expr)
    requires Compile(x).Ok? && Compile(y).Ok? && TypeOf(x).Some? && TypeOf(y).Some? && TypeOf(y).value != NoType
    ensures Compile(ObjectLit([Property(key, x), Property(key, y)]))
            == Ok(MapEval(ObjectOf(map[key := TypeOf(y).value]), map[key := Compile(y).value]))
  {
    LastEvaluatorCounts(key, x, y);
    LastTypeCounts(key, x, y);
    ObjectCompiled([Property(key, x), Property(key, y)], map[key := Compile(y).value], map[key := TypeOf(y).value]);
  }

  lemma ObjectCompiled(props: seq<Property>, evs: map<string, Evaluator>, types: map<string, Type>)
    requires CompileProperties(props, map[]) == Ok(evs) && PropertyTypes(props, map[]) == Some(types)
    requires forall k | k in types :: types[k] != NoType
    ensures Compile(ObjectLit(props)) == Ok(MapEval(ObjectOf(types), evs))
  {
  }

  lemma LastEvaluatorCounts(key: string, x: Expr, y: Expr)
    requires Compile(x).Ok? && Compile(y).Ok?
    ensures CompileProperties([Property(key, x), Property(key, y)], map[]) == Ok(map[key := Compile(y).value])
  {
    var props, last := [Property(key, x), Property(key, y)], [Property(key, y)];
    assert props[1..] == last && last[1..] == [];
    var xs, ys := map[key := Compile(x).value], map[key := Compile(y).value];
    assert xs[key := Compile(y).value] == ys;
    assert CompileProperties(props, map[]) == CompileProperties(last, xs) == CompileProperties([], ys);
  }

  lemma LastTypeCounts(key: string, x: Expr, y: Expr)
    requires TypeOf(x).Some? && TypeOf(y).Some?
    ensures PropertyTypes([Property(key, x), Property(key, y)], map[]) == Some(map[key := TypeOf(y).value])
  {
    var props, last := [Property(key, x), Property(key, y)], [Property(key, y)];
    assert props[1..] == last && last[1..] == [];
    var s, t := map[key := TypeOf(x).value], map[key := TypeOf(y).value];
    assert s[key := TypeOf(y).value] == t;
    assert PropertyTypes(props, map[]) == PropertyTypes(last, s) == PropertyTypes([], t);
  }

  /** A repeated key: an error for the interpreter; the compiled form keeps the last value. */
  lemma RepeatedKeyIsKept(p: Platform, key: string, x: Int64, y: Int64, args: Args)
    ensures var e := ObjectLit([Property(key, IntLit(x)), Property(key, IntLit(y))]);
            && Interpret(p, e, [args]) == Err
            && Compile(e).Ok? && EvalMap(p, Compile(e).value, args) == Ok(ObjectValue(map[key := IntValue(y)]))
  {
    RepeatedKeyIsRejected(p, key, x, y, args);
    SameKeyTwice(key, IntLit(x), IntLit(y));
    OneProperty(p, key, y, args);
  }

  lemma RepeatedKeyIsRejected(p: Platform, key: string, x: Int64, y: Int64, args: Args)
    ensures Interpret(p, ObjectLit([Property(key, IntLit(x)), Property(key, IntLit(y))]), [args]) == Err
  {
    var props := [Property(key, IntLit(x)), Property(key, IntLit(y))];
    RepeatedKeyIsError(p, props, args, map[]);
    assert props[0].key == props[1].key;
  }

  lemma OneProperty(p: Platform, key: string, y: Int64, args: Args)
    ensures EvalMap(p, MapEval(ObjectOf(map[key := Basic(Int)]), map[key := IntEval(Basic(Int), y)]), args)
            == Ok(ObjectValue(map[key := IntValue(y)]))
  {
    var evs := map[key := IntEval(Basic(Int), y)];
    MapEvalFromProperties(p, evs, ObjectOf(map[key := Basic(Int)]), map[key := IntValue(y)], args);
  }

  /** The compiled unary evaluator does not look at its operator. It agrees with the
      interpreter exactly when the operator fits the kind of its operand. */
  lemma UnaryExact(p: Platform, op: Operator, arg: Expr, args: Args, ev: Evaluator)
    requires Runs(p, arg, args)
    requires Compile(Unary(op, arg)) == Ok(ev)
    ensures EvalAs(p, ev, StaticKind(arg), args) == Interpret(p, Unary(op, arg), [args])
            <==> UnaryFits(op, StaticKind(arg))
  {
    OperandYields(p, arg, args);
    UnaryCompiled(op, arg);
    UnaryInterpreted(p, op, arg, args);
    UnaryOutcomes(p, op, Compile(arg).value, args, Interpret(p, arg, [args]).value);
  }

  lemma UnaryCompiled(op: Operator, arg: Expr)
    requires Compile(arg).Ok?
    ensures Compile(Unary(op, arg)) == Ok(UnaryEval(Compile(arg).value.t, Compile(arg).value))
  {
    CompiledType(arg, Compile(arg).value);
  }

  lemma UnaryInterpreted(p: Platform, op: Operator, arg: Expr, args: Args)
    requires Interpret(p, arg, [args]).Ok?
    ensures Interpret(p, Unary(op, arg), [args]) == InterpretedUnary(p, op, Interpret(p, arg, [args]).value)
  {
  }

  lemma UnaryOutcomes(p: Platform, op: Operator, node: Evaluator, args: Args, a: Value)
    requires Yields(p, node, args, a)
    ensures EvalAs(p, UnaryEval(node.t, node), KindOfValue(a), args) == InterpretedUnary(p, op, a)
            <==> UnaryFits(op, KindOfValue(a))
  {
  }

  /** What the interpreter rejects as `not 5` runs as `-5`. */
  lemma UnaryOperatorIgnored(p: Platform, args: Args)
    ensures Interpret(p, Unary(Not, IntLit(5)), [args]) == Err
    ensures Compile(Unary(Not, IntLit(5))).Ok?
    ensures EvalAs(p, Compile(Unary(Not, IntLit(5))).value, Int, args) == Ok(IntValue(-5))
  {
  }

  /** A compiled body returns a value or panics; it reports no error. */
  lemma EvalReportsNoError(p: Platform, ev: Evaluator, k: Kind, args: Args)
    ensures EvalAs(p, ev, k, args) != Err
  {
  }

  /** A compiled logical expression agrees with the interpreter exactly when its operands are
      booleans, as far as they are evaluated. */
  lemma LogicalExact(p: Platform, op: LogicalOperator, l: Expr, r: Expr, args: Args, ev: Evaluator)
    requires Runs(p, l, args) && Runs(p, r, args)
    requires Compile(Logical(op, l, r)) == Ok(ev)
    ensures EvalAs(p, ev, Bool, args) == Interpret(p, Logical(op, l, r), [args])
            <==> StaticKind(l) == Bool
                 && (Interpret(p, l, [args]) == Ok(BoolValue(op == Or)) || StaticKind(r) == Bool)
  {
    var lv, rv := Interpret(p, l, [args]).value, Interpret(p, r, [args]).value;
    OperandYields(p, l, args);
    OperandYields(p, r, args);
    LogicalInterpreted(p, op, l, r, args, lv, rv);
    LogicalCompiled(op, l, r);
    LogicalOutcomes(p, op, Compile(l).value, Compile(r).value, args, lv, rv);
  }

  lemma OperandYields(p: Platform, e: Expr, args: Args)
    requires Runs(p, e, args)
    ensures Yields(p, Compile(e).value, args, Interpret(p, e, [args]).value)
    ensures StaticKind(e) == KindOfValue(Interpret(p, e, [args]).value)
  {
    CompilePreservesMeaning(p, e, args);
    CompiledType(e, Compile(e).value);
  }

  lemma LogicalCompiled(op: LogicalOperator, l: Expr, r: Expr)
    requires Compile(l).Ok? && Compile(r).Ok?
    ensures Compile(Logical(op, l, r)) == Ok(LogicalEval(Basic(Bool), op, Compile(l).value, Compile(r).value))
  {
  }

  /** A number as operand: an error for the interpreter, a panic when compiled. */
  lemma NumberIsNoOperand(p: Platform, args: Args)
    ensures var e := Logical(And, IntLit(1), BoolLit(true));
            && Interpret(p, e, [args]) == Err
            && Compile(e).Ok? && EvalAs(p, Compile(e).value, Bool, args) == Panic
  {
    LogicalCompiled(And, IntLit(1), BoolLit(true));
    LogicalEvalPanics(p, And, IntEval(Basic(Int), 1), BoolEval(Basic(Bool), true), args);
  }

  /** What the interpreter does with the operands of a logical expression. */
  function InterpretedLogical(op: LogicalOperator, l: Value, r: Value): Outcome<Value> {
    match (l, r)
    case (BoolValue(x), _) =>
      if x == (op == Or) then Ok(l) else if r.BoolValue? then Ok(r) else Err
    case _ => Err
  }

  lemma LogicalInterpreted(p: Platform, op: LogicalOperator, l: Expr, r: Expr, args: Args, lv: Value, rv: Value)
    requires Interpret(p, l, [args]) == Ok(lv) && Interpret(p, r, [args]) == Ok(rv)
    ensures Interpret(p, Logical(op, l, r), [args]) == InterpretedLogical(op, lv, rv)
  {
  }

  lemma LogicalOutcomes(
    p: Platform, op: LogicalOperator, le: Evaluator, re: Evaluator, args: Args, lv: Value, rv: Value)
    requires Yields(p, le, args, lv) && Yields(p, re, args, rv)
    ensures EvalAs(p, LogicalEval(Basic(Bool), op, le, re), Bool, args) == InterpretedLogical(op, lv, rv)
            <==> KindOfValue(lv) == Bool && (lv == BoolValue(op == Or) || KindOfValue(rv) == Bool)
  {
    LogicalEvalPanics(p, op, le, re, args);
    EvalReportsNoError(p, LogicalEval(Basic(Bool), op, le, re), Bool, args);
  }

  /** A member that the interpreter finds: its compiled form has the value's type exactly when
      the object is not an array. Indexing an array has no static type. */
  lemma MemberExact(p: Platform, obj: Expr, prop: string, args: Args)
    requires Runs(p, obj, args)
    requires Interpret(p, Member(obj, prop), [args]).Ok? && Compile(Member(obj, prop)).Ok?
    ensures Yields(p, Compile(Member(obj, prop)).value, args, Interpret(p, Member(obj, prop), [args]).value)
            <==> StaticKind(obj) != Array
  {
    CompilePreservesMeaning(p, obj, args);
    CompiledType(obj, Compile(obj).value);
    CompiledType(Member(obj, prop), Compile(Member(obj, prop)).value);
    if StaticKind(obj) != Array {
      MemberPreservesMeaning(p, Member(obj, prop), args);
    }
  }

  /** The first element of an array argument: the interpreter finds it, the compiled function
      reports an error. */
  lemma ArrayIndexHasNoType(p: Platform)
    ensures var xs := ArrayValue([IntValue(7)], Basic(Int));
            var body, types := Member(Ident("xs", None), "0"), map["xs" := ArrayOf(Basic(Int))];
            && Interpret(p, body, [map["xs" := xs]]) == Ok(IntValue(7))
            && CompileFunction(body, types).Ok?
            && Evaluates(p, CompileFunction(body, types).value, map["xs" := xs], Err)
  {
    assert ParseIndex("0") == Some(0);
  }

  // ----- whole functions -----

  /** Every identifier of a function body is one of `names`, and has no declaration
      from an enclosing scope. */
  predicate OnlyParams(e: Expr, names: set<string>)
    decreases e
  {
    match e
    case Ident(name, decl) => name in names && decl.None?
    case Member(obj, _) => OnlyParams(obj, names)
    case ObjectLit(props) => forall i | 0 <= i < |props| :: OnlyParams(props[i].value, names)
    case ArrayLit(elems) => forall i | 0 <= i < |elems| :: OnlyParams(elems[i], names)
    case Unary(_, arg) => OnlyParams(arg, names)
    case Binary(_, l, r) => OnlyParams(l, names) && OnlyParams(r, names)
    case Logical(_, l, r) => OnlyParams(l, names) && OnlyParams(r, names)
    case _ => true
  }

  /** Declaring the parameters binds every identifier to an argument of its type. */
  lemma {:induction false} DeclareBinds(e: Expr, types: map<string, Type>, args: Args)
    requires OnlyParams(e, types.Keys) && WellTyped(types, args)
    ensures Bound(Declare(e, types), args)
    decreases e, 1
  {
    match e
    case Member(obj, _) => DeclareBinds(obj, types, args);
    case ObjectLit(props) => DeclarePropertiesBinds(props, types, args);
    case ArrayLit(elems) => DeclareElementsBinds(elems, types, args);
    case Unary(_, arg) => DeclareBinds(arg, types, args);
    case Binary(_, l, r) => DeclareBinds(l, types, args); DeclareBinds(r, types, args);
    case Logical(_, l, r) => DeclareBinds(l, types, args); DeclareBinds(r, types, args);
    case _ =>
  }

  lemma {:induction false} DeclarePropertiesBinds(props: seq<Property>, types: map<string, Type>, args: Args)
    requires forall i | 0 <= i < |props| :: OnlyParams(props[i].value, types.Keys)
    requires WellTyped(types, args)
    ensures forall i | 0 <= i < |DeclareProperties(props, types)| ::
            Bound(DeclareProperties(props, types)[i].value, args)
    decreases props, 0
  {
    if props != [] {
      DeclareBinds(props[0].value, types, args);
      DeclarePropertiesBinds(props[1..], types, args);
    }
  }

  lemma {:induction false} DeclareElementsBinds(elems: seq<Expr>, types: map<string, Type>, args: Args)
    requires forall i | 0 <= i < |elems| :: OnlyParams(elems[i], types.Keys)
    requires WellTyped(types, args)
    ensures forall i | 0 <= i < |DeclareElements(elems, types)| :: Bound(DeclareElements(elems, types)[i], args)
    decreases elems, 0
  {
    if elems != [] {
      DeclareBinds(elems[0], types, args);
      DeclareElementsBinds(elems[1..], types, args);
    }
  }

  /** Declaring the parameters does not change what a body means, in any scope. */
  lemma {:induction false} DeclarePreservesMeaning(p: Platform, e: Expr, types: map<string, Type>, scope: Scope)
    requires OnlyParams(e, types.Keys)
    ensures Interpret(p, Declare(e, types), scope) == Interpret(p, e, scope)
    decreases e, 1
  {
    match e
    case Member(obj, _) => DeclarePreservesMeaning(p, obj, types, scope);
    case ObjectLit(props) => DeclarePropertiesPreservesMeaning(p, props, types, scope, map[]);
    case ArrayLit(elems) => DeclareElementsPreservesMeaning(p, elems, types, scope, None);
    case Unary(_, arg) => DeclarePreservesMeaning(p, arg, types, scope);
    case Binary(_, _, _) => DeclareBinaryPreservesMeaning(p, e, types, scope);
    case Logical(_, _, _) => DeclareLogicalPreservesMeaning(p, e, types, scope);
    case _ =>
  }

  lemma {:induction false} DeclareBinaryPreservesMeaning(p: Platform, e: Expr, types: map<string, Type>, scope: Scope)
    requires e.Binary? && OnlyParams(e, types.Keys)
    ensures Interpret(p, Declare(e, types), scope) == Interpret(p, e, scope)
    decreases e, 0
  {
    DeclarePreservesMeaning(p, e.left, types, scope);
    DeclarePreservesMeaning(p, e.right, types, scope);
  }

  lemma {:induction false} DeclareLogicalPreservesMeaning(p: Platform, e: Expr, types: map<string, Type>, scope: Scope)
    requires e.Logical? && OnlyParams(e, types.Keys)
    ensures Interpret(p, Declare(e, types), scope) == Interpret(p, e, scope)
    decreases e, 0
  {
    DeclarePreservesMeaning(p, e.lleft, types, scope);
    DeclarePreservesMeaning(p, e.lright, types, scope);
  }

  lemma {:induction false} DeclarePropertiesPreservesMeaning(
    p: Platform, props: seq<Property>, types: map<string, Type>, scope: Scope, acc: map<string, Value>)
    requires forall i | 0 <= i < |props| :: OnlyParams(props[i].value, types.Keys)
    ensures InterpretProperties(p, DeclareProperties(props, types), scope, acc)
            == InterpretProperties(p, props, scope, acc)
    decreases props, 0
  {
    if props != [] {
      assert DeclareProperties(props, types)[1..] == DeclareProperties(props[1..], types);
      DeclarePreservesMeaning(p, props[0].value, types, scope);
      var o := Interpret(p, props[0].value, scope);
      if o.Ok? {
        DeclarePropertiesPreservesMeaning(p, props[1..], types, scope, acc[props[0].key := o.value]);
      }
    }
  }

  lemma {:induction false} DeclareElementsPreservesMeaning(
    p: Platform, elems: seq<Expr>, types: map<string, Type>, scope: Scope, et: Option<Type>)
    requires forall i | 0 <= i < |elems| :: OnlyParams(elems[i], types.Keys)
    ensures InterpretElements(p, DeclareElements(elems, types), scope, et) == InterpretElements(p, elems, scope, et)
    decreases elems, 0
  {
    if elems != [] {
      assert DeclareElements(elems, types)[1..] == DeclareElements(elems[1..], types);
      DeclarePreservesMeaning(p, elems[0], types, scope);
      var o := Interpret(p, elems[0], scope);
      if o.Ok? {
        DeclareElementsPreservesMeaning(p, elems[1..], types, scope, Some(TypeOfValue(o.value)));
      }
    }
  }

  /** `Eval` has one outcome exactly when no argument is missing while another is mistyped. */
  lemma EvalDecidedIff(p: Platform, fn: Func, args: Args)
    ensures (exists o :: Evaluates(p, fn, args, o)) <==> !(Missing(fn.inTypes, args) && Mistyped(fn.inTypes, args))
  {
    if Missing(fn.inTypes, args) && Mistyped(fn.inTypes, args) {
      assert MayEval(p, fn, args, Panic) && MayEval(p, fn, args, Err);
    } else if Missing(fn.inTypes, args) {
      assert Evaluates(p, fn, args, Panic);
    } else if Mistyped(fn.inTypes, args) {
      assert Evaluates(p, fn, args, Err);
    } else {
      assert Evaluates(p, fn, args, EvalRoot(p, fn, args));
    }
  }

  /** `Compile` then `Eval`, on arguments of the announced types: a value the
      interpreter yields for the body is the value the function returns, or the
      function reports that its kind has no method. */
  lemma CompiledFunctionCorrect(p: Platform, body: Expr, inTypes: map<string, Type>, args: Args)
    requires CompileFunction(body, inTypes).Ok?
    requires OnlyParams(body, inTypes.Keys) && WellTyped(inTypes, args)
    requires Supported(Declare(body, inTypes))
    requires Interpret(p, body, [args]).Ok?
    ensures var v := Interpret(p, body, [args]).value;
            var fn := CompileFunction(body, inTypes).value;
            && fn.root.t == TypeOfValue(v)
            && Evaluates(p, fn, args, if HasMethod(KindOfValue(v)) then Ok(v) else Err)
  {
    DeclareBinds(body, inTypes, args);
    DeclarePreservesMeaning(p, body, inTypes, [args]);
    CompilePreservesMeaning(p, Declare(body, inTypes), args);
  }

  /** On a checked body whose kind has a method, `Compile` then `Eval` is the
      interpreter, failures included. */
  lemma CheckedFunctionExact(p: Platform, body: Expr, inTypes: map<string, Type>, args: Args)
    requires CompileFunction(body, inTypes).Ok?
    requires OnlyParams(body, inTypes.Keys) && WellTyped(inTypes, args)
    requires Checked(Declare(body, inTypes)) && HasMethod(StaticKind(Declare(body, inTypes)))
    ensures Evaluates(p, CompileFunction(body, inTypes).value, args, Interpret(p, body, [args]))
  {
    DeclareBinds(body, inTypes, args);
    DeclarePreservesMeaning(p, body, inTypes, [args]);
    CheckedSameOutcome(p, Declare(body, inTypes), args);
  }
}
