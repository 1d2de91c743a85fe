/**
 Which bodies compile, and which have a value.
 */
module Bodies {
  import opened Options
  import opened Semantic
  import opened Interpreter
  import opened Compiler
  import opened CompilerCorrectness

  // ----- the types of object literals -----

  /** The property at `i` is the last one with its key. */
  predicate Latest(props: seq<Property>, i: nat)
    requires i < |props|
  {
    forall j | i < j < |props| :: props[j].key != props[i].key
  }

  /** Every property value has a type; it may be the nil type. */
  predicate ValuesTyped(props: seq<Property>) {
    forall i | 0 <= i < |props| :: TypeOf(props[i].value).Some?
  }

  lemma {:induction false} PropertyTypesDefined(props: seq<Property>, acc: map<string, Type>)
    ensures PropertyTypes(props, acc).Some? <==> ValuesTyped(props)
  {
    if props != [] {
      assert props == [props[0]] + props[1..];
      if TypeOf(props[0].value).Some? {
        PropertyTypesDefined(props[1..], acc[props[0].key := TypeOf(props[0].value).value]);
      }
    }
  }

  lemma {:induction false} EarlierTypesStay(props: seq<Property>, acc: map<string, Type>, k: string)
    requires PropertyTypes(props, acc).Some? && forall i | 0 <= i < |props| :: props[i].key != k
    ensures k in PropertyTypes(props, acc).value <==> k in acc
    ensures k in acc ==> PropertyTypes(props, acc).value[k] == acc[k]
  {
    if props != [] {
      EarlierTypesStay(props[1..], acc[props[0].key := TypeOf(props[0].value).value], k);
    }
  }

  lemma {:induction false} LatestTypeCounts(props: seq<Property>, acc: map<string, Type>, i: nat)
    requires PropertyTypes(props, acc).Some? && i < |props| && Latest(props, i)
    ensures props[i].key in PropertyTypes(props, acc).value
    ensures Some(PropertyTypes(props, acc).value[props[i].key]) == TypeOf(props[i].value)
  {
    var acc' := acc[props[0].key := TypeOf(props[0].value).value];
    if i == 0 {
      forall j | 0 <= j < |props[1..]| ensures props[1..][j].key != props[0].key {
        assert props[1..][j] == props[j + 1];
      }
      EarlierTypesStay(props[1..], acc', props[0].key);
    } else {
      forall j | i - 1 < j < |props[1..]| ensures props[1..][j].key != props[1..][i - 1].key {
        assert props[1..][j] == props[j + 1];
      }
      LatestTypeCounts(props[1..], acc', i - 1);
    }
  }

  /** A key has a last property. */
  lemma {:induction false} LatestExists(props: seq<Property>, j: nat) returns (i: nat)
    requires j < |props|
    ensures i < |props| && props[i].key == props[j].key && Latest(props, i)
    decreases |props| - j
  {
    if Latest(props, j) {
      i := j;
    } else {
      var k :| j < k < |props| && props[k].key == props[j].key;
      i := LatestExists(props, k);
    }
  }

  /** The last property of every key has a type other than the nil type. */
  predicate NoNil(props: seq<Property>) {
    forall i | 0 <= i < |props| && Latest(props, i) :: TypeOf(props[i].value) != Some(NoType)
  }

  /** An object literal has a type exactly when its values have one and, of each key, the last
      property's is not the nil type; a key then has the type of its last property. */
  lemma ObjectTypeIff(props: seq<Property>)
    ensures TypeOf(ObjectLit(props)).Some? <==> ValuesTyped(props) && NoNil(props)
    ensures TypeOf(ObjectLit(props)).Some? ==>
              exists types :: TypeOf(ObjectLit(props)) == Some(ObjectOf(types)) && KeyedByLatest(props, types)
  {
    PropertyTypesDefined(props, map[]);
    if ValuesTyped(props) {
      var types := PropertyTypes(props, map[]).value;
      KeysOfTypes(props, types);
      NilKeyIff(props, types);
    }
  }

  lemma NilKeyIff(props: seq<Property>, types: map<string, Type>)
    requires KeyedByLatest(props, types)
    ensures NoNil(props) <==> forall k | k in types :: types[k] != NoType
  {
    forall k | k in types ensures NoNil(props) ==> types[k] != NoType {
      var j: nat :| j < |props| && props[j].key == k;
      var i := LatestExists(props, j);
      assert TypeOf(props[i].value) == Some(types[k]);
    }
  }

  /** The types by key: those of the last properties. */
  predicate KeyedByLatest(props: seq<Property>, types: map<string, Type>) {
    && (forall k | k in types :: exists i | 0 <= i < |props| :: props[i].key == k)
    && forall i | 0 <= i < |props| && Latest(props, i) ::
         props[i].key in types && TypeOf(props[i].value) == Some(types[props[i].key])
  }

  lemma KeysOfTypes(props: seq<Property>, types: map<string, Type>)
    requires PropertyTypes(props, map[]) == Some(types)
    ensures KeyedByLatest(props, types)
  {
    forall k | k in types ensures exists i | 0 <= i < |props| :: props[i].key == k {
      if forall i | 0 <= i < |props| :: props[i].key != k {
        EarlierTypesStay(props, map[], k);
      }
    }
    forall i: nat | i < |props| && Latest(props, i)
      ensures props[i].key in types && TypeOf(props[i].value) == Some(types[props[i].key])
    {
      LatestTypeCounts(props, map[], i);
    }
  }

  // ----- which bodies compile -----

  /** Every node that is asked for its type has one. */
  predicate Typed(e: Expr)
    decreases e
  {
    match e
    case Member(obj, _) => Typed(obj) && TypeOf(e).Some?
    case ObjectLit(props) => (forall i | 0 <= i < |props| :: Typed(props[i].value)) && TypeOf(e).Some?
    case Unary(_, arg) => Typed(arg)
    case Binary(_, l, r) => Typed(l) && Typed(r)
    case Logical(_, l, r) => Typed(l) && Typed(r)
    case _ => true
  }

  /** There is an evaluator for every literal, and an entry for the types of every binary node. */
  predicate Handled(e: Expr)
    decreases e
  {
    match e
    case UIntLit(_) => false
    case DurationLit(_) => false
    case ArrayLit(_) => false
    case Member(obj, _) => Handled(obj)
    case ObjectLit(props) => forall i | 0 <= i < |props| :: Handled(props[i].value)
    case Unary(_, arg) => Handled(arg)
    case Binary(op, l, r) => Handled(l) && Handled(r) && BinaryType(op, StaticKind(l), StaticKind(r)) != Invalid
    case Logical(_, l, r) => Handled(l) && Handled(r)
    case _ => true
  }

  /** What compiling a body can end in. */
  predicate CompilesAs<T>(o: Outcome<T>, typed: bool, handled: bool) {
    && (o.Ok? <==> typed && handled)
    && (typed ==> !o.Panic?)
    && (handled ==> !o.Err?)
  }

  /** A body compiles if and only if it is typed and handled. A typed body that is not handled is an
      error, a handled one that is not typed a panic. */
  lemma {:induction false} CompilesIff(e: Expr)
    ensures CompilesAs(Compile(e), Typed(e), Handled(e))
    decreases e, 1
  {
    match e
    case Member(obj, _) => CompilesIff(obj);
    case ObjectLit(props) => PropertiesCompileIff(props, map[]);
    case Unary(_, arg) =>
      CompilesIff(arg);
      if Compile(arg).Ok? { CompiledType(arg, Compile(arg).value); }
    case Binary(_, _, _) => BinaryCompilesIff(e);
    case Logical(_, l, r) =>
      CompilesIff(l);
      CompilesIff(r);
    case _ =>
  }

  lemma {:induction false} BinaryCompilesIff(e: Expr)
    requires e.Binary?
    ensures CompilesAs(Compile(e), Typed(e), Handled(e))
    decreases e, 0
  {
    CompilesIff(e.left);
    CompilesIff(e.right);
    if Compile(e.left).Ok? && Compile(e.right).Ok? {
      BinaryEntry(e.bop, e.left, e.right);
    }
  }

  /** Operands that compile: what is left is the entry for their kinds. */
  lemma BinaryEntry(op: Operator, l: Expr, r: Expr)
    requires Compile(l).Ok? && Compile(r).Ok?
    ensures Compile(Binary(op, l, r)).Ok? <==> BinaryType(op, StaticKind(l), StaticKind(r)) != Invalid
    ensures !Compile(Binary(op, l, r)).Panic?
  {
    CompiledType(l, Compile(l).value);
    CompiledType(r, Compile(r).value);
    StaticSignaturesAgree(op, StaticKind(l), StaticKind(r));
  }

  lemma {:induction false} PropertiesCompileIff(props: seq<Property>, acc: map<string, Evaluator>)
    ensures CompilesAs(CompileProperties(props, acc), AllTyped(props), AllHandled(props))
    decreases props, 0
  {
    if props != [] {
      AllFirst(props);
      CompilesIff(props[0].value);
      if Compile(props[0].value).Ok? {
        PropertiesCompileIff(props[1..], acc[props[0].key := Compile(props[0].value).value]);
      }
    }
  }

  predicate AllTyped(props: seq<Property>) {
    forall i | 0 <= i < |props| :: Typed(props[i].value)
  }

  predicate AllHandled(props: seq<Property>) {
    forall i | 0 <= i < |props| :: Handled(props[i].value)
  }

  lemma AllFirst(props: seq<Property>)
    requires props != []
    ensures AllTyped(props) <==> Typed(props[0].value) && AllTyped(props[1..])
    ensures AllHandled(props) <==> Handled(props[0].value) && AllHandled(props[1..])
  {
    assert props == [props[0]] + props[1..];
  }

  // ----- what the interpreter evaluates, compiles -----

  /** The body has no literals that the compiler lacks, and the right operands of logical operators
      compile, which need not be evaluated. */
  predicate Expressible(e: Expr)
    decreases e
  {
    match e
    case UIntLit(_) => false
    case DurationLit(_) => false
    case ArrayLit(_) => false
    case Member(obj, _) => Expressible(obj)
    case ObjectLit(props) => forall i | 0 <= i < |props| :: Expressible(props[i].value)
    case Unary(_, arg) => Expressible(arg)
    case Binary(op, l, r) => Expressible(l) && Expressible(r)
    case Logical(_, l, r) => Expressible(l) && Compile(r).Ok?
    case _ => true
  }

  /** A body to which the interpreter gives a value compiles: for every operator and every member
      that it evaluates, the compiler has an entry and a type. */
  lemma {:induction false} EvaluatedCompiles(p: Platform, e: Expr, args: Args)
    requires Bound(e, args) && Supported(e) && Expressible(e) && Interpret(p, e, [args]).Ok?
    ensures Compile(e).Ok?
    decreases e
  {
    match e
    case Member(obj, prop) =>
      EvaluatedCompiles(p, obj, args);
      MemberCompiles(p, obj, prop, args);
    case ObjectLit(props) =>
      PropertiesEvaluated(p, props, [args], map[]);
      forall i | 0 <= i < |props| ensures Runs(p, props[i].value, args) {
        EvaluatedCompiles(p, props[i].value, args);
      }
      ObjectCompiles(p, props, args);
    case Unary(_, arg) =>
      EvaluatedCompiles(p, arg, args);
      CompilesIff(arg);
      CompilesIff(e);
    case Binary(op, l, r) =>
      EvaluatedCompiles(p, l, args);
      EvaluatedCompiles(p, r, args);
      BinaryCompiles(p, op, l, r, args);
    case Logical(_, l, r) =>
      EvaluatedCompiles(p, l, args);
    case _ =>
  }

  lemma MemberCompiles(p: Platform, obj: Expr, prop: string, args: Args)
    requires Runs(p, obj, args) && StaticKind(obj) != Array && Interpret(p, Member(obj, prop), [args]).Ok?
    ensures Compile(Member(obj, prop)).Ok?
  {
    CompilePreservesMeaning(p, obj, args);
    CompiledType(obj, Compile(obj).value);
  }

  lemma OperandKind(p: Platform, e: Expr, args: Args)
    requires Runs(p, e, args)
    ensures StaticKind(e) == KindOfValue(Interpret(p, e, [args]).value)
  {
    CompilePreservesMeaning(p, e, args);
    CompiledType(e, Compile(e).value);
  }

  lemma EntryNeeded(p: Platform, op: Operator, l: Expr, r: Expr, scope: Scope)
    requires Interpret(p, Binary(op, l, r), scope).Ok?
    ensures Interpret(p, l, scope).Ok? && Interpret(p, r, scope).Ok?
    ensures InterpretedBinary(p, op, Interpret(p, l, scope).value, Interpret(p, r, scope).value).Some?
  {
  }

  lemma BinaryCompiles(p: Platform, op: Operator, l: Expr, r: Expr, args: Args)
    requires Runs(p, l, args) && Runs(p, r, args) && Interpret(p, Binary(op, l, r), [args]).Ok?
    ensures Compile(Binary(op, l, r)).Ok?
  {
    var lv, rv := Interpret(p, l, [args]).value, Interpret(p, r, [args]).value;
    assert BinaryType(op, KindOfValue(lv), KindOfValue(rv)) != Invalid by {
      EntryNeeded(p, op, l, r, [args]);
      BinarySignaturesAgree(p, op, lv, rv);
      StaticSignaturesAgree(op, KindOfValue(lv), KindOfValue(rv));
    }
    OperandKind(p, l, args);
    OperandKind(p, r, args);
    BinaryEntry(op, l, r);
  }

  lemma ObjectCompiles(p: Platform, props: seq<Property>, args: Args)
    requires forall i | 0 <= i < |props| :: Runs(p, props[i].value, args)
    ensures Compile(ObjectLit(props)).Ok?
  {
    forall i | 0 <= i < |props|
      ensures Typed(props[i].value) && Handled(props[i].value)
      ensures TypeOf(props[i].value).Some? && TypeOf(props[i].value) != Some(NoType)
    {
      var e := props[i].value;
      CompilePreservesMeaning(p, e, args);
      CompiledType(e, Compile(e).value);
      CompilesIff(e);
    }
    ObjectTypeIff(props);
    CompilesIff(ObjectLit(props));
  }

  lemma {:induction false} PropertiesEvaluated(p: Platform, props: seq<Property>, scope: Scope, acc: map<string, Value>)
    requires InterpretProperties(p, props, scope, acc).Ok?
    ensures forall i | 0 <= i < |props| :: Interpret(p, props[i].value, scope).Ok?
  {
    if props != [] {
      PropertiesEvaluated(p, props[1..], scope, acc[props[0].key := Interpret(p, props[0].value, scope).value]);
      assert props == [props[0]] + props[1..];
    }
  }

  // ----- failures of the interpreter -----

  /** There is a division in the body. */
  predicate Divides(e: Expr)
    decreases e
  {
    match e
    case Member(obj, _) => Divides(obj)
    case ObjectLit(props) => exists i | 0 <= i < |props| :: Divides(props[i].value)
    case ArrayLit(elems) => exists i | 0 <= i < |elems| :: Divides(elems[i])
    case Unary(_, arg) => Divides(arg)
    case Binary(op, l, r) => op == Div || Divides(l) || Divides(r)
    case Logical(_, l, r) => Divides(l) || Divides(r)
    case _ => false
  }

  /** The interpreter panics on divisions only; everything else that goes wrong is an error. */
  lemma {:induction false} PanicNeedsDivision(p: Platform, e: Expr, scope: Scope)
    requires Interpret(p, e, scope).Panic?
    ensures Divides(e)
    decreases e, 1
  {
    match e
    case Member(obj, _) => PanicNeedsDivision(p, obj, scope);
    case ObjectLit(props) => var _ := PropertyPanics(p, props, scope, map[]);
    case ArrayLit(elems) => var _ := ElementPanics(p, elems, scope, None);
    case Unary(_, arg) => PanicNeedsDivision(p, arg, scope);
    case Binary(op, l, r) =>
      if Interpret(p, l, scope).Panic? {
        PanicNeedsDivision(p, l, scope);
      } else if Interpret(p, r, scope).Panic? {
        PanicNeedsDivision(p, r, scope);
      } else {
        TablePanics(p, op, Interpret(p, l, scope).value, Interpret(p, r, scope).value);
      }
    case Logical(_, l, r) =>
      if Interpret(p, l, scope).Panic? {
        PanicNeedsDivision(p, l, scope);
      } else {
        PanicNeedsDivision(p, r, scope);
      }
    case _ =>
  }

  lemma TablePanics(p: Platform, op: Operator, l: Value, r: Value)
    ensures InterpretedBinary(p, op, l, r) == Some(Panic) ==> op == Div
  {
  }

  lemma {:induction false} PropertyPanics(p: Platform, props: seq<Property>, scope: Scope, acc: map<string, Value>)
    returns (i: nat)
    requires InterpretProperties(p, props, scope, acc).Panic?
    ensures i < |props| && Divides(props[i].value)
    decreases props, 0
  {
    if Interpret(p, props[0].value, scope).Panic? {
      i := 0;
      PanicNeedsDivision(p, props[0].value, scope);
    } else {
      i := PropertyPanics(p, props[1..], scope, acc[props[0].key := Interpret(p, props[0].value, scope).value]);
      i := i + 1;
    }
  }

  lemma {:induction false} ElementPanics(p: Platform, elems: seq<Expr>, scope: Scope, elemType: Option<Type>)
    returns (i: nat)
    requires InterpretElements(p, elems, scope, elemType).Panic?
    ensures i < |elems| && Divides(elems[i])
    decreases elems, 0
  {
    if Interpret(p, elems[0], scope).Panic? {
      i := 0;
      PanicNeedsDivision(p, elems[0], scope);
    } else {
      i := ElementPanics(p, elems[1..], scope,
        Some(if elemType.Some? then elemType.value else TypeOfValue(Interpret(p, elems[0], scope).value)));
      i := i + 1;
    }
  }

  /** The identifier is evaluated whenever the body is. */
  predicate Needs(e: Expr, name: string)
    decreases e
  {
    match e
    case Ident(id, _) => id == name
    case Member(obj, _) => Needs(obj, name)
    case ObjectLit(props) => exists i | 0 <= i < |props| :: Needs(props[i].value, name)
    case ArrayLit(elems) => exists i | 0 <= i < |elems| :: Needs(elems[i], name)
    case Unary(_, arg) => Needs(arg, name)
    case Binary(_, l, r) => Needs(l, name) || Needs(r, name)
    case Logical(_, l, _) => Needs(l, name)
    case _ => false
  }

  /** A body has no value when an identifier it needs is bound nowhere. */
  lemma {:induction false} NeededIsBound(p: Platform, e: Expr, scope: Scope, name: string)
    requires Needs(e, name) && Interpret(p, e, scope).Ok?
    ensures exists k | 0 <= k < |scope| :: name in scope[k]
    decreases e
  {
    match e
    case Ident(_, _) => var _ := WhereBound(scope, name);
    case Member(obj, _) => NeededIsBound(p, obj, scope, name);
    case ObjectLit(props) =>
      PropertiesEvaluated(p, props, scope, map[]);
      var i :| 0 <= i < |props| && Needs(props[i].value, name);
      NeededIsBound(p, props[i].value, scope, name);
    case ArrayLit(elems) =>
      ElementsEvaluated(p, elems, scope, None);
      var i :| 0 <= i < |elems| && Needs(elems[i], name);
      NeededIsBound(p, elems[i], scope, name);
    case Unary(_, arg) => NeededIsBound(p, arg, scope, name);
    case Binary(_, l, r) =>
      if Needs(l, name) {
        NeededIsBound(p, l, scope, name);
      } else {
        NeededIsBound(p, r, scope, name);
      }
    case Logical(_, l, _) => NeededIsBound(p, l, scope, name);
    case _ =>
  }

  lemma {:induction false} WhereBound(scope: Scope, name: string) returns (k: nat)
    requires Lookup(scope, name).Some?
    ensures k < |scope| && name in scope[k] && Lookup(scope, name) == Some(scope[k][name])
    ensures forall j | 0 <= j < k :: name !in scope[j]
  {
    if name in scope[0] {
      k := 0;
    } else {
      k := WhereBound(scope[1..], name);
      k := k + 1;
      assert forall j | 0 < j < k :: scope[j] == scope[1..][j - 1];
    }
  }

  lemma {:induction false} ElementsEvaluated(p: Platform, elems: seq<Expr>, scope: Scope, elemType: Option<Type>)
    requires InterpretElements(p, elems, scope, elemType).Ok?
    ensures forall i | 0 <= i < |elems| :: Interpret(p, elems[i], scope).Ok?
  {
    if elems != [] {
      ElementsEvaluated(p, elems[1..], scope,
        Some(if elemType.Some? then elemType.value else TypeOfValue(Interpret(p, elems[0], scope).value)));
      assert elems == [elems[0]] + elems[1..];
    }
  }

  // ----- objects -----

  lemma {:induction false} PropertiesKept(
    p: Platform, props: seq<Property>, scope: Scope, acc: map<string, Value>, k: string)
    requires InterpretProperties(p, props, scope, acc).Ok?
    ensures InterpretProperties(p, props, scope, acc).value.ObjectValue?
    ensures var vals := InterpretProperties(p, props, scope, acc).value.props;
            && (k in vals <==> k in acc || exists i | 0 <= i < |props| :: props[i].key == k)
            && (k in acc ==> vals[k] == acc[k])
  {
    if props != [] {
      PropertiesKept(p, props[1..], scope, acc[props[0].key := Interpret(p, props[0].value, scope).value], k);
      assert props == [props[0]] + props[1..];
    }
  }

  lemma {:induction false} PropertyStored(
    p: Platform, props: seq<Property>, scope: Scope, acc: map<string, Value>, i: nat)
    requires InterpretProperties(p, props, scope, acc).Ok? && i < |props|
    ensures InterpretProperties(p, props, scope, acc).value.ObjectValue?
    ensures var vals := InterpretProperties(p, props, scope, acc).value.props;
            props[i].key in vals && Interpret(p, props[i].value, scope) == Ok(vals[props[i].key])
  {
    var acc' := acc[props[0].key := Interpret(p, props[0].value, scope).value];
    if i == 0 {
      PropertiesKept(p, props[1..], scope, acc', props[0].key);
    } else {
      PropertyStored(p, props[1..], scope, acc', i - 1);
    }
  }

  /** A member of an object literal that has a value is the value of the property with that key, or
      an error where there is none. */
  lemma MemberOfLiteral(p: Platform, props: seq<Property>, scope: Scope, i: nat, k: string)
    requires Interpret(p, ObjectLit(props), scope).Ok?
    ensures i < |props| ==>
              Interpret(p, Member(ObjectLit(props), props[i].key), scope) == Interpret(p, props[i].value, scope)
    ensures (forall j | 0 <= j < |props| :: props[j].key != k) ==>
              Interpret(p, Member(ObjectLit(props), k), scope) == Err
  {
    if i < |props| { PropertyStored(p, props, scope, map[], i); }
    PropertiesKept(p, props, scope, map[], k);
  }
}
