/**
 The tree-walking interpreter on expression bodies: scopes, `doExpression` and its
 table of binary functions.
 */
module Interpreter {
  import opened Options
  import opened Integers
  import opened Semantic

  /** A scope and its parents, innermost first. */
  type Scope = seq<map<string, Value>>

  function Lookup(scope: Scope, name: string): Option<Value> {
    if scope == [] then None
    else if name in scope[0] then Some(scope[0][name])
    else Lookup(scope[1..], name)
  }

  /** `doExpression`. */
  function Interpret(p: Platform, e: Expr, scope: Scope): Outcome<Value>
    decreases e, 1
  {
    match e
    case BoolLit(b) => Ok(BoolValue(b))
    case IntLit(i) => Ok(IntValue(i))
    case UIntLit(u) => Ok(UIntValue(u))
    case FloatLit(f) => Ok(FloatValue(f))
    case StringLit(s) => Ok(StringValue(s))
    case RegexpLit(r) => Ok(RegexpValue(r))
    case TimeLit(t) => Ok(TimeValue(t))
    case DurationLit(d) => Ok(DurationValue(d))
    case Ident(name, _) =>
      (match Lookup(scope, name)
       case Some(v) => Ok(v)
       case None => Err)
    case Member(obj, prop) =>
      (match Interpret(p, obj, scope)
       case Ok(v) => PropertyOf(v, prop)
       case failure => failure)
    case ObjectLit(props) => InterpretProperties(p, props, scope, map[])
    case ArrayLit(elems) =>
      (match InterpretElements(p, elems, scope, None)
       case Ok(vs) => Ok(ArrayValue(vs, if vs == [] then Basic(Nil) else TypeOfValue(vs[0])))
       case Err => Err
       case Panic => Panic)
    case Unary(op, arg) =>
      (match Interpret(p, arg, scope)
       case Ok(v) => InterpretedUnary(p, op, v)
       case failure => failure)
    case Binary(op, left, right) =>
      (match Interpret(p, left, scope)
       case Ok(l) =>
         (match Interpret(p, right, scope)
          case Ok(r) =>
            var result := InterpretedBinary(p, op, l, r);
            if result.Some? then result.value else Err
          case failure => failure)
       case failure => failure)
    case Logical(op, left, right) =>
      (match Interpret(p, left, scope)
       case Ok(BoolValue(l)) =>
         if op == And && !l then Ok(BoolValue(false))
         else if op == Or && l then Ok(BoolValue(true))
         else
           (match Interpret(p, right, scope)
            case Ok(BoolValue(r)) => Ok(BoolValue(if op == And then l && r else l || r))
            case Ok(_) => Err
            case failure => failure)
       case Ok(_) => Err
       case failure => failure)
  }

  /** `doObject`: a repeated key is an error. */
  function InterpretProperties(p: Platform, props: seq<Property>, scope: Scope, acc: map<string, Value>): Outcome<Value>
    decreases props, 0
  {
    if props == [] then Ok(ObjectValue(acc)) else
    match Interpret(p, props[0].value, scope)
    case Ok(v) =>
      if props[0].key in acc then Err
      else InterpretProperties(p, props[1..], scope, acc[props[0].key := v])
    case failure => failure
  }

  /** The loop of `doArray`: every element has the type of the first one. */
  function InterpretElements(p: Platform, elems: seq<Expr>, scope: Scope, elemType: Option<Type>): Outcome<seq<Value>>
    decreases elems, 0
  {
    if elems == [] then Ok([]) else
    match Interpret(p, elems[0], scope)
    case Ok(v) =>
      var et := if elemType.Some? then elemType.value else TypeOfValue(v);
      if et != TypeOfValue(v) then Err
      else
        (match InterpretElements(p, elems[1..], scope, Some(et))
         case Ok(vs) => Ok([v] + vs)
         case failure => failure)
    case Err => Err
    case Panic => Panic
  }

  /** `Property`: objects have named properties, arrays are indexed by a decimal
      name, other values have none. */
  function PropertyOf(v: Value, name: string): Outcome<Value> {
    match v
    case ObjectValue(props) => if name in props then Ok(props[name]) else Err
    case ArrayValue(elems, _) =>
      (match ParseIndex(name)
       case Some(i) => if 0 <= i < |elems| then Ok(elems[i]) else Err
       case None => Err)
    case _ => Err
  }

  /** A decimal integer with an optional sign, as `strconv.Atoi` reads it. */
  function ParseIndex(s: string): Option<int> {
    if s != [] && s[0] == '-' then
      (match ParseDigits(s[1..], 0)
       case Some(n) => Some(-n)
       case None => None)
    else if s != [] && s[0] == '+' then ParseDigits(s[1..], 0)
    else ParseDigits(s, 0)
  }

  function ParseDigits(s: string, acc: int): Option<int> {
    if s == [] then None
    else if !('0' <= s[0] <= '9') then None
    else
      var n := 10 * acc + (s[0] as int - '0' as int);
      if |s| == 1 then Some(n) else ParseDigits(s[1..], n)
  }

  function InterpretedUnary(p: Platform, op: Operator, v: Value): Outcome<Value> {
    match (op, v)
    case (Not, BoolValue(b)) => Ok(BoolValue(!b))
    case (Sub, IntValue(i)) => Ok(IntValue(WrapInt(0 - i)))
    case (Sub, FloatValue(f)) => Ok(FloatValue(p.neg(f)))
    case (Sub, DurationValue(d)) => Ok(DurationValue(WrapInt(0 - d)))
    case _ => Err
  }

  /** `binaryFuncLookup`: the function the interpreter applies to two values, or
      `None` when no entry has their types. */
  function InterpretedBinary(p: Platform, op: Operator, lv: Value, rv: Value): Option<Outcome<Value>> {
    match (op, lv, rv)
    case (Add, IntValue(l), IntValue(r)) => Some(Ok(IntValue(WrapInt(l + r))))
    case (Add, UIntValue(l), UIntValue(r)) => Some(Ok(UIntValue(WrapUInt(l + r))))
    case (Add, FloatValue(l), FloatValue(r)) => Some(Ok(FloatValue(p.add(l, r))))
    case (Sub, IntValue(l), IntValue(r)) => Some(Ok(IntValue(WrapInt(l - r))))
    case (Sub, UIntValue(l), UIntValue(r)) => Some(Ok(UIntValue(WrapUInt(l - r))))
    case (Sub, FloatValue(l), FloatValue(r)) => Some(Ok(FloatValue(p.sub(l, r))))
    case (Mul, IntValue(l), IntValue(r)) => Some(Ok(IntValue(WrapInt(l * r))))
    case (Mul, UIntValue(l), UIntValue(r)) => Some(Ok(UIntValue(WrapUInt(l * r))))
    case (Mul, FloatValue(l), FloatValue(r)) => Some(Ok(FloatValue(p.mul(l, r))))
    case (Div, IntValue(l), IntValue(r)) => Some(if r == 0 then Panic else Ok(IntValue(WrapInt(Quot(l, r)))))
    case (Div, UIntValue(l), UIntValue(r)) => Some(if r == 0 then Panic else Ok(UIntValue(WrapUInt(Quot(l, r)))))
    case (Div, FloatValue(l), FloatValue(r)) => Some(Ok(FloatValue(p.div(l, r))))
    case (LessEq, IntValue(l), IntValue(r)) => Some(Ok(BoolValue(l <= r)))
    case (LessEq, IntValue(l), UIntValue(r)) => Some(Ok(BoolValue(l < 0 || l <= r)))
    case (LessEq, IntValue(l), FloatValue(r)) => Some(Ok(BoolValue(p.le(p.ofInt(l), r))))
    case (LessEq, UIntValue(l), IntValue(r)) => Some(Ok(BoolValue(r >= 0 && l <= r)))
    case (LessEq, UIntValue(l), UIntValue(r)) => Some(Ok(BoolValue(l <= r)))
    case (LessEq, UIntValue(l), FloatValue(r)) => Some(Ok(BoolValue(p.le(p.ofInt(l), r))))
    case (LessEq, FloatValue(l), IntValue(r)) => Some(Ok(BoolValue(p.le(l, p.ofInt(r)))))
    case (LessEq, FloatValue(l), UIntValue(r)) => Some(Ok(BoolValue(p.le(l, p.ofInt(r)))))
    case (LessEq, FloatValue(l), FloatValue(r)) => Some(Ok(BoolValue(p.le(l, r))))
    case (Less, IntValue(l), IntValue(r)) => Some(Ok(BoolValue(l < r)))
    case (Less, IntValue(l), UIntValue(r)) => Some(Ok(BoolValue(l < 0 || l < r)))
    case (Less, IntValue(l), FloatValue(r)) => Some(Ok(BoolValue(p.lt(p.ofInt(l), r))))
    case (Less, UIntValue(l), IntValue(r)) => Some(Ok(BoolValue(r >= 0 && l < r)))
    case (Less, UIntValue(l), UIntValue(r)) => Some(Ok(BoolValue(l < r)))
    case (Less, UIntValue(l), FloatValue(r)) => Some(Ok(BoolValue(p.lt(p.ofInt(l), r))))
    case (Less, FloatValue(l), IntValue(r)) => Some(Ok(BoolValue(p.lt(l, p.ofInt(r)))))
    case (Less, FloatValue(l), UIntValue(r)) => Some(Ok(BoolValue(p.lt(l, p.ofInt(r)))))
    case (Less, FloatValue(l), FloatValue(r)) => Some(Ok(BoolValue(p.lt(l, r))))
    case (GreaterEq, IntValue(l), IntValue(r)) => Some(Ok(BoolValue(l >= r)))
    case (GreaterEq, IntValue(l), UIntValue(r)) => Some(Ok(BoolValue(l < 0 || l >= r)))
    case (GreaterEq, IntValue(l), FloatValue(r)) => Some(Ok(BoolValue(p.le(r, p.ofInt(l)))))
    case (GreaterEq, UIntValue(l), IntValue(r)) => Some(Ok(BoolValue(r >= 0 && l >= r)))
    case (GreaterEq, UIntValue(l), UIntValue(r)) => Some(Ok(BoolValue(l >= r)))
    case (GreaterEq, UIntValue(l), FloatValue(r)) => Some(Ok(BoolValue(p.le(r, p.ofInt(l)))))
    case (GreaterEq, FloatValue(l), IntValue(r)) => Some(Ok(BoolValue(p.le(p.ofInt(r), l))))
    case (GreaterEq, FloatValue(l), UIntValue(r)) => Some(Ok(BoolValue(p.le(p.ofInt(r), l))))
    case (GreaterEq, FloatValue(l), FloatValue(r)) => Some(Ok(BoolValue(p.le(r, l))))
    case (Greater, IntValue(l), IntValue(r)) => Some(Ok(BoolValue(l > r)))
    case (Greater, IntValue(l), UIntValue(r)) => Some(Ok(BoolValue(l < 0 || l > r)))
    case (Greater, IntValue(l), FloatValue(r)) => Some(Ok(BoolValue(p.lt(r, p.ofInt(l)))))
    case (Greater, UIntValue(l), IntValue(r)) => Some(Ok(BoolValue(r >= 0 && l > r)))
    case (Greater, UIntValue(l), UIntValue(r)) => Some(Ok(BoolValue(l > r)))
    case (Greater, UIntValue(l), FloatValue(r)) => Some(Ok(BoolValue(p.lt(r, p.ofInt(l)))))
    case (Greater, FloatValue(l), IntValue(r)) => Some(Ok(BoolValue(p.lt(p.ofInt(r), l))))
    case (Greater, FloatValue(l), UIntValue(r)) => Some(Ok(BoolValue(p.lt(p.ofInt(r), l))))
    case (Greater, FloatValue(l), FloatValue(r)) => Some(Ok(BoolValue(p.lt(r, l))))
    case (Equal, IntValue(l), IntValue(r)) => Some(Ok(BoolValue(l == r)))
    case (Equal, IntValue(l), UIntValue(r)) => Some(Ok(BoolValue(l >= 0 && l == r)))
    case (Equal, IntValue(l), FloatValue(r)) => Some(Ok(BoolValue(p.eq(p.ofInt(l), r))))
    case (Equal, UIntValue(l), IntValue(r)) => Some(Ok(BoolValue(r >= 0 && l == r)))
    case (Equal, UIntValue(l), UIntValue(r)) => Some(Ok(BoolValue(l == r)))
    case (Equal, UIntValue(l), FloatValue(r)) => Some(Ok(BoolValue(p.eq(p.ofInt(l), r))))
    case (Equal, FloatValue(l), IntValue(r)) => Some(Ok(BoolValue(p.eq(l, p.ofInt(r)))))
    case (Equal, FloatValue(l), UIntValue(r)) => Some(Ok(BoolValue(p.eq(l, p.ofInt(r)))))
    case (Equal, FloatValue(l), FloatValue(r)) => Some(Ok(BoolValue(p.eq(l, r))))
    case (Equal, StringValue(l), StringValue(r)) => Some(Ok(BoolValue(l == r)))
    case (NotEqual, IntValue(l), IntValue(r)) => Some(Ok(BoolValue(l != r)))
    case (NotEqual, IntValue(l), UIntValue(r)) => Some(Ok(BoolValue(l < 0 || l != r)))
    case (NotEqual, IntValue(l), FloatValue(r)) => Some(Ok(BoolValue(!p.eq(p.ofInt(l), r))))
    case (NotEqual, UIntValue(l), IntValue(r)) => Some(Ok(BoolValue(r < 0 || l != r)))
    case (NotEqual, UIntValue(l), UIntValue(r)) => Some(Ok(BoolValue(l != r)))
    case (NotEqual, UIntValue(l), FloatValue(r)) => Some(Ok(BoolValue(!p.eq(p.ofInt(l), r))))
    case (NotEqual, FloatValue(l), IntValue(r)) => Some(Ok(BoolValue(!p.eq(l, p.ofInt(r)))))
    case (NotEqual, FloatValue(l), UIntValue(r)) => Some(Ok(BoolValue(!p.eq(l, p.ofInt(r)))))
    case (NotEqual, FloatValue(l), FloatValue(r)) => Some(Ok(BoolValue(!p.eq(l, r))))
    case (NotEqual, StringValue(l), StringValue(r)) => Some(Ok(BoolValue(l != r)))
    case (Match, StringValue(l), RegexpValue(r)) => Some(Ok(BoolValue(p.match_(r, l))))
    case (Match, RegexpValue(l), StringValue(r)) => Some(Ok(BoolValue(p.match_(l, r))))
    case (NotMatch, StringValue(l), RegexpValue(r)) => Some(Ok(BoolValue(!p.match_(r, l))))
    case (NotMatch, RegexpValue(l), StringValue(r)) => Some(Ok(BoolValue(!p.match_(l, r))))
    case _ => None
  }

  // ----- values are well formed -----

  /** Arrays as the interpreter builds them: the element type is the type of every
      element, and nil for an empty array. */
  predicate Canonical(v: Value) {
    match v
    case ArrayValue(elems, et) =>
      && (elems == [] ==> et == Basic(Nil))
      && forall i | 0 <= i < |elems| :: Canonical(elems[i]) && TypeOfValue(elems[i]) == et
    case ObjectValue(props) => forall k | k in props :: Canonical(props[k])
    case _ => true
  }

  ghost predicate CanonicalScope(scope: Scope) {
    forall name :: Lookup(scope, name).Some? ==> Canonical(Lookup(scope, name).value)
  }

  /** Values the interpreter computes are canonical when the scope's are, so that the scopes
      built by variable declarations stay canonical. */
  lemma {:induction false} InterpretIsCanonical(p: Platform, e: Expr, scope: Scope)
    requires CanonicalScope(scope) && Interpret(p, e, scope).Ok?
    ensures Canonical(Interpret(p, e, scope).value)
    decreases e, 1
  {
    match e
    case Member(obj, prop) =>
      InterpretIsCanonical(p, obj, scope);
      PropertyIsCanonical(Interpret(p, obj, scope).value, prop);
    case ObjectLit(props) => PropertiesAreCanonical(p, props, scope, map[]);
    case ArrayLit(elems) => ElementsAreCanonical(p, elems, scope, None);
    case Binary(_, _, _) => BinaryIsCanonical(p, e, scope);
    case _ =>
  }

  lemma PropertyIsCanonical(v: Value, name: string)
    requires Canonical(v) && PropertyOf(v, name).Ok?
    ensures Canonical(PropertyOf(v, name).value)
  {
  }

  lemma BinaryIsCanonical(p: Platform, e: Expr, scope: Scope)
    requires e.Binary? && Interpret(p, e, scope).Ok?
    ensures Canonical(Interpret(p, e, scope).value)
  {
    var l, r := Interpret(p, e.left, scope).value, Interpret(p, e.right, scope).value;
    TableIsCanonical(p, e.bop, l, r, InterpretedBinary(p, e.bop, l, r));
  }

  lemma TableIsCanonical(p: Platform, op: Operator, l: Value, r: Value, result: Option<Outcome<Value>>)
    requires result == InterpretedBinary(p, op, l, r) && result.Some? && result.value.Ok?
    ensures Canonical(result.value.value)
  {
  }

  lemma {:induction false} PropertiesAreCanonical(
    p: Platform, props: seq<Property>, scope: Scope, acc: map<string, Value>)
    requires CanonicalScope(scope) && InterpretProperties(p, props, scope, acc).Ok?
    requires forall k | k in acc :: Canonical(acc[k])
    ensures Canonical(InterpretProperties(p, props, scope, acc).value)
    decreases props, 0
  {
    if props != [] {
      InterpretIsCanonical(p, props[0].value, scope);
      PropertiesAreCanonical(p, props[1..], scope, acc[props[0].key := Interpret(p, props[0].value, scope).value]);
    }
  }

  lemma {:induction false} ElementsAreCanonical(p: Platform, elems: seq<Expr>, scope: Scope, elemType: Option<Type>)
    requires CanonicalScope(scope) && InterpretElements(p, elems, scope, elemType).Ok?
    ensures var vs := InterpretElements(p, elems, scope, elemType).value;
            forall i | 0 <= i < |vs| ::
              Canonical(vs[i]) && TypeOfValue(vs[i]) == if elemType.Some? then elemType.value else TypeOfValue(vs[0])
    decreases elems, 0
  {
    if elems != [] {
      InterpretIsCanonical(p, elems[0], scope);
      var v := Interpret(p, elems[0], scope).value;
      ElementsAreCanonical(p, elems[1..], scope, Some(if elemType.Some? then elemType.value else TypeOfValue(v)));
    }
  }

  // ----- array literals -----

  /** An element evaluates to a value of this type. */
  predicate Yields(p: Platform, e: Expr, scope: Scope, t: Type) {
    Interpret(p, e, scope).Ok? && TypeOfValue(Interpret(p, e, scope).value) == t
  }

  lemma {:induction false} ElementsExact(p: Platform, elems: seq<Expr>, scope: Scope, t: Type)
    ensures var o := InterpretElements(p, elems, scope, Some(t));
            && (o.Ok? <==> forall i | 0 <= i < |elems| :: Yields(p, elems[i], scope, t))
            && (o.Ok? ==> |o.value| == |elems|)
            && (o.Ok? ==> forall i | 0 <= i < |elems| :: Interpret(p, elems[i], scope) == Ok(o.value[i]))
  {
    if elems != [] {
      ElementsExact(p, elems[1..], scope, t);
      assert forall i | 0 < i < |elems| :: elems[i] == elems[1..][i - 1];
      assert Yields(p, elems[0], scope, t) && (forall i | 0 <= i < |elems[1..]| :: Yields(p, elems[1..][i], scope, t))
        ==> forall i | 0 <= i < |elems| :: Yields(p, elems[i], scope, t);
    }
  }

  /** An array literal has a value exactly when its elements have values of one type; these are then
      its elements, in order. */
  lemma ArrayExact(p: Platform, elems: seq<Expr>, scope: Scope, t: Type)
    requires elems != [] && Yields(p, elems[0], scope, t)
    ensures Interpret(p, ArrayLit(elems), scope).Ok? <==> forall i | 0 <= i < |elems| :: Yields(p, elems[i], scope, t)
    ensures Interpret(p, ArrayLit(elems), scope).Ok? ==>
              exists vs | |vs| == |elems| ::
                && Interpret(p, ArrayLit(elems), scope) == Ok(ArrayValue(vs, t))
                && forall i | 0 <= i < |elems| :: Interpret(p, elems[i], scope) == Ok(vs[i])
  {
    ElementsExact(p, elems, scope, t);
    assert InterpretElements(p, elems, scope, None) == InterpretElements(p, elems, scope, Some(t));
  }
}
