/**
 The row-function compiler: `compile` turns an expression body into a tree of
 evaluators, whose `Eval*` methods run against a flat scope of arguments.
 */
module Compiler {
  import opened Options
  import opened Integers
  import opened Semantic

  /** Evaluator nodes. A binary evaluator names its function by the signature under
      which `binaryFuncs` holds it. */
  datatype Evaluator =
    | BoolEval(t: Type, b: bool)
    | IntEval(t: Type, i: Int64)
    | FloatEval(t: Type, f: UInt64)
    | StringEval(t: Type, s: string)
    | RegexpEval(t: Type, r: string)
    | TimeEval(t: Type, time: Int64)
    | IdentEval(t: Type, name: string)
    | MemberEval(t: Type, obj: Evaluator, prop: string)
    | MapEval(t: Type, props: map<string, Evaluator>)
    | UnaryEval(t: Type, node: Evaluator)
    | LogicalEval(t: Type, lop: LogicalOperator, lleft: Evaluator, lright: Evaluator)
    | BinaryEval(t: Type, bop: Operator, lkind: Kind, rkind: Kind, left: Evaluator, right: Evaluator)

  // ----- compile -----

  function Compile(e: Expr): Outcome<Evaluator>
    decreases e, 1
  {
    match e
    case BoolLit(b) => Ok(BoolEval(Basic(Bool), b))
    case IntLit(i) => Ok(IntEval(Basic(Int), i))
    case FloatLit(f) => Ok(FloatEval(Basic(Float), f))
    case StringLit(s) => Ok(StringEval(Basic(String), s))
    case RegexpLit(r) => Ok(RegexpEval(Basic(Regexp), r))
    case TimeLit(t) => Ok(TimeEval(Basic(Time), t))
    case Ident(name, _) => WithType(e, t => IdentEval(t, name))
    case Member(obj, prop) =>
      (match Compile(obj)
       case Ok(o) => WithType(e, t => MemberEval(t, o, prop))
       case failure => failure)
    case ObjectLit(props) =>
      (match CompileProperties(props, map[])
       case Ok(evals) => WithType(e, t => MapEval(t, evals))
       case Err => Err
       case Panic => Panic)
    case Unary(_, arg) =>
      (match Compile(arg)
       case Ok(node) => WithType(e, t => UnaryEval(t, node))
       case failure => failure)
    case Logical(op, left, right) =>
      (match (Compile(left), Compile(right))
       case (Ok(l), Ok(r)) => Ok(LogicalEval(Basic(Bool), op, l, r))
       case (Ok(_), failure) => failure
       case (failure, _) => failure)
    case Binary(op, left, right) =>
      (match (Compile(left), Compile(right))
       case (Ok(l), Ok(r)) =>
         if l.t.Basic? && r.t.Basic? && CompiledSignature(op, l.t.kind, r.t.kind)
         then WithType(e, t => BinaryEval(t, op, l.t.kind, r.t.kind, l, r))
         else Err
       case (Ok(_), failure) => failure
       case (failure, _) => failure)
    case UIntLit(_) => Err
    case DurationLit(_) => Err
    case ArrayLit(_) => Err
  }

  /** Asking a node for its type can panic, and then so does `compile`. */
  function WithType(e: Expr, build: Type -> Evaluator): Outcome<Evaluator> {
    match TypeOf(e)
    case Some(t) => Ok(build(t))
    case None => Panic
  }

  /** The property loop of `compile`; a repeated key keeps its last evaluator. */
  function CompileProperties(props: seq<Property>, acc: map<string, Evaluator>): Outcome<map<string, Evaluator>>
    decreases props, 0
  {
    if props == [] then Ok(acc) else
    match Compile(props[0].value)
    case Ok(ev) => CompileProperties(props[1..], acc[props[0].key := ev])
    case Err => Err
    case Panic => Panic
  }

  /** The keys of `binaryFuncs`. */
  predicate CompiledSignature(op: Operator, l: Kind, r: Kind) {
    match op
    case Add | Sub | Mul | Div => l == r && Numeric(l)
    case LessEq | Less | GreaterEq | Greater => Numeric(l) && Numeric(r)
    case Equal | NotEqual => (Numeric(l) && Numeric(r)) || (l == String && r == String)
    case Match | NotMatch => (l == String && r == Regexp) || (l == Regexp && r == String)
    case _ => false
  }

  // ----- run -----

  /** The arguments a compiled function runs against. */
  type Args = map<string, Value>

  /** The kinds that have an `Eval*` method. */
  predicate HasMethod(k: Kind) {
    k in {Bool, Int, UInt, Float, String, Regexp, Time, Object}
  }

  /** The kinds `eval` can wrap as a value; on any other it returns nil. */
  predicate HasValue(k: Kind) {
    HasMethod(k) && k != Object
  }

  /** The accessor of kind `k` on a value, a type assertion that panics on a mismatch. */
  function AsKind(v: Value, k: Kind): Outcome<Value> {
    if HasMethod(k) && KindOfValue(v) == k then Ok(v) else Panic
  }

  /** The method `Eval<k>` of an evaluator. */
  function EvalAs(p: Platform, ev: Evaluator, k: Kind, args: Args): Outcome<Value>
    decreases ev, 1
  {
    match ev
    case BoolEval(_, b) => if k == Bool then Ok(BoolValue(b)) else Panic
    case IntEval(_, i) =>
      if k == Int then Ok(IntValue(i))
      else if k == UInt then Ok(UIntValue(WrapUInt(i)))
      else Panic
    case FloatEval(_, f) => if k == Float then Ok(FloatValue(f)) else Panic
    case StringEval(_, s) => if k == String then Ok(StringValue(s)) else Panic
    case RegexpEval(_, r) => if k == Regexp then Ok(RegexpValue(r)) else Panic
    case TimeEval(_, t) => if k == Time then Ok(TimeValue(t)) else Panic
    case IdentEval(_, name) => if name in args then AsKind(args[name], k) else Panic
    case MemberEval(_, obj, prop) =>
      (match EvalAs(p, obj, Object, args)
       case Ok(ObjectValue(props)) => if prop in props then AsKind(props[prop], k) else Panic
       case _ => Panic)
    case MapEval(_, _) => if k == Object then EvalMap(p, ev, args) else Panic
    case UnaryEval(_, node) =>
      if k != Bool && k != Int && k != Float then Panic else
      (match EvalAs(p, node, k, args)
       case Ok(BoolValue(b)) => Ok(BoolValue(!b))
       case Ok(IntValue(i)) => Ok(IntValue(WrapInt(0 - i)))
       case Ok(FloatValue(f)) => Ok(FloatValue(p.neg(f)))
       case _ => Panic)
    case LogicalEval(_, op, left, right) =>
      if k != Bool then Panic else
      (match EvalAs(p, left, Bool, args)
       case Ok(BoolValue(l)) =>
         if l == (op == Or) then Ok(BoolValue(l)) else EvalAs(p, right, Bool, args)
       case _ => Panic)
    case BinaryEval(_, op, lk, rk, left, right) =>
      if k == Regexp || k == Object then Panic else
      (match (EvalAs(p, left, lk, args), EvalAs(p, right, rk, args))
       case (Ok(l), Ok(r)) =>
         (match CompiledBinary(p, op, l, r)
          case Some(Ok(v)) => AsKind(v, k)
          case _ => Panic)
       case _ => Panic)
  }

  /** The object of an object literal: every property evaluated and set. */
  function EvalMap(p: Platform, ev: Evaluator, args: Args): Outcome<Value>
    requires ev.MapEval?
    decreases ev, 0
  {
    var props := ev.props;
    if forall name | name in props :: EvalProperty(p, props[name], args).Ok?
    then Ok(ObjectValue(map name | name in props :: EvalProperty(p, props[name], args).value))
    else Panic
  }

  /** `eval` followed by `Object.Set`, which panics on the nil value `eval` returns
      for a kind it does not know. */
  function EvalProperty(p: Platform, ev: Evaluator, args: Args): Outcome<Value>
    decreases ev, 2
  {
    if ev.t != NoType && HasValue(KindOf(ev.t)) then EvalAs(p, ev, KindOf(ev.t), args) else Panic
  }

  /** The functions `binaryFuncs` holds. */
  function CompiledBinary(p: Platform, op: Operator, lv: Value, rv: Value): Option<Outcome<Value>> {
    match (lv, rv)
    case (IntValue(l), IntValue(r)) => IntIntEntry(p, op, l, r)
    case (IntValue(l), UIntValue(r)) => IntUIntEntry(p, op, l, r)
    case (IntValue(l), FloatValue(r)) => IntFloatEntry(p, op, l, r)
    case (UIntValue(l), IntValue(r)) => UIntIntEntry(p, op, l, r)
    case (UIntValue(l), UIntValue(r)) => UIntUIntEntry(p, op, l, r)
    case (UIntValue(l), FloatValue(r)) => UIntFloatEntry(p, op, l, r)
    case (FloatValue(l), IntValue(r)) => FloatIntEntry(p, op, l, r)
    case (FloatValue(l), UIntValue(r)) => FloatUIntEntry(p, op, l, r)
    case (FloatValue(l), FloatValue(r)) => FloatFloatEntry(p, op, l, r)
    case (StringValue(l), StringValue(r)) =>
      if op == Equal then Some(Ok(BoolValue(l == r)))
      else if op == NotEqual then Some(Ok(BoolValue(l != r)))
      else None
    case (StringValue(l), RegexpValue(r)) => RegexpEntry(p, op, r, l)
    case (RegexpValue(l), StringValue(r)) => RegexpEntry(p, op, l, r)
    case _ => None
  }

  function RegexpEntry(p: Platform, op: Operator, re: string, s: string): Option<Outcome<Value>> {
    match op
    case Match => Some(Ok(BoolValue(p.match_(re, s))))
    case NotMatch => Some(Ok(BoolValue(!p.match_(re, s))))
    case _ => None
  }

  function IntIntEntry(p: Platform, op: Operator, l: Int64, r: Int64): Option<Outcome<Value>> {
    match op
    case Add => Some(Ok(IntValue(WrapInt(l + r))))
    case Sub => Some(Ok(IntValue(WrapInt(l - r))))
    case Mul => Some(Ok(IntValue(WrapInt(l * r))))
    case Div => Some(if r == 0 then Panic else Ok(IntValue(WrapInt(Quot(l, r)))))
    case LessEq => Some(Ok(BoolValue(l <= r)))
    case Less => Some(Ok(BoolValue(l < r)))
    case GreaterEq => Some(Ok(BoolValue(l >= r)))
    case Greater => Some(Ok(BoolValue(l > r)))
    case Equal => Some(Ok(BoolValue(l == r)))
    case NotEqual => Some(Ok(BoolValue(l != r)))
    case _ => None
  }

  function IntUIntEntry(p: Platform, op: Operator, l: Int64, r: UInt64): Option<Outcome<Value>> {
    match op
    case LessEq => Some(Ok(BoolValue(if l < 0 then true else l <= r)))
    case Less => Some(Ok(BoolValue(if l < 0 then true else l < r)))
    case GreaterEq => Some(Ok(BoolValue(if l < 0 then true else l >= r)))
    case Greater => Some(Ok(BoolValue(if l < 0 then true else l > r)))
    case Equal => Some(Ok(BoolValue(if l < 0 then false else l == r)))
    case NotEqual => Some(Ok(BoolValue(if l < 0 then true else l != r)))
    case _ => None
  }

  function IntFloatEntry(p: Platform, op: Operator, l: Int64, r: UInt64): Option<Outcome<Value>> {
    match op
    case LessEq => Some(Ok(BoolValue(p.le(p.ofInt(l), r))))
    case Less => Some(Ok(BoolValue(p.lt(p.ofInt(l), r))))
    case GreaterEq => Some(Ok(BoolValue(p.le(r, p.ofInt(l)))))
    case Greater => Some(Ok(BoolValue(p.lt(r, p.ofInt(l)))))
    case Equal => Some(Ok(BoolValue(p.eq(p.ofInt(l), r))))
    case NotEqual => Some(Ok(BoolValue(!p.eq(p.ofInt(l), r))))
    case _ => None
  }

  function UIntIntEntry(p: Platform, op: Operator, l: UInt64, r: Int64): Option<Outcome<Value>> {
    match op
    case LessEq => Some(Ok(BoolValue(if r < 0 then false else l <= r)))
    case Less => Some(Ok(BoolValue(if r < 0 then false else l < r)))
    case GreaterEq => Some(Ok(BoolValue(if r < 0 then false else l >= r)))
    case Greater => Some(Ok(BoolValue(if r < 0 then false else l > r)))
    case Equal => Some(Ok(BoolValue(if r < 0 then false else l == r)))
    case NotEqual => Some(Ok(BoolValue(if r < 0 then true else l != r)))
    case _ => None
  }

  function UIntUIntEntry(p: Platform, op: Operator, l: UInt64, r: UInt64): Option<Outcome<Value>> {
    match op
    case Add => Some(Ok(UIntValue(WrapUInt(l + r))))
    case Sub => Some(Ok(UIntValue(WrapUInt(l - r))))
    case Mul => Some(Ok(UIntValue(WrapUInt(l * r))))
    case Div => Some(if r == 0 then Panic else Ok(UIntValue(WrapUInt(Quot(l, r)))))
    case LessEq => Some(Ok(BoolValue(l <= r)))
    case Less => Some(Ok(BoolValue(l < r)))
    case GreaterEq => Some(Ok(BoolValue(l >= r)))
    case Greater => Some(Ok(BoolValue(l > r)))
    case Equal => Some(Ok(BoolValue(l == r)))
    case NotEqual => Some(Ok(BoolValue(l != r)))
    case _ => None
  }

  function UIntFloatEntry(p: Platform, op: Operator, l: UInt64, r: UInt64): Option<Outcome<Value>> {
    match op
    case LessEq => Some(Ok(BoolValue(p.le(p.ofInt(l), r))))
    case Less => Some(Ok(BoolValue(p.lt(p.ofInt(l), r))))
    case GreaterEq => Some(Ok(BoolValue(p.le(r, p.ofInt(l)))))
    case Greater => Some(Ok(BoolValue(p.lt(r, p.ofInt(l)))))
    case Equal => Some(Ok(BoolValue(p.eq(p.ofInt(l), r))))
    case NotEqual => Some(Ok(BoolValue(!p.eq(p.ofInt(l), r))))
    case _ => None
  }

  function FloatIntEntry(p: Platform, op: Operator, l: UInt64, r: Int64): Option<Outcome<Value>> {
    match op
    case LessEq => Some(Ok(BoolValue(p.le(l, p.ofInt(r)))))
    case Less => Some(Ok(BoolValue(p.lt(l, p.ofInt(r)))))
    case GreaterEq => Some(Ok(BoolValue(p.le(p.ofInt(r), l))))
    case Greater => Some(Ok(BoolValue(p.lt(p.ofInt(r), l))))
    case Equal => Some(Ok(BoolValue(p.eq(l, p.ofInt(r)))))
    case NotEqual => Some(Ok(BoolValue(!p.eq(l, p.ofInt(r)))))
    case _ => None
  }

  function FloatUIntEntry(p: Platform, op: Operator, l: UInt64, r: UInt64): Option<Outcome<Value>> {
    match op
    case LessEq => Some(Ok(BoolValue(p.le(l, p.ofInt(r)))))
    case Less => Some(Ok(BoolValue(p.lt(l, p.ofInt(r)))))
    case GreaterEq => Some(Ok(BoolValue(p.le(p.ofInt(r), l))))
    case Greater => Some(Ok(BoolValue(p.lt(p.ofInt(r), l))))
    case Equal => Some(Ok(BoolValue(p.eq(l, p.ofInt(r)))))
    case NotEqual => Some(Ok(BoolValue(!p.eq(l, p.ofInt(r)))))
    case _ => None
  }

  function FloatFloatEntry(p: Platform, op: Operator, l: UInt64, r: UInt64): Option<Outcome<Value>> {
    match op
    case Add => Some(Ok(FloatValue(p.add(l, r))))
    case Sub => Some(Ok(FloatValue(p.sub(l, r))))
    case Mul => Some(Ok(FloatValue(p.mul(l, r))))
    case Div => Some(Ok(FloatValue(p.div(l, r))))
    case LessEq => Some(Ok(BoolValue(p.le(l, r))))
    case Less => Some(Ok(BoolValue(p.lt(l, r))))
    case GreaterEq => Some(Ok(BoolValue(p.le(r, l))))
    case Greater => Some(Ok(BoolValue(p.lt(r, l))))
    case Equal => Some(Ok(BoolValue(p.eq(l, r))))
    case NotEqual => Some(Ok(BoolValue(!p.eq(l, r))))
    case _ => None
  }

  // ----- whole functions -----

  /** `ApplyNewDeclarations`: an identifier without a declaration gets the one the
      parameter types give its name. */
  function Declare(e: Expr, types: map<string, Type>): Expr
    decreases e, 1
  {
    match e
    case Ident(name, decl) => if decl.None? && name in types then Ident(name, Some(types[name])) else e
    case Member(obj, prop) => Member(Declare(obj, types), prop)
    case ObjectLit(props) => ObjectLit(DeclareProperties(props, types))
    case ArrayLit(elems) => ArrayLit(DeclareElements(elems, types))
    case Unary(op, arg) => Unary(op, Declare(arg, types))
    case Binary(op, l, r) => Binary(op, Declare(l, types), Declare(r, types))
    case Logical(op, l, r) => Logical(op, Declare(l, types), Declare(r, types))
    case _ => e
  }

  function DeclareProperties(props: seq<Property>, types: map<string, Type>): seq<Property>
    decreases props, 0
  {
    if props == [] then []
    else [Property(props[0].key, Declare(props[0].value, types))] + DeclareProperties(props[1..], types)
  }

  function DeclareElements(elems: seq<Expr>, types: map<string, Type>): seq<Expr>
    decreases elems, 0
  {
    if elems == [] then [] else [Declare(elems[0], types)] + DeclareElements(elems[1..], types)
  }

  /** `compiledFn`. */
  datatype Func = Func(root: Evaluator, inTypes: map<string, Type>)

  /** The exported `Compile`. */
  function CompileFunction(body: Expr, inTypes: map<string, Type>): Outcome<Func> {
    match Compile(Declare(body, inTypes))
    case Ok(root) => Ok(Func(root, inTypes))
    case Err => Err
    case Panic => Panic
  }

  /** What `compiledFn.Eval` returns for valid arguments; a kind without a method is an error. */
  function EvalRoot(p: Platform, fn: Func, args: Args): Outcome<Value> {
    if fn.root.t == NoType then Panic
    else if !HasMethod(KindOf(fn.root.t)) then Err
    else EvalAs(p, fn.root, KindOf(fn.root.t), args)
  }

  predicate Missing(types: map<string, Type>, args: Args) {
    exists name :: name in types && name !in args
  }

  predicate Mistyped(types: map<string, Type>, args: Args) {
    exists name :: name in types && name in args && TypeOfValue(args[name]) != types[name]
  }

  /** The outcomes of `compiledFn.Eval`. `validate` ranges over a Go map: it panics when it comes
      to a missing argument first, and reports an error when it comes to a mistyped one first. */
  ghost predicate MayEval(p: Platform, fn: Func, args: Args, o: Outcome<Value>) {
    || (Missing(fn.inTypes, args) && o == Panic)
    || (Mistyped(fn.inTypes, args) && o == Err)
    || (WellTyped(fn.inTypes, args) && o == EvalRoot(p, fn, args))
  }

  /** `compiledFn.Eval` has this outcome, however the map is ranged over. */
  ghost predicate Evaluates(p: Platform, fn: Func, args: Args, o: Outcome<Value>) {
    forall other :: MayEval(p, fn, args, other) <==> other == o
  }

  predicate WellTyped(types: map<string, Type>, args: Args) {
    forall name | name in types :: name in args && TypeOfValue(args[name]) == types[name]
  }
}
