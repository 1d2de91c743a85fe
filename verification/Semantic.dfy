/**
 The vocabulary shared by the interpreter and the row-function compiler: types,
 runtime values, operators and expression bodies of the semantic graph.
 */
module Semantic {
  import opened Options

  /** What a Go call can do: return a result, return an error, or panic. */
  datatype Outcome<+T> = Ok(value: T) | Err | Panic

  datatype Kind =
    | Invalid | Nil | String | Int | UInt | Float | Bool
    | Time | Duration | Regexp | Array | Object | Function

  /** `NoType` is the nil interface value, for example the type of a property that
      an object type does not have; asking it for its kind panics. */
  datatype Type =
    | NoType
    | Basic(kind: Kind)
    | ArrayOf(elem: Type)
    | ObjectOf(props: map<string, Type>)

  function KindOf(t: Type): Kind
    requires t != NoType
  {
    match t
    case Basic(k) => k
    case ArrayOf(_) => Array
    case ObjectOf(_) => Object
  }

  // ----- machine integers -----

  const TWO_63: int := 0x8000_0000_0000_0000
  const TWO_64: int := 0x1_0000_0000_0000_0000

  type Int64 = x: int | -TWO_63 <= x < TWO_63
  type UInt64 = x: int | 0 <= x < TWO_64

  function WrapInt(x: int): Int64 {
    (x + TWO_63) % TWO_64 - TWO_63
  }

  function WrapUInt(x: int): UInt64 {
    x % TWO_64
  }

  // ----- values -----

  /** A float is its 64-bit pattern and a regular expression its source text: what
      the hardware and the regexp library make of them is a `Platform`. */
  datatype Value =
    | BoolValue(b: bool)
    | IntValue(i: Int64)
    | UIntValue(u: UInt64)
    | FloatValue(f: UInt64)
    | StringValue(s: string)
    | RegexpValue(r: string)
    | TimeValue(t: Int64)
    | DurationValue(d: Int64)
    | ArrayValue(elems: seq<Value>, elemType: Type)
    | ObjectValue(props: map<string, Value>)

  function TypeOfValue(v: Value): (t: Type)
    ensures t != NoType
  {
    match v
    case BoolValue(_) => Basic(Bool)
    case IntValue(_) => Basic(Int)
    case UIntValue(_) => Basic(UInt)
    case FloatValue(_) => Basic(Float)
    case StringValue(_) => Basic(String)
    case RegexpValue(_) => Basic(Regexp)
    case TimeValue(_) => Basic(Time)
    case DurationValue(_) => Basic(Duration)
    case ArrayValue(_, et) => ArrayOf(et)
    case ObjectValue(props) => ObjectOf(map k | k in props :: TypeOfValue(props[k]))
  }

  function KindOfValue(v: Value): Kind {
    KindOf(TypeOfValue(v))
  }

  /** The float unit and the regexp engine, left uninterpreted. */
  datatype Platform = Platform(
    add: (UInt64, UInt64) -> UInt64,
    sub: (UInt64, UInt64) -> UInt64,
    mul: (UInt64, UInt64) -> UInt64,
    div: (UInt64, UInt64) -> UInt64,
    neg: UInt64 -> UInt64,
    le: (UInt64, UInt64) -> bool,
    lt: (UInt64, UInt64) -> bool,
    eq: (UInt64, UInt64) -> bool,
    ofInt: int -> UInt64,
    match_: (string, string) -> bool)

  // ----- operators and expressions -----

  datatype Operator =
    | Mul | Div | Add | Sub
    | LessEq | Less | GreaterEq | Greater
    | StartsWith | In | Not | NotEmpty | Empty
    | Equal | NotEqual | Match | NotMatch

  datatype LogicalOperator = And | Or

  /** Expression bodies. The declaration of an identifier is reduced to the type it
      gives the identifier. */
  datatype Expr =
    | BoolLit(b: bool)
    | IntLit(i: Int64)
    | UIntLit(u: UInt64)
    | FloatLit(f: UInt64)
    | StringLit(s: string)
    | RegexpLit(r: string)
    | TimeLit(t: Int64)
    | DurationLit(d: Int64)
    | Ident(name: string, decl: Option<Type>)
    | Member(obj: Expr, prop: string)
    | ObjectLit(props: seq<Property>)
    | ArrayLit(elems: seq<Expr>)
    | Unary(uop: Operator, arg: Expr)
    | Binary(bop: Operator, left: Expr, right: Expr)
    | Logical(lop: LogicalOperator, lleft: Expr, lright: Expr)

  datatype Property = Property(key: string, value: Expr)

  /** `binaryTypesLookup`; a signature missing from the table reads as `Invalid`. */
  function BinaryType(op: Operator, l: Kind, r: Kind): Kind {
    match op
    case Add | Sub | Mul | Div =>
      (match (l, r)
       case (Int, Int) => Int
       case (UInt, UInt) => UInt
       case (Float, Float) => Float
       case _ => Invalid)
    case LessEq | Less | GreaterEq | Greater =>
      if Numeric(l) && Numeric(r) then Bool else Invalid
    case Equal | NotEqual =>
      if (Numeric(l) && Numeric(r)) || (l == String && r == String) then Bool else Invalid
    case Match | NotMatch =>
      (match (l, r)
       case (String, Regexp) => Bool
       case (Regexp, String) => Bool
       case _ => Invalid)
    case _ => Invalid
  }

  predicate Numeric(k: Kind) {
    k == Int || k == UInt || k == Float
  }

  /** `Type()` of an expression node; `None` when computing it panics. */
  function TypeOf(e: Expr): Option<Type>
    decreases e, 1
  {
    match e
    case BoolLit(_) => Some(Basic(Bool))
    case IntLit(_) => Some(Basic(Int))
    case UIntLit(_) => Some(Basic(UInt))
    case FloatLit(_) => Some(Basic(Float))
    case StringLit(_) => Some(Basic(String))
    case RegexpLit(_) => Some(Basic(Regexp))
    case TimeLit(_) => Some(Basic(Time))
    case DurationLit(_) => Some(Basic(Duration))
    case Ident(_, decl) => if decl.Some? then decl else Some(Basic(Invalid))
    case Member(obj, prop) =>
      (match TypeOf(obj)
       case Some(ObjectOf(props)) => Some(if prop in props then props[prop] else NoType)
       case Some(Basic(k)) => if k == Object then None else Some(Basic(Invalid))
       case Some(ArrayOf(_)) => Some(Basic(Invalid))
       case _ => None)
    case ObjectLit(props) =>
      (match PropertyTypes(props, map[])
       case Some(types) =>
         if exists k :: k in types && types[k] == NoType then None else Some(ObjectOf(types))
       case None => None)
    case ArrayLit(elems) =>
      if elems == [] then Some(ArrayOf(Basic(Nil))) else
      (match TypeOf(elems[0])
       case Some(t) => Some(ArrayOf(t))
       case None => None)
    case Unary(_, arg) => TypeOf(arg)
    case Binary(op, l, r) =>
      var lt, rt := TypeOf(l), TypeOf(r);
      if lt.None? || rt.None? || lt.value == NoType || rt.value == NoType then None
      else Some(Basic(BinaryType(op, KindOf(lt.value), KindOf(rt.value))))
    case Logical(_, _, _) => Some(Basic(Bool))
  }

  /** The property types of an object literal, added to those in `acc`; a repeated
      key keeps its last type. */
  function PropertyTypes(props: seq<Property>, acc: map<string, Type>): Option<map<string, Type>>
    decreases props, 0
  {
    if props == [] then Some(acc) else
    match TypeOf(props[0].value)
    case Some(t) => PropertyTypes(props[1..], acc[props[0].key := t])
    case None => None
  }
}
