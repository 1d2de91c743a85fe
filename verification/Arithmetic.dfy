/**
 What the operators of row functions compute, in plain arithmetic: machine integers wrap around,
 quotients truncate, and comparisons compare numbers, up to their signs.
 */
module Arithmetic {
  import Integers
  import opened Options
  import opened Decimals
  import opened Semantic
  import opened Interpreter
  import opened Compiler
  import opened CompilerCorrectness

  // ----- machine integers -----

  /** `v` is a signed 64-bit integer that differs from `x` by a multiple of 2^64. */
  ghost predicate Signed(v: int, x: int) {
    && -9223372036854775808 <= v < 9223372036854775808
    && exists k: int :: v == x + Wraps(k)
  }

  /** `v` is an unsigned 64-bit integer that differs from `x` by a multiple of 2^64. */
  ghost predicate Unsigned(v: int, x: int) {
    && 0 <= v < 18446744073709551616
    && exists k: int :: v == x + Wraps(k)
  }

  function Wraps(k: int): int {
    k * 18446744073709551616
  }

  /** There is just one such integer, and it is `x` itself where that fits. */
  lemma SignedIsUnique(v: int, w: int, x: int)
    requires Signed(v, x) && Signed(w, x)
    ensures v == w
    ensures -9223372036854775808 <= x < 9223372036854775808 ==> v == x
  {
  }

  lemma UnsignedIsUnique(v: int, w: int, x: int)
    requires Unsigned(v, x) && Unsigned(w, x)
    ensures v == w
    ensures 0 <= x < 18446744073709551616 ==> v == x
  {
  }

  lemma WrapIntIsSigned(x: int)
    ensures Signed(WrapInt(x), x)
  {
    var k := (x + TWO_63) / TWO_64;
    assert WrapInt(x) == x + Wraps(0 - k);
  }

  lemma WrapUIntIsUnsigned(x: int)
    ensures Unsigned(WrapUInt(x), x)
  {
    var k := x / TWO_64;
    assert WrapUInt(x) == x + Wraps(0 - k);
  }

  /** `q` is the quotient of `l` by `r`, truncated towards zero: what is left over is smaller than
      the divisor and has the sign of the dividend. */
  ghost predicate Truncated(q: int, l: int, r: int) {
    exists m: int :: LeftOver(m, q, l, r)
  }

  ghost predicate LeftOver(m: int, q: int, l: int, r: int) {
    l == q * r + m && -Abs(r) < m < Abs(r) && (l >= 0 ==> m >= 0) && (l <= 0 ==> m <= 0)
  }

  function Abs(x: int): int {
    if x < 0 then -x else x
  }

  lemma QuotIsTruncated(l: int, r: int)
    requires r != 0
    ensures Truncated(Integers.Quot(l, r), l, r)
  {
    Integers.QuotRem(l, r);
    assert LeftOver(Integers.Rem(l, r), Integers.Quot(l, r), l, r);
  }

  // ----- arithmetic of bodies -----

  /** The exact result of an operator on integers. */
  ghost predicate Exactly(op: Operator, l: int, r: int, x: int) {
    match op
    case Add => x == l + r
    case Sub => x == l - r
    case Mul => x == l * r
    case Div => r != 0 && Truncated(x, l, r)
    case _ => false
  }

  /** Arithmetic on signed integers: the exact result, wrapped into 64 bits; a division by zero
      panics. */
  lemma IntArithmetic(p: Platform, op: Operator, l: Int64, r: Int64)
    requires op in {Add, Sub, Mul, Div}
    ensures op == Div && r == 0 ==> InterpretedBinary(p, op, IntValue(l), IntValue(r)) == Some(Panic)
    ensures op != Div || r != 0 ==>
              exists v: Int64, x: int ::
                && InterpretedBinary(p, op, IntValue(l), IntValue(r)) == Some(Ok(IntValue(v)))
                && Exactly(op, l, r, x) && Signed(v, x)
  {
    if op != Div || r != 0 {
      var x :=
        if op == Add then l + r else if op == Sub then l - r else if op == Mul then l * r else Integers.Quot(l, r);
      if op == Div { QuotIsTruncated(l, r); }
      WrapIntIsSigned(x);
      assert InterpretedBinary(p, op, IntValue(l), IntValue(r)) == Some(Ok(IntValue(WrapInt(x))));
      assert Exactly(op, l, r, x) && Signed(WrapInt(x), x);
    }
  }

  /** Likewise on unsigned integers. */
  lemma UIntArithmetic(p: Platform, op: Operator, l: UInt64, r: UInt64)
    requires op in {Add, Sub, Mul, Div}
    ensures op == Div && r == 0 ==> InterpretedBinary(p, op, UIntValue(l), UIntValue(r)) == Some(Panic)
    ensures op != Div || r != 0 ==>
              exists v: UInt64, x: int ::
                && InterpretedBinary(p, op, UIntValue(l), UIntValue(r)) == Some(Ok(UIntValue(v)))
                && Exactly(op, l, r, x) && Unsigned(v, x)
  {
    if op != Div || r != 0 {
      var x :=
        if op == Add then l + r else if op == Sub then l - r else if op == Mul then l * r else Integers.Quot(l, r);
      if op == Div { QuotIsTruncated(l, r); }
      WrapUIntIsUnsigned(x);
      assert InterpretedBinary(p, op, UIntValue(l), UIntValue(r)) == Some(Ok(UIntValue(WrapUInt(x))));
      assert Exactly(op, l, r, x) && Unsigned(WrapUInt(x), x);
    }
  }

  /** Minus on integers and on durations. */
  lemma Negation(p: Platform, i: Int64)
    ensures exists v: Int64 ::
              && InterpretedUnary(p, Sub, IntValue(i)) == Ok(IntValue(v))
              && InterpretedUnary(p, Sub, DurationValue(i)) == Ok(DurationValue(v)) && Signed(v, 0 - i)
  {
    WrapIntIsSigned(0 - i);
    assert InterpretedUnary(p, Sub, IntValue(i)) == Ok(IntValue(WrapInt(0 - i)));
  }

  /** Whole bodies, interpreted and compiled: the value is the exact result, wrapped. */
  lemma IntBody(p: Platform, op: Operator, a: Expr, b: Expr, args: Args, l: Int64, r: Int64)
    requires op in {Add, Sub, Mul, Div} && Runs(p, Binary(op, a, b), args)
    requires Interpret(p, a, [args]) == Ok(IntValue(l)) && Interpret(p, b, [args]) == Ok(IntValue(r))
    ensures exists v: Int64, x: int ::
              && Interpret(p, Binary(op, a, b), [args]) == Ok(IntValue(v))
              && EvalAs(p, Compile(Binary(op, a, b)).value, Int, args) == Ok(IntValue(v))
              && Exactly(op, l, r, x) && Signed(v, x)
  {
    IntArithmetic(p, op, l, r);
    BinaryInterpreted(p, op, a, b, args, IntValue(l), IntValue(r));
    var v: Int64, x: int :| InterpretedBinary(p, op, IntValue(l), IntValue(r)) == Some(Ok(IntValue(v)))
                            && Exactly(op, l, r, x) && Signed(v, x);
    CompilePreservesMeaning(p, Binary(op, a, b), args);
  }

  lemma BinaryInterpreted(p: Platform, op: Operator, a: Expr, b: Expr, args: Args, l: Value, r: Value)
    requires Interpret(p, a, [args]) == Ok(l) && Interpret(p, b, [args]) == Ok(r)
    ensures Interpret(p, Binary(op, a, b), [args])
            == var o := InterpretedBinary(p, op, l, r); if o.Some? then o.value else Err
  {
  }

  // ----- comparisons -----

  /** The number that a value stands for, when `val` reads floating-point patterns. */
  function NumberOf(v: Value, val: UInt64 -> real): real
    requires Numeric(KindOfValue(v))
  {
    match v
    case IntValue(i) => i as real
    case UIntValue(u) => u as real
    case FloatValue(f) => val(f)
  }

  predicate Compare(op: Operator, x: real, y: real)
  {
    match op
    case LessEq => x <= y
    case Less => x < y
    case GreaterEq => x >= y
    case Greater => x > y
    case Equal => x == y
    case NotEqual => x != y
    case _ => false
  }

  predicate Comparison(op: Operator) {
    op in {LessEq, Less, GreaterEq, Greater, Equal, NotEqual}
  }

  /** The platform compares patterns as the numbers they stand for, and converts this operand exactly. */
  ghost predicate ReadsAs(p: Platform, val: UInt64 -> real, v: Value)
    requires Numeric(KindOfValue(v))
  {
    && (forall a, b :: p.le(a, b) <==> val(a) <= val(b))
    && (forall a, b :: p.lt(a, b) <==> val(a) < val(b))
    && (forall a, b :: p.eq(a, b) <==> val(a) == val(b))
    && (v.IntValue? ==> val(p.ofInt(v.i)) == v.i as real)
    && (v.UIntValue? ==> val(p.ofInt(v.u)) == v.u as real)
  }

  /** A negative integer against an unsigned one, asked which is greater. */
  predicate SignMisjudged(op: Operator, l: Value, r: Value) {
    && op in {Greater, GreaterEq}
    && ((l.IntValue? && l.i < 0 && r.UIntValue?) || (l.UIntValue? && r.IntValue? && r.i < 0))
  }

  /** Comparisons compare the numbers, whatever their kinds, if and only if they do not ask whether
      a negative integer or an unsigned one is greater. */
  lemma ComparisonIff(p: Platform, val: UInt64 -> real, op: Operator, l: Value, r: Value)
    requires Comparison(op) && Numeric(KindOfValue(l)) && Numeric(KindOfValue(r))
    requires ReadsAs(p, val, l) && ReadsAs(p, val, r)
    ensures exists b ::
              && InterpretedBinary(p, op, l, r) == Some(Ok(BoolValue(b)))
              && (b == Compare(op, NumberOf(l, val), NumberOf(r, val)) <==> !SignMisjudged(op, l, r))
  {
    BinaryTablesAgree(p, op, l, r);
    match (l, r)
    case (IntValue(_), IntValue(_)) => assert CompiledBinary(p, op, l, r) == IntIntEntry(p, op, l.i, r.i);
    case (IntValue(_), UIntValue(_)) => assert CompiledBinary(p, op, l, r) == IntUIntEntry(p, op, l.i, r.u);
    case (UIntValue(_), IntValue(_)) => assert CompiledBinary(p, op, l, r) == UIntIntEntry(p, op, l.u, r.i);
    case _ =>
  }

  /** A negative number that is greater than one, and one that is not. */
  lemma NegativeIsGreater(p: Platform)
    ensures InterpretedBinary(p, Greater, IntValue(-1), UIntValue(1)) == Some(Ok(BoolValue(true)))
    ensures InterpretedBinary(p, Greater, UIntValue(1), IntValue(-1)) == Some(Ok(BoolValue(false)))
  {
  }

  /** Floating-point operators are the platform's, operands in order. */
  lemma FloatArithmetic(p: Platform, val: UInt64 -> real, op: Operator, l: UInt64, r: UInt64)
    requires op in {Add, Sub, Mul, Div}
    requires val(p.add(l, r)) == val(l) + val(r) && val(p.sub(l, r)) == val(l) - val(r)
    requires val(p.mul(l, r)) == val(l) * val(r) && (val(r) != 0.0 ==> val(p.div(l, r)) == val(l) / val(r))
    ensures exists f ::
              && InterpretedBinary(p, op, FloatValue(l), FloatValue(r)) == Some(Ok(FloatValue(f)))
              && (op == Add ==> val(f) == val(l) + val(r)) && (op == Sub ==> val(f) == val(l) - val(r))
              && (op == Mul ==> val(f) == val(l) * val(r)) && (op == Div && val(r) != 0.0 ==> val(f) == val(l) / val(r))
  {
    var f :=
      if op == Add then p.add(l, r) else if op == Sub then p.sub(l, r)
      else if op == Mul then p.mul(l, r) else p.div(l, r);
    assert InterpretedBinary(p, op, FloatValue(l), FloatValue(r)) == Some(Ok(FloatValue(f)));
  }

  /** Strings are equal or not, and a regular expression matches a string or not, on whichever side
      it stands. */
  lemma StringOperators(p: Platform, s: string, t: string)
    ensures InterpretedBinary(p, Equal, StringValue(s), StringValue(t)) == Some(Ok(BoolValue(s == t)))
    ensures InterpretedBinary(p, NotEqual, StringValue(s), StringValue(t)) == Some(Ok(BoolValue(s != t)))
    ensures InterpretedBinary(p, Match, StringValue(s), RegexpValue(t))
            == InterpretedBinary(p, Match, RegexpValue(t), StringValue(s)) == Some(Ok(BoolValue(p.match_(t, s))))
    ensures InterpretedBinary(p, NotMatch, StringValue(s), RegexpValue(t))
            == InterpretedBinary(p, NotMatch, RegexpValue(t), StringValue(s)) == Some(Ok(BoolValue(!p.match_(t, s))))
  {
  }

  // ----- the identity function -----

  /** Compiling `x` for the type of a value and evaluating it gives the value back if and only if
      it is neither a duration nor an array; these are an error. */
  lemma IdentityRoundTrip(p: Platform, name: string, v: Value)
    ensures CompileFunction(Ident(name, None), map[name := TypeOfValue(v)]).Ok?
    ensures var fn := CompileFunction(Ident(name, None), map[name := TypeOfValue(v)]).value;
            Evaluates(p, fn, map[name := v], if v.DurationValue? || v.ArrayValue? then Err else Ok(v))
  {
    var types, args := map[name := TypeOfValue(v)], map[name := v];
    assert WellTyped(types, args) && !Missing(types, args) && !Mistyped(types, args);
  }

  /** As a property of an object literal, objects are left out too: these are a panic. */
  lemma PropertyRoundTrip(p: Platform, name: string, v: Value)
    ensures EvalProperty(p, IdentEval(TypeOfValue(v), name), map[name := v])
            == if v.DurationValue? || v.ArrayValue? || v.ObjectValue? then Panic else Ok(v)
  {
  }

  // ----- booleans and indices -----

  /** Truth tables, and minus on floating-point values. */
  lemma BooleanOperators(p: Platform, a: Expr, b: Expr, scope: Scope, l: bool, r: bool, f: UInt64)
    requires Interpret(p, a, scope) == Ok(BoolValue(l)) && Interpret(p, b, scope) == Ok(BoolValue(r))
    ensures Interpret(p, Logical(And, a, b), scope) == Ok(BoolValue(l && r))
    ensures Interpret(p, Logical(Or, a, b), scope) == Ok(BoolValue(l || r))
    ensures Interpret(p, Unary(Not, a), scope) == Ok(BoolValue(!l))
    ensures InterpretedUnary(p, Sub, FloatValue(f)) == Ok(FloatValue(p.neg(f)))
  {
  }

  /** Reading digits from the front is reading the number they denote. */
  lemma {:induction false} DigitsRead(s: string, acc: int)
    requires s != [] && AllDigits(s)
    ensures ParseDigits(s, acc) == Some(acc * PowerOfTen(|s|) + Parse(s))
    decreases |s|
  {
    assert Digit(s[0]);
    var d, rest := s[0] as int - '0' as int, s[1..];
    assert s == [s[0]] + rest && AllDigits(rest);
    ParseFirst(s[0], rest);
    if rest == [] {
      assert PowerOfTen(1) == 10 * PowerOfTen(0);
    } else {
      DigitsRead(rest, 10 * acc + d);
      assert PowerOfTen(|s|) == 10 * PowerOfTen(|rest|);
      Distributes(acc, d, PowerOfTen(|rest|));
    }
  }

  lemma Distributes(acc: int, d: int, q: int)
    ensures (10 * acc + d) * q == acc * (10 * q) + d * q
  {
  }

  /** An array is indexed by the decimals of its positions: the elements are found in order, and
      nothing else is. */
  lemma IndexRoundTrip(elems: seq<Value>, et: Type, n: nat)
    ensures PropertyOf(ArrayValue(elems, et), Decimal(n)) == if n < |elems| then Ok(elems[n]) else Err
    ensures n > 0 ==> PropertyOf(ArrayValue(elems, et), "-" + Decimal(n)) == Err
  {
    var s := Decimal(n);
    DigitsRead(s, 0);
    ParseDecimal(n);
    assert Digit(s[0]) && ("-" + s)[1..] == s;
  }
}
