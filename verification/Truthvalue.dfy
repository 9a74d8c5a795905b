/** `truthvalue_conversion`: an expression that is 1 where the original is nonzero and 0 where it is
    zero, and that has the same side effects. */
module Truthvalue {
  import opened Arithmetic
  import opened Words
  import opened IntTypes

  /** `boolean_type_node`, which in C is `int`. */
  const INT: IntType := Type(32, false)

  datatype TruthOp = AndIf | OrIf | And | Or | Xor

  /** Scalar integer and pointer expressions. Leaf is whatever the conversion does not look into;
      External is the address of a declared object that might be weak, Address any other address. */
  datatype Expr =
    | Leaf(leafType: IntType, id: nat, sideEffects: bool)
    | Cst(cstType: IntType, value: int)
    | Compare(code: Code, a: Expr, b: Expr)
    | Truth(op: TruthOp, a: Expr, b: Expr)
    | TruthNot(a: Expr)
    | External(addressType: IntType, decl: nat)
    | Address(addressType: IntType, operand: Expr)
    | Negate(a: Expr)
    | Abs(a: Expr)
    | Ffs(ffsType: IntType, a: Expr)
    | Rotate(left: bool, a: Expr, amount: Expr)
    | Cond(test: Expr, a: Expr, b: Expr)
    | Nop(nopType: IntType, a: Expr)
    | Minus(opType: IntType, a: Expr, b: Expr)
    | BitXor(opType: IntType, a: Expr, b: Expr)
    | BitAnd(opType: IntType, a: Expr, b: Expr)
    | Compound(first: Expr, a: Expr)
  {
    function Type(): IntType {
      match this
      case Leaf(t, _, _) => t
      case Cst(t, _) => t
      case Compare(_, _, _) => INT
      case Truth(_, _, _) => INT
      case TruthNot(_) => INT
      case External(t, _) => t
      case Address(t, _) => t
      case Negate(a) => a.Type()
      case Abs(a) => a.Type()
      case Ffs(t, _) => t
      case Rotate(_, a, _) => a.Type()
      case Cond(_, a, _) => a.Type()
      case Nop(t, _) => t
      case Minus(t, _, _) => t
      case BitXor(t, _, _) => t
      case BitAnd(t, _, _) => t
      case Compound(_, a) => a.Type()
    }

    /** `TREE_SIDE_EFFECTS`: something in the expression has side effects. */
    predicate HasEffects() {
      match this
      case Leaf(_, _, e) => e
      case Cst(_, _) => false
      case Compare(_, a, b) => a.HasEffects() || b.HasEffects()
      case Truth(_, a, b) => a.HasEffects() || b.HasEffects()
      case TruthNot(a) => a.HasEffects()
      case External(_, _) => false
      case Address(_, o) => o.HasEffects()
      case Negate(a) => a.HasEffects()
      case Abs(a) => a.HasEffects()
      case Ffs(_, a) => a.HasEffects()
      case Rotate(_, a, b) => a.HasEffects() || b.HasEffects()
      case Cond(t, a, b) => t.HasEffects() || a.HasEffects() || b.HasEffects()
      case Nop(_, a) => a.HasEffects()
      case Minus(_, a, b) => a.HasEffects() || b.HasEffects()
      case BitXor(_, a, b) => a.HasEffects() || b.HasEffects()
      case BitAnd(_, a, b) => a.HasEffects() || b.HasEffects()
      case Compound(f, a) => f.HasEffects() || a.HasEffects()
    }

    /** What the front end guarantees of a tree: constants fit their types, the operands of a
        difference or exclusive or are as wide as the result and those of a bitwise and have its type, the
        arms of a conditional have one type, and the type of an FFS can hold every bit position. */
    predicate WellFormed() {
      match this
      case Leaf(_, _, _) => true
      case Cst(t, v) => InRange(t, v)
      case Compare(_, a, b) => a.WellFormed() && b.WellFormed()
      case Truth(_, a, b) => a.WellFormed() && b.WellFormed()
      case TruthNot(a) => a.WellFormed()
      case External(_, _) => true
      case Address(_, o) => o.WellFormed()
      case Negate(a) => a.WellFormed()
      case Abs(a) => a.WellFormed()
      case Ffs(t, a) => a.WellFormed() && a.Type().prec <= Hi(t)
      case Rotate(_, a, b) => a.WellFormed() && b.WellFormed()
      case Cond(t, a, b) => t.WellFormed() && a.WellFormed() && b.WellFormed() && a.Type() == b.Type()
      case Nop(_, a) => a.WellFormed()
      case Minus(t, a, b) => a.WellFormed() && b.WellFormed() && a.Type().prec == t.prec == b.Type().prec
      case BitXor(t, a, b) => a.WellFormed() && b.WellFormed() && a.Type().prec == t.prec == b.Type().prec
      case BitAnd(t, a, b) => a.WellFormed() && b.WellFormed() && a.Type() == t == b.Type()
      case Compound(f, a) => f.WellFormed() && a.WellFormed()
    }
  }

  /** What the leaves and addresses evaluate to. */
  type Env = Expr -> int

  /** Values fit their types, and only an external object can have the address zero. */
  ghost predicate Fits(env: Env) {
    && (forall x: Expr :: x.Leaf? || x.External? || x.Address? ==> InRange(x.Type(), env(x)))
    && (forall x: Expr :: x.Address? ==> env(x) != 0)
  }

  predicate TruthHolds(op: TruthOp, a: bool, b: bool) {
    match op
    case AndIf => a && b
    case And => a && b
    case OrIf => a || b
    case Or => a || b
    case Xor => a != b
  }

  function Truthbit(b: bool): int {
    if b then 1 else 0
  }

  /** The bits of a value. */
  function Pattern(t: IntType, v: int): (p: nat)
    ensures p < Pow2(t.prec)
  {
    v % Pow2(t.prec)
  }

  /** The position of the lowest one bit, from 1; 0 if there is none. */
  function FirstOne(x: nat): nat {
    if x == 0 then 0 else if x % 2 == 1 then 1 else 1 + FirstOne(x / 2)
  }

  /** A pattern rotated left by k: its first k bits go to the end. */
  function RotatedLeft(p: nat, prec: nat, k: nat): nat
    requires k <= prec
  {
    Swapped(p, Pow2(k), Pow2(prec - k))
  }

  /** The part of p above `low` put below the rest. */
  function Swapped(p: nat, high: nat, low: nat): (r: nat)
    requires low > 0
  {
    NatProduct(p % low, high);
    p % low * high + p / low
  }

  lemma NatProduct(a: nat, b: nat)
    ensures a * b >= 0
  {
  }

  function Rotated(t: IntType, v: int, left: bool, amount: int): int {
    var k := amount % t.prec;
    Convert(t, RotatedLeft(Pattern(t, v), t.prec, if left then k else t.prec - k))
  }

  function Value(x: Expr, env: Env): int {
    match x
    case Leaf(_, _, _) => env(x)
    case External(_, _) => env(x)
    case Address(_, _) => env(x)
    case Cst(_, v) => v
    case Compare(code, a, b) => Truthbit(Holds(code, Value(a, env), Value(b, env)))
    case Truth(op, a, b) => Truthbit(TruthHolds(op, Value(a, env) != 0, Value(b, env) != 0))
    case TruthNot(a) => Truthbit(Value(a, env) == 0)
    case Negate(a) => Convert(a.Type(), -Value(a, env))
    case Abs(a) => var v := Value(a, env); Convert(a.Type(), if v < 0 then -v else v)
    case Ffs(t, a) => FirstOne(Pattern(a.Type(), Value(a, env)))
    case Rotate(left, a, b) => Rotated(a.Type(), Value(a, env), left, Value(b, env))
    case Cond(t, a, b) => if Value(t, env) != 0 then Value(a, env) else Value(b, env)
    case Nop(t, a) => Convert(t, Value(a, env))
    case Minus(t, a, b) => Convert(t, Value(a, env) - Value(b, env))
    case BitXor(t, a, b) => Convert(t, Combine(BitOp.Xor, Pattern(t, Value(a, env)), Pattern(t, Value(b, env)), t.prec))
    case BitAnd(t, a, b) => Convert(t, Combine(BitOp.And, Pattern(t, Value(a, env)), Pattern(t, Value(b, env)), t.prec))
    case Compound(_, a) => Value(a, env)
  }

  /** The side effects of an evaluation: which leaves that have any are evaluated, and how often, when
      `taken` says which tests come out nonzero. The order of the operands of most operators is
      unspecified. */
  function Effects(x: Expr, taken: Expr -> bool): multiset<nat> {
    match x
    case Leaf(_, id, e) => if e then multiset{id} else multiset{}
    case Cst(_, _) => multiset{}
    case External(_, _) => multiset{}
    case Compare(_, a, b) => Effects(a, taken) + Effects(b, taken)
    case Truth(op, a, b) =>
      if (op == AndIf && !taken(a)) || (op == OrIf && taken(a)) then Effects(a, taken)
      else Effects(a, taken) + Effects(b, taken)
    case TruthNot(a) => Effects(a, taken)
    case Address(_, o) => Effects(o, taken)
    case Negate(a) => Effects(a, taken)
    case Abs(a) => Effects(a, taken)
    case Ffs(_, a) => Effects(a, taken)
    case Rotate(_, a, b) => Effects(a, taken) + Effects(b, taken)
    case Cond(t, a, b) => Effects(t, taken) + if taken(t) then Effects(a, taken) else Effects(b, taken)
    case Nop(_, a) => Effects(a, taken)
    case Minus(_, a, b) => Effects(a, taken) + Effects(b, taken)
    case BitXor(_, a, b) => Effects(a, taken) + Effects(b, taken)
    case BitAnd(_, a, b) => Effects(a, taken) + Effects(b, taken)
    case Compound(f, a) => Effects(f, taken) + Effects(a, taken)
  }

  /** The conversion of last resort. */
  function NotZero(x: Expr): Expr {
    Compare(NE, x, Cst(INT, 0))
  }

  /** A difference or exclusive or, as an inequality of its operands. */
  function Unequal(a: Expr, b: Expr): Expr {
    Compare(NE, a, if a.Type() == b.Type() then b else Nop(a.Type(), b))
  }

  /** `truthvalue_conversion` */
  function Truthvalue(x: Expr): Expr {
    match x
    case Compare(_, _, _) => x
    case Truth(_, _, _) => x
    case TruthNot(_) => x
    case Cst(_, v) => Cst(INT, Truthbit(v != 0))
    case Address(_, o) => if o.HasEffects() then Compound(o, Cst(INT, 1)) else Cst(INT, 1)
    case Negate(a) => Truthvalue(a)
    case Abs(a) => Truthvalue(a)
    case Ffs(_, a) => Truthvalue(a)
    case Rotate(_, a, b) => if b.HasEffects() then Compound(b, Truthvalue(a)) else Truthvalue(a)
    case Cond(t, a, b) => Cond(t, Truthvalue(a), Truthvalue(b))
    case Nop(t, a) => if t.prec >= a.Type().prec then Truthvalue(a) else NotZero(x)
    case Minus(_, a, b) => Unequal(a, b)
    case BitXor(_, a, b) => Unequal(a, b)
    case BitAnd(t, _, b) => if b.Cst? && b.value == 1 && t != INT then Nop(INT, x) else NotZero(x)
    case _ => NotZero(x)
  }

  lemma {:induction false} NoEffects(x: Expr, taken: Expr -> bool)
    requires !x.HasEffects()
    ensures Effects(x, taken) == multiset{}
  {
    match x
    case Compare(_, a, b) => NoEffects(a, taken); NoEffects(b, taken);
    case Truth(_, a, b) => NoEffects(a, taken); NoEffects(b, taken);
    case TruthNot(a) => NoEffects(a, taken);
    case Address(_, o) => NoEffects(o, taken);
    case Negate(a) => NoEffects(a, taken);
    case Abs(a) => NoEffects(a, taken);
    case Ffs(_, a) => NoEffects(a, taken);
    case Rotate(_, a, b) => NoEffects(a, taken); NoEffects(b, taken);
    case Cond(t, a, b) => NoEffects(t, taken); NoEffects(a, taken); NoEffects(b, taken);
    case Nop(_, a) => NoEffects(a, taken);
    case Minus(_, a, b) => NoEffects(a, taken); NoEffects(b, taken);
    case BitXor(_, a, b) => NoEffects(a, taken); NoEffects(b, taken);
    case BitAnd(_, a, b) => NoEffects(a, taken); NoEffects(b, taken);
    case Compound(f, a) => NoEffects(f, taken); NoEffects(a, taken);
    case _ =>
  }

  lemma {:induction false} FirstOneBound(x: nat, w: nat)
    requires x < Pow2(w)
    ensures FirstOne(x) <= w && (FirstOne(x) == 0 <==> x == 0)
  {
    if x != 0 && w > 0 { FirstOneBound(x / 2, w - 1); }
  }

  lemma {:induction false} ValueInRange(x: Expr, env: Env)
    requires x.WellFormed() && Fits(env)
    ensures InRange(x.Type(), Value(x, env))
  {
    match x
    case Ffs(_, _) => FfsInRange(x, env);
    case Cond(_, a, b) => ValueInRange(a, env); ValueInRange(b, env);
    case Compound(_, a) => ValueInRange(a, env);
    case Compare(_, _, _) => BitsAreInts();
    case Truth(_, _, _) => BitsAreInts();
    case TruthNot(_) => BitsAreInts();
    case _ =>
  }

  lemma BitsAreInts()
    ensures InRange(INT, 0) && InRange(INT, 1)
  {
  }

  lemma FfsInRange(x: Expr, env: Env)
    requires x.Ffs? && x.WellFormed()
    ensures InRange(x.Type(), Value(x, env))
  {
    FirstOneBound(Pattern(x.a.Type(), Value(x.a, env)), x.a.Type().prec);
  }

  /** Values of one type are the same when their bits are. */
  lemma SamePattern(t: IntType, v: int, w: int)
    requires InRange(t, v)
    ensures Pattern(t, v) == Pattern(t, w) <==> v == Convert(t, w)
  {
    ConvertSame(t, v);
  }

  /** A difference is zero when the bits agree. */
  lemma ZeroDifference(t: IntType, v: int, w: int)
    ensures Convert(t, v - w) == 0 <==> Pattern(t, v) == Pattern(t, w)
  {
    var d := Pow2(t.prec);
    var p, q, r := v / d, w / d, (v - w) / d;
    assert v == p * d + v % d && w == q * d + w % d && v - w == r * d + (v - w) % d;
    assert (p - q - r) * d == p * d - q * d - r * d;
    if v % d == w % d {
      Multiple(p - q - r, d, (v - w) % d);
    } else if (v - w) % d == 0 {
      if v % d > w % d { Multiple(r - p + q, d, v % d - w % d); } else { Multiple(p - q - r, d, w % d - v % d); }
    }
  }

  /** A multiple of d below d is zero. */
  lemma Multiple(k: int, d: nat, r: int)
    requires d > 0 && 0 <= r < d && (k * d == r || -k * d == r)
    ensures r == 0
  {
    assert -k * d == -(k * d);
    if k > 0 { MulGe(k, d); }
    if k < 0 { MulGe(-k, d); }
  }

  lemma {:induction false} XorZero(x: nat, y: nat, w: nat)
    requires x < Pow2(w) && y < Pow2(w)
    ensures Combine(BitOp.Xor, x, y, w) == 0 <==> x == y
  {
    if w > 0 { XorZero(x / 2, y / 2, w - 1); }
  }

  /** The two halves of a rotated pattern, as numbers. */
  lemma HalvesSwapped(q: nat, r: nat, high: nat, low: nat)
    requires high > 0 && r < low && q * low + r < high * low
    ensures r * high + q < high * low
    ensures r * high + q == 0 <==> q * low + r == 0
  {
    if q >= high { MulLess(high - 1, q, low); }
    MulLess(r, low, high);
    if r > 0 { MulGe(r, high); }
    if q > 0 { MulGe(q, low); }
  }

  /** Rotation keeps the number of bits, and loses none. */
  lemma RotatedZero(p: nat, prec: nat, k: nat)
    requires k <= prec && p < Pow2(prec)
    ensures RotatedLeft(p, prec, k) < Pow2(prec)
    ensures RotatedLeft(p, prec, k) == 0 <==> p == 0
  {
    Pow2Sum(k, prec - k);
    Halves(p, Pow2(k), Pow2(prec - k));
  }

  lemma Halves(p: nat, high: nat, low: nat)
    requires high > 0 && low > 0 && p < high * low
    ensures Swapped(p, high, low) < high * low
    ensures Swapped(p, high, low) == 0 <==> p == 0
  {
    assert p == p / low * low + p % low;
    HalvesSwapped(p / low, p % low, high, low);
  }

  lemma ConvertZero(t: IntType, p: nat)
    requires p < Pow2(t.prec)
    ensures Convert(t, p) == 0 <==> p == 0
  {
    DivUnique(p, Pow2(t.prec), 0, p);
  }

  lemma RotatedBy(t: IntType, v: int, k: nat)
    requires InRange(t, v) && k <= t.prec
    ensures Convert(t, RotatedLeft(Pattern(t, v), t.prec, k)) == 0 <==> v == 0
  {
    RotatedZero(Pattern(t, v), t.prec, k);
    ConvertZero(t, RotatedLeft(Pattern(t, v), t.prec, k));
    SamePattern(t, v, 0);
    ConvertSame(t, 0);
  }

  lemma RotatedTruth(t: IntType, v: int, left: bool, amount: int)
    requires InRange(t, v)
    ensures Rotated(t, v, left, amount) == 0 <==> v == 0
  {
    RotatedBy(t, v, amount % t.prec);
    RotatedBy(t, v, t.prec - amount % t.prec);
  }

  /** A widening conversion, a negation, an absolute value keep zero and nonzero apart. */
  lemma WideningTruth(s: IntType, t: IntType, v: int)
    requires InRange(s, v) && s.prec <= t.prec
    ensures Convert(t, v) == 0 <==> v == 0
  {
    ConvertThrough(s, t, v);
    ConvertSame(s, v);
    ConvertSame(s, 0);
    ConvertSame(t, 0);
  }

  lemma NegatedTruth(t: IntType, v: int)
    requires InRange(t, v)
    ensures Convert(t, -v) == 0 <==> v == 0
  {
    ZeroDifference(t, 0, v);
    SamePattern(t, v, 0);
    ConvertSame(t, 0);
  }

  lemma MinusTruth(t: IntType, v: int, w: int)
    ensures Convert(t, v - w) != 0 <==> Pattern(t, v) != Pattern(t, w)
  {
    ZeroDifference(t, v, w);
  }

  lemma XorTruth(t: IntType, v: int, w: int)
    ensures Convert(t, Combine(BitOp.Xor, Pattern(t, v), Pattern(t, w), t.prec)) != 0 <==>
            Pattern(t, v) != Pattern(t, w)
  {
    XorZero(Pattern(t, v), Pattern(t, w), t.prec);
    ConvertZero(t, Combine(BitOp.Xor, Pattern(t, v), Pattern(t, w), t.prec));
  }

  /** The operands, the second converted to the type of the first unless it has it, differ when their bits
      do. */
  lemma UnequalOperands(t: IntType, s: IntType, v: int, w: int, u: IntType)
    requires InRange(s, v) && InRange(u, w) && s.prec == t.prec == u.prec
    ensures (if s == u then v != w else v != Convert(s, w)) <==> Pattern(t, v) != Pattern(t, w)
  {
    SamePattern(s, v, w);
    if s == u { ConvertSame(s, w); }
  }

  lemma UnequalMeans(x: Expr, env: Env)
    requires x.Minus? || x.BitXor?
    ensures var v, w, s := Value(x.a, env), Value(x.b, env), x.a.Type();
            Value(Unequal(x.a, x.b), env) == Truthbit(if s == x.b.Type() then v != w else v != Convert(s, w))
  {
    assert Value(Nop(x.a.Type(), x.b), env) == Convert(x.a.Type(), Value(x.b, env));
  }

  lemma DifferenceMeans(x: Expr, env: Env)
    requires x.Minus? || x.BitXor?
    ensures Value(x, env) != 0 <==> Pattern(x.opType, Value(x.a, env)) != Pattern(x.opType, Value(x.b, env))
  {
    if x.Minus? {
      MinusTruth(x.opType, Value(x.a, env), Value(x.b, env));
    } else {
      XorTruth(x.opType, Value(x.a, env), Value(x.b, env));
    }
  }

  lemma UnequalTruth(x: Expr, env: Env)
    requires x.WellFormed() && Fits(env) && (x.Minus? || x.BitXor?)
    ensures Value(Unequal(x.a, x.b), env) == Truthbit(Value(x, env) != 0)
  {
    ValueInRange(x.a, env);
    ValueInRange(x.b, env);
    UnequalMeans(x, env);
    DifferenceMeans(x, env);
    UnequalOperands(x.opType, x.a.Type(), Value(x.a, env), Value(x.b, env), x.b.Type());
  }

  /** Bit 0 alone. */
  lemma AndOne(y: nat, w: nat)
    requires w > 0
    ensures Combine(BitOp.And, y, 1, w) == y % 2
  {
    AndWithZero(y / 2, w - 1);
  }

  /** `x & 1` is already a truth value. */
  lemma LowBitTruth(x: Expr, env: Env)
    requires x.BitAnd? && x.WellFormed() && Fits(env) && x.b == Cst(x.b.Type(), 1)
    ensures Value(Nop(INT, x), env) == Truthbit(Value(x, env) != 0)
  {
    var t, p := x.opType, Pattern(x.opType, Value(x.a, env));
    BitsAreInts();
    DivUnique(1, Pow2(t.prec), 0, 1);
    assert Pattern(t, 1) == 1;
    AndOne(p, t.prec);
    ConvertSame(t, p % 2);
    ConvertSame(INT, p % 2);
  }

  /** The result is 1 exactly where the original is nonzero, and 0 elsewhere. */
  ghost predicate Kept(x: Expr, env: Env) {
    Value(Truthvalue(x), env) == Truthbit(Value(x, env) != 0)
  }

  lemma AbsoluteTruth(t: IntType, v: int)
    requires InRange(t, v)
    ensures Convert(t, if v < 0 then -v else v) == 0 <==> v == 0
  {
    if v < 0 { NegatedTruth(t, v); } else { ConvertSame(t, v); }
  }

  lemma NegateKept(x: Expr, env: Env)
    requires x.WellFormed() && Fits(env) && x.Negate? && Kept(x.a, env)
    ensures Kept(x, env)
  {
    ValueInRange(x.a, env);
    NegatedTruth(x.a.Type(), Value(x.a, env));
  }

  lemma AbsKept(x: Expr, env: Env)
    requires x.WellFormed() && Fits(env) && x.Abs? && Kept(x.a, env)
    ensures Kept(x, env)
  {
    ValueInRange(x.a, env);
    AbsoluteTruth(x.a.Type(), Value(x.a, env));
  }

  lemma FfsKept(x: Expr, env: Env)
    requires x.WellFormed() && Fits(env) && x.Ffs? && Kept(x.a, env)
    ensures Kept(x, env)
  {
    var t, v := x.a.Type(), Value(x.a, env);
    ValueInRange(x.a, env);
    FirstOneBound(Pattern(t, v), t.prec);
    SamePattern(t, v, 0);
    ConvertSame(t, 0);
    DivUnique(0, Pow2(t.prec), 0, 0);
  }

  lemma NopKept(x: Expr, env: Env)
    requires x.WellFormed() && Fits(env) && x.Nop? && Kept(x.a, env)
    ensures Kept(x, env)
  {
    if x.nopType.prec >= x.a.Type().prec {
      ValueInRange(x.a, env);
      WideningTruth(x.a.Type(), x.nopType, Value(x.a, env));
    }
  }

  lemma RotateKept(x: Expr, env: Env)
    requires x.WellFormed() && Fits(env) && x.Rotate? && Kept(x.a, env)
    ensures Kept(x, env)
  {
    ValueInRange(x.a, env);
    RotatedTruth(x.a.Type(), Value(x.a, env), x.left, Value(x.amount, env));
  }

  /** `truthvalue_conversion` gives the truth value of the expression. */
  lemma {:induction false} TruthvalueExact(x: Expr, env: Env)
    requires x.WellFormed() && Fits(env)
    ensures Kept(x, env)
  {
    match x
    case Negate(a) => TruthvalueExact(a, env); NegateKept(x, env);
    case Abs(a) => TruthvalueExact(a, env); AbsKept(x, env);
    case Ffs(_, a) => TruthvalueExact(a, env); FfsKept(x, env);
    case Rotate(_, a, _) => TruthvalueExact(a, env); RotateKept(x, env);
    case Cond(_, a, b) => TruthvalueExact(a, env); TruthvalueExact(b, env);
    case Nop(_, a) => TruthvalueExact(a, env); NopKept(x, env);
    case Minus(_, _, _) => UnequalTruth(x, env);
    case BitXor(_, _, _) => UnequalTruth(x, env);
    case BitAnd(t, _, b) => if b.Cst? && b.value == 1 && t != INT { LowBitTruth(x, env); }
    case _ =>
  }

  lemma NotZeroEffects(x: Expr, taken: Expr -> bool)
    ensures Effects(NotZero(x), taken) == Effects(x, taken) == Effects(Nop(INT, x), taken)
  {
  }

  lemma UnequalEffects(a: Expr, b: Expr, taken: Expr -> bool)
    ensures Effects(Unequal(a, b), taken) == Effects(a, taken) + Effects(b, taken)
  {
    assert Effects(Nop(a.Type(), b), taken) == Effects(b, taken);
  }

  lemma RotateEffects(x: Expr, taken: Expr -> bool)
    requires x.Rotate? && Effects(Truthvalue(x.a), taken) == Effects(x.a, taken)
    ensures Effects(Truthvalue(x), taken) == Effects(x, taken)
  {
    if x.amount.HasEffects() {
      assert Effects(Compound(x.amount, Truthvalue(x.a)), taken)
             == Effects(x.amount, taken) + Effects(Truthvalue(x.a), taken);
    } else {
      NoEffects(x.amount, taken);
    }
  }

  lemma AddressEffects(x: Expr, taken: Expr -> bool)
    requires x.Address?
    ensures Effects(Truthvalue(x), taken) == Effects(x, taken)
  {
    assert Effects(Cst(INT, 1), taken) == multiset{};
    if !x.operand.HasEffects() { NoEffects(x.operand, taken); }
  }

  /** Nothing with side effects is dropped, repeated or newly evaluated. */
  lemma CondEffects(x: Expr, taken: Expr -> bool)
    requires x.Cond?
    requires Effects(Truthvalue(x.a), taken) == Effects(x.a, taken)
    requires Effects(Truthvalue(x.b), taken) == Effects(x.b, taken)
    ensures Effects(Truthvalue(x), taken) == Effects(x, taken)
  {
  }

  lemma {:induction false} TruthvalueEffects(x: Expr, taken: Expr -> bool)
    ensures Effects(Truthvalue(x), taken) == Effects(x, taken)
  {
    NotZeroEffects(x, taken);
    match x
    case Address(_, _) => AddressEffects(x, taken);
    case Negate(a) => TruthvalueEffects(a, taken);
    case Abs(a) => TruthvalueEffects(a, taken);
    case Ffs(_, a) => TruthvalueEffects(a, taken);
    case Rotate(_, a, _) => TruthvalueEffects(a, taken); RotateEffects(x, taken);
    case Cond(_, a, b) => TruthvalueEffects(a, taken); TruthvalueEffects(b, taken); CondEffects(x, taken);
    case Nop(_, a) => TruthvalueEffects(a, taken);
    case Minus(_, a, b) => UnequalEffects(a, b, taken);
    case BitXor(_, a, b) => UnequalEffects(a, b, taken);
    case _ =>
  }

  /** Every result has the type of truth values. */
  lemma {:induction false} TruthvalueType(x: Expr)
    ensures Truthvalue(x).Type() == INT
  {
    match x
    case Negate(a) => TruthvalueType(a);
    case Abs(a) => TruthvalueType(a);
    case Ffs(_, a) => TruthvalueType(a);
    case Rotate(_, a, _) => TruthvalueType(a);
    case Cond(_, a, _) => TruthvalueType(a);
    case Nop(_, a) => TruthvalueType(a);
    case _ =>
  }
}
