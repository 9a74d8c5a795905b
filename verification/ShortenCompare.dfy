/** `shorten_compare`: comparisons done in a narrower type than the nominal one, or decided outright. */
module ShortenCompare {
  import opened Arithmetic
  import opened Options
  import opened Words
  import opened IntTypes

  /** Integer expressions as far as conversions show; Leaf is any other expression, and `constant` is
      its TREE_CONSTANT flag. */
  datatype Expr =
    | Leaf(leafType: IntType, id: nat, constant: bool)
    | Cst(cstType: IntType, value: int)
    | Nop(nopType: IntType, e: Expr)
  {
    function Type(): IntType {
      match this
      case Leaf(t, _, _) => t
      case Cst(t, _) => t
      case Nop(t, _) => t
    }

    /** Constants are in the range of their type, and a conversion of a constant has been folded. */
    predicate WellFormed() {
      match this
      case Leaf(_, _, _) => true
      case Cst(t, v) => InRange(t, v)
      case Nop(_, e) => !e.Cst? && e.WellFormed()
    }

    predicate Constant() {
      Cst? || (Leaf? && constant) || (Nop? && e.Constant())
    }

    predicate IsZero() {
      Cst? && value == 0
    }
  }

  /** What each Leaf evaluates to. */
  type Env = Expr -> int

  ghost predicate Fits(env: Env) {
    forall x: Expr :: x.Leaf? ==> InRange(x.leafType, env(x))
  }

  function Value(x: Expr, env: Env): int {
    match x
    case Leaf(_, _, _) => env(x)
    case Cst(_, v) => v
    case Nop(t, e) => Convert(t, Value(e, env))
  }

  lemma {:induction false} ValueInRange(x: Expr, env: Env)
    requires x.WellFormed() && Fits(env)
    ensures InRange(x.Type(), Value(x, env))
  {
  }

  /** `convert` */
  function Converted(t: IntType, x: Expr): Expr {
    if x.Type() == t then x else if x.Cst? then Cst(t, Convert(t, x.value)) else Nop(t, x)
  }

  lemma ConvertedValue(t: IntType, x: Expr, env: Env)
    requires x.WellFormed() && Fits(env)
    ensures Value(Converted(t, x), env) == Convert(t, Value(x, env)) && Converted(t, x).Type() == t
  {
    ValueInRange(x, env);
    if x.Type() == t { ConvertSame(t, Value(x, env)); }
  }

  function Swapped(code: Code): Code {
    match code
    case LT => GT
    case GT => LT
    case LE => GE
    case GE => LE
    case _ => code
  }

  /** A type of the same width and the given signedness: `signed_or_unsigned_type`. */
  function WithSign(t: IntType, unsigned: bool): IntType {
    Type(t.prec, unsigned)
  }

  /** An operand as `get_narrower` sees it: the value of `x`, extended by zeros or by the sign. */
  datatype Narrow = Narrow(x: Expr, unsigned: bool) {
    function Extended(env: Env): int {
      Convert(WithSign(x.Type(), unsigned), Value(x, env))
    }
  }

  /** The rest of the stripping, after the first conversion has fixed the kind of extension. */
  function StripMore(x: Expr, unsigned: bool): Expr {
    if !x.Nop? || x.nopType.prec < x.e.Type().prec then x
    else if x.nopType.prec > x.e.Type().prec && unsigned != x.e.Type().unsigned then x
    else StripMore(x.e, unsigned)
  }

  /** `get_narrower` */
  function Narrower(op: Expr): Narrow {
    if !op.Nop? || op.nopType.prec < op.e.Type().prec then Narrow(op, false)
    else
      var unsigned := if op.nopType.prec > op.e.Type().prec then op.e.Type().unsigned else op.nopType.unsigned;
      Narrow(StripMore(op.e, unsigned), unsigned)
  }

  lemma {:induction false} StripMoreStops(x: Expr, unsigned: bool)
    ensures var y := StripMore(x, unsigned);
            y.Nop? ==> y.nopType.prec < y.e.Type().prec
                       || (y.nopType.prec > y.e.Type().prec && unsigned != y.e.Type().unsigned)
  {
    if x.Nop? { StripMoreStops(x.e, unsigned); }
  }

  /** All conversions are stripped down to one that makes the value narrower or extends it the other way. */
  lemma NarrowerStops(op: Expr)
    ensures var n := Narrower(op);
            n.x.Nop? ==> n.x.nopType.prec < n.x.e.Type().prec
                         || (n.x.nopType.prec > n.x.e.Type().prec && n.unsigned != n.x.e.Type().unsigned)
  {
    if op.Nop? { StripMoreStops(op.e, Narrower(op).unsigned); }
  }

  method GetNarrower(op0: Expr) returns (win: Expr, unsigned: bool)
    ensures Narrow(win, unsigned) == Narrower(op0)
  {
    unsigned, win := false, op0;
    var op, first := op0, true;
    while op.Nop?
      invariant win == op
      invariant first ==> op == op0 && !unsigned
      invariant !first ==> Narrow(StripMore(op, unsigned), unsigned) == Narrower(op0)
      decreases op
    {
      var bitschange := op.nopType.prec - op.e.Type().prec;
      if bitschange < 0 {
        break;
      }
      if bitschange > 0 {
        op := op.e;
        if first {
          unsigned := op.Type().unsigned;
        } else if unsigned != op.Type().unsigned {
          break;
        }
        first := false;
      } else {
        if first {
          unsigned := op.Type().unsigned;
        }
        first := false;
        op := op.e;
      }
      win := op;
    }
  }

  lemma {:induction false} StripMoreValue(x: Expr, unsigned: bool, env: Env)
    requires x.WellFormed() && Fits(env)
    ensures var w := StripMore(x, unsigned);
            && w.WellFormed() && w.Type().prec <= x.Type().prec && (w.Cst? ==> x.Cst?)
            && Narrow(w, unsigned).Extended(env) == Narrow(x, unsigned).Extended(env)
  {
    var w := StripMore(x, unsigned);
    if w != x {
      StripMoreValue(x.e, unsigned, env);
      var v, t := Value(x.e, env), WithSign(x.nopType, unsigned);
      ConvertThrough(t, x.nopType, v);
      if x.nopType.prec > x.e.Type().prec {
        ValueInRange(x.e, env);
        Wider(x.e.Type(), t, v);
        ConvertSame(x.e.Type(), v);
        ConvertSame(t, v);
      }
    }
  }

  /** What `get_narrower` strips can be put back by extending and converting to the type of op. */
  lemma NarrowerValue(op: Expr, env: Env)
    requires op.WellFormed() && Fits(env)
    ensures var n := Narrower(op);
            && n.x.WellFormed() && n.x.Type().prec <= op.Type().prec && (n.x.Cst? ==> n.x == op)
            && (n.x != op ==> Value(op, env) == Convert(op.Type(), n.Extended(env)))
            && (n.x != op && n.unsigned != op.Type().unsigned ==> n.x.Type().prec < op.Type().prec)
  {
    var n := Narrower(op);
    if op.Nop? && op.nopType.prec >= op.e.Type().prec {
      StripMoreValue(op.e, n.unsigned, env);
      var v := Value(op.e, env);
      if op.nopType.prec > op.e.Type().prec {
        ValueInRange(op.e, env);
        ConvertSame(op.e.Type(), v);
      } else {
        ConvertThrough(op.nopType, WithSign(op.e.Type(), n.unsigned), v);
      }
    }
  }

  /** The operand as it takes part in the comparison: one that was not stripped but has yet to be
      converted is extended according to its own type. */
  function Operand(op: Expr, restype: IntType): Narrow {
    var n := Narrower(op);
    if op == n.x && op.Type() != restype then n.(unsigned := op.Type().unsigned) else n
  }

  /** Not a sign extension into an unsigned type that is still narrower than the nominal type: there
      the value is extended twice, in two ways, and only the first is remembered. */
  predicate Faithful(op: Expr, restype: IntType) {
    !(op.Nop? && op.nopType.unsigned && op.nopType.prec < restype.prec
      && !op.e.Type().unsigned && op.e.Type().prec < op.nopType.prec)
  }

  /** The nominal value of an operand is its extended narrow value, in the nominal type. */
  lemma OperandValue(op: Expr, restype: IntType, env: Env)
    requires op.WellFormed() && Fits(env) && op.Type().prec <= restype.prec && Faithful(op, restype)
    ensures var n := Operand(op, restype);
            && n.x.WellFormed() && n.x.Type().prec <= op.Type().prec && (n.x.Cst? ==> n.x == op)
            && (n.x.Type().prec < restype.prec ==>
                Convert(restype, Value(op, env)) == Convert(restype, n.Extended(env)))
  {
    NarrowerValue(op, env);
    ValueInRange(op, env);
    var n := Operand(op, restype);
    var v, t := n.Extended(env), op.Type();
    if n.x == op {
      if n.x.Type().prec < restype.prec { ConvertSame(t, Value(op, env)); }
    } else if t.prec == restype.prec {
      ConvertThrough(restype, t, v);
    } else {
      Wider(WithSign(n.x.Type(), n.unsigned), t, v);
      ConvertSame(t, v);
    }
  }

  /** The result: a fixed truth value, or a comparison of two operands of one type. */
  datatype Outcome = Decided(value: bool) | Compare(code: Code, op0: Expr, op1: Expr)

  /** What the bounds lo and hi of the variable operand tell about comparing it with c. */
  function FixedValue(code: Code, c: int, lo: int, hi: int): Option<bool> {
    match code
    case NE => if hi < c || c < lo then Some(true) else None
    case EQ => if hi < c || c < lo then Some(false) else None
    case LT => if c <= lo then Some(false) else if hi < c then Some(true) else None
    case GT => if hi <= c then Some(false) else if c < lo then Some(true) else None
    case LE => if c < lo then Some(false) else if hi <= c then Some(true) else None
    case GE => if hi < c then Some(false) else if c <= lo then Some(true) else None
  }

  /** A value is fixed exactly if the comparison has it for everything between the bounds; otherwise
      the constant lies between them. */
  lemma FixedValueExact(code: Code, c: int, lo: int, hi: int, b: bool)
    requires lo < hi
    ensures FixedValue(code, c, lo, hi) == Some(b) <==> forall v :: lo <= v <= hi ==> Holds(code, v, c) == b
    ensures FixedValue(code, c, lo, hi) == None ==> lo <= c <= hi
  {
    if FixedValue(code, c, lo, hi) != Some(b) {
      var v := if lo <= c <= hi && Holds(code, c, c) != b then c else if Holds(code, lo, c) != b then lo else hi;
      assert lo <= v <= hi && Holds(code, v, c) != b;
    }
  }

  /** A sign-extended operand under an unsigned comparison: compared in its own width, unsigned. */
  function Mixed(x: Expr, t: IntType, c: Expr, val: Option<bool>, code: Code): Outcome {
    var u := WithSign(t, true);
    if val.Some? && (code == LT || code == GE) then Compare(code, Converted(u, x), Converted(u, Cst(t, Lo(t))))
    else if val.Some? && (code == LE || code == GT) then Compare(code, Converted(u, x), Converted(u, Cst(t, Hi(t))))
    else if val.Some? then Decided(val.value)
    else Compare(code, Converted(u, x), Converted(u, c))
  }

  /** A narrow operand against a constant of a wider type. */
  function AgainstConstant(x: Narrow, k: int, restype: IntType, code: Code): Outcome {
    var t := WithSign(x.x.Type(), x.unsigned);
    var r := if restype.unsigned && !x.unsigned then WithSign(restype, false) else restype;
    var c := Convert(r, k);
    var val := FixedValue(code, c, Convert(r, Lo(t)), Convert(r, Hi(t)));
    if restype.unsigned && !x.unsigned then Mixed(x.x, t, Cst(r, c), val, code)
    else if val.Some? then Decided(val.value)
    else Compare(code, Converted(t, x.x), Converted(t, Cst(r, c)))
  }

  /** Two narrow operands, both extended alike: compared in the wider of their types. */
  function BothNarrow(x: Narrow, y: Narrow, restype: IntType, code: Code): Outcome {
    var prec := if x.x.Type().prec < y.x.Type().prec then y.x.Type().prec else x.x.Type().prec;
    var t := Type(prec, x.unsigned || restype.unsigned);
    Compare(code, Converted(t, Converted(WithSign(x.x.Type(), x.unsigned), x.x)),
            Converted(t, Converted(WithSign(y.x.Type(), y.unsigned), y.x)))
  }

  /** No narrowing: the comparison in the nominal type, decided for an unsigned value against 0. */
  function Nominal(op0: Expr, op1: Expr, restype: IntType, code: Code): Outcome {
    if op1.IsZero() && restype.unsigned && code == GE then Decided(true)
    else if op1.IsZero() && restype.unsigned && code == LT then Decided(false)
    else Compare(code, Converted(restype, op0), Converted(restype, op1))
  }

  /** A comparison with its operands as given and as narrowed. */
  datatype Comparison = Comparison(code: Code, op0: Expr, x: Narrow, op1: Expr, y: Narrow)

  /** A constant goes second, unless the other operand is 0. */
  function Canonical(op0: Expr, op1: Expr, restype: IntType, code: Code): Comparison {
    var x, y := Operand(op0, restype), Operand(op1, restype);
    if x.x.Constant() && !y.x.IsZero() then Comparison(Swapped(code), op1, y, op0, x)
    else Comparison(code, op0, x, op1, y)
  }

  /** After the operands are in canonical order. */
  function Ordered(q: Comparison, restype: IntType): Outcome {
    if q.y.x.Cst? && q.x.x.Type().prec < restype.prec then AgainstConstant(q.x, q.y.x.value, restype, q.code)
    else if q.x.unsigned == q.y.unsigned && q.x.x.Type().prec < restype.prec && q.y.x.Type().prec < restype.prec then
      BothNarrow(q.x, q.y, restype, q.code)
    else Nominal(q.op0, q.op1, restype, q.code)
  }

  /** What `shorten_compare` makes of a comparison whose nominal type is restype. */
  function Shortened(op0: Expr, op1: Expr, restype: IntType, code: Code): Outcome {
    Ordered(Canonical(op0, op1, restype, code), restype)
  }

  /** The comparison as the language defines it. */
  predicate Meaning(op0: Expr, op1: Expr, restype: IntType, code: Code, env: Env) {
    Holds(code, Convert(restype, Value(op0, env)), Convert(restype, Value(op1, env)))
  }

  /** The outcome compares in one type, and comes out as b. */
  predicate ComesOut(outcome: Outcome, env: Env, b: bool) {
    match outcome
    case Decided(value) => value == b
    case Compare(code, op0, op1) =>
      op0.Type() == op1.Type() && Holds(code, Value(op0, env), Value(op1, env)) == b
  }

  lemma AgainstConstantPreserves(x: Narrow, k: int, restype: IntType, code: Code, env: Env)
    requires x.x.WellFormed() && Fits(env) && x.x.Type().prec < restype.prec
    ensures ComesOut(AgainstConstant(x, k, restype, code), env,
                     Holds(code, Convert(restype, x.Extended(env)), Convert(restype, k)))
  {
    var t, v := WithSign(x.x.Type(), x.unsigned), x.Extended(env);
    var r := if restype.unsigned && !x.unsigned then WithSign(restype, false) else restype;
    var c := Convert(r, k);
    Wider(t, r, Lo(t));
    Wider(t, r, Hi(t));
    Wider(t, r, v);
    ConvertSame(r, Lo(t));
    ConvertSame(r, Hi(t));
    ConvertedValue(t, x.x, env);
    ConvertedValue(t, Cst(r, c), env);
    if restype.unsigned && !x.unsigned {
      MixedPreserves(x, k, restype, code, env);
    } else {
      ConvertSame(r, v);
      FixedValueExact(code, c, Lo(t), Hi(t), Holds(code, v, c));
      FixedValueExact(code, c, Lo(t), Hi(t), !Holds(code, v, c));
      if FixedValue(code, c, Lo(t), Hi(t)).None? { ConvertSame(t, c); }
    }
  }

  /** The nominal values of a sign-extended v and of a constant k, and the value of v as an unsigned
      number no wider than itself. */
  lemma MixedValues(t: IntType, restype: IntType, v: int, k: int, w: int)
    requires !t.unsigned && restype.unsigned && t.prec < restype.prec && v == Convert(t, w)
    ensures var c, small: int, large: int := Convert(WithSign(restype, false), k), Pow2(t.prec - 1),
            Pow2(restype.prec - 1);
            && 0 < 2 * small <= large && -small <= v < small && -large <= c < large
            && Convert(restype, v) == (if v < 0 then v + 2 * large else v)
            && Convert(restype, k) == (if c < 0 then c + 2 * large else c)
            && Convert(WithSign(t, true), w) == (if v < 0 then v + 2 * small else v)
  {
    var r, u := WithSign(restype, false), WithSign(t, true);
    Wider(t, r, v);
    ConvertThrough(restype, r, k);
    ConvertNegative(restype, restype.prec, v);
    ConvertNegative(restype, restype.prec, Convert(r, k));
    ConvertThrough(u, t, w);
    ConvertNegative(u, t.prec, v);
    Pow2Monotone(t.prec, restype.prec - 1);
  }

  lemma MixedPreserves(x: Narrow, k: int, restype: IntType, code: Code, env: Env)
    requires x.x.WellFormed() && Fits(env) && x.x.Type().prec < restype.prec && restype.unsigned && !x.unsigned
    ensures var t, r := WithSign(x.x.Type(), false), WithSign(restype, false);
            var c := Convert(r, k);
            ComesOut(Mixed(x.x, t, Cst(r, c), FixedValue(code, c, Lo(t), Hi(t)), code), env,
                     Holds(code, Convert(restype, x.Extended(env)), Convert(restype, k)))
  {
    var t, r := WithSign(x.x.Type(), false), WithSign(restype, false);
    var v, c, small: int, large: int := x.Extended(env), Convert(r, k), Pow2(t.prec - 1), Pow2(restype.prec - 1);
    MixedValues(t, restype, v, k, Value(x.x, env));
    ConvertedValue(WithSign(t, true), x.x, env);
    MixedConstants(t, r, c, env);
    MixedAnswer(x.x, t, r, c, code, env, v, small, large, Convert(restype, v), Convert(restype, k));
  }

  lemma MixedAnswer(x: Expr, t: IntType, r: IntType, c: int, code: Code, env: Env, v: int, small: int, large: int,
      n: int, m: int)
    requires !t.unsigned && small == Pow2(t.prec - 1) && 0 < 2 * small <= large && -small <= v < small
             && -large <= c < large
    requires var u := WithSign(t, true);
             && Converted(u, x).Type() == u && Value(Converted(u, x), env) == (if v < 0 then v + 2 * small else v)
             && Converted(u, Cst(t, Lo(t))) == Cst(u, small) && Converted(u, Cst(t, Hi(t))) == Cst(u, small - 1)
             && Converted(u, Cst(r, c)).Type() == u
             && (InRange(t, c) ==> Value(Converted(u, Cst(r, c)), env) == if c < 0 then c + 2 * small else c)
    requires n == (if v < 0 then v + 2 * large else v) && m == (if c < 0 then c + 2 * large else c)
    ensures ComesOut(Mixed(x, t, Cst(r, c), FixedValue(code, c, Lo(t), Hi(t)), code), env, Holds(code, n, m))
  {
  }

  /** The values of the constants the mixed comparison may use. */
  lemma MixedConstants(t: IntType, r: IntType, c: int, env: Env)
    requires !t.unsigned && InRange(r, c) && Fits(env)
    ensures var u, small := WithSign(t, true), Pow2(t.prec - 1);
            && Converted(u, Cst(t, Lo(t))) == Cst(u, small) && Converted(u, Cst(t, Hi(t))) == Cst(u, small - 1)
            && Converted(u, Cst(r, c)).Type() == u
            && (InRange(t, c) ==> Value(Converted(u, Cst(r, c)), env) == if c < 0 then c + 2 * small else c)
  {
    var u := WithSign(t, true);
    ConvertNegative(u, t.prec, Lo(t));
    ConvertNegative(u, t.prec, Hi(t));
    ConvertedValue(u, Cst(r, c), env);
    if InRange(t, c) { ConvertNegative(u, t.prec, c); }
  }

  /** Extending both operands alike into t and into a wider restype keeps their order. */
  lemma SameExtension(code: Code, prec0: nat, prec1: nat, unsigned: bool, t: IntType, restype: IntType, v: int, w: int)
    requires 0 < prec0 <= t.prec < restype.prec && 0 < prec1 <= t.prec
    requires t.unsigned == (unsigned || restype.unsigned)
    requires InRange(Type(prec0, unsigned), v) && InRange(Type(prec1, unsigned), w)
    ensures Holds(code, Convert(restype, v), Convert(restype, w)) == Holds(code, Convert(t, v), Convert(t, w))
  {
    Wider(Type(prec0, unsigned), Type(t.prec, unsigned), v);
    Wider(Type(prec1, unsigned), Type(t.prec, unsigned), w);
    if restype.unsigned && !unsigned {
      ConvertNegative(t, t.prec, v);
      ConvertNegative(t, t.prec, w);
      ConvertNegative(restype, t.prec, v);
      ConvertNegative(restype, t.prec, w);
      Pow2Monotone(t.prec, restype.prec);
    } else {
      Wider(Type(t.prec, unsigned), restype, v);
      Wider(Type(t.prec, unsigned), restype, w);
      ConvertSame(t, v);
      ConvertSame(t, w);
      ConvertSame(restype, v);
      ConvertSame(restype, w);
    }
  }

  lemma ConvertedWellFormed(t: IntType, x: Expr)
    requires x.WellFormed()
    ensures Converted(t, x).WellFormed()
  {
  }

  lemma BothNarrowPreserves(x: Narrow, y: Narrow, restype: IntType, code: Code, env: Env)
    requires x.x.WellFormed() && y.x.WellFormed() && Fits(env) && x.unsigned == y.unsigned
    requires x.x.Type().prec < restype.prec && y.x.Type().prec < restype.prec
    ensures ComesOut(BothNarrow(x, y, restype, code), env,
                     Holds(code, Convert(restype, x.Extended(env)), Convert(restype, y.Extended(env))))
  {
    var s0, s1 := WithSign(x.x.Type(), x.unsigned), WithSign(y.x.Type(), y.unsigned);
    var t := Type(if s0.prec < s1.prec then s1.prec else s0.prec, x.unsigned || restype.unsigned);
    ConvertedWellFormed(s0, x.x);
    ConvertedWellFormed(s1, y.x);
    ConvertedValue(s0, x.x, env);
    ConvertedValue(s1, y.x, env);
    ConvertedValue(t, Converted(s0, x.x), env);
    ConvertedValue(t, Converted(s1, y.x), env);
    SameExtension(code, s0.prec, s1.prec, x.unsigned, t, restype, x.Extended(env), y.Extended(env));
  }

  lemma NominalPreserves(op0: Expr, op1: Expr, restype: IntType, code: Code, env: Env)
    requires op0.WellFormed() && op1.WellFormed() && Fits(env)
    ensures ComesOut(Nominal(op0, op1, restype, code), env, Meaning(op0, op1, restype, code, env))
  {
    ConvertedValue(restype, op0, env);
    ConvertedValue(restype, op1, env);
    if op1.IsZero() { ConvertSame(restype, 0); }
  }

  lemma OrderedPreserves(op0: Expr, op1: Expr, restype: IntType, code: Code, env: Env)
    requires op0.WellFormed() && op1.WellFormed() && Fits(env)
    requires op0.Type().prec <= restype.prec && op1.Type().prec <= restype.prec
    requires Faithful(op0, restype) && Faithful(op1, restype)
    ensures ComesOut(Ordered(Comparison(code, op0, Operand(op0, restype), op1, Operand(op1, restype)), restype), env,
                     Meaning(op0, op1, restype, code, env))
  {
    var x, y := Operand(op0, restype), Operand(op1, restype);
    OperandValue(op0, restype, env);
    OperandValue(op1, restype, env);
    if y.x.Cst? && x.x.Type().prec < restype.prec {
      AgainstConstantPreserves(x, y.x.value, restype, code, env);
    } else if x.unsigned == y.unsigned && x.x.Type().prec < restype.prec && y.x.Type().prec < restype.prec {
      BothNarrowPreserves(x, y, restype, code, env);
    } else {
      NominalPreserves(op0, op1, restype, code, env);
    }
  }

  /** The comparison keeps its truth value, whatever the operands evaluate to. */
  lemma ShortenedPreserves(op0: Expr, op1: Expr, restype: IntType, code: Code, env: Env)
    requires op0.WellFormed() && op1.WellFormed() && Fits(env)
    requires op0.Type().prec <= restype.prec && op1.Type().prec <= restype.prec
    requires Faithful(op0, restype) && Faithful(op1, restype)
    ensures ComesOut(Shortened(op0, op1, restype, code), env, Meaning(op0, op1, restype, code, env))
  {
    OrderedPreserves(op0, op1, restype, code, env);
    OrderedPreserves(op1, op0, restype, Swapped(code), env);
  }

  /** A variable of a narrower type against a constant: the result is a fixed value exactly when it does
      not depend on the variable, except that a sign-extended variable is compared in an unsigned type of its
      own width for its order. */
  lemma DecidedExact(s: IntType, id: nat, k: int, restype: IntType, code: Code, b: bool)
    requires s.prec < restype.prec && InRange(restype, k)
    ensures var x, c := Leaf(s, id, false), Cst(restype, k);
            if restype.unsigned && !s.unsigned && code != EQ && code != NE then
              var r := Shortened(x, c, restype, code);
              r.Compare? && r.op0 == Converted(WithSign(s, true), x) && r.op1.Type() == WithSign(s, true)
            else
              Shortened(x, c, restype, code) == Decided(b) <==>
              forall env: Env :: Fits(env) ==> Meaning(x, c, restype, code, env) == b
  {
    var x, c := Leaf(s, id, false), Cst(restype, k);
    var n := Narrow(x, s.unsigned);
    assert Operand(x, restype) == n && Operand(c, restype) == Narrow(c, false);
    assert Shortened(x, c, restype, code) == AgainstConstant(n, k, restype, code);
    if !(restype.unsigned && !s.unsigned && code != EQ && code != NE) {
      if Shortened(x, c, restype, code) == Decided(b) {
        forall env: Env | Fits(env) ensures Meaning(x, c, restype, code, env) == b {
          ShortenedPreserves(x, c, restype, code, env);
        }
      } else {
        var v := UndecidedValue(s, k, restype, code, b);
        var env: Env := (y: Expr) => if y == x then v else if y.Leaf? then Lo(y.leafType) else 0;
        assert Fits(env) && Value(x, env) == v;
        assert Meaning(x, c, restype, code, env) != b;
      }
    }
  }

  /** An unsigned variable of the nominal type is at least 0, and never less: that is decided. */
  lemma UnsignedZero(t: IntType, id: nat, code: Code)
    requires t.unsigned
    ensures var r := Shortened(Leaf(t, id, false), Cst(t, 0), t, code);
            if code == GE then r == Decided(true) else if code == LT then r == Decided(false) else r.Compare?
  {
    assert Operand(Leaf(t, id, false), t).x == Leaf(t, id, false) && Operand(Cst(t, 0), t).x == Cst(t, 0);
  }

  /** Two narrower variables converted to the nominal type are compared in the wider of their types if they
      extend alike, unsigned if either type or the nominal one is, and otherwise in the nominal type. */
  lemma ComparedNarrow(s: IntType, i: nat, u: IntType, j: nat, restype: IntType, code: Code)
    requires s.prec < restype.prec && u.prec < restype.prec
    ensures var r := Shortened(Nop(restype, Leaf(s, i, false)), Nop(restype, Leaf(u, j, false)), restype, code);
            && r.Compare? && r.code == code && r.op0.Type() == r.op1.Type()
            && r.op0.Type() == if s.unsigned != u.unsigned then restype
                               else if s.prec < u.prec then Type(u.prec, u.unsigned || restype.unsigned)
                               else Type(s.prec, s.unsigned || restype.unsigned)
  {
    var x, y := Leaf(s, i, false), Leaf(u, j, false);
    assert StripMore(x, s.unsigned) == x && StripMore(y, u.unsigned) == y;
    assert Operand(Nop(restype, x), restype) == Narrow(x, s.unsigned);
    assert Operand(Nop(restype, y), restype) == Narrow(y, u.unsigned);
  }

  /** A value of the variable for which the comparison does not come out as b, if the bounds do not say that
      it must. */
  lemma UndecidedValue(s: IntType, k: int, restype: IntType, code: Code, b: bool) returns (v: int)
    requires s.prec < restype.prec && InRange(restype, k)
    requires !(restype.unsigned && !s.unsigned) || code == EQ || code == NE
    requires var r := if restype.unsigned && !s.unsigned then WithSign(restype, false) else restype;
             FixedValue(code, Convert(r, k), Convert(r, Lo(s)), Convert(r, Hi(s))) != Some(b)
    ensures InRange(s, v) && Holds(code, Convert(restype, v), Convert(restype, k)) != b
  {
    var r := if restype.unsigned && !s.unsigned then WithSign(restype, false) else restype;
    var c := Convert(r, k);
    Wider(s, r, Lo(s));
    Wider(s, r, Hi(s));
    ConvertSame(r, Lo(s));
    ConvertSame(r, Hi(s));
    FixedValueExact(code, c, Lo(s), Hi(s), b);
    v :| Lo(s) <= v <= Hi(s) && Holds(code, v, c) != b;
    Wider(s, r, v);
    ConvertSame(r, v);
    if restype.unsigned && !s.unsigned {
      ConvertThrough(restype, r, k);
      ConvertNegative(restype, restype.prec, v);
      ConvertNegative(restype, restype.prec, c);
    }
  }

  /** All comparisons of op with a constant come out right. */
  ghost predicate RightAgainstConstants(op: Expr, restype: IntType) {
    forall k: int, code: Code, env: Env :: InRange(restype, k) && Fits(env) ==>
      ComesOut(Shortened(op, Cst(restype, k), restype, code), env, Meaning(op, Cst(restype, k), restype, code, env))
  }

  /** For a converted variable the condition is exact: without it, the variable at -1 compared for
      equality with the largest value of the intermediate type is taken to be unequal. */
  lemma FaithfulExact(t: IntType, s: IntType, id: nat, restype: IntType)
    requires t.prec <= restype.prec
    ensures RightAgainstConstants(Nop(t, Leaf(s, id, false)), restype) <==>
            Faithful(Nop(t, Leaf(s, id, false)), restype)
  {
    var x := Leaf(s, id, false);
    var op := Nop(t, x);
    if Faithful(op, restype) {
      forall k: int, code: Code, env: Env | InRange(restype, k) && Fits(env)
        ensures ComesOut(Shortened(op, Cst(restype, k), restype, code), env,
                         Meaning(op, Cst(restype, k), restype, code, env))
      {
        ShortenedPreserves(op, Cst(restype, k), restype, code, env);
      }
    } else {
      var k := Hi(t);
      var env: Env := (y: Expr) => if y == x then -1 else if y.Leaf? then Lo(y.leafType) else 0;
      Wider(t, restype, k);
      ConvertSame(restype, k);
      TakenForUnequal(t, s, x, restype, env);
      assert !ComesOut(Shortened(op, Cst(restype, k), restype, EQ), env,
                       Meaning(op, Cst(restype, k), restype, EQ, env));
    }
  }

  lemma TakenForUnequal(t: IntType, s: IntType, x: Expr, restype: IntType, env: Env)
    requires x.Leaf? && x.leafType == s && !x.constant && env(x) == -1 && !Faithful(Nop(t, x), restype)
    ensures Shortened(Nop(t, x), Cst(restype, Hi(t)), restype, EQ) == Decided(false)
    ensures Meaning(Nop(t, x), Cst(restype, Hi(t)), restype, EQ, env)
  {
    assert StripMore(x, false) == x && Narrower(Nop(t, x)) == Narrow(x, false);
    OutOfBounds(t, s, x, restype);
    ConvertNegative(t, s.prec, -1);
    assert Value(Nop(t, x), env) == Convert(t, -1) == Hi(t);
  }

  /** The largest value of t is beyond the largest of the narrower signed type s. */
  lemma OutOfBounds(t: IntType, s: IntType, x: Expr, restype: IntType)
    requires !s.unsigned && t.unsigned && s.prec < t.prec < restype.prec && x.Type() == s
    ensures AgainstConstant(Narrow(x, false), Hi(t), restype, EQ) == Decided(false)
  {
    var k, r := Hi(t), WithSign(restype, false);
    Wider(t, r, k);
    Wider(s, r, Lo(s));
    Wider(s, r, Hi(s));
    ConvertSame(r, k);
    ConvertSame(r, Lo(s));
    ConvertSame(r, Hi(s));
    Pow2Monotone(s.prec - 1, t.prec);
    assert FixedValue(EQ, Convert(r, k), Convert(r, Lo(s)), Convert(r, Hi(s))) == Some(false);
  }

  /** The narrowed operand, and how it extends. */
  method NarrowOperand(op: Expr, restype: IntType) returns (primop: Expr, unsignedp: bool)
    ensures Narrow(primop, unsignedp) == Operand(op, restype)
  {
    primop, unsignedp := GetNarrower(op);
    if op == primop && op.Type() != restype {
      unsignedp := op.Type().unsigned;
    }
  }

  /** The start of `shorten_compare`: narrow the operands, and put them in order. */
  method Order(first: Expr, second: Expr, restype: IntType, given: Code) returns (q: Comparison)
    ensures q == Canonical(first, second, restype, given)
  {
    var op0, op1, code := first, second, given;
    var primop0, unsignedp0 := NarrowOperand(op0, restype);
    var primop1, unsignedp1 := NarrowOperand(op1, restype);
    if primop0.Constant() && !primop1.IsZero() {
      primop0, primop1 := primop1, primop0;
      op0, op1 := op1, op0;
      unsignedp0, unsignedp1 := unsignedp1, unsignedp0;
      code := Swapped(code);
    }
    q := Comparison(code, op0, Narrow(primop0, unsignedp0), op1, Narrow(primop1, unsignedp1));
  }

  /** `shorten_compare` */
  method Shorten(op0: Expr, op1: Expr, restype: IntType, code: Code) returns (outcome: Outcome)
    ensures outcome == Shortened(op0, op1, restype, code)
  {
    var q := Order(op0, op1, restype, code);
    var x, y := q.x, q.y;
    if y.x.Cst? && x.x.Type().prec < restype.prec {
      outcome := ShortenConstant(x.x, x.unsigned, y.x, restype, q.code);
    } else if x.unsigned == y.unsigned && x.x.Type().prec < restype.prec && y.x.Type().prec < restype.prec {
      outcome := ShortenBoth(x.x, y.x, x.unsigned, restype, q.code);
    } else {
      outcome := CompareNominally(q.op0, q.op1, restype, q.code);
    }
  }

  /** The branch for two operands that extend alike. */
  method ShortenBoth(narrow0: Expr, narrow1: Expr, unsignedp: bool, restype: IntType, code: Code)
      returns (outcome: Outcome)
    ensures outcome == BothNarrow(Narrow(narrow0, unsignedp), Narrow(narrow1, unsignedp), restype, code)
  {
    var primop0, primop1 := narrow0, narrow1;
    var compareType := if primop0.Type().prec < primop1.Type().prec then primop1.Type() else primop0.Type();
    compareType := WithSign(compareType, unsignedp || restype.unsigned);
    primop0 := Converted(WithSign(primop0.Type(), unsignedp), primop0);
    primop1 := Converted(WithSign(primop1.Type(), unsignedp), primop1);
    return Compare(code, Converted(compareType, primop0), Converted(compareType, primop1));
  }

  /** The last branch: the operands as given, in the nominal type. */
  method CompareNominally(op0: Expr, op1: Expr, restype: IntType, code: Code) returns (outcome: Outcome)
    ensures outcome == Nominal(op0, op1, restype, code)
  {
    if op1.IsZero() && restype.unsigned {
      if code == GE {
        return Decided(true);
      } else if code == LT {
        return Decided(false);
      }
    }
    return Compare(code, Converted(restype, op0), Converted(restype, op1));
  }

  /** The branch of `shorten_compare` for a wider constant. */
  method ShortenConstant(primop0: Expr, unsignedp0: bool, constant: Expr, restype0: IntType, code: Code)
    returns (outcome: Outcome)
    requires constant.Cst?
    ensures outcome == AgainstConstant(Narrow(primop0, unsignedp0), constant.value, restype0, code)
  {
    var primop1, restype := constant, restype0;
    var unsignedp := restype.unsigned;
    var compareType := WithSign(primop0.Type(), unsignedp0);
    var maxval, minval := Hi(compareType), Lo(compareType);
    if unsignedp && !unsignedp0 {
      restype := WithSign(restype, false);
    }
    primop1 := Cst(restype, Convert(restype, primop1.value));
    minval, maxval := Convert(restype, minval), Convert(restype, maxval);
    var val := FixedValue(code, primop1.value, minval, maxval);
    if unsignedp && !unsignedp0 {
      if val.Some? {
        match code
        case LT | GE =>
          primop1 := Cst(compareType, Lo(compareType));
          val := None;
        case LE | GT =>
          primop1 := Cst(compareType, Hi(compareType));
          val := None;
        case _ =>
      }
      compareType := WithSign(compareType, true);
    }
    if val.Some? {
      return Decided(val.value);
    }
    return Compare(code, Converted(compareType, primop0), Converted(compareType, primop1));
  }
}
