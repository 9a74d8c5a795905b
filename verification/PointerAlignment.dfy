/** `get_pointer_alignment`: what is known about the alignment of the address an expression computes. */
module PointerAlignment {
  import opened Arithmetic
  import opened Options
  import opened Words

  const BITS_PER_UNIT := 8

  /** What an ADDR_EXPR is applied to: a variable or function with an alignment of its own, or a place
      known by its type only. */
  datatype Object = Decl(align: nat) | Place

  /** Expressions, each with the alignment in bits of what its type points to, or None if that is not a
      pointer type. A sum has a constant second operand, or one that is not. */
  datatype Exp =
    | Leaf(pointee: Option<nat>, id: nat)
    | Cast(pointee: Option<nat>, e: Exp)
    | Plus(pointee: Option<nat>, e: Exp, offset: Option<nat>)
    | AddressOf(pointee: Option<nat>, target: Object, id: nat)
  {
    /** Whether the value is taken as given: nothing further in is looked at. */
    predicate Given() {
      Leaf? || AddressOf? || (Cast? && e.pointee.None?) || (Plus? && offset.None?)
    }

    /** Alignments are powers of two, addresses are pointers, and a pointer sum has the type of its pointer
        operand. */
    ghost predicate WellTyped() {
      && (pointee.Some? ==> PowerOfTwo(pointee.value))
      && match this {
           case Leaf(_, _) => true
           case Cast(_, e) => e.WellTyped()
           case Plus(p, e, _) => e.WellTyped() && p == e.pointee
           case AddressOf(p, o, _) => p.Some? && (o.Decl? ==> PowerOfTwo(o.align))
         }
    }
  }

  ghost predicate PowerOfTwo(x: nat) {
    exists k: nat :: x == Pow2(k)
  }

  ghost predicate Divides(d: nat, x: int) {
    d > 0 && exists k: int :: x == k * d
  }

  /** The addresses of what is taken as given. */
  type Env = Exp -> int

  /** A pointer is aligned for what it points to, an object as it was declared. */
  ghost predicate Aligned(env: Env) {
    forall e: Exp :: e.Given() && e.pointee.Some? ==>
      Divides(if e.AddressOf? && e.target.Decl? then e.target.align else e.pointee.value, BITS_PER_UNIT * env(e))
  }

  /** The address an expression computes. */
  function Address(e: Exp, env: Env): int {
    if e.Given() then env(e)
    else if e.Cast? then Address(e.e, env)
    else Address(e.e, env) + e.offset.value
  }

  function Min(a: nat, b: nat): nat {
    if a < b then a else b
  }

  /** The inner loop: halve until the low bits of the offset are clear. */
  function Halved(max: nat, offset: nat): nat
    requires PowerOfTwo(max) && max >= BITS_PER_UNIT
    decreases max
  {
    if max / BITS_PER_UNIT > 0 && offset % (max / BITS_PER_UNIT) != 0 then
      HalfPower(max, offset);
      Halved(max / 2, offset)
    else max
  }

  /** A power of two that leaves a remainder in bytes can be halved. */
  lemma HalfPower(max: nat, offset: nat)
    requires PowerOfTwo(max) && max >= BITS_PER_UNIT && max / BITS_PER_UNIT > 0 && offset % (max / BITS_PER_UNIT) != 0
    ensures PowerOfTwo(max / 2) && max / 2 >= BITS_PER_UNIT
  {
    var k: nat :| max == Pow2(k);
    assert Pow2(3) == 8;
    if k <= 3 {
      Pow2Monotone(k, 3);
    } else {
      Pow2Monotone(3, k - 1);
      assert max / 2 == Pow2(k - 1);
    }
  }

  /** The rest of the walk, with the alignment found so far and the most the offsets so far allow. */
  function Walk(e: Exp, align: nat, max: nat): nat
    requires PowerOfTwo(max) && max >= BITS_PER_UNIT
    decreases e
  {
    match e
    case Leaf(_, _) => align
    case Cast(_, x) => if x.pointee.None? then align else Walk(x, Min(x.pointee.value, max), max)
    case Plus(_, x, c) => if c.None? then align else HalvedFacts(max, c.value); Walk(x, align, Halved(max, c.value))
    case AddressOf(_, o, _) => Min(if o.Decl? then o.align else align, max)
  }

  lemma DividesProduct(d: nat, e: nat, x: int, k: int)
    requires e == k * d && Divides(e, x) && d > 0
    ensures Divides(d, x)
  {
    var j: int :| x == j * e;
    assert j * (k * d) == (j * k) * d;
  }

  lemma DividesSum(d: nat, x: int, y: int)
    requires Divides(d, x)
    ensures Divides(d, x + y) <==> Divides(d, y)
  {
    var j: int :| x == j * d;
    if k: int :| y == k * d { assert x + y == (j + k) * d; }
    if k: int :| x + y == k * d { assert y == (k - j) * d; }
  }

  /** The smaller of two powers of two divides the other. */
  lemma PowersDivide(a: nat, b: nat)
    requires PowerOfTwo(a) && PowerOfTwo(b) && a <= b
    ensures Divides(a, b)
  {
    var j: nat :| a == Pow2(j);
    var k: nat :| b == Pow2(k);
    if k < j { Pow2Monotone(k, j); } else { Pow2Sum(k - j, j); }
  }

  lemma SmallerDivides(a: nat, b: nat, x: int)
    requires PowerOfTwo(a) && PowerOfTwo(b) && a <= b && Divides(b, x)
    ensures Divides(a, x)
  {
    PowersDivide(a, b);
    var k: int :| b == k * a;
    DividesProduct(a, b, x, k);
  }

  lemma {:induction false} HalvedFacts(max: nat, offset: nat)
    requires PowerOfTwo(max) && max >= BITS_PER_UNIT
    ensures var h := Halved(max, offset);
            PowerOfTwo(h) && BITS_PER_UNIT <= h <= max && Divides(h, BITS_PER_UNIT * offset)
    decreases max
  {
    var bytes := max / BITS_PER_UNIT;
    if bytes > 0 && offset % bytes != 0 {
      HalfPower(max, offset);
      HalvedFacts(max / 2, offset);
    } else {
      BytesOfPower(max);
      assert offset == (offset / bytes) * bytes;
      assert BITS_PER_UNIT * offset == (offset / bytes) * (bytes * BITS_PER_UNIT);
    }
  }

  lemma BytesOfPower(max: nat)
    requires PowerOfTwo(max) && max >= BITS_PER_UNIT
    ensures max / BITS_PER_UNIT > 0 && max == max / BITS_PER_UNIT * BITS_PER_UNIT
  {
    var k: nat :| max == Pow2(k);
    assert Pow2(3) == 8;
    if k < 3 { Pow2Monotone(k, 3); } else { Pow2Sum(k - 3, 3); }
  }

  /** The constant offsets added after the innermost cast that is looked through. The result does not
      take them into account, except for the address of an object. */
  function Unchecked(e: Exp, sum: nat): nat {
    if e.AddressOf? then 0
    else if e.Given() then sum
    else if e.Cast? then Unchecked(e.e, 0)
    else Unchecked(e.e, sum + e.offset.value)
  }

  /** `get_pointer_alignment` */
  function Alignment(e: Exp, max: nat): nat
    requires PowerOfTwo(max) && max >= BITS_PER_UNIT
  {
    if e.pointee.None? then 0 else Walk(e, Min(e.pointee.value, max), max)
  }

  /** The walk keeps account of the address so far: `align` divides the bits of `before`, and `max` those
      of everything, `sum` having been added since the last cast. */
  lemma {:induction false} WalkExact(e: Exp, align: nat, max: nat, before: int, sum: nat, env: Env)
    requires PowerOfTwo(max) && max >= BITS_PER_UNIT && PowerOfTwo(align)
    requires e.WellTyped() && e.pointee.Some? && align <= e.pointee.value && Aligned(env)
    requires Divides(align, BITS_PER_UNIT * before) && Divides(max, BITS_PER_UNIT * (before + sum))
    ensures var r := Walk(e, align, max);
            PowerOfTwo(r) &&
            (Divides(r, BITS_PER_UNIT * (before + sum + Address(e, env))) <==>
                Divides(r, BITS_PER_UNIT * Unchecked(e, sum)))
    decreases e
  {
    var bits := BITS_PER_UNIT;
    if e.AddressOf? {
      ObjectExact(e, align, max, before + sum, env);
    } else if e.Given() {
      SmallerDivides(align, e.pointee.value, bits * env(e));
      GivenExact(align, bits * before, bits * sum, bits * env(e));
      assert bits * (before + sum + env(e)) == bits * before + bits * env(e) + bits * sum;
    } else if e.Cast? {
      var inner := Min(e.e.pointee.value, max);
      SmallerDivides(inner, max, bits * (before + sum));
      WalkExact(e.e, inner, max, before + sum, 0, env);
    } else {
      var c := e.offset.value;
      var h := Halved(max, c);
      HalvedFacts(max, c);
      SmallerDivides(h, max, bits * (before + sum));
      DividesSum(h, bits * (before + sum), bits * c);
      assert bits * (before + sum) + bits * c == bits * (before + (sum + c));
      WalkExact(e.e, align, h, before, sum + c, env);
    }
  }

  lemma GivenExact(r: nat, before: int, sum: int, given: int)
    requires Divides(r, before) && Divides(r, given)
    ensures Divides(r, before + given + sum) <==> Divides(r, sum)
  {
    DividesSum(r, before, given);
    DividesSum(r, before + given, sum);
  }

  lemma ObjectExact(e: Exp, align: nat, max: nat, before: int, env: Env)
    requires PowerOfTwo(max) && max >= BITS_PER_UNIT && PowerOfTwo(align)
    requires e.AddressOf? && e.WellTyped() && align <= e.pointee.value && Aligned(env)
    requires Divides(max, BITS_PER_UNIT * before)
    ensures var r := Walk(e, align, max);
            PowerOfTwo(r) && Divides(r, BITS_PER_UNIT * (before + env(e))) && Divides(r, 0)
  {
    var r, bits := Walk(e, align, max), BITS_PER_UNIT;
    SmallerDivides(r, max, bits * before);
    SmallerDivides(r, if e.target.Decl? then e.target.align else e.pointee.value, bits * env(e));
    DividesSum(r, bits * before, bits * env(e));
    assert bits * before + bits * env(e) == bits * (before + env(e));
    assert 0 == 0 * r;
  }

  lemma {:induction false} WalkBound(e: Exp, align: nat, max: nat, limit: nat)
    requires PowerOfTwo(max) && max >= BITS_PER_UNIT && align <= limit && max <= limit
    ensures Walk(e, align, max) <= limit
    decreases e
  {
    match e
    case Cast(_, x) => if x.pointee.Some? { WalkBound(x, Min(x.pointee.value, max), max, limit); }
    case Plus(_, x, c) =>
      if c.Some? {
        HalvedFacts(max, c.value);
        WalkBound(x, align, Halved(max, c.value), limit);
      }
    case _ =>
  }

  /** What the walk ends at. */
  function Base(e: Exp): Exp {
    if e.Given() then e else Base(e.e)
  }

  /** Whether a cast is looked through. */
  predicate HasCast(e: Exp) {
    !e.Given() && (e.Cast? || HasCast(e.e))
  }

  /** What the offsets outside the innermost cast leave of the limit. */
  function Limit(e: Exp, max: nat): nat
    requires PowerOfTwo(max) && max >= BITS_PER_UNIT
    decreases e
  {
    if !HasCast(e) then max
    else if e.Cast? then Limit(e.e, max)
    else HalvedFacts(max, e.offset.value); Limit(e.e, Halved(max, e.offset.value))
  }

  /** d divides the bits of every offset outside the innermost cast. */
  ghost predicate DividesOuter(e: Exp, d: nat) {
    HasCast(e) ==> (e.Plus? ==> Divides(d, BITS_PER_UNIT * e.offset.value)) && DividesOuter(e.e, d)
  }

  /** That is the largest power of two, up to the limit given, that divides all those offsets. */
  lemma {:induction false} LimitIsLargest(e: Exp, max: nat, d: nat)
    requires PowerOfTwo(max) && max >= BITS_PER_UNIT && PowerOfTwo(d)
    ensures PowerOfTwo(Limit(e, max)) && Limit(e, max) <= max
    ensures d <= Limit(e, max) <==> d <= max && DividesOuter(e, d)
    decreases e
  {
    if HasCast(e) {
      if e.Cast? {
        LimitIsLargest(e.e, max, d);
      } else {
        var h := Halved(max, e.offset.value);
        HalvedFacts(max, e.offset.value);
        LimitIsLargest(e.e, h, d);
        if d <= h { SmallerDivides(d, h, BITS_PER_UNIT * e.offset.value); }
        if d <= max && DividesOuter(e, d) { HalvedBest(max, e.offset.value, d); }
      }
    }
  }

  /** The walk ends with the smaller of what the innermost cast points to and of that limit. */
  lemma {:induction false} WalkIs(e: Exp, align: nat, max: nat)
    requires PowerOfTwo(max) && max >= BITS_PER_UNIT && e.WellTyped() && e.pointee.Some? && !Base(e).AddressOf?
    ensures Base(e).pointee.Some? && (!HasCast(e) ==> Base(e).pointee == e.pointee)
    ensures Walk(e, align, max) == if HasCast(e) then Min(Base(e).pointee.value, Limit(e, max)) else align
    decreases e
  {
    if e.Given() {
    } else if e.Cast? {
      WalkIs(e.e, Min(e.e.pointee.value, max), max);
    } else {
      HalvedFacts(max, e.offset.value);
      WalkIs(e.e, align, Halved(max, e.offset.value));
    }
  }

  lemma AlignmentIs(e: Exp, max: nat)
    requires PowerOfTwo(max) && max >= BITS_PER_UNIT && e.WellTyped() && e.pointee.Some? && !Base(e).AddressOf?
    ensures Base(e).pointee.Some? && PowerOfTwo(Base(e).pointee.value) && PowerOfTwo(Limit(e, max))
    ensures Alignment(e, max) == Min(Base(e).pointee.value, Limit(e, max))
  {
    WalkIs(e, Min(e.pointee.value, max), max);
    LimitIsLargest(e, max, max);
    BaseTyped(e);
  }

  lemma {:induction false} BaseTyped(e: Exp)
    requires e.WellTyped()
    ensures Base(e).WellTyped()
  {
    if !e.Given() { BaseTyped(e.e); }
  }

  lemma MinDivides(a: nat, b: nat, x: int)
    requires PowerOfTwo(a) && PowerOfTwo(b)
    ensures Divides(Min(a, b), x) <==> Divides(a, x) || Divides(b, x)
  {
    if Divides(a, x) { SmallerDivides(Min(a, b), a, x); }
    if Divides(b, x) { SmallerDivides(Min(a, b), b, x); }
  }

  /** The offsets inside the innermost cast that the result does not account for are harmless: the alignment
      of what the base points to divides them, or the limit does that the offsets outside leave. */
  ghost predicate Harmless(e: Exp, max: nat)
    requires PowerOfTwo(max) && max >= BITS_PER_UNIT
  {
    || Base(e).AddressOf?
    || (Base(e).pointee.Some? && Divides(Base(e).pointee.value, BITS_PER_UNIT * Unchecked(e, 0)))
    || Divides(Limit(e, max), BITS_PER_UNIT * Unchecked(e, 0))
  }

  /** The result is a power of two up to the given limit. It divides the bit address of the pointer exactly
      when the base is an object or the unaccounted offsets are harmless. */
  lemma AlignmentExact(e: Exp, max: nat, env: Env)
    requires PowerOfTwo(max) && max >= BITS_PER_UNIT && e.WellTyped() && e.pointee.Some? && Aligned(env)
    ensures PowerOfTwo(Alignment(e, max)) && Alignment(e, max) <= max
    ensures Divides(Alignment(e, max), BITS_PER_UNIT * Address(e, env)) <==> Harmless(e, max)
  {
    var align := Min(e.pointee.value, max);
    PowerPositive(align);
    assert 0 == 0 * align && 0 == 0 * max;
    WalkExact(e, align, max, 0, 0, env);
    WalkBound(e, align, max, max);
    if Base(e).AddressOf? {
      NothingUnchecked(e, 0);
      assert 0 == 0 * Alignment(e, max);
    } else {
      AlignmentIs(e, max);
      MinDivides(Base(e).pointee.value, Limit(e, max), BITS_PER_UNIT * Unchecked(e, 0));
    }
  }

  lemma {:induction false} NothingUnchecked(e: Exp, sum: nat)
    requires Base(e).AddressOf?
    ensures Unchecked(e, sum) == 0
  {
    if e.Given() {
    } else if e.Cast? {
      NothingUnchecked(e.e, 0);
    } else {
      NothingUnchecked(e.e, sum + e.offset.value);
    }
  }

  lemma PowerPositive(x: nat)
    requires PowerOfTwo(x)
    ensures x > 0
  {
  }

  lemma NotAll(max: nat, offset: nat, d: nat)
    requires PowerOfTwo(max) && max >= BITS_PER_UNIT && PowerOfTwo(d) && max / 2 < d <= max && PowerOfTwo(max / 2)
    requires Divides(d, BITS_PER_UNIT * offset)
    ensures max / BITS_PER_UNIT > 0 && offset % (max / BITS_PER_UNIT) == 0
  {
    BytesOfPower(max);
    NextPower(max / 2, d);
    WholeBytes(max / BITS_PER_UNIT, offset);
  }

  /** The inner loop halves no more than it must. */
  lemma {:induction false} HalvedBest(max: nat, offset: nat, d: nat)
    requires PowerOfTwo(max) && max >= BITS_PER_UNIT && PowerOfTwo(d) && d <= max
    requires Divides(d, BITS_PER_UNIT * offset)
    ensures d <= Halved(max, offset)
    decreases max
  {
    var bytes := max / BITS_PER_UNIT;
    if bytes > 0 && offset % bytes != 0 {
      HalfPower(max, offset);
      if d <= max / 2 {
        HalvedBest(max / 2, offset, d);
      } else {
        NotAll(max, offset, d);
      }
    }
  }

  /** A power of two above half of one, and not above it, is that one. */
  lemma NextPower(half: nat, d: nat)
    requires PowerOfTwo(half) && PowerOfTwo(d) && half < d <= 2 * half
    ensures d == 2 * half
  {
    var j: nat :| half == Pow2(j);
    var k: nat :| d == Pow2(k);
    if k <= j { Pow2Monotone(k, j); } else { Pow2Monotone(j + 1, k); }
  }

  lemma WholeBytes(bytes: nat, offset: nat)
    requires bytes > 0 && Divides(bytes * BITS_PER_UNIT, BITS_PER_UNIT * offset)
    ensures offset % bytes == 0
  {
    var k: int :| BITS_PER_UNIT * offset == k * (bytes * BITS_PER_UNIT);
    assert k * (bytes * BITS_PER_UNIT) == BITS_PER_UNIT * (k * bytes);
    if k < 0 { assert k * bytes <= 0; }
    DivUnique(offset, bytes, k, 0);
  }

  /** The alignment of what the walk ends at: of the object, if it is declared, or of what is pointed to. */
  function BaseAlign(e: Exp): nat
    requires Base(e).pointee.Some?
  {
    if Base(e).AddressOf? && Base(e).target.Decl? then Base(e).target.align else Base(e).pointee.value
  }

  /** d divides the bits of every offset looked through. */
  ghost predicate DividesAll(e: Exp, d: nat) {
    !e.Given() ==> (e.Plus? ==> Divides(d, BITS_PER_UNIT * e.offset.value)) && DividesAll(e.e, d)
  }

  /** The walk to an object: nothing that is pointed to on the way counts if the object is declared. */
  lemma {:induction false} ObjectWalk(e: Exp, align: nat, max: nat, d: nat)
    requires PowerOfTwo(max) && max >= BITS_PER_UNIT && PowerOfTwo(d)
    requires e.WellTyped() && e.pointee.Some? && Base(e).AddressOf? && Base(e).pointee.Some?
    requires d <= max ==> (d <= align <==> d <= e.pointee.value)
    ensures d <= Walk(e, align, max) <==> d <= max && d <= BaseAlign(e) && DividesAll(e, d)
    decreases e
  {
    if e.Given() {
    } else if e.Cast? {
      ObjectWalk(e.e, Min(e.e.pointee.value, max), max, d);
    } else {
      var h := Halved(max, e.offset.value);
      HalvedFacts(max, e.offset.value);
      ObjectWalk(e.e, align, h, d);
      if d <= h { SmallerDivides(d, h, BITS_PER_UNIT * e.offset.value); }
      if d <= max && DividesAll(e, d) { HalvedBest(max, e.offset.value, d); }
    }
  }

  /** What the result is: the largest power of two up to the limit that the alignment of the base and the
      offsets allow, all of them for an object, and otherwise those outside the innermost cast. */
  lemma AlignmentBest(e: Exp, max: nat, d: nat)
    requires PowerOfTwo(max) && max >= BITS_PER_UNIT && PowerOfTwo(d) && e.WellTyped() && e.pointee.Some?
    ensures Base(e).pointee.Some?
    ensures d <= Alignment(e, max) <==>
            d <= max && d <= BaseAlign(e) && if Base(e).AddressOf? then DividesAll(e, d) else DividesOuter(e, d)
  {
    BasePointer(e);
    if Base(e).AddressOf? {
      ObjectWalk(e, Min(e.pointee.value, max), max, d);
    } else {
      AlignmentIs(e, max);
      LimitIsLargest(e, max, d);
    }
  }

  lemma {:induction false} BasePointer(e: Exp)
    requires e.WellTyped() && e.pointee.Some?
    ensures Base(e).pointee.Some?
  {
    if !e.Given() { BasePointer(e.e); }
  }

  /** A character object declared with an alignment of 64 bits has it. */
  lemma DeclaredObject(id: nat)
    ensures PowerOfTwo(64) && Alignment(AddressOf(Some(8), Decl(64), id), 64) == 64
  {
    assert Pow2(6) == 64 by { assert Pow2(3) == 8; }
  }

  /** Two bytes past an `int *` are taken to be aligned for an int. */
  lemma MisalignedOffset(env: Env)
    requires Aligned(env) && env(Leaf(Some(32), 0)) == 0
    ensures var e := Plus(Some(32), Leaf(Some(32), 0), Some(2));
            && PowerOfTwo(64) && Alignment(e, 64) == 32 && Address(e, env) == 2 && !Divides(32, BITS_PER_UNIT * 2)
            && !Harmless(e, 64)
  {
    assert Pow2(6) == 64 && Pow2(5) == 32 by { assert Pow2(3) == 8; }
    AlignmentExact(Plus(Some(32), Leaf(Some(32), 0), Some(2)), 64, env);
  }

  /** `get_pointer_alignment`, as it reassigns exp, align and max_align. */
  method GetPointerAlignment(exp0: Exp, maxAlign0: nat) returns (align: nat)
    requires PowerOfTwo(maxAlign0) && maxAlign0 >= BITS_PER_UNIT
    ensures align == Alignment(exp0, maxAlign0)
  {
    var exp, maxAlign: nat := exp0, maxAlign0;
    if exp.pointee.None? {
      return 0;
    }
    align := Min(exp.pointee.value, maxAlign);
    while true
      invariant PowerOfTwo(maxAlign) && maxAlign >= BITS_PER_UNIT
      invariant Walk(exp, align, maxAlign) == Alignment(exp0, maxAlign0)
      decreases exp
    {
      match exp
      case Cast(_, e) =>
        exp := e;
        if exp.pointee.None? {
          return;
        }
        align := Min(exp.pointee.value, maxAlign);
      case Plus(_, e, offset) =>
        if offset.None? {
          return;
        }
        HalvedFacts(maxAlign, offset.value);
        maxAlign := HalveMax(maxAlign, offset.value);
        exp := e;
      case AddressOf(_, o, _) =>
        if o.Decl? {
          align := o.align;
        }
        return Min(align, maxAlign);
      case Leaf(_, _) =>
        return;
    }
  }

  /** The inner loop. */
  method HalveMax(max0: nat, offset: nat) returns (max: nat)
    requires PowerOfTwo(max0) && max0 >= BITS_PER_UNIT
    ensures max == Halved(max0, offset)
  {
    max := max0;
    BytesOfPower(max);
    while offset % (max / BITS_PER_UNIT) != 0
      invariant PowerOfTwo(max) && max >= BITS_PER_UNIT && max / BITS_PER_UNIT > 0
      invariant Halved(max, offset) == Halved(max0, offset)
      decreases max
    {
      HalfPower(max, offset);
      max := max / 2;
      BytesOfPower(max);
    }
  }
}
