/** `memrefs_conflict_p`: an answer 0 must mean that two memory references cannot overlap. Every
    recursive call of the original is its last act, so one level of it is a step from one question to
    the next. */
module MemrefsConflict {
  import opened Arithmetic
  import opened Options
  import opened Rtl

  /** DivideByZero: the original divides by a zero scale, which C leaves undefined. */
  datatype Answer = Disjoint | MayConflict | DivideByZero

  /** Might xsize bytes at x overlap ysize bytes at y + c? */
  datatype Question = Question(xsize: int, x: Rtx, ysize: int, y: Rtx, c: int)

  datatype Step = Done(answer: Answer) | Ask(next: Question)

  /** The division of C, which truncates towards zero. */
  function Quotient(a: int, b: int): int
    requires b != 0
  {
    if a >= 0 then a / b else -(-a / b)
  }

  predicate Overlap(xsize: int, ysize: int, c: int) {
    (c >= 0 && xsize > c) || (c < 0 && ysize + c > 0)
  }

  function Verdict(conflict: bool): Step {
    Done(if conflict then MayConflict else Disjoint)
  }

  /** Two sums. */
  function SumStep(q: Question, env: Env): Step
    requires q.x.Plus? && q.y.Plus?
  {
    var Question(xs, x, ys, y, c) := q;
    if EqualForMemref(x.b, y.b, env) then Ask(Question(xs, x.a, ys, y.a, c))
    else if EqualForMemref(x.a, y.a, env) then Ask(Question(xs, x.b, ys, y.b, c))
    else if x.b.ConstInt? then
      if y.b.ConstInt? then Ask(Question(xs, x.a, ys, y.a, c - x.b.value + y.b.value))
      else Ask(Question(xs, x.a, ys, y, c - x.b.value))
    else if y.b.ConstInt? then Ask(Question(xs, x, ys, y.a, c + y.b.value))
    else Done(MayConflict)
  }

  /** Two products. */
  function ProductStep(q: Question, env: Env): Step
    requires q.x.Mult? && q.y.Mult?
  {
    var x1, y1 := Canon(q.x.b, env), Canon(q.y.b, env);
    if !EqualForMemref(x1, y1, env) then Done(MayConflict)
    else
      var x0, y0 := Canon(q.x.a, env), Canon(q.y.a, env);
      if EqualForMemref(x0, y0, env) then Verdict(q.xsize == 0 || q.ysize == 0 || Overlap(q.xsize, q.ysize, q.c))
      else if !x1.ConstInt? then Done(MayConflict)
      else if x1.value == 0 then Done(DivideByZero)
      else Ask(Question(Quotient(q.xsize, x1.value), x0, Quotient(q.ysize, x1.value), y0, Quotient(q.c, x1.value)))
  }

  /** A constant x. */
  function ConstantStep(q: Question, env: Env): Step
    requires q.x.Constant()
  {
    var Question(xs, x, ys, y, c) := q;
    if x.ConstInt? && y.ConstInt? then
      Verdict(xs <= 0 || ys <= 0 || Overlap(xs, ys, c + (y.value - x.value)))
    else if x.Const? then
      Ask(Question(xs, Canon(x.x, env), ys, if y.Const? then Canon(y.x, env) else y, c))
    else if y.Const? then Ask(Question(xs, x, ys, Canon(y.x, env), c))
    else if y.Constant() then Verdict(xs <= 0 || ys <= 0 || (EqualForMemref(x, y, env) && Overlap(xs, ys, c)))
    else Done(MayConflict)
  }

  /** One level of `memrefs_conflict_p`. */
  function Level(q0: Question, env: Env): Step {
    var q := Canonical(q0, env);
    var Question(xs, x, ys, y, c) := q;
    if EqualForMemref(x, y, env) then Verdict(xs <= 0 || ys <= 0 || Overlap(xs, ys, c))
    else if x.Plus? && y.Plus? then SumStep(q, env)
    else if x.Plus? && x.b.ConstInt? then Ask(Question(xs, x.a, ys, y, c - x.b.value))
    else if !x.Plus? && y.Plus? then
      if y.b.ConstInt? then Ask(Question(xs, x, ys, y.a, c + y.b.value)) else Done(MayConflict)
    else if x.Mult? && y.Mult? then ProductStep(q, env)
    else if x.Constant() then ConstantStep(q, env)
    else Done(MayConflict)
  }

  function Canonical(q: Question, env: Env): Question {
    q.(x := Canon(q.x, env), y := Canon(q.y, env))
  }

  lemma CanonSize(x: Rtx, env: Env)
    ensures Weight(Canon(x, env), env) < Weight(x, env) ||
            (Weight(Canon(x, env), env) == Weight(x, env) && Canon(x, env).Size() == x.Size())
  {
    CanonWeight(x, env);
  }

  function Heavy(q: Question, env: Env): nat {
    Weight(q.x, env) + Weight(q.y, env)
  }

  /** n is lighter than q, or as light with a wrapper off. */
  predicate Lighter(n: Question, q: Question, env: Env) {
    Heavy(n, env) < Heavy(q, env) ||
    (Heavy(n, env) == Heavy(q, env) && n.x.Size() + n.y.Size() < q.x.Size() + q.y.Size())
  }

  lemma ProductDecreases(q: Question, env: Env)
    requires q.x.Mult? && q.y.Mult? && ProductStep(q, env).Ask?
    ensures Lighter(ProductStep(q, env).next, q, env)
  {
    CanonSize(q.x.a, env);
    CanonSize(q.y.a, env);
  }

  lemma ConstantDecreases(q: Question, env: Env)
    requires q.x.Constant() && ConstantStep(q, env).Ask?
    ensures Lighter(ConstantStep(q, env).next, q, env)
  {
    if q.x.Const? { CanonSize(q.x.x, env); }
    if q.y.Const? { CanonSize(q.y.x, env); }
  }

  lemma CanonicalLighter(n: Question, q: Question, env: Env)
    requires Lighter(n, Canonical(q, env), env)
    ensures Lighter(n, q, env)
  {
    CanonSize(q.x, env);
    CanonSize(q.y, env);
  }

  /** Each step is to a lighter question. */
  lemma LevelDecreases(q: Question, env: Env)
    requires Level(q, env).Ask?
    ensures Lighter(Level(q, env).next, q, env)
  {
    var k := Canonical(q, env);
    if !EqualForMemref(k.x, k.y, env) && k.x.Mult? && k.y.Mult? { ProductDecreases(k, env); }
    if !EqualForMemref(k.x, k.y, env) && k.x.Constant() && !k.y.Plus? { ConstantDecreases(k, env); }
    CanonicalLighter(Level(q, env).next, q, env);
  }

  /** `memrefs_conflict_p` */
  function MemrefsConflict(q: Question, env: Env): Answer
    decreases Weight(q.x, env) + Weight(q.y, env), q.x.Size() + q.y.Size()
  {
    match Level(q, env)
    case Done(answer) => answer
    case Ask(next) => LevelDecreases(q, env); MemrefsConflict(next, env)
  }

  /** The two references cannot overlap: they are in different objects, or one ends before the other
      begins. */
  ghost predicate Apart(q: Question, regs: nat -> Place)
    requires Eval(q.x, regs).Some? && Eval(q.y, regs).Some?
  {
    var p, r := Eval(q.x, regs).value, Eval(q.y, regs).value;
    p.base != r.base || p.offset + q.xsize <= r.offset + q.c || r.offset + q.c + q.ysize <= p.offset
  }

  ghost predicate Addresses(q: Question, regs: nat -> Place) {
    Eval(q.x, regs).Some? && Eval(q.y, regs).Some?
  }

  /** Dividing the sizes and the displacement by a scale s is harmless: a size becomes zero or
      negative, which forces the answer 1, or the scale is positive and divides all three. */
  predicate Divides(s: int, xsize: int, ysize: int, c: int)
    requires s != 0
  {
    Quotient(xsize, s) <= 0 || Quotient(ysize, s) <= 0 || (s > 0 && xsize % s == 0 && ysize % s == 0 && c % s == 0)
  }

  /** The step divides. */
  predicate Scales(q0: Question, env: Env) {
    var q := Canonical(q0, env);
    !EqualForMemref(q.x, q.y, env) && q.x.Mult? && q.y.Mult? && ProductStep(q, env).Ask?
  }

  /** Every division on the way is harmless. */
  predicate SafeScales(q: Question, env: Env)
    decreases Weight(q.x, env) + Weight(q.y, env), q.x.Size() + q.y.Size()
  {
    (Scales(q, env) ==> Divides(Canon(Canon(q.x, env).b, env).value, q.xsize, q.ysize, q.c))
    && match Level(q, env) {
         case Done(_) => true
         case Ask(next) => LevelDecreases(q, env); SafeScales(next, env)
       }
  }

  /** What the answer 0 promises. */
  ghost predicate Promise(q: Question, regs: nat -> Place)
    requires Addresses(q, regs)
  {
    q.xsize > 0 && q.ysize > 0 && Apart(q, regs)
  }

  /** What one step must keep: an answer keeps the promise, and a further question asks no less. */
  ghost predicate Sound(q: Question, step: Step, regs: nat -> Place)
    requires Addresses(q, regs)
  {
    match step
    case Done(answer) => answer.Disjoint? ==> Promise(q, regs)
    case Ask(next) => Addresses(next, regs) && (Promise(next, regs) ==> Promise(q, regs))
  }

  lemma SumStepSound(q: Question, env: Env, regs: nat -> Place)
    requires Consistent(regs, env) && Addresses(q, regs) && q.x.Plus? && q.y.Plus?
    ensures Sound(q, SumStep(q, env), regs)
  {
    if EqualForMemref(q.x.b, q.y.b, env) {
      EqualForMemrefValue(q.x.b, q.y.b, env, regs);
    } else if EqualForMemref(q.x.a, q.y.a, env) {
      EqualForMemrefValue(q.x.a, q.y.a, env, regs);
    }
  }

  lemma EqualCanonical(x: Rtx, y: Rtx, env: Env)
    ensures EqualForMemref(Canon(x, env), Canon(y, env), env) == EqualForMemref(x, y, env)
  {
    CanonIdempotent(x, env);
    CanonIdempotent(y, env);
    EqualSame(x, Canon(x, env), y, Canon(y, env), env);
  }

  lemma EqualSame(x: Rtx, x': Rtx, y: Rtx, y': Rtx, env: Env)
    requires Canon(x, env) == Canon(x', env) && Canon(y, env) == Canon(y', env)
    ensures EqualForMemref(x, y, env) == EqualForMemref(x', y', env)
  {
  }

  lemma MulSign(k: int, s: int)
    requires s > 0 && k * s < 0
    ensures k < 0
  {
  }

  lemma QuotientExact(a: int, s: int)
    requires s > 0 && a % s == 0
    ensures Quotient(a, s) * s == a
  {
    var k := a / s;
    assert a == k * s;
    if a < 0 {
      MulSign(k, s);
      DivUnique(-a, s, -k, 0);
    }
  }

  lemma QuotientSign(a: int, s: int)
    requires s != 0 && Quotient(a, s) > 0
    ensures s > 0 ==> a > 0
  {
  }

  /** Ranges apart stay apart when places, sizes and displacement are multiplied by the scale. */
  lemma ScaledApart(a: int, b: int, s: int, xs: int, ys: int, c: int)
    requires s > 0
    requires a + xs <= b + c || b + c + ys <= a
    ensures a * s + xs * s <= b * s + c * s || b * s + c * s + ys * s <= a * s
  {
  }

  lemma ProductStepSound(q: Question, env: Env, regs: nat -> Place)
    requires Consistent(regs, env) && Addresses(q, regs) && q.x.Mult? && q.y.Mult?
    requires !EqualForMemref(q.x, q.y, env)
    requires ProductStep(q, env).Ask? ==> Divides(Canon(q.x.b, env).value, q.xsize, q.ysize, q.c)
    ensures Sound(q, ProductStep(q, env), regs)
  {
    var step := ProductStep(q, env);
    EqualCanonical(q.x.a, q.y.a, env);
    EqualCanonical(q.x.b, q.y.b, env);
    CanonValue(q.x.a, env, regs);
    CanonValue(q.y.a, env, regs);
    CanonValue(q.x.b, env, regs);
    CanonValue(q.y.b, env, regs);
    assert Canon(q.x, env) == q.x && Canon(q.y, env) == q.y;
    if step.Ask? {
      EqualForMemrefValue(Canon(q.x.b, env), Canon(q.y.b, env), env, regs);
      var n := step.next;
      var s := Canon(q.x.b, env).value;
      if Promise(n, regs) {
        QuotientExact(q.xsize, s);
        QuotientExact(q.ysize, s);
        QuotientExact(q.c, s);
        QuotientSign(q.xsize, s);
        QuotientSign(q.ysize, s);
        ScaledApart(Eval(n.x, regs).value.offset, Eval(n.y, regs).value.offset, s, n.xsize, n.ysize, n.c);
      }
    }
  }

  lemma ConstantStepSound(q: Question, env: Env, regs: nat -> Place)
    requires Consistent(regs, env) && Addresses(q, regs) && q.x.Constant()
    requires !EqualForMemref(q.x, q.y, env)
    ensures Sound(q, ConstantStep(q, env), regs)
  {
    if q.x.Const? { CanonValue(q.x.x, env, regs); }
    if q.y.Const? { CanonValue(q.y.x, env, regs); }
    assert q.x != q.y;
  }

  lemma LevelSound(q0: Question, env: Env, regs: nat -> Place)
    requires Consistent(regs, env) && Addresses(q0, regs)
    requires Scales(q0, env) ==> Divides(Canon(Canon(q0.x, env).b, env).value, q0.xsize, q0.ysize, q0.c)
    ensures Sound(q0, Level(q0, env), regs)
  {
    CanonValue(q0.x, env, regs);
    CanonValue(q0.y, env, regs);
    var q := Canonical(q0, env);
    assert Addresses(q, regs) && Promise(q, regs) == Promise(q0, regs);
    if EqualForMemref(q.x, q.y, env) {
      EqualForMemrefValue(q.x, q.y, env, regs);
    } else if q.x.Plus? && q.y.Plus? {
      SumStepSound(q, env, regs);
    } else if q.x.Mult? && q.y.Mult? {
      ProductStepSound(q, env, regs);
    } else if q.x.Constant() && !q.y.Plus? {
      ConstantStepSound(q, env, regs);
    }
  }

  /** The answer 0 means that the references cannot overlap, whatever the registers hold; it is never
      given for a reference of unknown size. */
  lemma {:induction false} DisjointIsApart(q: Question, env: Env, regs: nat -> Place)
    requires Consistent(regs, env) && Addresses(q, regs) && SafeScales(q, env)
    requires MemrefsConflict(q, env) == Disjoint
    ensures q.xsize > 0 && q.ysize > 0 && Apart(q, regs)
    decreases Weight(q.x, env) + Weight(q.y, env), q.x.Size() + q.y.Size()
  {
    LevelSound(q, env, regs);
    if Level(q, env).Ask? {
      LevelDecreases(q, env);
      DisjointIsApart(Level(q, env).next, env, regs);
    }
  }

  lemma BasePlusFixed(r: nat, i: int, env: Env)
    requires !env.Known(r)
    ensures Fixed(Reg(r), env) && Fixed(Plus(Reg(r), ConstInt(i)), env)
  {
  }

  /** The additions in a sum. */
  function Additions(x: Rtx): nat {
    if x.Plus? then 1 + Additions(x.a) + Additions(x.b) else 0
  }

  lemma {:induction false} EqualAdditions(x: Rtx, y: Rtx, env: Env)
    requires Fixed(x, env) && Fixed(y, env) && EqualForMemref(x, y, env)
    ensures Additions(x) == Additions(y)
  {
    if x.Plus? && y.Plus? && x != y {
      FixedParts(x.a, x.b, env);
      FixedParts(y.a, y.b, env);
      if EqualForMemref(x.a, y.a, env) && EqualForMemref(x.b, y.b, env) {
        EqualAdditions(x.a, y.a, env);
        EqualAdditions(x.b, y.b, env);
      } else {
        EqualAdditions(x.a, y.b, env);
        EqualAdditions(x.b, y.a, env);
      }
    }
  }

  /** A sum is not found equal to one of its operands, nor a number to anything but itself. */
  lemma PartUnequal(a: Rtx, b: Rtx, env: Env)
    requires Fixed(Plus(a, b), env)
    ensures !EqualForMemref(Plus(a, b), a, env) && !EqualForMemref(a, Plus(a, b), env)
  {
    FixedParts(a, b, env);
    if EqualForMemref(Plus(a, b), a, env) { EqualAdditions(Plus(a, b), a, env); }
    if EqualForMemref(a, Plus(a, b), env) { EqualAdditions(a, Plus(a, b), env); }
  }

  lemma NumberEqual(i: int, x: Rtx, env: Env)
    requires Fixed(x, env)
    ensures EqualForMemref(ConstInt(i), x, env) <==> x == ConstInt(i)
    ensures EqualForMemref(x, ConstInt(i), env) <==> x == ConstInt(i)
  {
  }

  /** The answer when the second reference is c bytes after the first. */
  function At(xsize: int, ysize: int, c: int): Answer {
    if Overlap(xsize, ysize, c) then MayConflict else Disjoint
  }

  lemma SameAddress(a: Rtx, xsize: int, ysize: int, c: int, env: Env)
    requires Fixed(a, env) && xsize > 0 && ysize > 0
    ensures MemrefsConflict(Question(xsize, a, ysize, a, c), env) == At(xsize, ysize, c)
  {
    var q := Question(xsize, a, ysize, a, c);
    assert Canonical(q, env) == q;
  }

  lemma {:induction false} FirstDisplaced(a: Rtx, i: int, xsize: int, ysize: int, c: int, env: Env)
    requires Fixed(a, env) && xsize > 0 && ysize > 0
    ensures MemrefsConflict(Question(xsize, Plus(a, ConstInt(i)), ysize, a, c), env) == At(xsize, ysize, c - i)
    decreases a
  {
    var q := Question(xsize, Plus(a, ConstInt(i)), ysize, a, c);
    FixedParts(a, ConstInt(i), env);
    assert Canonical(q, env) == q;
    PartUnequal(a, ConstInt(i), env);
    SameAddress(a, xsize, ysize, c - i, env);
    if a.Plus? {
      FixedParts(a.a, a.b, env);
      NumberEqual(i, a.b, env);
      PartUnequal(a.a, a.b, env);
      if a.b == ConstInt(i) {
        assert Level(q, env) == Ask(Question(xsize, a, ysize, a.a, c));
        FirstDisplaced(a.a, i, xsize, ysize, c, env);
      } else if a.b.ConstInt? {
        assert Level(q, env) == Ask(Question(xsize, a, ysize, a.a, c - i + a.b.value));
        FirstDisplaced(a.a, a.b.value, xsize, ysize, c - i + a.b.value, env);
      } else {
        assert Level(q, env) == Ask(Question(xsize, a, ysize, a, c - i));
      }
    }
  }

  lemma {:induction false} SecondDisplaced(a: Rtx, j: int, xsize: int, ysize: int, c: int, env: Env)
    requires Fixed(a, env) && xsize > 0 && ysize > 0
    ensures MemrefsConflict(Question(xsize, a, ysize, Plus(a, ConstInt(j)), c), env) == At(xsize, ysize, c + j)
    decreases a
  {
    var q := Question(xsize, a, ysize, Plus(a, ConstInt(j)), c);
    FixedParts(a, ConstInt(j), env);
    assert Canonical(q, env) == q;
    PartUnequal(a, ConstInt(j), env);
    SameAddress(a, xsize, ysize, c + j, env);
    if a.Plus? {
      FixedParts(a.a, a.b, env);
      NumberEqual(j, a.b, env);
      PartUnequal(a.a, a.b, env);
      if a.b == ConstInt(j) {
        assert Level(q, env) == Ask(Question(xsize, a.a, ysize, a, c));
        SecondDisplaced(a.a, j, xsize, ysize, c, env);
      } else if a.b.ConstInt? {
        assert Level(q, env) == Ask(Question(xsize, a.a, ysize, a, c - a.b.value + j));
        SecondDisplaced(a.a, a.b.value, xsize, ysize, c - a.b.value + j, env);
      } else {
        assert Level(q, env) == Ask(Question(xsize, a, ysize, a, c + j));
      }
    }
  }

  lemma BothDisplaced(a: Rtx, i: int, j: int, xsize: int, ysize: int, c: int, env: Env)
    requires Fixed(a, env) && xsize > 0 && ysize > 0
    ensures MemrefsConflict(Question(xsize, Plus(a, ConstInt(i)), ysize, Plus(a, ConstInt(j)), c), env)
            == At(xsize, ysize, c - i + j)
  {
    var q := Question(xsize, Plus(a, ConstInt(i)), ysize, Plus(a, ConstInt(j)), c);
    FixedParts(a, ConstInt(i), env);
    FixedParts(a, ConstInt(j), env);
    assert Canonical(q, env) == q;
    if i == j {
      SameAddress(q.x, xsize, ysize, c, env);
    } else {
      NumberEqual(i, a, env);
      NumberEqual(j, a, env);
      NumberEqual(i, ConstInt(j), env);
      assert !EqualForMemref(q.x, q.y, env);
      var n := Question(xsize, ConstInt(i), ysize, ConstInt(j), c);
      assert Level(q, env) == Ask(n) && Canonical(n, env) == n;
      assert Level(n, env) == Verdict(Overlap(xsize, ysize, c + (j - i)));
    }
  }

  /** An address with a displacement, or without. */
  function Displaced(a: Rtx, i: Option<int>): Rtx {
    if i.Some? then Plus(a, ConstInt(i.value)) else a
  }

  lemma DisplacedValue(a: Rtx, i: Option<int>, regs: nat -> Place)
    requires Eval(a, regs).Some?
    ensures var p := Eval(a, regs).value;
            Eval(Displaced(a, i), regs) == Some(Place(p.base, p.offset + if i.Some? then i.value else 0))
  {
  }

  lemma DisplacedFixed(a: Rtx, i: Option<int>, env: Env)
    requires Fixed(a, env)
    ensures Fixed(Displaced(a, i), env)
  {
    if i.Some? { FixedParts(a, ConstInt(i.value), env); }
  }

  /** Two references to any one canonical address, each with a displacement or without, get the exact
      answer. */
  lemma DisplacedExact(a: Rtx, i: Option<int>, j: Option<int>, xsize: int, ysize: int, c: int, env: Env,
      regs: nat -> Place)
    requires Canon(a, env) == a && Eval(a, regs).Some? && xsize > 0 && ysize > 0
    ensures var q := Question(xsize, Displaced(a, i), ysize, Displaced(a, j), c);
            && Addresses(q, regs)
            && MemrefsConflict(q, env) == if Apart(q, regs) then Disjoint else MayConflict
  {
    DisplacedValue(a, i, regs);
    DisplacedValue(a, j, regs);
    if i.Some? && j.Some? {
      BothDisplaced(a, i.value, j.value, xsize, ysize, c, env);
    } else if i.Some? {
      FirstDisplaced(a, i.value, xsize, ysize, c, env);
    } else if j.Some? {
      SecondDisplaced(a, j.value, xsize, ysize, c, env);
    } else {
      SameAddress(a, xsize, ysize, c, env);
    }
  }

  /** In particular two references off one base register. */
  lemma SameBaseExact(r: nat, i: int, j: int, xsize: int, ysize: int, c: int, env: Env, regs: nat -> Place)
    requires !env.Known(r) && xsize > 0 && ysize > 0
    ensures var q := Question(xsize, Plus(Reg(r), ConstInt(i)), ysize, Plus(Reg(r), ConstInt(j)), c);
            && Addresses(q, regs)
            && MemrefsConflict(q, env) == if Apart(q, regs) then Disjoint else MayConflict
  {
    DisplacedExact(Reg(r), Some(i), Some(j), xsize, ysize, c, env, regs);
  }

  /** A register known to be b + i, plus k: the two displacements are merged. */
  lemma CanonMerges(r: nat, b: nat, i: int, k: int, env: Env)
    requires env.Known(r) && env.value[r] == Plus(Reg(b), ConstInt(i)) && !env.Known(b)
    ensures Canon(Plus(Reg(r), ConstInt(k)), env) ==
            Displaced(Reg(b), if k == 0 then Some(i) else if i + k == 0 then None else Some(i + k))
  {
    BasePlusFixed(b, i, env);
    assert Canon(Reg(r), env) == Plus(Reg(b), ConstInt(i));
    assert Restart(Plus(Reg(b), ConstInt(i)), k, false) == Restart(Reg(b), k + i, false);
    assert Restart(Reg(b), k + i, false) == Finished(Reg(b), k + i, false);
  }

  /** Two registers known to be at distances from one base get the exact answer too. */
  lemma KnownBasesExact(r: nat, s: nat, b: nat, i: int, j: int, k: int, l: int, xsize: int, ysize: int, c: int,
      env: Env, regs: nat -> Place)
    requires env.Known(r) && env.value[r] == Plus(Reg(b), ConstInt(i))
    requires env.Known(s) && env.value[s] == Plus(Reg(b), ConstInt(j))
    requires !env.Known(b) && Consistent(regs, env) && xsize > 0 && ysize > 0
    ensures var q := Question(xsize, Plus(Reg(r), ConstInt(k)), ysize, Plus(Reg(s), ConstInt(l)), c);
            && Addresses(q, regs)
            && MemrefsConflict(q, env) == if Apart(q, regs) then Disjoint else MayConflict
  {
    var q := Question(xsize, Plus(Reg(r), ConstInt(k)), ysize, Plus(Reg(s), ConstInt(l)), c);
    var i' := if k == 0 then Some(i) else if i + k == 0 then None else Some(i + k);
    var j' := if l == 0 then Some(j) else if j + l == 0 then None else Some(j + l);
    CanonMerges(r, b, i, k, env);
    CanonMerges(s, b, j, l, env);
    CanonValue(q.x, env, regs);
    CanonValue(q.y, env, regs);
    CanonIdempotent(q.x, env);
    CanonIdempotent(q.y, env);
    assert Level(Canonical(q, env), env) == Level(q, env);
    DisplacedExact(Reg(b), i', j', xsize, ysize, c, env, regs);
  }

  /** A term that two sums share does not matter, be it the second in both or the first. */
  lemma SharedTerm(a: Rtx, b: Rtx, d: Rtx, xsize: int, ysize: int, c: int, env: Env)
    requires Fixed(a, env) && Fixed(b, env) && Fixed(d, env)
    ensures !(EqualForMemref(a, b, env) && EqualForMemref(b, d, env)) ==>
              MemrefsConflict(Question(xsize, Plus(a, b), ysize, Plus(d, b), c), env)
              == MemrefsConflict(Question(xsize, a, ysize, d, c), env)
    ensures !(EqualForMemref(a, d, env) && EqualForMemref(b, a, env)) ==>
              MemrefsConflict(Question(xsize, Plus(a, b), ysize, Plus(a, d), c), env)
              == MemrefsConflict(Question(xsize, b, ysize, d, c), env)
  {
    FixedParts(a, b, env);
    FixedParts(d, b, env);
    FixedParts(a, d, env);
    var q, n := Question(xsize, Plus(a, b), ysize, Plus(d, b), c), Question(xsize, a, ysize, d, c);
    assert Canonical(q, env) == q && Canonical(n, env) == n;
    var q', n' := Question(xsize, Plus(a, b), ysize, Plus(a, d), c), Question(xsize, b, ysize, d, c);
    assert Canonical(q', env) == q' && Canonical(n', env) == n';
    var o := Question(xsize, a, ysize, a, c);
    assert Canonical(o, env) == o;
  }

  /** A symbol with a displacement, as `plus_constant` makes it. */
  function SymbolPlus(s: string, i: int): Rtx {
    PlusConstant(SymbolRef(s), i)
  }

  lemma SymbolSum(s: string, i: int)
    ensures SymbolPlus(s, i) == if i == 0 then SymbolRef(s) else Const(Plus(SymbolRef(s), ConstInt(i)))
  {
    assert Restart(SymbolRef(s), i, false) == Finished(SymbolRef(s), i, true);
  }

  /** Two symbols, each in a sum with a number or without. */
  lemma SymbolsApart(s: string, t: string, i: Option<int>, j: Option<int>, xsize: int, ysize: int, c: int, env: Env)
    requires s != t && xsize > 0 && ysize > 0
    ensures MemrefsConflict(Question(xsize, Displaced(SymbolRef(s), i), ysize, Displaced(SymbolRef(t), j), c), env)
            == Disjoint
  {
    var x, y := SymbolRef(s), SymbolRef(t);
    assert !EqualForMemref(x, y, env);
    forall d ensures Level(Question(xsize, x, ysize, y, d), env) == Done(Disjoint) {
      assert Canonical(Question(xsize, x, ysize, y, d), env) == Question(xsize, x, ysize, y, d);
    }
    var q := Question(xsize, Displaced(x, i), ysize, Displaced(y, j), c);
    DisplacedFixed(x, i, env);
    DisplacedFixed(y, j, env);
    assert Canonical(q, env) == q;
    if i.Some? && j.Some? {
      NumberEqual(i.value, ConstInt(j.value), env);
      NumberEqual(j.value, x, env);
      assert !EqualForMemref(q.x, q.y, env);
      var d := if i.value == j.value then c else c - i.value + j.value;
      assert Level(q, env) == Ask(Question(xsize, x, ysize, y, d));
    }
  }

  /** Different symbols never conflict, and one symbol gets the exact answer, whatever the displacements. */
  lemma SymbolsExact(s: string, t: string, i: int, j: int, xsize: int, ysize: int, c: int, env: Env,
      regs: nat -> Place)
    requires xsize > 0 && ysize > 0
    ensures var q := Question(xsize, SymbolPlus(s, i), ysize, SymbolPlus(t, j), c);
            && Addresses(q, regs)
            && MemrefsConflict(q, env) == if Apart(q, regs) then Disjoint else MayConflict
  {
    SymbolSum(s, i);
    SymbolSum(t, j);
    PlusConstantValue(SymbolRef(s), i, regs);
    PlusConstantValue(SymbolRef(t), j, regs);
    var q := Question(xsize, SymbolPlus(s, i), ysize, SymbolPlus(t, j), c);
    var i', j' := if i == 0 then None else Some(i), if j == 0 then None else Some(j);
    if s == t { DisplacedExact(SymbolRef(s), i', j', xsize, ysize, c, env, regs); }
    if s != t { SymbolsApart(s, t, i', j', xsize, ysize, c, env); }
    SymbolsUnwrapped(s, t, i, j, xsize, ysize, c, env);
  }

  /** The wrapper of a constant sum is taken off. */
  lemma SymbolsUnwrapped(s: string, t: string, i: int, j: int, xsize: int, ysize: int, c: int, env: Env)
    requires xsize > 0 && ysize > 0
    ensures var i', j' := if i == 0 then None else Some(i), if j == 0 then None else Some(j);
            MemrefsConflict(Question(xsize, SymbolPlus(s, i), ysize, SymbolPlus(t, j), c), env)
            == MemrefsConflict(Question(xsize, Displaced(SymbolRef(s), i'), ysize, Displaced(SymbolRef(t), j'), c), env)
  {
    SymbolSum(s, i);
    SymbolSum(t, j);
    var q := Question(xsize, SymbolPlus(s, i), ysize, SymbolPlus(t, j), c);
    var x := if i == 0 then SymbolRef(s) else Plus(SymbolRef(s), ConstInt(i));
    var y := if j == 0 then SymbolRef(t) else Plus(SymbolRef(t), ConstInt(j));
    var n := Question(xsize, x, ysize, y, c);
    FixedParts(SymbolRef(s), ConstInt(i), env);
    FixedParts(SymbolRef(t), ConstInt(j), env);
    assert Canonical(q, env) == q && Canonical(n, env) == n;
    if (i == 0) == (j == 0) {
      assert EqualForMemref(q.x, q.y, env) <==> EqualForMemref(x, y, env);
    }
    assert i != 0 || j != 0 ==> Level(q, env) == Ask(n) || EqualForMemref(q.x, q.y, env);
  }

  /** The scale condition is needed: 4*(r + 1) and 4*r + 2, four bytes each, are called disjoint. */
  lemma MisalignedScale(regs: nat -> Place)
    requires regs(1).base.Absolute?
    ensures var q := Question(4, Mult(Plus(Reg(1), ConstInt(1)), ConstInt(4)),
                              4, Plus(Mult(Reg(1), ConstInt(4)), ConstInt(2)), 0);
            && MemrefsConflict(q, Table(map[], map[])) == Disjoint
            && Addresses(q, regs) && !Apart(q, regs)
            && !SafeScales(q, Table(map[], map[]))
  {
  }

  /** xsize bytes at s*r against ysize bytes at s*(r + k) + c. */
  function Scaled(r: nat, k: int, s: int, xsize: int, ysize: int, c: int): Question {
    Question(xsize, Mult(Reg(r), ConstInt(s)), ysize, Mult(Plus(Reg(r), ConstInt(k)), ConstInt(s)), c)
  }

  lemma ScaledSteps(r: nat, k: int, s: int, xsize: int, ysize: int, c: int, env: Env)
    requires !env.Known(r) && s > 0
    ensures var q := Scaled(r, k, s, xsize, ysize, c);
            && Scales(q, env) && Canon(Canon(q.x, env).b, env) == ConstInt(s)
            && Level(q, env) == Ask(Question(Quotient(xsize, s), Reg(r),
                                             Quotient(ysize, s), Plus(Reg(r), ConstInt(k)), Quotient(c, s)))
  {
    BasePlusFixed(r, k, env);
    var q := Scaled(r, k, s, xsize, ysize, c);
    assert Canonical(q, env) == q;
    assert !EqualForMemref(Reg(r), Plus(Reg(r), ConstInt(k)), env);
    assert !EqualForMemref(Reg(r), ConstInt(s), env);
    assert !EqualForMemref(q.x, q.y, env);
  }

  lemma BaseSteps(r: nat, k: int, xsize: int, ysize: int, c: int, env: Env)
    requires !env.Known(r)
    ensures var q := Question(xsize, Reg(r), ysize, Plus(Reg(r), ConstInt(k)), c);
            && MemrefsConflict(q, env) == (if xsize <= 0 || ysize <= 0 || Overlap(xsize, ysize, c + k) then
                MayConflict else Disjoint)
            && SafeScales(q, env)
  {
    BasePlusFixed(r, k, env);
    var q := Question(xsize, Reg(r), ysize, Plus(Reg(r), ConstInt(k)), c);
    var n := Question(xsize, Reg(r), ysize, Reg(r), c + k);
    assert Canonical(q, env) == q && Canonical(n, env) == n;
    assert !EqualForMemref(Reg(r), Plus(Reg(r), ConstInt(k)), env);
    assert Level(q, env) == Ask(n) && Level(n, env).Done?;
    assert SafeScales(n, env);
  }

  lemma ScaledAnswer(r: nat, k: int, s: int, xsize: int, ysize: int, c: int, env: Env)
    requires !env.Known(r) && s > 0
    ensures var xq, yq, cq := Quotient(xsize, s), Quotient(ysize, s), Quotient(c, s);
            MemrefsConflict(Scaled(r, k, s, xsize, ysize, c), env)
            == if xq <= 0 || yq <= 0 || Overlap(xq, yq, cq + k) then MayConflict else Disjoint
    ensures SafeScales(Scaled(r, k, s, xsize, ysize, c), env) <==> Divides(s, xsize, ysize, c)
  {
    ScaledSteps(r, k, s, xsize, ysize, c, env);
    BaseSteps(r, k, Quotient(xsize, s), Quotient(ysize, s), Quotient(c, s), env);
  }

  /** The displacement between the bases at which an inexact division gives a wrong answer: the two
      scaled ranges just touch. */
  function WrongAt(s: int, xsize: int, ysize: int, c: int): int
    requires s > 0
  {
    if xsize % s > c - Quotient(c, s) * s then Quotient(xsize, s) - Quotient(c, s)
    else -Quotient(ysize, s) - Quotient(c, s)
  }

  lemma TruncatedRemainder(c: int, s: int)
    requires s > 0
    ensures -s < c - Quotient(c, s) * s < s
    ensures c % s == 0 <==> c == Quotient(c, s) * s
  {
    if c % s == 0 { QuotientExact(c, s); }
    if c == Quotient(c, s) * s { assert c % s == 0 by { RemainderZero(c, s); } }
  }

  lemma RemainderZero(c: int, s: int)
    requires s > 0 && c == Quotient(c, s) * s
    ensures c % s == 0
  {
    var k := Quotient(c, s);
    var d := c / s - k;
    assert c == (c / s) * s + c % s;
    assert d * s == -(c % s);
    if d > 0 { MulGe(d, s); }
    if d < 0 { MulGe(-d, s); }
  }

  lemma PositiveParts(a: int, s: int)
    requires s > 0 && Quotient(a, s) > 0
    ensures a == Quotient(a, s) * s + a % s
  {
  }

  /** The divided second range begins where the first ends, the real one before that. */
  lemma TouchAfter(s: int, xsize: int, ysize: int, c: int, xq: int, yq: int, cq: int)
    requires s > 0 && xq > 0 && yq > 0 && ysize >= yq * s && -s < c - cq * s < xsize - xq * s
    ensures !Overlap(xq, yq, cq + (xq - cq))
    ensures !(xsize <= (xq - cq) * s + c) && !((xq - cq) * s + c + ysize <= 0)
  {
    MulGe(xq, s);
    MulGe(yq, s);
    assert (xq - cq) * s == xq * s - cq * s;
  }

  /** The divided second range ends where the first begins, the real one after that. */
  lemma TouchBefore(s: int, xsize: int, ysize: int, c: int, xq: int, yq: int, cq: int)
    requires s > 0 && xq > 0 && yq > 0 && xsize >= xq * s && c - cq * s < s && (c - cq * s) + (ysize - yq * s) > 0
    ensures !Overlap(xq, yq, cq + (-yq - cq))
    ensures !(xsize <= (-yq - cq) * s + c) && !((-yq - cq) * s + c + ysize <= 0)
  {
    MulGe(xq, s);
    MulGe(yq, s);
    assert (-yq - cq) * s == -(yq * s) - cq * s;
  }

  /** At WrongAt the answer is Disjoint, and the ranges overlap. */
  lemma WrongThere(s: int, xsize: int, ysize: int, c: int)
    requires s > 0 && !Divides(s, xsize, ysize, c)
    ensures var k := WrongAt(s, xsize, ysize, c);
            && !Overlap(Quotient(xsize, s), Quotient(ysize, s), Quotient(c, s) + k)
            && !(xsize <= k * s + c) && !(k * s + c + ysize <= 0)
  {
    var xq, yq, cq := Quotient(xsize, s), Quotient(ysize, s), Quotient(c, s);
    TruncatedRemainder(c, s);
    PositiveParts(xsize, s);
    PositiveParts(ysize, s);
    if xsize % s > c - cq * s {
      TouchAfter(s, xsize, ysize, c, xq, yq, cq);
    } else {
      TouchBefore(s, xsize, ysize, c, xq, yq, cq);
    }
  }

  lemma ScaledPlaces(r: nat, k: int, s: int, xsize: int, ysize: int, c: int, regs: nat -> Place)
    requires regs(r).base.Absolute?
    ensures var q := Scaled(r, k, s, xsize, ysize, c);
            && Addresses(q, regs)
            && (Apart(q, regs) <==> xsize <= k * s + c || k * s + c + ysize <= 0)
  {
    var q := Scaled(r, k, s, xsize, ysize, c);
    var v := regs(r).offset;
    assert Eval(q.x, regs) == Some(Place(Absolute, v * s));
    assert Eval(Plus(Reg(r), ConstInt(k)), regs) == Some(Place(Absolute, v + k));
    assert Eval(q.y, regs) == Some(Place(Absolute, (v + k) * s));
    assert (v + k) * s == v * s + k * s;
  }

  /** For references s*r and s*(r + k) + c the answers are right for every k exactly when the division
      is harmless. */
  lemma ScaleConditionExact(r: nat, s: int, xsize: int, ysize: int, c: int, env: Env, regs: nat -> Place)
    requires Consistent(regs, env) && !env.Known(r) && regs(r).base.Absolute? && s > 0
    ensures Divides(s, xsize, ysize, c) <==>
            forall k :: var q := Scaled(r, k, s, xsize, ysize, c);
                        Addresses(q, regs) && (MemrefsConflict(q, env) == Disjoint ==> Apart(q, regs))
  {
    if Divides(s, xsize, ysize, c) {
      forall k ensures var q := Scaled(r, k, s, xsize, ysize, c);
                       Addresses(q, regs) && (MemrefsConflict(q, env) == Disjoint ==> Apart(q, regs))
      {
        var q := Scaled(r, k, s, xsize, ysize, c);
        ScaledAnswer(r, k, s, xsize, ysize, c, env);
        ScaledPlaces(r, k, s, xsize, ysize, c, regs);
        if MemrefsConflict(q, env) == Disjoint { DisjointIsApart(q, env, regs); }
      }
    } else {
      var k := WrongAt(s, xsize, ysize, c);
      var q := Scaled(r, k, s, xsize, ysize, c);
      WrongThere(s, xsize, ysize, c);
      ScaledAnswer(r, k, s, xsize, ysize, c, env);
      ScaledPlaces(r, k, s, xsize, ysize, c, regs);
      assert MemrefsConflict(q, env) == Disjoint && !Apart(q, regs);
    }
  }
}
