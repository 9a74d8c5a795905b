/** RTL address expressions, what they denote, and the two functions of alias.c that compare them:
    `canon_rtx` and `rtx_equal_for_memref_p`, with `plus_constant`. */
module Rtl {
  import opened Options

  datatype Rtx =
    | Reg(regno: nat)
    | ConstInt(value: int)
    | SymbolRef(name: string)
    | LabelRef(number: nat)
    | Const(x: Rtx)
    | Plus(a: Rtx, b: Rtx)
    | Mult(a: Rtx, b: Rtx)
  {
    /** `CONSTANT_P` */
    predicate Constant() {
      ConstInt? || SymbolRef? || LabelRef? || Const?
    }

    function Size(): nat {
      match this
      case Const(x) => 1 + x.Size()
      case Plus(a, b) => 1 + a.Size() + b.Size()
      case Mult(a, b) => 1 + a.Size() + b.Size()
      case _ => 1
    }
  }

  /** `reg_known_value`. The values were found one after the other, each in terms of registers found
      before it: `age` is that order. */
  datatype Table = Table(value: map<nat, Rtx>, age: map<nat, nat>) {
    /** A register whose value is another expression. */
    predicate Known(r: nat) {
      r in value && value[r] != Reg(r)
    }

    /** One more than the age of the last found register in x; 0 if all are unknown. */
    function Age(x: Rtx): nat {
      match x
      case Reg(r) => if Known(r) then 1 + (if r in age then age[r] else 0) else 0
      case Const(x) => Age(x)
      case Plus(a, b) => Max(Age(a), Age(b))
      case Mult(a, b) => Max(Age(a), Age(b))
      case _ => 0
    }

    predicate Acyclic() {
      forall r :: r in value ==> Known(r) ==> Age(value[r]) < Age(Reg(r))
    }
  }

  type Env = t: Table | t.Acyclic() witness Table(map[], map[])

  function Max(a: nat, b: nat): nat {
    if a < b then b else a
  }

  /** The number of operators and leaves of x with known registers replaced by their values; wrapping
      a constant does not count. */
  function Weight(x: Rtx, env: Env): (w: nat)
    ensures w > 0
    decreases env.Age(x), x
  {
    match x
    case Reg(r) => if env.Known(r) then 1 + Weight(env.value[r], env) else 1
    case Const(x) => Weight(x, env)
    case Plus(a, b) => 1 + Weight(a, env) + Weight(b, env)
    case Mult(a, b) => 1 + Weight(a, env) + Weight(b, env)
    case _ => 1
  }

  /** An address: a place in an object. Different objects do not overlap; numbers are places in an
      object of their own. */
  datatype Base = Absolute | Symbol(name: string) | Label(number: nat)

  datatype Place = Place(base: Base, offset: int)

  /** A sum is an address if at most one of the two is in an object. */
  function Add(p: Option<Place>, q: Option<Place>): Option<Place> {
    if p.None? || q.None? then None
    else if p.value.base.Absolute? then Some(Place(q.value.base, p.value.offset + q.value.offset))
    else if q.value.base.Absolute? then Some(Place(p.value.base, p.value.offset + q.value.offset))
    else None
  }

  function Times(p: Option<Place>, q: Option<Place>): Option<Place> {
    if p.None? || q.None? || !p.value.base.Absolute? || !q.value.base.Absolute? then None
    else Some(Place(Absolute, p.value.offset * q.value.offset))
  }

  function Shift(p: Option<Place>, c: int): Option<Place> {
    Add(p, Some(Place(Absolute, c)))
  }

  /** What x denotes when the registers hold what `regs` says. */
  function Eval(x: Rtx, regs: nat -> Place): Option<Place> {
    match x
    case Reg(r) => Some(regs(r))
    case ConstInt(i) => Some(Place(Absolute, i))
    case SymbolRef(s) => Some(Place(Symbol(s), 0))
    case LabelRef(l) => Some(Place(Label(l), 0))
    case Const(x) => Eval(x, regs)
    case Plus(a, b) => Add(Eval(a, regs), Eval(b, regs))
    case Mult(a, b) => Times(Eval(a, regs), Eval(b, regs))
  }

  /** A valuation that agrees with `reg_known_value`. */
  ghost predicate Consistent(regs: nat -> Place, env: Env) {
    forall r :: r in env.value ==> Eval(env.value[r], regs) == Some(regs(r))
  }

  /** Whether `find_constant_term_loc` finds a term. */
  predicate HasConstantTerm(x: Rtx) {
    x.Constant() || (x.Plus? && (HasConstantTerm(x.a) || HasConstantTerm(x.b)))
  }

  /** The end of `plus_constant`: add what is left of c, and wrap a constant sum. */
  function Finished(x: Rtx, c: int, allConstant: bool): Rtx {
    var sum := if c != 0 then Plus(x, ConstInt(c)) else x;
    if sum.SymbolRef? || sum.LabelRef? || !allConstant then sum else Const(sum)
  }

  /** `plus_constant` from `restart` on. */
  function Restart(x: Rtx, c: int, allConstant: bool): Rtx
    decreases x, 0
  {
    match x
    case ConstInt(i) => ConstInt(i + c)
    case Const(inner) => Restart(inner, c, true)
    case SymbolRef(_) => Finished(x, c, true)
    case LabelRef(_) => Finished(x, c, true)
    case Plus(a, b) =>
      if b.ConstInt? then Restart(a, c + b.value, allConstant)
      else if b.Constant() then Finished(Plus(a, PlusConstant(b, c)), 0, allConstant)
      else if HasConstantTerm(a) then Finished(Plus(PlusAtTerm(a, c), b), 0, allConstant)
      else if HasConstantTerm(b) then Finished(Plus(a, PlusAtTerm(b, c)), 0, allConstant)
      else Finished(x, c, allConstant)
    case _ => Finished(x, c, allConstant)
  }

  /** `plus_constant` */
  function PlusConstant(x: Rtx, c: int): Rtx
    decreases x, 1
  {
    if c == 0 then x else Restart(x, c, false)
  }

  /** x with c added to the term that `find_constant_term_loc` finds. */
  function PlusAtTerm(x: Rtx, c: int): Rtx
    requires HasConstantTerm(x)
    decreases x, 2
  {
    if x.Constant() || (x.a.Constant() && x.b.Constant()) then PlusConstant(x, c)
    else if HasConstantTerm(x.a) then Plus(PlusAtTerm(x.a, c), x.b)
    else Plus(x.a, PlusAtTerm(x.b, c))
  }

  lemma FinishedValue(x: Rtx, c: int, allConstant: bool, regs: nat -> Place)
    ensures Eval(Finished(x, c, allConstant), regs) == Shift(Eval(x, regs), c)
  {
    assert Eval(Plus(x, ConstInt(c)), regs) == Shift(Eval(x, regs), c);
  }

  lemma {:induction false} RestartValue(x: Rtx, c: int, allConstant: bool, regs: nat -> Place)
    ensures Eval(Restart(x, c, allConstant), regs) == Shift(Eval(x, regs), c)
    decreases x, 0
  {
    match x
    case Const(inner) => RestartValue(inner, c, true, regs);
    case Plus(a, b) =>
      if b.ConstInt? {
        RestartValue(a, c + b.value, allConstant, regs);
      } else if b.Constant() {
        PlusConstantValue(b, c, regs);
      } else if HasConstantTerm(a) {
        PlusAtTermValue(a, c, regs);
      } else if HasConstantTerm(b) {
        PlusAtTermValue(b, c, regs);
      } else {
        FinishedValue(x, c, allConstant, regs);
      }
    case ConstInt(_) =>
    case SymbolRef(_) => FinishedValue(x, c, true, regs);
    case LabelRef(_) => FinishedValue(x, c, true, regs);
    case _ => FinishedValue(x, c, allConstant, regs);
  }

  /** `plus_constant` adds the constant. */
  lemma {:induction false} PlusConstantValue(x: Rtx, c: int, regs: nat -> Place)
    ensures Eval(PlusConstant(x, c), regs) == Shift(Eval(x, regs), c)
    decreases x, 1
  {
    if c != 0 { RestartValue(x, c, false, regs); }
  }

  lemma {:induction false} PlusAtTermValue(x: Rtx, c: int, regs: nat -> Place)
    requires HasConstantTerm(x)
    ensures Eval(PlusAtTerm(x, c), regs) == Shift(Eval(x, regs), c)
    decreases x, 2
  {
    if x.Constant() || (x.a.Constant() && x.b.Constant()) {
      PlusConstantValue(x, c, regs);
    } else if HasConstantTerm(x.a) {
      PlusAtTermValue(x.a, c, regs);
    } else {
      PlusAtTermValue(x.b, c, regs);
    }
  }

  /** `canon_rtx` */
  function Canon(x: Rtx, env: Env): Rtx
    decreases env.Age(x), x
  {
    match x
    case Reg(r) => if env.Known(r) then Canon(env.value[r], env) else x
    case Plus(a, b) =>
      var x0, x1 := Canon(a, env), Canon(b, env);
      if x0 == a && x1 == b then x
      else if x0.ConstInt? then PlusConstant(x1, x0.value)
      else if x1.ConstInt? then PlusConstant(x0, x1.value)
      else Plus(x0, x1)
    case _ => x
  }

  /** Canonicalising keeps the address, and whether it is one. */
  lemma {:induction false} CanonValue(x: Rtx, env: Env, regs: nat -> Place)
    requires Consistent(regs, env)
    ensures Eval(Canon(x, env), regs) == Eval(x, regs)
    decreases env.Age(x), x
  {
    match x
    case Reg(r) =>
      if env.Known(r) { CanonValue(env.value[r], env, regs); }
    case Plus(a, b) =>
      CanonValue(a, env, regs);
      CanonValue(b, env, regs);
      var x0, x1 := Canon(a, env), Canon(b, env);
      if x0.ConstInt? {
        PlusConstantValue(x1, x0.value, regs);
      } else if x1.ConstInt? {
        PlusConstantValue(x0, x1.value, regs);
      }
    case _ =>
  }

  lemma FinishedWeight(x: Rtx, c: int, allConstant: bool, env: Env)
    ensures Weight(Finished(x, c, allConstant), env) <= Weight(x, env) + 2
  {
    assert Weight(Plus(x, ConstInt(c)), env) == Weight(x, env) + 2;
  }

  lemma {:induction false} RestartWeight(x: Rtx, c: int, allConstant: bool, env: Env)
    ensures Weight(Restart(x, c, allConstant), env) <= Weight(x, env) + 2
    decreases x, 0
  {
    match x
    case Const(inner) => RestartWeight(inner, c, true, env);
    case Plus(a, b) =>
      if b.ConstInt? {
        RestartWeight(a, c + b.value, allConstant, env);
      } else if b.Constant() {
        PlusConstantWeight(b, c, env);
      } else if HasConstantTerm(a) {
        PlusAtTermWeight(a, c, env);
      } else if HasConstantTerm(b) {
        PlusAtTermWeight(b, c, env);
      } else {
        FinishedWeight(x, c, allConstant, env);
      }
    case ConstInt(_) =>
    case SymbolRef(_) => FinishedWeight(x, c, true, env);
    case LabelRef(_) => FinishedWeight(x, c, true, env);
    case _ => FinishedWeight(x, c, allConstant, env);
  }

  lemma {:induction false} PlusConstantWeight(x: Rtx, c: int, env: Env)
    ensures Weight(PlusConstant(x, c), env) <= Weight(x, env) + 2
    decreases x, 1
  {
    if c != 0 { RestartWeight(x, c, false, env); }
  }

  lemma {:induction false} PlusAtTermWeight(x: Rtx, c: int, env: Env)
    requires HasConstantTerm(x)
    ensures Weight(PlusAtTerm(x, c), env) <= Weight(x, env) + 2
    decreases x, 2
  {
    if x.Constant() || (x.a.Constant() && x.b.Constant()) {
      PlusConstantWeight(x, c, env);
    } else if HasConstantTerm(x.a) {
      PlusAtTermWeight(x.a, c, env);
    } else {
      PlusAtTermWeight(x.b, c, env);
    }
  }

  /** Canonicalising either leaves x alone or makes it lighter: what the recursions below count. */
  lemma {:induction false} CanonWeight(x: Rtx, env: Env)
    ensures Canon(x, env) == x || Weight(Canon(x, env), env) < Weight(x, env)
    decreases env.Age(x), x
  {
    match x
    case Reg(r) =>
      if env.Known(r) { CanonWeight(env.value[r], env); }
    case Plus(a, b) =>
      CanonWeight(a, env);
      CanonWeight(b, env);
      var x0, x1 := Canon(a, env), Canon(b, env);
      if x0.ConstInt? {
        PlusConstantWeight(x1, x0.value, env);
      } else if x1.ConstInt? {
        PlusConstantWeight(x0, x1.value, env);
      }
    case _ =>
  }

  predicate Fixed(x: Rtx, env: Env) {
    Canon(x, env) == x
  }

  /** The operands of a canonical sum are canonical. */
  lemma FixedParts(a: Rtx, b: Rtx, env: Env)
    ensures Fixed(Plus(a, b), env) <==> Fixed(a, env) && Fixed(b, env)
  {
    var x0, x1 := Canon(a, env), Canon(b, env);
    CanonWeight(a, env);
    CanonWeight(b, env);
    if x0.ConstInt? {
      PlusConstantWeight(x1, x0.value, env);
    } else if x1.ConstInt? {
      PlusConstantWeight(x0, x1.value, env);
    }
  }

  lemma FinishedFixed(x: Rtx, c: int, allConstant: bool, env: Env)
    requires allConstant || Fixed(x, env)
    ensures Fixed(Finished(x, c, allConstant), env)
  {
  }

  lemma {:induction false} RestartFixed(x: Rtx, c: int, allConstant: bool, env: Env)
    requires allConstant || Fixed(x, env)
    ensures Fixed(Restart(x, c, allConstant), env)
    decreases x, 0
  {
    match x
    case Const(inner) => RestartFixed(inner, c, true, env);
    case SymbolRef(_) => FinishedFixed(x, c, true, env);
    case LabelRef(_) => FinishedFixed(x, c, true, env);
    case Plus(a, b) =>
      FixedParts(a, b, env);
      if b.ConstInt? {
        RestartFixed(a, c + b.value, allConstant, env);
      } else if b.Constant() {
        if !allConstant {
          PlusConstantFixed(b, c, env);
          FixedParts(a, PlusConstant(b, c), env);
        }
        FinishedFixed(Plus(a, PlusConstant(b, c)), 0, allConstant, env);
      } else if HasConstantTerm(a) {
        if !allConstant {
          PlusAtTermFixed(a, c, env);
          FixedParts(PlusAtTerm(a, c), b, env);
        }
        FinishedFixed(Plus(PlusAtTerm(a, c), b), 0, allConstant, env);
      } else if HasConstantTerm(b) {
        if !allConstant {
          PlusAtTermFixed(b, c, env);
          FixedParts(a, PlusAtTerm(b, c), env);
        }
        FinishedFixed(Plus(a, PlusAtTerm(b, c)), 0, allConstant, env);
      } else {
        FinishedFixed(x, c, allConstant, env);
      }
    case ConstInt(_) =>
    case _ => FinishedFixed(x, c, allConstant, env);
  }

  lemma {:induction false} PlusConstantFixed(x: Rtx, c: int, env: Env)
    requires Fixed(x, env)
    ensures Fixed(PlusConstant(x, c), env)
    decreases x, 1
  {
    if c != 0 { RestartFixed(x, c, false, env); }
  }

  lemma {:induction false} PlusAtTermFixed(x: Rtx, c: int, env: Env)
    requires HasConstantTerm(x) && Fixed(x, env)
    ensures Fixed(PlusAtTerm(x, c), env)
    decreases x, 2
  {
    if x.Constant() || (x.a.Constant() && x.b.Constant()) {
      PlusConstantFixed(x, c, env);
    } else {
      FixedParts(x.a, x.b, env);
      if HasConstantTerm(x.a) {
        PlusAtTermFixed(x.a, c, env);
        FixedParts(PlusAtTerm(x.a, c), x.b, env);
      } else {
        PlusAtTermFixed(x.b, c, env);
        FixedParts(x.a, PlusAtTerm(x.b, c), env);
      }
    }
  }

  /** Canonicalising twice is canonicalising once. */
  lemma {:induction false} CanonIdempotent(x: Rtx, env: Env)
    ensures Fixed(Canon(x, env), env)
    decreases env.Age(x), x
  {
    match x
    case Reg(r) =>
      if env.Known(r) { CanonIdempotent(env.value[r], env); }
    case Plus(a, b) =>
      CanonIdempotent(a, env);
      CanonIdempotent(b, env);
      var x0, x1 := Canon(a, env), Canon(b, env);
      FixedParts(x0, x1, env);
      if x0.ConstInt? {
        PlusConstantFixed(x1, x0.value, env);
      } else if x1.ConstInt? {
        PlusConstantFixed(x0, x1.value, env);
      }
    case _ =>
  }

  /** No register with a known value is left in a sum. */
  predicate Resolved(x: Rtx, env: Env) {
    match x
    case Reg(r) => !env.Known(r)
    case Plus(a, b) => Resolved(a, env) && Resolved(b, env)
    case _ => true
  }

  lemma {:induction false} FixedResolved(x: Rtx, env: Env)
    requires Fixed(x, env)
    ensures Resolved(x, env)
  {
    match x
    case Reg(r) =>
      if env.Known(r) { CanonWeight(env.value[r], env); }
    case Plus(a, b) =>
      FixedParts(a, b, env);
      FixedResolved(a, env);
      FixedResolved(b, env);
    case _ =>
  }

  /** Canonicalising replaces every known register of a sum. */
  lemma CanonResolved(x: Rtx, env: Env)
    ensures Resolved(Canon(x, env), env)
  {
    CanonIdempotent(x, env);
    FixedResolved(Canon(x, env), env);
  }

  /** `rtx_equal_for_memref_p` */
  predicate EqualForMemref(x: Rtx, y: Rtx, env: Env)
    decreases Weight(x, env) + Weight(y, env), x.Size() + y.Size()
  {
    CanonWeight(x, env);
    CanonWeight(y, env);
    var cx, cy := Canon(x, env), Canon(y, env);
    cx == cy
    || match (cx, cy) {
         case (Const(a), Const(b)) => EqualForMemref(a, b, env)
         case (Plus(a, b), Plus(c, d)) =>
           (EqualForMemref(a, c, env) && EqualForMemref(b, d, env)) || (EqualForMemref(a, d, env)
               && EqualForMemref(b, c, env))
         case (Mult(a, b), Mult(c, d)) =>
           (EqualForMemref(a, c, env) && EqualForMemref(b, d, env)) || (EqualForMemref(a, d, env)
               && EqualForMemref(b, c, env))
         case _ => false
       }
  }

  /** Expressions found equal denote the same address. */
  lemma {:induction false} EqualForMemrefValue(x: Rtx, y: Rtx, env: Env, regs: nat -> Place)
    requires EqualForMemref(x, y, env) && Consistent(regs, env)
    ensures Eval(x, regs) == Eval(y, regs)
    decreases Weight(x, env) + Weight(y, env), x.Size() + y.Size()
  {
    CanonWeight(x, env);
    CanonWeight(y, env);
    CanonValue(x, env, regs);
    CanonValue(y, env, regs);
    var cx, cy := Canon(x, env), Canon(y, env);
    if cx != cy {
      if cx.Const? {
        EqualForMemrefValue(cx.x, cy.x, env, regs);
      } else {
        var straight := EqualForMemref(cx.a, cy.a, env) && EqualForMemref(cx.b, cy.b, env);
        EqualForMemrefValue(cx.a, if straight then cy.a else cy.b, env, regs);
        EqualForMemrefValue(cx.b, if straight then cy.b else cy.a, env, regs);
        OperandsSame(cx, cy, straight, regs);
      }
    }
  }

  /** A sum or product of the same operands, in this order or the other, is the same. */
  lemma OperandsSame(x: Rtx, y: Rtx, straight: bool, regs: nat -> Place)
    requires (x.Plus? && y.Plus?) || (x.Mult? && y.Mult?)
    requires Eval(x.a, regs) == Eval(if straight then y.a else y.b, regs)
    requires Eval(x.b, regs) == Eval(if straight then y.b else y.a, regs)
    ensures Eval(x, regs) == Eval(y, regs)
  {
  }

  lemma {:induction false} EqualSymmetric(x: Rtx, y: Rtx, env: Env)
    requires EqualForMemref(x, y, env)
    ensures EqualForMemref(y, x, env)
    decreases Weight(x, env) + Weight(y, env), x.Size() + y.Size()
  {
    CanonWeight(x, env);
    CanonWeight(y, env);
    var cx, cy := Canon(x, env), Canon(y, env);
    if cx != cy {
      if cx.Const? {
        EqualSymmetric(cx.x, cy.x, env);
      } else {
        var straight := EqualForMemref(cx.a, cy.a, env) && EqualForMemref(cx.b, cy.b, env);
        EqualSymmetric(cx.a, if straight then cy.a else cy.b, env);
        EqualSymmetric(cx.b, if straight then cy.b else cy.a, env);
      }
    }
  }

  /** Canonical operands may come in either order, and a known register may stand for its value. */
  lemma EqualForms(a: Rtx, b: Rtx, r: nat, env: Env)
    requires Fixed(a, env) && Fixed(b, env)
    ensures EqualForMemref(Plus(a, b), Plus(b, a), env) && EqualForMemref(Mult(a, b), Mult(b, a), env)
    ensures env.Known(r) ==> EqualForMemref(Reg(r), env.value[r], env)
  {
    FixedParts(a, b, env);
    FixedParts(b, a, env);
    assert EqualForMemref(a, a, env) && EqualForMemref(b, b, env);
    assert Canon(Plus(a, b), env) == Plus(a, b) && Canon(Plus(b, a), env) == Plus(b, a);
    assert Canon(Mult(a, b), env) == Mult(a, b) && Canon(Mult(b, a), env) == Mult(b, a);
    if env.Known(r) { assert Canon(Reg(r), env) == Canon(env.value[r], env); }
  }
}
