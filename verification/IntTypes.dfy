/** C integer types of any width: their ranges, and conversion as reduction modulo 2^precision. */
module IntTypes {
  import opened Arithmetic
  import opened Words

  datatype AnyType = Type(prec: nat, unsigned: bool)

  type IntType = t: AnyType | t.prec > 0 witness Type(1, true)

  /** The comparison operators. */
  datatype Code = LT | GT | LE | GE | EQ | NE

  predicate Holds(code: Code, a: int, b: int) {
    match code
    case LT => a < b
    case GT => a > b
    case LE => a <= b
    case GE => a >= b
    case EQ => a == b
    case NE => a != b
  }

  function Lo(t: IntType): int {
    var half: int := Pow2(t.prec - 1);
    if t.unsigned then 0 else -half
  }

  function Hi(t: IntType): int {
    if t.unsigned then Pow2(t.prec) - 1 else Pow2(t.prec - 1) - 1
  }

  predicate InRange(t: IntType, v: int) {
    Lo(t) <= v <= Hi(t)
  }

  /** The value of type t congruent to v. */
  function Convert(t: IntType, v: int): (r: int)
    ensures InRange(t, r)
  {
    var m := v % Pow2(t.prec);
    if !t.unsigned && m >= Pow2(t.prec - 1) then m - Pow2(t.prec) else m
  }

  /** Conversion changes a value by a multiple of 2^precision. */
  lemma ConvertCongruent(t: IntType, v: int) returns (k: int)
    ensures v == Convert(t, v) + k * Pow2(t.prec)
  {
    var d := Pow2(t.prec);
    k := v / d;
    assert v == k * d + v % d;
    if !t.unsigned && v % d >= Pow2(t.prec - 1) {
      assert k * d + d == (k + 1) * d;
      k := k + 1;
    }
  }

  /** That value is the only one in range. */
  lemma ConvertUnique(t: IntType, v: int, r: int, k: int)
    requires InRange(t, r) && v == r + k * Pow2(t.prec)
    ensures Convert(t, v) == r
  {
    var j := ConvertCongruent(t, v);
    var d := Pow2(t.prec);
    assert Hi(t) - Lo(t) == d - 1;
    assert Convert(t, v) - r == (k - j) * d by {
      assert (k - j) * d == k * d - j * d;
    }
    assert (j - k) * d == -((k - j) * d);
    if k > j { MulGe(k - j, d); }
    if j > k { MulGe(j - k, d); }
  }

  lemma ConvertSame(t: IntType, v: int)
    requires InRange(t, v)
    ensures Convert(t, v) == v
  {
    ConvertUnique(t, v, v, 0);
  }

  lemma Collect(k: int, c: int, d: int, j: int)
    ensures k * (c * d) + j * d == (k * c + j) * d
  {
  }

  /** Going through a type at least as wide changes nothing. */
  lemma ConvertThrough(t: IntType, s: IntType, v: int)
    requires s.prec >= t.prec
    ensures Convert(t, Convert(s, v)) == Convert(t, v)
  {
    var k := ConvertCongruent(s, v);
    var w := Convert(s, v);
    var j := ConvertCongruent(t, w);
    var c, d := Pow2(s.prec - t.prec), Pow2(t.prec);
    Pow2Sum(s.prec - t.prec, t.prec);
    Collect(k, c, d, j);
    ConvertUnique(t, v, Convert(t, w), k * c + j);
  }

  /** A signed value in an unsigned type at least as wide. */
  lemma ConvertNegative(t: IntType, prec: nat, v: int)
    requires 0 < prec <= t.prec && t.unsigned && InRange(Type(prec, false), v)
    ensures Convert(t, v) == if v < 0 then v + Pow2(t.prec) else v
  {
    Pow2Monotone(prec - 1, t.prec - 1);
    if v < 0 {
      ConvertUnique(t, v, v + Pow2(t.prec), -1);
    } else {
      ConvertUnique(t, v, v, 0);
    }
  }

  /** A range is part of a wider one, unless a signed one is held against an unsigned one. */
  lemma Wider(s: IntType, t: IntType, v: int)
    requires InRange(s, v)
    requires s == t || (s.prec < t.prec && (s.unsigned || !t.unsigned)) || (s.prec <= t.prec
             && s.unsigned == t.unsigned)
    ensures InRange(t, v)
  {
    if s.prec < t.prec {
      Pow2Monotone(s.prec, t.prec - 1);
      Pow2Monotone(s.prec - 1, t.prec - 1);
    }
  }
}
