/** Machine words: natural numbers below 2^w, with the bitwise operators of C written out bit by bit.
    The width w stands for HOST_BITS_PER_WIDE_INT. */
module Words {

  function Pow2(k: nat): (r: nat)
    ensures r >= 1
  {
    if k == 0 then 1 else 2 * Pow2(k - 1)
  }

  /** Bit k of x, counting from the least significant one: `(x >> k) & 1`. */
  predicate Bit(x: nat, k: nat) {
    if k == 0 then x % 2 == 1 else Bit(x / 2, k - 1)
  }

  datatype BitOp = And | AndCompl | Ior | Xor | IorCompl

  predicate OpBit(op: BitOp, a: bool, b: bool) {
    match op
    case And => a && b
    case AndCompl => a && !b
    case Ior => a || b
    case Xor => a != b
    case IorCompl => a || !b
  }

  /** `x OP y` on w-bit words. */
  function Combine(op: BitOp, x: nat, y: nat, w: nat): (r: nat)
    ensures r < Pow2(w)
  {
    if w == 0 then 0
    else (if OpBit(op, x % 2 == 1, y % 2 == 1) then 1 else 0) + 2 * Combine(op, x / 2, y / 2, w - 1)
  }

  lemma {:induction false} CombineBit(op: BitOp, x: nat, y: nat, w: nat, k: nat)
    requires k < w
    ensures Bit(Combine(op, x, y, w), k) == OpBit(op, Bit(x, k), Bit(y, k))
  {
    if k > 0 {
      CombineBit(op, x / 2, y / 2, w - 1, k - 1);
    }
  }

  /** Two w-bit words with the same bits are the same word. */
  lemma {:induction false} SameBits(x: nat, y: nat, w: nat)
    requires x < Pow2(w) && y < Pow2(w)
    requires forall k: nat :: k < w ==> Bit(x, k) == Bit(y, k)
    ensures x == y
  {
    if w > 0 {
      assert Bit(x, 0) == Bit(y, 0);
      forall k: nat | k < w - 1 ensures Bit(x / 2, k) == Bit(y / 2, k) {
        assert Bit(x, k + 1) == Bit(y, k + 1);
      }
      SameBits(x / 2, y / 2, w - 1);
    }
  }

  lemma {:induction false} ZeroBits(k: nat)
    ensures !Bit(0, k)
  {
    if k > 0 { ZeroBits(k - 1); }
  }

  lemma {:induction false} Pow2Bit(j: nat, k: nat)
    ensures Bit(Pow2(j), k) == (j == k)
  {
    if j == 0 {
      if k > 0 { ZeroBits(k - 1); }
    } else if k > 0 {
      Pow2Bit(j - 1, k - 1);
    }
  }

  lemma {:induction false} HighBits(x: nat, w: nat, k: nat)
    requires x < Pow2(w) && w <= k
    ensures !Bit(x, k)
  {
    if w == 0 { ZeroBits(k); } else { HighBits(x / 2, w - 1, k - 1); }
  }

  /** A nonzero word has a one bit below its width. */
  lemma {:induction false} SomeBit(x: nat, w: nat) returns (k: nat)
    requires 0 < x < Pow2(w)
    ensures k < w && Bit(x, k)
  {
    if x % 2 == 1 {
      k := 0;
    } else {
      k := SomeBit(x / 2, w - 1);
      k := k + 1;
    }
  }

  lemma {:induction false} Pow2Monotone(j: nat, k: nat)
    requires j <= k
    ensures Pow2(j) <= Pow2(k)
    ensures j < k ==> Pow2(j) < Pow2(k)
    decreases k - j
  {
    if j < k { Pow2Monotone(j, k - 1); }
  }

  lemma {:induction false} Pow2Sum(a: nat, b: nat)
    ensures Pow2(a + b) == Pow2(a) * Pow2(b)
  {
    if a > 0 {
      Pow2Sum(a - 1, b);
      assert 2 * (Pow2(a - 1) * Pow2(b)) == (2 * Pow2(a - 1)) * Pow2(b);
    }
  }

  lemma {:induction false} AndWithZero(x: nat, w: nat)
    ensures Combine(And, x, 0, w) == 0
  {
    if w > 0 { AndWithZero(x / 2, w - 1); }
  }
}
