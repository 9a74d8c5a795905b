/** The binary searches for the lowest and the highest one bit of a word, as `bitmap_first_set_bit` and
    `bitmap_last_set_bit` write them out for 32-bit and 64-bit words. */
module BitSearch {
  import opened Words

  ghost predicate Lowest(x: nat, k: nat) {
    Bit(x, k) && forall j: nat :: j < k ==> !Bit(x, j)
  }

  ghost predicate Highest(x: nat, k: nat) {
    Bit(x, k) && forall j: nat :: k < j ==> !Bit(x, j)
  }

  /** `x >> n` */
  function Shifted(x: nat, n: nat): nat {
    if n == 0 then x else Shifted(x / 2, n - 1)
  }

  lemma {:induction false} ShiftBit(x: nat, n: nat, k: nat)
    ensures Bit(Shifted(x, n), k) == Bit(x, n + k)
  {
    if n > 0 { ShiftBit(x / 2, n - 1, k); }
  }

  lemma {:induction false} LowMaskBit(n: nat, k: nat)
    ensures Bit(Pow2(n) - 1, k) == (k < n)
  {
    if n == 0 {
      ZeroBits(k);
    } else if k > 0 {
      assert (Pow2(n) - 1) / 2 == Pow2(n - 1) - 1;
      LowMaskBit(n - 1, k - 1);
    }
  }

  lemma {:induction false} HighMaskBit(n: nat, m: nat, k: nat)
    requires n <= m
    ensures Pow2(n) <= Pow2(m)
    ensures Bit(Pow2(m) - Pow2(n), k) == (n <= k < m)
  {
    Pow2Monotone(n, m);
    if n == 0 {
      LowMaskBit(m, k);
    } else {
      HighMaskBit(n - 1, m - 1, if k == 0 then 0 else k - 1);
    }
  }

  /** `x & m` is zero when the two have no one bit in common. */
  lemma AndZero(x: nat, m: nat, w: nat)
    ensures Combine(And, x, m, w) == 0 <==> forall k: nat :: k < w ==> !(Bit(x, k) && Bit(m, k))
  {
    var r := Combine(And, x, m, w);
    if r == 0 {
      forall k: nat | k < w ensures !(Bit(x, k) && Bit(m, k)) {
        CombineBit(And, x, m, w, k);
        ZeroBits(k);
      }
    } else {
      var k := SomeBit(r, w);
      CombineBit(And, x, m, w, k);
    }
  }

  /** A word and its two's complement have the bits above the lowest one bit of the word inverted:
      `word & -word` is that bit alone. */
  lemma {:induction false} NegateAnd(x: nat, w: nat, k: nat)
    requires x < Pow2(w) && Lowest(x, k)
    ensures k < w && Combine(And, x, Pow2(w) - x, w) == Pow2(k)
  {
    if w == 0 {
      ZeroBits(k);
    } else if x % 2 == 1 {
      assert k == 0 by { assert Bit(x, 0); }
      assert (Pow2(w) - x) / 2 == Pow2(w - 1) - 1 - x / 2;
      ComplementAnd(x / 2, w - 1);
    } else {
      assert k > 0;
      assert (Pow2(w) - x) / 2 == Pow2(w - 1) - x / 2;
      assert Lowest(x / 2, k - 1) by {
        forall j: nat | j < k - 1 ensures !Bit(x / 2, j) { assert !Bit(x, j + 1); }
      }
      NegateAnd(x / 2, w - 1, k - 1);
    }
  }

  lemma {:induction false} ComplementAnd(x: nat, w: nat)
    requires x < Pow2(w)
    ensures Combine(And, x, Pow2(w) - 1 - x, w) == 0
  {
    if w > 0 {
      assert (Pow2(w) - 1 - x) / 2 == Pow2(w - 1) - 1 - x / 2;
      ComplementAnd(x / 2, w - 1);
    }
  }

  lemma {:induction false} LowestExists(x: nat, w: nat) returns (k: nat)
    requires 0 < x < Pow2(w)
    ensures k < w && Lowest(x, k)
  {
    if x % 2 == 1 {
      k := 0;
    } else {
      k := LowestExists(x / 2, w - 1);
      k := k + 1;
      forall j: nat | j < k ensures !Bit(x, j) { if j > 0 { assert !Bit(x / 2, j - 1); } }
    }
  }

  /** Testing a word that is a single bit against a mask. */
  lemma SingleAnd(b: nat, m: nat, w: nat)
    requires b < w
    ensures Combine(And, Pow2(b), m, w) != 0 <==> Bit(m, b)
  {
    AndZero(Pow2(b), m, w);
    forall k: nat ensures Bit(Pow2(b), k) == (b == k) { Pow2Bit(b, k); }
  }

  lemma {:induction false} ShiftSingle(b: nat, n: nat)
    requires n <= b
    ensures Shifted(Pow2(b), n) == Pow2(b - n)
  {
    if n > 0 { ShiftSingle(b - 1, n - 1); }
  }

  /** One step of the search for the lowest bit: `if ((word & (2^n - 1)) == 0) word >>= n, bit_num += n`. */
  method LowStep(word: nat, bitNum: nat, n: nat, w: nat, ghost b: nat) returns (word': nat, bitNum': nat)
    requires word == Pow2(b) && b < 2 * n <= w
    ensures bitNum' <= bitNum + b && word' == Pow2(bitNum + b - bitNum') && bitNum + b - bitNum' < n
  {
    SingleAnd(b, Pow2(n) - 1, w);
    LowMaskBit(n, b);
    word', bitNum' := word, bitNum;
    if Combine(And, word, Pow2(n) - 1, w) == 0 {
      ShiftSingle(b, n);
      word', bitNum' := Shifted(word, n), bitNum + n;
    }
  }

  /** The last three tests: which of the masks 0xf0, 0xcc and 0xaa a bit number below 8 is in. */
  lemma LowMasks(b: nat)
    requires b < 8
    ensures b == (if Bit(0xf0, b) then 4 else 0) + (if Bit(0xcc, b) then 2 else 0) + (if Bit(0xaa, b) then 1 else 0)
  {
    assert b == 0 || b == 1 || b == 2 || b == 3 || b == 4 || b == 5 || b == 6 || b == 7;
  }

  /** The last three steps of the search for the lowest bit. */
  method LowTail(word: nat, bitNum: nat, w: nat, ghost b: nat) returns (r: nat)
    requires word == Pow2(b) && b < 8 <= w
    ensures r == bitNum + b
  {
    SingleAnd(b, 0xf0, w);
    SingleAnd(b, 0xcc, w);
    SingleAnd(b, 0xaa, w);
    LowMasks(b);
    r := bitNum;
    if Combine(And, word, 0xf0, w) != 0 { r := r + 4; }
    if Combine(And, word, 0xcc, w) != 0 { r := r + 2; }
    if Combine(And, word, 0xaa, w) != 0 { r := r + 1; }
  }

  /** The search of `bitmap_first_set_bit` in a word that is not zero. */
  method LowestBit(word0: nat, w: nat) returns (bitNum: nat)
    requires 0 < word0 < Pow2(w) && (w == 32 || w == 64)
    ensures bitNum < w && Lowest(word0, bitNum)
  {
    ghost var b := LowestExists(word0, w);
    NegateAnd(word0, w, b);
    bitNum := 0;
    var word := Combine(And, word0, Pow2(w) - word0, w);
    if w > 32 {
      word, bitNum := LowStep(word, bitNum, 32, w, b);
    }
    bitNum := LowRest(word, bitNum, w, b - bitNum);
  }

  /** The steps for 32 bits. */
  method LowRest(word0: nat, bitNum0: nat, w: nat, ghost b: nat) returns (bitNum: nat)
    requires word0 == Pow2(b) && b < 32 <= w
    ensures bitNum == bitNum0 + b
  {
    var word;
    word, bitNum := LowStep(word0, bitNum0, 16, w, b);
    word, bitNum := LowStep(word, bitNum, 8, w, bitNum0 + b - bitNum);
    bitNum := LowTail(word, bitNum, w, bitNum0 + b - bitNum);
  }

  lemma {:induction false} HighestExists(x: nat, w: nat) returns (k: nat)
    requires 0 < x < Pow2(w)
    ensures k < w && Highest(x, k) && Pow2(k) <= x < Pow2(k + 1)
  {
    if x == 1 {
      k := 0;
      forall j: nat | 0 < j ensures !Bit(x, j) { ZeroBits(j - 1); }
    } else {
      k := HighestExists(x / 2, w - 1);
      k := k + 1;
      forall j: nat | k < j ensures !Bit(x, j) { assert !Bit(x / 2, j - 1); }
    }
  }

  /** The mask of bits n to m - 1. */
  function HighMask(n: nat, m: nat): nat
    requires n <= m
  {
    Pow2Monotone(n, m);
    Pow2(m) - Pow2(n)
  }

  /** Testing a word below 2^m against the mask of bits n to m - 1. */
  lemma HighAnd(x: nat, n: nat, m: nat, w: nat, k: nat)
    requires 0 < x < Pow2(m) && n <= m <= w && Highest(x, k)
    ensures k < m
    ensures Combine(And, x, HighMask(n, m), w) != 0 <==> n <= k
  {
    if m <= k { HighBits(x, m, k); }
    AndZero(x, HighMask(n, m), w);
    HighMaskBit(n, m, k);
    if Combine(And, x, HighMask(n, m), w) != 0 {
      var j: nat :| j < w && Bit(x, j) && Bit(HighMask(n, m), j);
      HighMaskBit(n, m, j);
    }
  }

  lemma {:induction false} ShiftLess(x: nat, n: nat, m: nat)
    requires x < Pow2(n + m)
    ensures Shifted(x, n) < Pow2(m)
  {
    if n > 0 { ShiftLess(x / 2, n - 1, m); }
  }

  lemma HighShift(x: nat, n: nat, m: nat, k: nat)
    requires x < Pow2(n + m) && Highest(x, k) && n <= k
    ensures 0 < Shifted(x, n) < Pow2(m) && Highest(Shifted(x, n), k - n)
  {
    ShiftLess(x, n, m);
    forall j: nat ensures Bit(Shifted(x, n), j) == Bit(x, n + j) { ShiftBit(x, n, j); }
    ShiftedHighest(x, Shifted(x, n), n, k);
  }

  lemma ShiftedHighest(x: nat, y: nat, n: nat, k: nat)
    requires Highest(x, k) && n <= k && forall j: nat :: Bit(y, j) == Bit(x, n + j)
    ensures Highest(y, k - n) && y > 0
  {
    assert Bit(y, k - n);
    ZeroBits(k - n);
  }

  /** One step of the search for the highest bit: the mask is bits n to 2n - 1. */
  method HighStep(word: nat, bitNum: nat, n: nat, w: nat, ghost k: nat) returns (word': nat, bitNum': nat)
    requires 0 < word < Pow2(n + n) && n + n <= w && Highest(word, k)
    ensures 0 < word' < Pow2(n) && bitNum' <= bitNum + k && Highest(word', bitNum + k - bitNum')
  {
    HighAnd(word, n, n + n, w, k);
    word', bitNum' := word, bitNum;
    if Combine(And, word, HighMask(n, n + n), w) != 0 {
      HighShift(word, n, n, k);
      word', bitNum' := Shifted(word, n), bitNum + n;
    } else {
      HighValue(word, n + n, n, k);
    }
  }

  lemma HighValue(x: nat, w: nat, n: nat, k: nat)
    requires 0 < x < Pow2(w) && Highest(x, k) && k < n
    ensures x < Pow2(n)
  {
    var h := HighestExists(x, w);
    assert h == k;
    Pow2Monotone(k + 1, n);
  }

  /** The last steps of the search for the highest bit, on a word of eight bits. */
  method HighTail(word0: nat, bitNum0: nat, w: nat, ghost k: nat) returns (bitNum: nat)
    requires 0 < word0 < Pow2(8) && 8 <= w && Highest(word0, k)
    ensures bitNum == bitNum0 + k
  {
    var word;
    word, bitNum := HighStep(word0, bitNum0, 4, w, k);
    word, bitNum := HighStep(word, bitNum, 2, w, bitNum0 + k - bitNum);
    HighAnd(word, 1, 2, w, bitNum0 + k - bitNum);
    assert HighMask(1, 2) == 2;
    if Combine(And, word, 0x2, w) != 0 { bitNum := bitNum + 1; }
  }

  /** The search of `bitmap_last_set_bit` in a word that is not zero. */
  method HighestBit(word0: nat, w: nat) returns (bitNum: nat)
    requires 0 < word0 < Pow2(w) && (w == 32 || w == 64)
    ensures bitNum < w && Highest(word0, bitNum)
  {
    ghost var k := HighestExists(word0, w);
    bitNum := HighSteps(word0, 32, w, k);
  }

  /** All steps. The widths are parameters here and below, so that no power of two is worked out. */
  method HighSteps(word0: nat, half: nat, w: nat, ghost k: nat) returns (bitNum: nat)
    requires half == 32 && (w == half || w == half + half) && 0 < word0 < Pow2(w) && Highest(word0, k)
    ensures bitNum == k
  {
    bitNum := 0;
    var word := word0;
    if w > half {
      word, bitNum := HighStep(word, bitNum, half, w, k);
    }
    bitNum := HighRest(word, bitNum, 16, 8, w, k - bitNum);
  }

  /** The steps for 32 bits. */
  method HighRest(word0: nat, bitNum0: nat, quarter: nat, eighth: nat, w: nat, ghost k: nat) returns (bitNum: nat)
    requires eighth == 8 && quarter == eighth + eighth && quarter + quarter <= w
    requires 0 < word0 < Pow2(quarter + quarter) && Highest(word0, k)
    ensures bitNum == bitNum0 + k
  {
    var word;
    word, bitNum := HighStep(word0, bitNum0, quarter, w, k);
    word, bitNum := HighStep(word, bitNum, eighth, w, bitNum0 + k - bitNum);
    bitNum := HighTail(word, bitNum, w, bitNum0 + k - bitNum);
  }

  /** The masks of the source are the ones above. */
  lemma LowMaskValues()
    ensures Pow2(8) - 1 == 0xff && Pow2(16) - 1 == 0xffff && Pow2(32) - 1 == 0xffff_ffff
    ensures Pow2(64) == Pow2(32) * Pow2(32)
  {
    assert Pow2(8) == 0x100;
    Pow2Sum(8, 8);
    Pow2Sum(16, 16);
    Pow2Sum(32, 32);
  }

  lemma HighMaskValues()
    ensures HighMask(2, 4) == 0xc && HighMask(4, 8) == 0xf0 && HighMask(8, 16) == 0xff00
            && HighMask(16, 32) == 0xffff_0000
    ensures HighMask(32, 64) == 0xffff_ffff_0000_0000
  {
    LowMaskValues();
  }
}
