/** The contents of a bitmap as a value: the sequence of its chunks, two words each.
    Says what set a sequence denotes, and that a set has only one canonical sequence. */
module Chunks {
  import opened Arithmetic
  import opened Words

  /** What a `bitmap_element` holds: bits number 2*w*indx up to 2*w*(indx+1). */
  datatype Chunk = Chunk(indx: nat, lo: nat, hi: nat) {
    function Word(n: nat): nat {
      if n == 0 then lo else hi
    }

    function WithWord(n: nat, v: nat): Chunk {
      if n == 0 then Chunk(indx, v, hi) else Chunk(indx, lo, v)
    }

    predicate Zero() {
      lo == 0 && hi == 0
    }

    predicate Fits(w: nat) {
      lo < Pow2(w) && hi < Pow2(w)
    }
  }

  ghost predicate Sorted(cs: seq<Chunk>) {
    forall i, j :: 0 <= i < j < |cs| ==> cs[i].indx < cs[j].indx
  }

  /** Increasing chunk numbers, and no chunk without a one bit. */
  ghost predicate Canonical(cs: seq<Chunk>, w: nat) {
    && Sorted(cs)
    && forall i :: 0 <= i < |cs| ==> cs[i].Fits(w) && !cs[i].Zero()
  }

  /** As canonical, except that chunk p may be all zero. */
  ghost predicate CanonicalBut(cs: seq<Chunk>, w: nat, p: nat) {
    && Sorted(cs)
    && forall i :: 0 <= i < |cs| ==> cs[i].Fits(w) && (i != p ==> !cs[i].Zero())
  }

  predicate HasIndex(cs: seq<Chunk>, idx: nat) {
    exists i :: 0 <= i < |cs| && cs[i].indx == idx
  }

  /** Word n of chunk idx; a missing chunk is all zero. */
  function WordAt(cs: seq<Chunk>, idx: nat, n: nat): nat {
    if cs == [] then 0
    else if cs[0].indx == idx then cs[0].Word(n)
    else WordAt(cs[1..], idx, n)
  }

  /** Whether bit number b is set. */
  predicate Has(cs: seq<Chunk>, w: nat, b: nat)
    requires w > 0
  {
    Bit(WordAt(cs, b / (2 * w), b / w % 2), b % w)
  }

  /** The set of bit numbers a sequence of chunks stands for. */
  ghost function Members(cs: seq<Chunk>, w: nat): iset<nat>
    requires w > 0
  {
    iset b: nat | Has(cs, w, b)
  }

  /** The number of bit k of word n of chunk idx. */
  function BitNumber(w: nat, idx: nat, n: nat, k: nat): (b: nat) {
    idx * (2 * w) + n * w + k
  }

  lemma BitNumberSplits(w: nat, idx: nat, n: nat, k: nat)
    requires n < 2 && k < w
    ensures var b := BitNumber(w, idx, n, k); b / (2 * w) == idx && b / w % 2 == n && b % w == k
  {
    var b := BitNumber(w, idx, n, k);
    assert n * w <= w;
    DivUnique(b, 2 * w, idx, n * w + k);
    assert idx * (2 * w) == (2 * idx) * w;
    assert b == (2 * idx + n) * w + k;
    DivUnique(b, w, 2 * idx + n, k);
  }

  lemma SplitBitNumber(w: nat, b: nat)
    requires w > 0
    ensures b == BitNumber(w, b / (2 * w), b / w % 2, b % w)
    ensures b / w % 2 < 2 && b % w < w
  {
    var m := b / w;
    assert b == m * w + b % w;
    assert m == 2 * (m / 2) + m % 2;
    var q := m / 2;
    assert b == (2 * q + m % 2) * w + b % w;
    assert (2 * q + m % 2) * w == q * (2 * w) + (m % 2) * w;
    assert (m % 2) * w <= w;
    DivUnique(b, 2 * w, q, (m % 2) * w + b % w);
  }

  /** Bit numbers are ordered by chunk, then word, then bit. */
  lemma BitNumberOrder(w: nat, i: nat, n: nat, k: nat, i': nat, n': nat, k': nat)
    requires n < 2 && n' < 2 && k < w && k' < w
    ensures BitNumber(w, i, n, k) < BitNumber(w, i', n', k') <==> i < i' || (i == i' && (n < n' || (n == n' && k < k')))
  {
    assert n * w == 0 || n * w == w;
    assert n' * w == 0 || n' * w == w;
    if i < i' { MulLess(i, i', 2 * w); }
    if i' < i { MulLess(i', i, 2 * w); }
  }

  lemma {:induction false} WordAtIndex(cs: seq<Chunk>, i: nat, n: nat)
    requires i < |cs| && Sorted(cs)
    ensures WordAt(cs, cs[i].indx, n) == cs[i].Word(n)
  {
    if i > 0 {
      assert cs[0].indx < cs[i].indx;
      WordAtIndex(cs[1..], i - 1, n);
    }
  }

  lemma {:induction false} WordAtAbsent(cs: seq<Chunk>, idx: nat, n: nat)
    requires !HasIndex(cs, idx)
    ensures WordAt(cs, idx, n) == 0
  {
    if cs != [] {
      assert cs[0].indx != idx;
      forall i | 0 <= i < |cs[1..]| ensures cs[1..][i].indx != idx {
        assert cs[i + 1].indx != idx;
      }
      WordAtAbsent(cs[1..], idx, n);
    }
  }

  lemma WordAtFits(cs: seq<Chunk>, w: nat, idx: nat, n: nat)
    requires Canonical(cs, w)
    ensures WordAt(cs, idx, n) < Pow2(w)
  {
  }

  lemma HasBit(cs: seq<Chunk>, w: nat, idx: nat, n: nat, k: nat)
    requires n < 2 && k < w
    ensures Has(cs, w, BitNumber(w, idx, n, k)) == Bit(WordAt(cs, idx, n), k)
  {
    BitNumberSplits(w, idx, n, k);
  }

  /** Sequences with the same words denote the same set, and conversely. */
  lemma SameWords(a: seq<Chunk>, b: seq<Chunk>, w: nat)
    requires w > 0 && Canonical(a, w) && Canonical(b, w)
    requires Members(a, w) == Members(b, w)
    ensures forall idx: nat, n: nat :: n < 2 ==> WordAt(a, idx, n) == WordAt(b, idx, n)
  {
    forall idx: nat, n: nat | n < 2 ensures WordAt(a, idx, n) == WordAt(b, idx, n) {
      WordAtFits(a, w, idx, n);
      WordAtFits(b, w, idx, n);
      forall k: nat | k < w ensures Bit(WordAt(a, idx, n), k) == Bit(WordAt(b, idx, n), k) {
        HasBit(a, w, idx, n, k);
        HasBit(b, w, idx, n, k);
        assert BitNumber(w, idx, n, k) in Members(a, w) <==> BitNumber(w, idx, n, k) in Members(b, w);
      }
      SameBits(WordAt(a, idx, n), WordAt(b, idx, n), w);
    }
  }

  lemma {:induction false} WordsDetermineChunks(a: seq<Chunk>, b: seq<Chunk>, w: nat)
    requires Canonical(a, w) && Canonical(b, w)
    requires forall idx: nat, n: nat :: n < 2 ==> WordAt(a, idx, n) == WordAt(b, idx, n)
    ensures a == b
  {
    if a == [] || b == [] {
      if a != [] { NonzeroHead(a, b, w); }
      if b != [] { NonzeroHead(b, a, w); }
    } else {
      if a[0].indx < b[0].indx { NonzeroHead(a, b, w); }
      if b[0].indx < a[0].indx { NonzeroHead(b, a, w); }
      var idx := a[0].indx;
      assert WordAt(a, idx, 0) == WordAt(b, idx, 0) && WordAt(a, idx, 1) == WordAt(b, idx, 1);
      assert a[0] == b[0];
      forall i: nat, n: nat | n < 2 ensures WordAt(a[1..], i, n) == WordAt(b[1..], i, n) {
        assert WordAt(a, i, n) == WordAt(b, i, n);
        if i == idx {
          WordAtAbsent(a[1..], i, n);
          WordAtAbsent(b[1..], i, n);
        }
      }
      WordsDetermineChunks(a[1..], b[1..], w);
      assert a == [a[0]] + a[1..] && b == [b[0]] + b[1..];
    }
  }

  /** The first chunk of a, if b has nothing at or below its number, is where the two differ. */
  lemma NonzeroHead(a: seq<Chunk>, b: seq<Chunk>, w: nat)
    requires Canonical(a, w) && Canonical(b, w) && a != []
    requires b == [] || a[0].indx < b[0].indx
    ensures exists n: nat :: n < 2 && WordAt(a, a[0].indx, n) != WordAt(b, a[0].indx, n)
  {
    var idx := a[0].indx;
    assert !HasIndex(b, idx) by {
      forall i | 0 <= i < |b| ensures b[i].indx != idx {
        assert i == 0 || b[0].indx < b[i].indx;
      }
    }
    WordAtAbsent(b, idx, 0);
    WordAtAbsent(b, idx, 1);
    assert a[0].Word(0) != 0 || a[0].Word(1) != 0;
    assert WordAt(a, idx, 0) == a[0].lo && WordAt(a, idx, 1) == a[0].hi;
  }

  /** A set has one canonical sequence of chunks: equality of bitmaps is equality of lists. */
  lemma CanonicalUnique(a: seq<Chunk>, b: seq<Chunk>, w: nat)
    requires w > 0 && Canonical(a, w) && Canonical(b, w)
    ensures a == b <==> Members(a, w) == Members(b, w)
  {
    if Members(a, w) == Members(b, w) {
      SameWords(a, b, w);
      WordsDetermineChunks(a, b, w);
    }
  }

  /** t is s with x put in at place k. */
  ghost predicate Inserted<T>(t: seq<T>, s: seq<T>, k: nat, x: T) {
    && k <= |s| && |t| == |s| + 1 && t[k] == x
    && (forall i :: 0 <= i < k ==> t[i] == s[i])
    && (forall i :: k < i < |t| ==> t[i] == s[i - 1])
  }

  lemma WordAtInserted(cs: seq<Chunk>, ct: seq<Chunk>, k: nat, c: Chunk, i: nat, n: nat)
    requires Sorted(cs) && Sorted(ct) && Inserted(ct, cs, k, c)
    ensures WordAt(ct, i, n) == if i == c.indx then c.Word(n) else WordAt(cs, i, n)
    ensures WordAt(cs, c.indx, n) == 0
  {
    assert !HasIndex(cs, c.indx) by {
      forall j | 0 <= j < |cs| ensures cs[j].indx != c.indx {
        assert cs[j] == ct[if j < k then j else j + 1];
      }
    }
    WordAtAbsent(cs, c.indx, n);
    if i == c.indx {
      WordAtIndex(ct, k, n);
    } else if HasIndex(cs, i) {
      var j :| 0 <= j < |cs| && cs[j].indx == i;
      var j' := if j < k then j else j + 1;
      assert ct[j'] == cs[j];
      WordAtIndex(cs, j, n);
      WordAtIndex(ct, j', n);
    } else {
      WordAtAbsent(cs, i, n);
      forall j | 0 <= j < |ct| ensures ct[j].indx != i {
        if j != k { assert ct[j] == cs[if j < k then j else j - 1]; }
      }
      WordAtAbsent(ct, i, n);
    }
  }

  lemma WordAtUpdated(cs: seq<Chunk>, k: nat, c: Chunk, i: nat, n: nat)
    requires Sorted(cs) && k < |cs| && c.indx == cs[k].indx
    ensures Sorted(cs[k := c])
    ensures WordAt(cs[k := c], i, n) == if i == c.indx then c.Word(n) else WordAt(cs, i, n)
  {
    var ct := cs[k := c];
    assert Sorted(ct);
    if i == c.indx {
      WordAtIndex(ct, k, n);
    } else if HasIndex(cs, i) {
      var j :| 0 <= j < |cs| && cs[j].indx == i;
      WordAtIndex(cs, j, n);
      assert ct[j] == cs[j];
      WordAtIndex(ct, j, n);
    } else {
      WordAtAbsent(cs, i, n);
      forall j | 0 <= j < |ct| ensures ct[j].indx != i { assert cs[j].indx != i; }
      WordAtAbsent(ct, i, n);
    }
  }

  /** Sequences that differ in one bit denote sets that differ in one number. */
  lemma OneBit(cs: seq<Chunk>, ct: seq<Chunk>, w: nat, i0: nat, n0: nat, k0: nat, v: bool)
    requires n0 < 2 && k0 < w
    requires forall i: nat, n: nat, k: nat :: n < 2 && k < w ==>
               Bit(WordAt(ct, i, n), k) == if i == i0 && n == n0 && k == k0 then v else Bit(WordAt(cs, i, n), k)
    ensures var b := BitNumber(w, i0, n0, k0);
            Members(ct, w) == if v then Members(cs, w) + iset{b} else Members(cs, w) - iset{b}
  {
    var b := BitNumber(w, i0, n0, k0);
    var expected := if v then Members(cs, w) + iset{b} else Members(cs, w) - iset{b};
    forall x: nat ensures x in Members(ct, w) <==> x in expected {
      SplitBitNumber(w, x);
      OneBitAt(cs, ct, w, i0, n0, k0, v, x / (2 * w), x / w % 2, x % w);
    }
  }

  lemma OneBitAt(cs: seq<Chunk>, ct: seq<Chunk>, w: nat, i0: nat, n0: nat, k0: nat, v: bool, i: nat, n: nat, k: nat)
    requires n0 < 2 && k0 < w && n < 2 && k < w
    requires Bit(WordAt(ct, i, n), k) == if i == i0 && n == n0 && k == k0 then v else Bit(WordAt(cs, i, n), k)
    ensures var x := BitNumber(w, i, n, k);
            Has(ct, w, x) == if x == BitNumber(w, i0, n0, k0) then v else Has(cs, w, x)
  {
    HasBit(cs, w, i, n, k);
    HasBit(ct, w, i, n, k);
    BitNumberSplits(w, i, n, k);
    BitNumberSplits(w, i0, n0, k0);
  }

  /** Word x with bit k set or cleared: `x | (1 << k)`, `x & ~(1 << k)`. */
  function WithBit(x: nat, k: nat, w: nat, v: bool): (r: nat)
    ensures r < Pow2(w)
  {
    Combine(if v then Ior else AndCompl, x, Pow2(k), w)
  }

  lemma WithBitBits(x: nat, k: nat, w: nat, v: bool, j: nat)
    requires j < w
    ensures Bit(WithBit(x, k, w, v), j) == if j == k then v else Bit(x, j)
  {
    CombineBit(if v then Ior else AndCompl, x, Pow2(k), w, j);
    Pow2Bit(k, j);
  }

  /** Writing one bit of a chunk that is present writes that bit number of the set. */
  lemma UpdateBit(cs: seq<Chunk>, p: nat, w: nat, n0: nat, k0: nat, v: bool)
    requires p < |cs| && Sorted(cs) && n0 < 2 && k0 < w
    ensures var ct := cs[p := cs[p].WithWord(n0, WithBit(cs[p].Word(n0), k0, w, v))];
            var b := BitNumber(w, cs[p].indx, n0, k0);
            Members(ct, w) == if v then Members(cs, w) + iset{b} else Members(cs, w) - iset{b}
  {
    var c := cs[p].WithWord(n0, WithBit(cs[p].Word(n0), k0, w, v));
    var ct := cs[p := c];
    forall i: nat, n: nat, k: nat | n < 2 && k < w
      ensures Bit(WordAt(ct, i, n), k) == if i == c.indx && n == n0 && k == k0 then v else Bit(WordAt(cs, i, n), k)
    {
      WordAtUpdated(cs, p, c, i, n);
      WordAtIndex(cs, p, n);
      WithBitBits(cs[p].Word(n0), k0, w, v, k);
    }
    OneBit(cs, ct, w, c.indx, n0, k0, v);
  }

  /** A new chunk with one bit adds that bit number to the set. */
  lemma NewBit(cs: seq<Chunk>, ct: seq<Chunk>, p: nat, w: nat, idx: nat, n0: nat, k0: nat)
    requires Sorted(cs) && Sorted(ct) && n0 < 2 && k0 < w
    requires Inserted(ct, cs, p, Chunk(idx, 0, 0).WithWord(n0, Pow2(k0)))
    ensures Members(ct, w) == Members(cs, w) + iset{BitNumber(w, idx, n0, k0)}
  {
    var c := Chunk(idx, 0, 0).WithWord(n0, Pow2(k0));
    forall i: nat, n: nat, k: nat | n < 2 && k < w
      ensures Bit(WordAt(ct, i, n), k) == if i == idx && n == n0 && k == k0 then true else Bit(WordAt(cs, i, n), k)
    {
      WordAtInserted(cs, ct, p, c, i, n);
      Pow2Bit(k0, k);
      ZeroBits(k);
    }
    OneBit(cs, ct, w, idx, n0, k0, true);
  }

  /** Taking out a chunk that is all zero changes no word, so not the set. */
  lemma ZeroChunkRemoved(cs: seq<Chunk>, ct: seq<Chunk>, p: nat, c: Chunk, w: nat)
    requires w > 0 && Sorted(cs) && Sorted(ct) && Inserted(cs, ct, p, c) && c.Zero()
    ensures Members(ct, w) == Members(cs, w)
  {
    forall b: nat ensures b in Members(ct, w) <==> b in Members(cs, w) {
      WordAtInserted(ct, cs, p, c, b / (2 * w), b / w % 2);
    }
  }

  lemma AbsentBit(cs: seq<Chunk>, w: nat, idx: nat, n: nat, k: nat)
    requires n < 2 && k < w && !HasIndex(cs, idx)
    ensures BitNumber(w, idx, n, k) !in Members(cs, w)
  {
    HasBit(cs, w, idx, n, k);
    WordAtAbsent(cs, idx, n);
    ZeroBits(k);
  }

  lemma PresentBit(cs: seq<Chunk>, p: nat, w: nat, n: nat, k: nat)
    requires n < 2 && k < w && p < |cs| && Sorted(cs)
    ensures BitNumber(w, cs[p].indx, n, k) in Members(cs, w) <==> Bit(cs[p].Word(n), k)
  {
    HasBit(cs, w, cs[p].indx, n, k);
    WordAtIndex(cs, p, n);
  }

  lemma EmptyDenotesEmpty(w: nat)
    requires w > 0
    ensures Members([], w) == iset{}
  {
    forall b: nat ensures b !in Members([], w) { ZeroBits(b % w); }
  }
}
