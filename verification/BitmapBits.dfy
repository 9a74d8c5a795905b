/** `bitmap_first_set_bit` and `bitmap_last_set_bit`. */
module BitmapBits {
  import opened Words
  import opened Chunks
  import opened BitSearch
  import opened Bitmaps
  import opened BitmapOperation

  ghost predicate Minimum(b: nat, s: iset<nat>) {
    b in s && forall x :: x in s ==> b <= x
  }

  ghost predicate Maximum(b: nat, s: iset<nat>) {
    b in s && forall x :: x in s ==> x <= b
  }

  /** A member's chunk is present. */
  lemma MemberIndex(cs: seq<Chunk>, w: nat, b: nat) returns (j: nat)
    requires w > 0 && b in Members(cs, w)
    ensures j < |cs| && cs[j].indx == b / (2 * w)
  {
    j := ChunkOfBit(cs, b / (2 * w), b / w % 2, b % w);
  }

  lemma ChunkOfBit(cs: seq<Chunk>, idx: nat, n: nat, k: nat) returns (j: nat)
    requires Bit(WordAt(cs, idx, n), k)
    ensures j < |cs| && cs[j].indx == idx
  {
    if !HasIndex(cs, idx) {
      WordAtAbsent(cs, idx, n);
      ZeroBits(k);
      assert false;
    }
    j :| 0 <= j < |cs| && cs[j].indx == idx;
  }

  /** Chunk p has its lowest one bit at word n, bit k, and nothing comes before it. */
  lemma LowestIsMinimum(cs: seq<Chunk>, w: nat, n: nat, k: nat)
    requires Sorted(cs) && cs != [] && n < 2 && k < w && Lowest(cs[0].Word(n), k) && (n == 1 ==> cs[0].lo == 0)
    ensures Minimum(BitNumber(w, cs[0].indx, n, k), Members(cs, w))
  {
    PresentBit(cs, 0, w, n, k);
    forall b: nat | b in Members(cs, w) ensures BitNumber(w, cs[0].indx, n, k) <= b {
      var j := MemberIndex(cs, w, b);
      SplitBitNumber(w, b);
      LowestAt(cs, w, n, k, j, b / w % 2, b % w);
    }
  }

  lemma LowestAt(cs: seq<Chunk>, w: nat, n: nat, k: nat, j: nat, n': nat, k': nat)
    requires Sorted(cs) && j < |cs| && n < 2 && k < w && n' < 2 && k' < w
    requires Lowest(cs[0].Word(n), k) && (n == 1 ==> cs[0].lo == 0)
    requires BitNumber(w, cs[j].indx, n', k') in Members(cs, w)
    ensures BitNumber(w, cs[0].indx, n, k) <= BitNumber(w, cs[j].indx, n', k')
  {
    PresentBit(cs, j, w, n', k');
    BitNumberOrder(w, cs[j].indx, n', k', cs[0].indx, n, k);
    ZeroBits(k');
  }

  lemma HighestIsMaximum(cs: seq<Chunk>, w: nat, n: nat, k: nat)
    requires Sorted(cs) && cs != [] && n < 2 && k < w
    requires var c := cs[|cs| - 1]; Highest(c.Word(n), k) && (n == 0 ==> c.hi == 0)
    ensures Maximum(BitNumber(w, cs[|cs| - 1].indx, n, k), Members(cs, w))
  {
    PresentBit(cs, |cs| - 1, w, n, k);
    forall b: nat | b in Members(cs, w) ensures b <= BitNumber(w, cs[|cs| - 1].indx, n, k) {
      var j := MemberIndex(cs, w, b);
      SplitBitNumber(w, b);
      HighestAt(cs, w, n, k, j, b / w % 2, b % w);
    }
  }

  lemma HighestAt(cs: seq<Chunk>, w: nat, n: nat, k: nat, j: nat, n': nat, k': nat)
    requires Sorted(cs) && j < |cs| && n < 2 && k < w && n' < 2 && k' < w
    requires var c := cs[|cs| - 1]; Highest(c.Word(n), k) && (n == 0 ==> c.hi == 0)
    requires BitNumber(w, cs[j].indx, n', k') in Members(cs, w)
    ensures BitNumber(w, cs[j].indx, n', k') <= BitNumber(w, cs[|cs| - 1].indx, n, k)
  {
    PresentBit(cs, j, w, n', k');
    BitNumberOrder(w, cs[|cs| - 1].indx, n, k, cs[j].indx, n', k');
    ZeroBits(k');
  }

  /** `bitmap_first_set_bit` */
  method FirstSetBit(a: Bitmap, w: nat) returns (r: int)
    requires a.Valid(w) && (w == 32 || w == 64)
    ensures r == -1 || r >= 0
    ensures r == -1 <==> a.Set(w) == iset{}
    ensures r >= 0 ==> Minimum(r, a.Set(w))
  {
    var ptr := a.first;
    if ptr == null {
      EmptyDenotesEmpty(w);
      return -1;
    }
    assert a.elts[0].lo == a.chunks[0].lo && a.elts[0].hi == a.chunks[0].hi;
    var wordNum, word := 0, ptr.lo;
    if word == 0 {
      wordNum, word := 1, ptr.hi;
    }
    var bitNum := LowestBit(word, w);
    LowestIsMinimum(a.chunks, w, wordNum, bitNum);
    r := BitNumber(w, ptr.indx, wordNum, bitNum);
    assert r in a.Set(w);
  }

  /** `bitmap_last_set_bit` */
  method LastSetBit(a: Bitmap, w: nat) returns (r: int)
    requires a.Valid(w) && (w == 32 || w == 64)
    ensures r == -1 || r >= 0
    ensures r == -1 <==> a.Set(w) == iset{}
    ensures r >= 0 ==> Maximum(r, a.Set(w))
  {
    if a.first == null {
      EmptyDenotesEmpty(w);
      return -1;
    }
    var ptr: Element := a.first;
    ghost var p := 0;
    while ptr.next != null
      invariant p < |a.elts| && ptr == a.elts[p]
      decreases |a.elts| - p
    {
      ptr := ptr.next;
      p := p + 1;
    }
    assert a.elts[p].lo == a.chunks[p].lo && a.elts[p].hi == a.chunks[p].hi;
    var wordNum, word := 1, ptr.hi;
    if word == 0 {
      wordNum, word := 0, ptr.lo;
    }
    var bitNum := HighestBit(word, w);
    HighestIsMaximum(a.chunks, w, wordNum, bitNum);
    r := BitNumber(w, ptr.indx, wordNum, bitNum);
    assert r in a.Set(w);
  }
}
