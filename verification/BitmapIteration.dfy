/** `EXECUTE_IF_SET_IN_BITMAP`, `EXECUTE_IF_AND_COMPL_IN_BITMAP` and `EXECUTE_IF_AND_IN_BITMAP`. CODE is
    modelled by recording the bit number it is given. */
module BitmapIteration {
  import opened Words
  import opened Chunks
  import opened Merge
  import opened Bitmaps
  import opened BitmapOperation
  import opened BitmapVisits

  /** `(word_ & mask_) != 0` tests one bit. */
  lemma MaskTestsBit(word: nat, k: nat, w: nat)
    requires k < w
    ensures Combine(And, word, Pow2(k), w) != 0 <==> Bit(word, k)
  {
    var both := Combine(And, word, Pow2(k), w);
    forall j: nat | j < w ensures Bit(both, j) == (j == k && Bit(word, k)) {
      CombineBit(And, word, Pow2(k), w, j);
      Pow2Bit(k, j);
    }
    ZeroBits(k);
    if both != 0 { var j := SomeBit(both, w); }
  }

  /** Only the bits from k on matter. */
  lemma {:induction false} SameVisits(x: nat, y: nat, k: nat, w: nat, base: nat)
    requires forall j: nat :: k <= j < w ==> Bit(x, j) == Bit(y, j)
    ensures WordVisits(x, k, w, base) == WordVisits(y, k, w, base)
    decreases w - k
  {
    if k < w { SameVisits(x, y, k + 1, w, base); }
  }

  lemma {:induction false} ZeroVisits(k: nat, w: nat, base: nat)
    ensures WordVisits(0, k, w, base) == []
    decreases w - k
  {
    if k < w {
      ZeroBits(k);
      ZeroVisits(k + 1, w, base);
    }
  }

  /** Clearing the bit just visited does not change what is left to visit. */
  lemma ClearedVisits(word: nat, k: nat, w: nat, base: nat)
    requires k < w
    ensures WordVisits(WithBit(word, k, w, false), k + 1, w, base) == WordVisits(word, k + 1, w, base)
  {
    var cleared := WithBit(word, k, w, false);
    forall j: nat | k + 1 <= j < w ensures Bit(cleared, j) == Bit(word, j) {
      WithBitBits(word, k, w, false, j);
    }
    SameVisits(cleared, word, k + 1, w, base);
  }

  /** The innermost loop: the one bits of a word, each cleared as it is visited. */
  method VisitWord(bits: nat, start: nat, w: nat, base: nat) returns (out: seq<nat>)
    ensures out == WordVisits(bits, start, w, base)
  {
    var word, bitNum := bits, start;
    out := [];
    if word != 0 {
      while bitNum < w
        invariant out + WordVisits(word, bitNum, w, base) == WordVisits(bits, start, w, base)
      {
        MaskTestsBit(word, bitNum, w);
        if Combine(And, word, Pow2(bitNum), w) != 0 {
          ClearedVisits(word, bitNum, w, base);
          ghost var rest := WordVisits(word, bitNum + 1, w, base);
          assert out + ([base + bitNum] + rest) == (out + [base + bitNum]) + rest;
          word := WithBit(word, bitNum, w, false);
          out := out + [base + bitNum];
          if word == 0 {
            break;
          }
        }
        bitNum := bitNum + 1;
      }
      ZeroVisits(bitNum + 1, w, base);
    } else {
      ZeroVisits(start, w, base);
    }
  }

  /** The loop over the words of a chunk. */
  method VisitChunk(c: Chunk, n: nat, k: nat, w: nat) returns (out: seq<nat>)
    ensures out == ChunkVisits(c, n, k, w)
  {
    var wordNum, bitNum := n, k;
    out := [];
    while wordNum < 2
      invariant out + ChunkVisits(c, wordNum, bitNum, w) == ChunkVisits(c, n, k, w)
    {
      var visits := VisitWord(c.Word(wordNum), bitNum, w, BitNumber(w, c.indx, wordNum, 0));
      assert out + (visits + ChunkVisits(c, wordNum + 1, 0, w)) == (out + visits) + ChunkVisits(c, wordNum + 1, 0, w);
      out := out + visits;
      bitNum := 0;
      wordNum := wordNum + 1;
    }
    assert out + [] == out;
  }

  /** A walk along a list past the elements numbered below idx. */
  method Advance(start: Element?, idx: nat, ghost l0: Rest) returns (ptr: Element?, ghost l: Rest)
    requires l0.From(start)
    ensures l.From(ptr) && l.cs == Skip(l0.cs, idx) && l.r <= l0.r
  {
    ptr, l := start, l0;
    while ptr != null && ptr.indx < idx
      invariant l.From(ptr) && Skip(l.cs, idx) == Skip(l0.cs, idx) && l.r <= l0.r
      decreases |l.cs|
    {
      l := l.Tail(ptr);
      ptr := ptr.next;
    }
  }

  /** The chunk, word and bit of bit number min. */
  method Locate(min: nat, w: nat) returns (indx: nat, n: nat, k: nat)
    requires w > 0
    ensures BitNumber(w, indx, n, k) == min && n < 2 && k < w
  {
    indx, n, k := min / (2 * w), min / w % 2, min % w;
    SplitBitNumber(w, min);
  }

  /** Skip the elements before the one that has the first bit asked for. */
  method StartAt(first: Element?, indx: nat, n0: nat, k0: nat, ghost l0: Rest)
    returns (ptr: Element?, n: nat, k: nat, ghost l: Rest)
    requires l0.From(first)
    ensures l.From(ptr) && l.cs == Skip(l0.cs, indx)
    ensures n == StartWord(l.cs, indx, n0) && k == StartWord(l.cs, indx, k0)
  {
    n, k := n0, k0;
    ptr, l := Advance(first, indx, l0);
    if ptr != null && ptr.indx != indx {
      n, k := 0, 0;
    }
  }

  /** The visits of the whole loop are those of the first chunk, then those of the rest from its start. */
  lemma VisitsStep(out: seq<nat>, cs: seq<Chunk>, n: nat, k: nat, w: nat, all: seq<nat>)
    requires cs != [] && out + ListVisits(cs, n, k, w) == all
    ensures out + ChunkVisits(cs[0], n, k, w) + ListVisits(cs[1..], 0, 0, w) == all
  {
  }

  lemma SetVisits(cs: seq<Chunk>, w: nat, idx: nat, n: nat, k: nat)
    requires Sorted(cs) && n < 2 && k < w
    ensures var ds := Skip(cs, idx);
            Enumerates(ListVisits(ds, StartWord(ds, idx, n), StartWord(ds, idx, k), w), Members(cs, w),
                BitNumber(w, idx, n, k))
  {
    SkipWord(cs, idx, 0, 0);
    forall i: nat, n': nat, k': nat | n' < 2 && k' < w && idx <= i
      ensures BitNumber(w, i, n', k') in Members(cs, w) <==> Bit(WordAt(Skip(cs, idx), i, n'), k')
    {
      SkipWord(cs, idx, i, n');
      HasBit(cs, w, i, n', k');
    }
    VisitsFrom(Skip(cs, idx), Members(cs, w), w, idx, n, k);
  }

  /** The loop over the elements. */
  method VisitList(start: Element?, n: nat, k: nat, w: nat, ghost l0: Rest) returns (out: seq<nat>)
    requires l0.From(start)
    ensures out == ListVisits(l0.cs, n, k, w)
  {
    var ptr, wordNum, bitNum := start, n, k;
    ghost var l := l0;
    out := [];
    while ptr != null
      invariant l.From(ptr) && out + ListVisits(l.cs, wordNum, bitNum, w) == ListVisits(l0.cs, n, k, w)
      decreases |l.cs|
    {
      VisitsStep(out, l.cs, wordNum, bitNum, w, ListVisits(l0.cs, n, k, w));
      var visits := VisitChunk(Chunk(ptr.indx, ptr.lo, ptr.hi), wordNum, bitNum, w);
      out := out + visits;
      wordNum, bitNum := 0, 0;
      l := l.Tail(ptr);
      ptr := ptr.next;
    }
  }

  /** `EXECUTE_IF_SET_IN_BITMAP`: the members from min on, each once, in ascending order. */
  method ExecuteIfSet(a: Bitmap, min: nat, w: nat) returns (out: seq<nat>)
    requires a.Valid(w)
    ensures Enumerates(out, a.Set(w), min)
  {
    var indx, n0, k0 := Locate(min, w);
    SetVisits(a.chunks, w, indx, n0, k0);
    ListOf(a, w);
    ghost var l;
    var ptr, n, k;
    ptr, n, k, l := StartAt(a.first, indx, n0, k0, Rest(a.repr, a.chunks));
    out := VisitList(ptr, n, k, w, l);
  }

  /** The set the two-bitmap macros visit. */
  ghost function Both(op: BitOp, x: iset<nat>, y: iset<nat>): iset<nat> {
    if op == And then x * y else x - y
  }

  lemma PairVisits(op: BitOp, a: seq<Chunk>, b: seq<Chunk>, w: nat, idx: nat, n: nat, k: nat)
    requires (op == And || op == AndCompl) && Sorted(a) && Sorted(b) && n < 2 && k < w
    ensures var s := Skip(a, idx);
            Enumerates(ListVisits(Masked(op, w, s, b), StartWord(s, idx, n), StartWord(s, idx, k), w),
                       Both(op, Members(a, w), Members(b, w)), BitNumber(w, idx, n, k))
  {
    var s := Skip(a, idx);
    var ds := Masked(op, w, s, b);
    SkipWord(a, idx, 0, 0);
    MaskedNumbers(op, w, s, b);
    forall i: nat, n': nat, k': nat | n' < 2 && k' < w && idx <= i
      ensures BitNumber(w, i, n', k') in Both(op, Members(a, w), Members(b, w)) <==> Bit(WordAt(ds, i, n'), k')
    {
      SkipWord(a, idx, i, n');
      MaskedBit(op, w, s, b, i, n', k');
      HasBit(a, w, i, n', k');
      HasBit(b, w, i, n', k');
    }
    VisitsFrom(ds, Both(op, Members(a, w), Members(b, w)), w, idx, n, k);
  }

  /** The loop of the AND_COMPL macro: an element with no partner is combined with a zero one. */
  method VisitAndCompl(start1: Element?, start2: Element?, n: nat, k: nat, w: nat, ghost r1: Rest, ghost r2: Rest)
    returns (out: seq<nat>)
    requires r1.From(start1) && r2.From(start2)
    ensures out == ListVisits(Masked(AndCompl, w, r1.cs, r2.cs), n, k, w)
  {
    var ptr1, ptr2, wordNum, bitNum := start1, start2, n, k;
    ghost var l1, l2 := r1, r2;
    ghost var all := ListVisits(Masked(AndCompl, w, r1.cs, r2.cs), n, k, w);
    out := [];
    while ptr1 != null
      invariant l1.From(ptr1) && l2.From(ptr2)
      invariant out + ListVisits(Masked(AndCompl, w, l1.cs, l2.cs), wordNum, bitNum, w) == all
      decreases |l1.cs|
    {
      VisitsStep(out, Masked(AndCompl, w, l1.cs, l2.cs), wordNum, bitNum, w, all);
      ptr2, l2 := Advance(ptr2, ptr1.indx, l2);
      var lo, hi := 0, 0;
      if ptr2 != null && ptr2.indx == ptr1.indx {
        lo, hi := ptr2.lo, ptr2.hi;
      }
      var c := Chunk(ptr1.indx, Combine(AndCompl, ptr1.lo, lo, w), Combine(AndCompl, ptr1.hi, hi, w));
      var visits := VisitChunk(c, wordNum, bitNum, w);
      out := out + visits;
      wordNum, bitNum := 0, 0;
      l1 := l1.Tail(ptr1);
      ptr1 := ptr1.next;
    }
  }

  /** `EXECUTE_IF_AND_COMPL_IN_BITMAP`: the members of a that are not in b, from min on. */
  method ExecuteIfAndCompl(a: Bitmap, b: Bitmap, min: nat, w: nat) returns (out: seq<nat>)
    requires a.Valid(w) && b.Valid(w)
    ensures Enumerates(out, a.Set(w) - b.Set(w), min)
  {
    var indx, n0, k0 := Locate(min, w);
    PairVisits(AndCompl, a.chunks, b.chunks, w, indx, n0, k0);
    ListOf(a, w);
    ListOf(b, w);
    ghost var l;
    var ptr, n, k;
    ptr, n, k, l := StartAt(a.first, indx, n0, k0, Rest(a.repr, a.chunks));
    out := VisitAndCompl(ptr, b.first, n, k, w, l, Rest(b.repr, b.chunks));
  }

  /** With nothing left in the second list, there is nothing left to visit. */
  lemma {:induction false} NoPartners(a: seq<Chunk>, n: nat, k: nat, w: nat)
    ensures ListVisits(Masked(And, w, a, []), n, k, w) == []
  {
    if a != [] {
      NoPartners(a[1..], 0, 0, w);
      NoPartner(a[0], n, k, w);
    }
  }

  /** A chunk combined by AND with a missing one has nothing to visit. */
  lemma NoPartner(c: Chunk, n: nat, k: nat, w: nat)
    ensures ChunkVisits(CombineChunks(And, w, c, Chunk(c.indx, 0, 0)), n, k, w) == []
  {
    AndWithZero(c.lo, w);
    AndWithZero(c.hi, w);
    ZeroVisits(k, w, BitNumber(w, c.indx, n, 0));
    ZeroVisits(0, w, BitNumber(w, c.indx, n + 1, 0));
    assert ChunkVisits(Chunk(c.indx, 0, 0), n + 1, 0, w) == [];
  }

  /** An element of the first list, and the first one of the second list that is not before it. */
  method VisitPartners(ptr1: Element, ptr2: Element, n: nat, k: nat, w: nat, ghost c1: Chunk,
      ghost c2: Chunk) returns (out: seq<nat>)
    requires ptr1.Content() == c1 && ptr2.Content() == c2
    ensures out == ChunkVisits(CombineChunks(And, w, c1, HeadAt([c2], c1.indx)), n, k, w)
  {
    NoPartner(c1, n, k, w);
    out := [];
    if ptr2.indx == ptr1.indx {
      var c := Chunk(ptr1.indx, Combine(And, ptr1.lo, ptr2.lo, w), Combine(And, ptr1.hi, ptr2.hi, w));
      out := VisitChunk(c, n, k, w);
    }
  }

  /** The loop of the AND macro: it stops at the end of the second list, and skips an element with no
      partner. */
  method VisitAnd(start1: Element?, start2: Element?, n: nat, k: nat, w: nat, ghost r1: Rest, ghost r2: Rest)
    returns (out: seq<nat>)
    requires r1.From(start1) && r2.From(start2)
    ensures out == ListVisits(Masked(And, w, r1.cs, r2.cs), n, k, w)
  {
    var ptr1, ptr2, wordNum, bitNum := start1, start2, n, k;
    ghost var l1, l2 := r1, r2;
    ghost var all := ListVisits(Masked(And, w, r1.cs, r2.cs), n, k, w);
    out := [];
    while ptr1 != null
      invariant l1.From(ptr1) && l2.From(ptr2)
      invariant out + ListVisits(Masked(And, w, l1.cs, l2.cs), wordNum, bitNum, w) == all
      decreases |l1.cs|
    {
      VisitsStep(out, Masked(And, w, l1.cs, l2.cs), wordNum, bitNum, w, all);
      ptr2, l2 := Advance(ptr2, ptr1.indx, l2);
      if ptr2 == null {
        NoPartner(l1.cs[0], wordNum, bitNum, w);
        NoPartners(l1.cs[1..], 0, 0, w);
        return;
      }
      var visits := VisitPartners(ptr1, ptr2, wordNum, bitNum, w, l1.cs[0], l2.cs[0]);
      out := out + visits;
      wordNum, bitNum := 0, 0;
      l1 := l1.Tail(ptr1);
      ptr1 := ptr1.next;
    }
  }

  /** `EXECUTE_IF_AND_IN_BITMAP`: the members of both, from min on. */
  method ExecuteIfAnd(a: Bitmap, b: Bitmap, min: nat, w: nat) returns (out: seq<nat>)
    requires a.Valid(w) && b.Valid(w)
    ensures Enumerates(out, a.Set(w) * b.Set(w), min)
  {
    var indx, n0, k0 := Locate(min, w);
    PairVisits(And, a.chunks, b.chunks, w, indx, n0, k0);
    ListOf(a, w);
    ListOf(b, w);
    ghost var l;
    var ptr, n, k;
    ptr, n, k, l := StartAt(a.first, indx, n0, k0, Rest(a.repr, a.chunks));
    out := VisitAnd(ptr, b.first, n, k, w, l, Rest(b.repr, b.chunks));
  }
}
