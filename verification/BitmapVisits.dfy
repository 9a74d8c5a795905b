/** The order in which the iteration macros visit bits, on the values of the lists, and the set that
    is visited. */
module BitmapVisits {
  import opened Words
  import opened Chunks
  import opened Merge

  ghost predicate Ascending(s: seq<nat>) {
    forall i, j :: 0 <= i < j < |s| ==> s[i] < s[j]
  }

  /** s lists the members of x from lo on, each once, in ascending order. */
  ghost predicate Enumerates(s: seq<nat>, x: iset<nat>, lo: nat) {
    Ascending(s) && forall b: nat :: b in s <==> b in x && lo <= b
  }

  lemma Joined(x: seq<nat>, y: seq<nat>, m: nat)
    requires Ascending(x) && Ascending(y)
    requires (forall b :: b in x ==> b < m) && (forall b :: b in y ==> m <= b)
    ensures Ascending(x + y)
  {
    forall i, j | 0 <= i < j < |x + y| ensures (x + y)[i] < (x + y)[j] {
      if i < |x| { assert x[i] in x; }
      if j >= |x| { assert y[j - |x|] in y; }
    }
  }

  /** The one bits of a word, from bit k on. */
  function WordVisits(word: nat, k: nat, w: nat, base: nat): seq<nat>
    decreases w - k
  {
    if k >= w then [] else (if Bit(word, k) then [base + k] else []) + WordVisits(word, k + 1, w, base)
  }

  /** The one bits of a chunk, from bit k of word n on. */
  function ChunkVisits(c: Chunk, n: nat, k: nat, w: nat): seq<nat>
    decreases 2 - n
  {
    if n >= 2 then [] else WordVisits(c.Word(n), k, w, BitNumber(w, c.indx, n, 0)) + ChunkVisits(c, n + 1, 0, w)
  }

  /** The one bits of a list of chunks, from bit k of word n of the first one on. */
  function ListVisits(cs: seq<Chunk>, n: nat, k: nat, w: nat): seq<nat> {
    if cs == [] then [] else ChunkVisits(cs[0], n, k, w) + ListVisits(cs[1..], 0, 0, w)
  }

  lemma {:induction false} WordVisitsExact(word: nat, k: nat, w: nat, base: nat)
    ensures Ascending(WordVisits(word, k, w, base))
    ensures forall b: nat :: b in WordVisits(word, k, w, base) <==> base + k <= b < base + w && Bit(word, b - base)
    decreases w - k
  {
    if k < w {
      WordVisitsExact(word, k + 1, w, base);
      Joined(if Bit(word, k) then [base + k] else [], WordVisits(word, k + 1, w, base), base + k + 1);
    }
  }

  /** Both words of a chunk, lo and hi being the numbers of their first bits. */
  lemma ChunkVisitsExact(c: Chunk, n: nat, k: nat, w: nat, n': nat, k': nat)
    requires n < 2 && k < w && n' < 2 && k' < w
    ensures Ascending(ChunkVisits(c, n, k, w))
    ensures forall b :: b in ChunkVisits(c, n, k, w) ==>
            BitNumber(w, c.indx, 0, 0) <= b < BitNumber(w, c.indx + 1, 0, 0)
    ensures BitNumber(w, c.indx, n', k') in ChunkVisits(c, n, k, w) <==>
            Bit(c.Word(n'), k') && (n < n' || (n == n' && k <= k'))
  {
    NumbersInChunk(w, c.indx, n', k');
    ChunkVisitsWords(c, n, k, w);
    TwoWords(c, n, k, w, BitNumber(w, c.indx, 0, 0), BitNumber(w, c.indx, 1, 0), n', k',
             BitNumber(w, c.indx, n', k'), ChunkVisits(c, n, k, w));
  }

  lemma NumbersInChunk(w: nat, i: nat, n: nat, k: nat)
    requires n < 2
    ensures BitNumber(w, i, 1, 0) == BitNumber(w, i, 0, 0) + w && BitNumber(w, i + 1, 0, 0) == BitNumber(w, i, 1, 0) + w
    ensures BitNumber(w, i, n, k) == (if n == 0 then BitNumber(w, i, 0, 0) else BitNumber(w, i, 1, 0)) + k
  {
  }

  lemma ChunkVisitsWords(c: Chunk, n: nat, k: nat, w: nat)
    requires n < 2
    ensures var lo, hi := BitNumber(w, c.indx, 0, 0), BitNumber(w, c.indx, 1, 0);
            ChunkVisits(c, n, k, w) ==
            if n == 0 then WordVisits(c.lo, k, w, lo) + WordVisits(c.hi, 0, w, hi) else WordVisits(c.hi, k, w, hi)
  {
  }

  lemma TwoWords(c: Chunk, n: nat, k: nat, w: nat, lo: nat, hi: nat, n': nat, k': nat, b: nat, visits: seq<nat>)
    requires n < 2 && k < w && n' < 2 && k' < w && hi == lo + w && b == (if n' == 0 then lo else hi) + k'
    requires visits == if n == 0 then
             WordVisits(c.lo, k, w, lo) + WordVisits(c.hi, 0, w, hi) else WordVisits(c.hi, k, w, hi)
    ensures Ascending(visits) && (forall b :: b in visits ==> lo <= b < hi + w)
    ensures b in visits <==> Bit(c.Word(n'), k') && (n < n' || (n == n' && k <= k'))
  {
    if n == 0 {
      WordVisitsExact(c.lo, k, w, lo);
      WordVisitsExact(c.hi, 0, w, hi);
      Joined(WordVisits(c.lo, k, w, lo), WordVisits(c.hi, 0, w, hi), hi);
    } else {
      WordVisitsExact(c.hi, k, w, hi);
    }
  }

  /** Whether bit k' of word n' of chunk idx is at or after bit k of word n of the first chunk. */
  predicate AtOrAfter(cs: seq<Chunk>, n: nat, k: nat, idx: nat, n': nat, k': nat) {
    cs != [] && (cs[0].indx < idx || (cs[0].indx == idx && (n < n' || (n == n' && k <= k'))))
  }

  /** No bit of another chunk is visited with chunk c. */
  lemma ChunkVisitsOther(c: Chunk, n: nat, k: nat, w: nat, idx: nat, n': nat, k': nat)
    requires n < 2 && k < w && n' < 2 && k' < w && idx != c.indx
    ensures BitNumber(w, idx, n', k') !in ChunkVisits(c, n, k, w)
  {
    ChunkVisitsExact(c, n, k, w, 0, 0);
    BitNumberOrder(w, idx, n', k', c.indx, 0, 0);
    BitNumberOrder(w, idx, n', k', c.indx + 1, 0, 0);
  }

  lemma {:induction false} ListVisitsAscend(cs: seq<Chunk>, n: nat, k: nat, w: nat)
    requires Sorted(cs) && n < 2 && k < w
    ensures Ascending(ListVisits(cs, n, k, w))
    ensures forall b :: b in ListVisits(cs, n, k, w) ==> cs != [] && BitNumber(w, cs[0].indx, 0, 0) <= b
  {
    if cs != [] {
      var c, rest := cs[0], cs[1..];
      ListVisitsAscend(rest, 0, 0, w);
      ChunkVisitsExact(c, n, k, w, 0, 0);
      var m := BitNumber(w, c.indx + 1, 0, 0);
      BitNumberOrder(w, c.indx + 1, 0, 0, c.indx, 0, 0);
      if rest != [] { BitNumberOrder(w, rest[0].indx, 0, 0, c.indx + 1, 0, 0); }
      Joined(ChunkVisits(c, n, k, w), ListVisits(rest, 0, 0, w), m);
    }
  }

  lemma {:induction false} ListVisitsExact(cs: seq<Chunk>, n: nat, k: nat, w: nat, idx: nat, n': nat, k': nat)
    requires Sorted(cs) && n < 2 && k < w && n' < 2 && k' < w
    ensures BitNumber(w, idx, n', k') in ListVisits(cs, n, k, w) <==>
            Bit(WordAt(cs, idx, n'), k') && AtOrAfter(cs, n, k, idx, n', k')
  {
    if cs != [] {
      ListVisitsExact(cs[1..], 0, 0, w, idx, n', k');
      RestStarts(cs, idx, n', k');
      if idx == cs[0].indx {
        ChunkVisitsExact(cs[0], n, k, w, n', k');
      } else {
        ChunkVisitsOther(cs[0], n, k, w, idx, n', k');
      }
    }
  }

  /** A bit of a chunk after the first is at or after the start of the second. */
  lemma RestStarts(cs: seq<Chunk>, idx: nat, n: nat, k: nat)
    requires Sorted(cs) && cs != []
    ensures Bit(WordAt(cs[1..], idx, n), k) ==> cs[0].indx < idx && AtOrAfter(cs[1..], 0, 0, idx, n, k)
  {
    if !HasIndex(cs[1..], idx) {
      WordAtAbsent(cs[1..], idx, n);
      ZeroBits(k);
    } else {
      var j :| 0 <= j < |cs[1..]| && cs[1..][j].indx == idx;
      assert cs[j + 1].indx == idx;
    }
  }

  /** The chunks of a, each combined with the chunk of b that has the same number: b's list is followed
      alongside a's. */
  function Masked(op: BitOp, w: nat, a: seq<Chunk>, b: seq<Chunk>): seq<Chunk> {
    if a == [] then []
    else
      var rest := Skip(b, a[0].indx);
      [CombineChunks(op, w, a[0], HeadAt(rest, a[0].indx))] + Masked(op, w, a[1..], rest)
  }

  lemma {:induction false} SkipWord(cs: seq<Chunk>, idx: nat, i: nat, n: nat)
    requires Sorted(cs)
    ensures Sorted(Skip(cs, idx))
    ensures WordAt(Skip(cs, idx), i, n) == if i < idx then 0 else WordAt(cs, i, n)
  {
    if cs != [] && cs[0].indx < idx {
      SkipWord(cs[1..], idx, i, n);
    } else if i < idx {
      forall j | 0 <= j < |cs| ensures cs[j].indx != i { assert j == 0 || cs[0].indx < cs[j].indx; }
      WordAtAbsent(cs, i, n);
    }
  }

  lemma {:induction false} MaskedNumbers(op: BitOp, w: nat, a: seq<Chunk>, b: seq<Chunk>)
    ensures |Masked(op, w, a, b)| == |a| && forall j :: 0 <= j < |a| ==> Masked(op, w, a, b)[j].indx == a[j].indx
  {
    if a != [] { MaskedNumbers(op, w, a[1..], Skip(b, a[0].indx)); }
  }

  lemma {:induction false} MaskedWord(op: BitOp, w: nat, a: seq<Chunk>, b: seq<Chunk>, i: nat, n: nat)
    requires Sorted(a) && Sorted(b)
    ensures WordAt(Masked(op, w, a, b), i, n) ==
            if HasIndex(a, i) then Combine(op, WordAt(a, i, n), WordAt(b, i, n), w) else 0
  {
    if a != [] {
      var idx := a[0].indx;
      var rest := Skip(b, idx);
      SkipWord(b, idx, i, n);
      MaskedWord(op, w, a[1..], rest, i, n);
      WordAtStep(a, idx, i, n);
      WordAtStep(rest, idx, i, n);
      assert Masked(op, w, a, b)[1..] == Masked(op, w, a[1..], rest);
      AfterFirst(a, i);
    }
  }

  lemma AfterFirst(a: seq<Chunk>, i: nat)
    requires Sorted(a) && a != []
    ensures HasIndex(a[1..], i) ==> a[0].indx < i
  {
  }

  /** A bit of the combination, for the operators that need the bit in the first bitmap. */
  lemma MaskedBit(op: BitOp, w: nat, a: seq<Chunk>, b: seq<Chunk>, i: nat, n: nat, k: nat)
    requires (op == And || op == AndCompl) && k < w && Sorted(a) && Sorted(b)
    ensures Bit(WordAt(Masked(op, w, a, b), i, n), k) == OpBit(op, Bit(WordAt(a, i, n), k), Bit(WordAt(b, i, n), k))
  {
    MaskedWord(op, w, a, b, i, n);
    CombineBit(op, WordAt(a, i, n), WordAt(b, i, n), w, k);
    if !HasIndex(a, i) { WordAtAbsent(a, i, n); }
    ZeroBits(k);
  }

  /** Where the visit starts: at bit MIN if its chunk is there, otherwise at the start of the next one. */
  function StartWord(cs: seq<Chunk>, idx: nat, n: nat): nat {
    if cs != [] && cs[0].indx != idx then 0 else n
  }

  /** Visiting ds, whose chunks are numbered like those of a list from chunk idx on, visits exactly the
      members of x from bit k of word n of chunk idx on. */
  lemma VisitsFrom(ds: seq<Chunk>, x: iset<nat>, w: nat, idx: nat, n: nat, k: nat)
    requires n < 2 && k < w && Sorted(ds) && (ds != [] ==> idx <= ds[0].indx)
    requires forall i: nat, n': nat, k': nat :: n' < 2 && k' < w && idx <= i ==>
               (BitNumber(w, i, n', k') in x <==> Bit(WordAt(ds, i, n'), k'))
    ensures Enumerates(ListVisits(ds, StartWord(ds, idx, n), StartWord(ds, idx, k), w), x, BitNumber(w, idx, n, k))
  {
    var sn, sk := StartWord(ds, idx, n), StartWord(ds, idx, k);
    ListVisitsAscend(ds, sn, sk, w);
    forall b: nat ensures b in ListVisits(ds, sn, sk, w) <==> b in x && BitNumber(w, idx, n, k) <= b {
      SplitBitNumber(w, b);
      VisitsFromAt(ds, x, w, idx, n, k, b / (2 * w), b / w % 2, b % w);
    }
  }

  lemma VisitsFromAt(ds: seq<Chunk>, x: iset<nat>, w: nat, idx: nat, n: nat, k: nat, i: nat, n': nat, k': nat)
    requires n < 2 && k < w && n' < 2 && k' < w && Sorted(ds) && (ds != [] ==> idx <= ds[0].indx)
    requires idx <= i ==> (BitNumber(w, i, n', k') in x <==> Bit(WordAt(ds, i, n'), k'))
    ensures BitNumber(w, i, n', k') in ListVisits(ds, StartWord(ds, idx, n), StartWord(ds, idx, k), w) <==>
            BitNumber(w, i, n', k') in x && BitNumber(w, idx, n, k) <= BitNumber(w, i, n', k')
  {
    ListVisitsExact(ds, StartWord(ds, idx, n), StartWord(ds, idx, k), w, i, n', k');
    BitNumberOrder(w, i, n', k', idx, n, k);
    if ds == [] {
      ZeroBits(k');
    } else {
      RestStarts(ds, i, n', k');
      if i < ds[0].indx {
        SkipWord(ds, ds[0].indx, i, n');
        assert Skip(ds, ds[0].indx) == ds;
        ZeroBits(k');
      }
    }
  }
}
