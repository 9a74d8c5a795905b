/** The three-way merge of `bitmap_operation` on chunk sequences, and the set operation it computes. */
module Merge {
  import opened Words
  import opened Chunks

  /** The next chunk number either source has. */
  function MinIndex(a: seq<Chunk>, b: seq<Chunk>): nat
    requires a != [] || b != []
  {
    if b == [] || (a != [] && a[0].indx <= b[0].indx) then a[0].indx else b[0].indx
  }

  /** The first chunk if it is number idx, otherwise the all-zero stand-in for it. */
  function HeadAt(a: seq<Chunk>, idx: nat): Chunk {
    if a != [] && a[0].indx == idx then a[0] else Chunk(idx, 0, 0)
  }

  function TailAt(a: seq<Chunk>, idx: nat): seq<Chunk> {
    if a != [] && a[0].indx == idx then a[1..] else a
  }

  function CombineChunks(op: BitOp, w: nat, x: Chunk, y: Chunk): Chunk {
    Chunk(x.indx, Combine(op, x.lo, y.lo, w), Combine(op, x.hi, y.hi, w))
  }

  function Merged(op: BitOp, w: nat, a: seq<Chunk>, b: seq<Chunk>): seq<Chunk>
    decreases |a| + |b|
  {
    if a == [] && b == [] then []
    else
      var idx := MinIndex(a, b);
      var c := CombineChunks(op, w, HeadAt(a, idx), HeadAt(b, idx));
      var rest := Merged(op, w, TailAt(a, idx), TailAt(b, idx));
      Kept(c) + rest
  }

  /** A chunk with no bits is not linked into the result. */
  function Kept(c: Chunk): seq<Chunk> {
    if c.Zero() then [] else [c]
  }

  ghost predicate AllAbove(cs: seq<Chunk>, idx: int) {
    forall i :: 0 <= i < |cs| ==> idx < cs[i].indx
  }

  lemma TailAbove(a: seq<Chunk>, idx: nat)
    requires Sorted(a) && (a != [] ==> idx <= a[0].indx)
    ensures Sorted(TailAt(a, idx)) && AllAbove(TailAt(a, idx), idx)
  {
  }

  lemma PrependCanonical(c: Chunk, rest: seq<Chunk>, w: nat, low: int)
    requires Canonical(rest, w) && AllAbove(rest, c.indx)
    requires c.Fits(w) && !c.Zero() && low < c.indx
    ensures Canonical([c] + rest, w) && AllAbove([c] + rest, low)
  {
  }

  lemma {:induction false} MergedCanonical(op: BitOp, w: nat, a: seq<Chunk>, b: seq<Chunk>, low: int)
    requires Sorted(a) && Sorted(b) && AllAbove(a, low) && AllAbove(b, low)
    ensures Canonical(Merged(op, w, a, b), w) && AllAbove(Merged(op, w, a, b), low)
    decreases |a| + |b|
  {
    if a != [] || b != [] {
      var idx := MinIndex(a, b);
      TailAbove(a, idx);
      TailAbove(b, idx);
      MergedCanonical(op, w, TailAt(a, idx), TailAt(b, idx), idx);
      var c := CombineChunks(op, w, HeadAt(a, idx), HeadAt(b, idx));
      if !c.Zero() {
        PrependCanonical(c, Merged(op, w, TailAt(a, idx), TailAt(b, idx)), w, low);
      }
    }
  }

  lemma WordAtStep(a: seq<Chunk>, idx: nat, i: nat, n: nat)
    requires Sorted(a) && (a != [] ==> idx <= a[0].indx)
    ensures WordAt(a, i, n) == if i == idx then HeadAt(a, idx).Word(n) else WordAt(TailAt(a, idx), i, n)
    ensures HasIndex(a, i) == if i == idx then a != [] && a[0].indx == idx else HasIndex(TailAt(a, idx), i)
  {
    TailAbove(a, idx);
    if a != [] && a[0].indx == idx {
      assert a[0].indx == idx;
      if HasIndex(a[1..], i) {
        var j :| 0 <= j < |a[1..]| && a[1..][j].indx == i;
        assert a[j + 1].indx == i;
      }
      if HasIndex(a, i) && i != idx {
        var j :| 0 <= j < |a| && a[j].indx == i;
        assert a[1..][j - 1].indx == i;
      }
    } else if i == idx {
      WordAtAbsent(a, idx, n);
    }
  }

  lemma AboveAbsent(cs: seq<Chunk>, idx: nat, n: nat)
    requires AllAbove(cs, idx)
    ensures !HasIndex(cs, idx) && WordAt(cs, idx, n) == 0
  {
  }

  /** Word by word, the merge is the bit operation, on the chunks that either source has. */
  lemma {:induction false} MergedWord(op: BitOp, w: nat, a: seq<Chunk>, b: seq<Chunk>, i: nat, n: nat)
    requires Sorted(a) && Sorted(b)
    ensures WordAt(Merged(op, w, a, b), i, n) ==
            if HasIndex(a, i) || HasIndex(b, i) then Combine(op, WordAt(a, i, n), WordAt(b, i, n), w) else 0
    decreases |a| + |b|
  {
    if a != [] || b != [] {
      var idx := MinIndex(a, b);
      WordAtStep(a, idx, i, n);
      WordAtStep(b, idx, i, n);
      MergedStep(op, w, a, b, i, n);
      if i == idx {
        assert HasIndex(a, i) || HasIndex(b, i);
      } else {
        TailAbove(a, idx);
        TailAbove(b, idx);
        MergedWord(op, w, TailAt(a, idx), TailAt(b, idx), i, n);
      }
    }
  }

  lemma MergedStep(op: BitOp, w: nat, a: seq<Chunk>, b: seq<Chunk>, i: nat, n: nat)
    requires Sorted(a) && Sorted(b) && (a != [] || b != [])
    ensures var idx := MinIndex(a, b);
            WordAt(Merged(op, w, a, b), i, n) ==
            if i == idx then CombineChunks(op, w, HeadAt(a, idx), HeadAt(b, idx)).Word(n)
            else WordAt(Merged(op, w, TailAt(a, idx), TailAt(b, idx)), i, n)
  {
    var idx := MinIndex(a, b);
    TailAbove(a, idx);
    TailAbove(b, idx);
    MergedCanonical(op, w, TailAt(a, idx), TailAt(b, idx), idx);
    WordAtKept(CombineChunks(op, w, HeadAt(a, idx), HeadAt(b, idx)), Merged(op, w, TailAt(a, idx), TailAt(b, idx)),
        i, n);
  }

  lemma WordAtKept(c: Chunk, rest: seq<Chunk>, i: nat, n: nat)
    requires AllAbove(rest, c.indx)
    ensures WordAt(Kept(c) + rest, i, n) == if i == c.indx then c.Word(n) else WordAt(rest, i, n)
  {
    AboveAbsent(rest, c.indx, n);
    assert if c.Zero() then Kept(c) + rest == rest else (Kept(c) + rest)[1..] == rest;
  }

  lemma MergedBit(op: BitOp, w: nat, a: seq<Chunk>, b: seq<Chunk>, i: nat, n: nat, k: nat)
    requires k < w && Sorted(a) && Sorted(b)
    ensures Bit(WordAt(Merged(op, w, a, b), i, n), k) ==
            (OpBit(op, Bit(WordAt(a, i, n), k), Bit(WordAt(b, i, n), k))
             && (op == IorCompl ==> HasIndex(a, i) || HasIndex(b, i)))
    ensures Bit(WordAt(a, i, n), k) ==> HasIndex(a, i)
  {
    MergedWord(op, w, a, b, i, n);
    CombineBit(op, WordAt(a, i, n), WordAt(b, i, n), w, k);
    if !HasIndex(a, i) { WordAtAbsent(a, i, n); }
    if !HasIndex(b, i) { WordAtAbsent(b, i, n); }
    ZeroBits(k);
  }

  /** The bit numbers of the chunks that either source has. */
  ghost function Covered(a: seq<Chunk>, b: seq<Chunk>, w: nat): iset<nat>
    requires w > 0
  {
    iset bit: nat | HasIndex(a, bit / (2 * w)) || HasIndex(b, bit / (2 * w))
  }

  /** The set each operation stands for; the complement of IOR_COMPL reaches no further than the
      chunks that are present. */
  ghost function SetOp(op: BitOp, w: nat, a: seq<Chunk>, b: seq<Chunk>): iset<nat>
    requires w > 0
  {
    var x, y := Members(a, w), Members(b, w);
    match op
    case And => x * y
    case AndCompl => x - y
    case Ior => x + y
    case Xor => (x - y) + (y - x)
    case IorCompl => x + (Covered(a, b, w) - y)
  }

  /** One bit number: bit k of word n of chunk i. */
  lemma MergedMember(op: BitOp, w: nat, a: seq<Chunk>, b: seq<Chunk>, bit: nat, i: nat, n: nat, k: nat)
    requires k < w && Sorted(a) && Sorted(b)
    requires Has(a, w, bit) == Bit(WordAt(a, i, n), k) && Has(b, w, bit) == Bit(WordAt(b, i, n), k)
    requires Has(Merged(op, w, a, b), w, bit) == Bit(WordAt(Merged(op, w, a, b), i, n), k)
    requires bit in Covered(a, b, w) <==> HasIndex(a, i) || HasIndex(b, i)
    ensures bit in Members(Merged(op, w, a, b), w) <==> bit in SetOp(op, w, a, b)
  {
    MergedBit(op, w, a, b, i, n, k);
    assert bit in Members(a, w) <==> Has(a, w, bit);
    assert bit in Members(b, w) <==> Has(b, w, bit);
  }

  lemma MergedMembers(op: BitOp, w: nat, a: seq<Chunk>, b: seq<Chunk>)
    requires w > 0 && Sorted(a) && Sorted(b)
    ensures Members(Merged(op, w, a, b), w) == SetOp(op, w, a, b)
  {
    forall bit: nat
      ensures bit in Members(Merged(op, w, a, b), w) <==> bit in SetOp(op, w, a, b)
    {
      MergedMemberOf(op, w, a, b, bit);
    }
  }

  lemma MergedMemberOf(op: BitOp, w: nat, a: seq<Chunk>, b: seq<Chunk>, bit: nat)
    requires w > 0 && Sorted(a) && Sorted(b)
    ensures bit in Members(Merged(op, w, a, b), w) <==> bit in SetOp(op, w, a, b)
  {
    MergedMember(op, w, a, b, bit, bit / (2 * w), bit / w % 2, bit % w);
  }

  /** What is left of TO after discarding the chunks numbered below idx. */
  function Skip(cs: seq<Chunk>, idx: nat): (r: seq<Chunk>)
    ensures r != [] ==> idx <= r[0].indx
  {
    if cs != [] && cs[0].indx < idx then Skip(cs[1..], idx) else cs
  }

  /** The chunk the operation makes of the chunks numbered idx. */
  function Result(op: BitOp, w: nat, a: seq<Chunk>, b: seq<Chunk>, idx: nat): Chunk {
    CombineChunks(op, w, HeadAt(a, idx), HeadAt(b, idx))
  }

  /** The test behind `changed`: TO skips a chunk, or its words differ from the result. */
  predicate Differs(t: seq<Chunk>, c: Chunk) {
    Skip(t, c.indx) != t || c != HeadAt(t, c.indx)
  }

  /** If one turn sees a difference, the merge of what is left is not what is left of TO. */
  lemma DifferenceShows(op: BitOp, w: nat, a: seq<Chunk>, b: seq<Chunk>, t: seq<Chunk>)
    requires Sorted(a) && Sorted(b) && (a != [] || b != [])
    requires Differs(t, Result(op, w, a, b, MinIndex(a, b)))
    ensures Merged(op, w, a, b) != t
  {
  }

  /** If it does not, TO's next chunk, or its absence, is the result. */
  lemma NoDifference(t: seq<Chunk>, c: Chunk, w: nat)
    requires Canonical(t, w) && !Differs(t, c)
    ensures t == Kept(c) + TailAt(t, c.indx)
  {
  }

  /** The loop's place: `out` is built, a, b and t are left of the sources and of TO, `changed` is the
      flag so far. */
  datatype Place = Place(out: seq<Chunk>, a: seq<Chunk>, b: seq<Chunk>, t: seq<Chunk>, changed: bool) {
    predicate Done() {
      a == [] && b == []
    }

    function Index(): nat
      requires !Done()
    {
      MinIndex(a, b)
    }

    /** The number of chunks that are left of the sources. */
    function Left(): nat {
      |a| + |b|
    }

    /** What one turn of the loop does: it takes a chunk from at least one source. */
    function Next(op: BitOp, w: nat): (next: Place)
      requires !Done()
      ensures next.Left() < Left()
    {
      var idx := Index();
      var c := Result(op, w, a, b, idx);
      Place(out + Kept(c), TailAt(a, idx), TailAt(b, idx), TailAt(Skip(t, idx), idx), changed || Differs(t, c))
    }

    function Final(op: BitOp, w: nat): Place
      decreases Left()
    {
      if Done() then this else Next(op, w).Final(op, w)
    }

    /** Every chunk still to come is numbered above all that are built, and below the limit. */
    ghost predicate Ascending(op: BitOp, w: nat, limit: nat)
      decreases Left()
    {
      Done() ||
      (&& Index() < limit
       && (forall i :: 0 <= i < |out| ==> out[i].indx < Index())
       && Next(op, w).Ascending(op, w, limit))
    }
  }

  ghost predicate Below(cs: seq<Chunk>, limit: nat) {
    forall i :: 0 <= i < |cs| ==> cs[i].indx < limit
  }

  /** What the loop keeps: `result` is what will be built, `was` is what TO held, and `changed` tells
      whether a difference between them has been seen. */
  ghost predicate Midway(op: BitOp, w: nat, p: Place, result: seq<Chunk>, was: seq<Chunk>) {
    && Sorted(p.a) && Sorted(p.b) && Canonical(p.t, w)
    && p.out + Merged(op, w, p.a, p.b) == result
    && (if p.changed then result != was else p.out + p.t == was)
    && (forall i :: 0 <= i < |p.out| ==> AllAbove(p.a, p.out[i].indx) && AllAbove(p.b, p.out[i].indx))
  }

  lemma TargetCanonical(t: seq<Chunk>, w: nat, idx: nat)
    requires Canonical(t, w)
    ensures Canonical(TailAt(Skip(t, idx), idx), w)
  {
  }

  lemma TurnKeepsPlace(op: BitOp, w: nat, p: Place, result: seq<Chunk>, was: seq<Chunk>)
    requires Midway(op, w, p, result, was) && !p.Done()
    ensures Midway(op, w, p.Next(op, w), result, was)
  {
    var idx := p.Index();
    var c := Result(op, w, p.a, p.b, idx);
    TailAbove(p.a, idx);
    TailAbove(p.b, idx);
    TargetCanonical(p.t, w, idx);
    Regroup(p.out, Kept(c), Merged(op, w, TailAt(p.a, idx), TailAt(p.b, idx)));
    if !p.changed {
      if Differs(p.t, c) {
        DifferenceShows(op, w, p.a, p.b, p.t);
        SamePrefix(p.out, Merged(op, w, p.a, p.b), p.t);
      } else {
        NoDifference(p.t, c, w);
        Regroup(p.out, Kept(c), TailAt(p.t, idx));
      }
    }
    OutBelow(p.out, c, TailAt(p.a, idx), p.a);
    OutBelow(p.out, c, TailAt(p.b, idx), p.b);
  }

  lemma OutBelow(out: seq<Chunk>, c: Chunk, rest: seq<Chunk>, a: seq<Chunk>)
    requires AllAbove(rest, c.indx) && (rest == a || (a != [] && rest == a[1..]))
    requires forall i :: 0 <= i < |out| ==> AllAbove(a, out[i].indx)
    ensures forall i :: 0 <= i < |out + Kept(c)| ==> AllAbove(rest, (out + Kept(c))[i].indx)
  {
  }

  /** The whole run of the loop: it builds the merge, and if no turn saw a difference, what TO was
      is the merge followed by what is left of TO. */
  lemma {:induction false} FinalPlace(op: BitOp, w: nat, p: Place, result: seq<Chunk>, was: seq<Chunk>, limit: nat)
    requires Midway(op, w, p, result, was) && Below(p.a, limit) && Below(p.b, limit)
    ensures p.Ascending(op, w, limit)
    ensures var f := p.Final(op, w);
            f.out == result && (if f.changed then result != was else f.out + f.t == was)
    decreases p.Left()
  {
    if p.Done() {
      assert p.out + Merged(op, w, p.a, p.b) == p.out;
    } else {
      TurnKeepsPlace(op, w, p, result, was);
      assert p.a != [] ==> p.a[0].indx < limit;
      assert p.b != [] ==> p.b[0].indx < limit;
      forall i | 0 <= i < |p.out| ensures p.out[i].indx < p.Index() {
        assert AllAbove(p.a, p.out[i].indx) && AllAbove(p.b, p.out[i].indx);
      }
      FinalPlace(op, w, p.Next(op, w), result, was, limit);
    }
  }

  lemma Regroup(x: seq<Chunk>, y: seq<Chunk>, z: seq<Chunk>)
    ensures x + (y + z) == x + y + z
  {
  }

  lemma SamePrefix(out: seq<Chunk>, x: seq<Chunk>, y: seq<Chunk>)
    requires x != y
    ensures out + x != out + y
  {
    assert (out + x)[|out|..] == x && (out + y)[|out|..] == y;
  }

  /** The run from the start: it builds the set operation on what the sources denote, and the flag,
      with what is left of TO, tells whether that differs from the set TO denoted. */
  lemma WholeRun(op: BitOp, w: nat, a: seq<Chunk>, b: seq<Chunk>, t: seq<Chunk>, limit: nat)
    requires w > 0 && Canonical(a, w) && Canonical(b, w) && Canonical(t, w) && Below(a, limit) && Below(b, limit)
    ensures Place([], a, b, t, false).Ascending(op, w, limit)
    ensures var f := Place([], a, b, t, false).Final(op, w);
            && Members(f.out, w) == SetOp(op, w, a, b)
            && (f.changed || f.t != [] <==> Members(f.out, w) != Members(t, w))
  {
    var p := Place([], a, b, t, false);
    assert [] + Merged(op, w, a, b) == Merged(op, w, a, b) && [] + t == t;
    FinalPlace(op, w, p, Merged(op, w, a, b), t, limit);
    MergedCanonical(op, w, a, b, -1);
    MergedMembers(op, w, a, b);
    AnswerIs(p.Final(op, w), t, w);
  }

  lemma AnswerIs(f: Place, was: seq<Chunk>, w: nat)
    requires w > 0 && Canonical(f.out, w) && Canonical(was, w)
    requires if f.changed then f.out != was else f.out + f.t == was
    ensures f.changed || f.t != [] <==> Members(f.out, w) != Members(was, w)
  {
    CanonicalUnique(f.out, was, w);
    if !f.changed && f.t == [] { assert f.out + [] == f.out; }
  }
}
