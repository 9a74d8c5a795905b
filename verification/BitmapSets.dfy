/** The bitmap functions built from the list primitives and `bitmap_operation`: clear, copy, equality,
    TO | (A & ~B) and A | (B & ~C). */
module BitmapSets {
  import opened Words
  import opened Chunks
  import opened Merge
  import opened Bitmaps
  import opened BitmapOperation

  /** The loop of `bitmap_clear`: put every element of a list on the free list. */
  method ReleaseAll(first: Element?, pool: Pool, ghost l: Rest)
    requires l.From(first) && pool.Valid() && l.r !! pool.repr
    modifies pool, l.r`next
    ensures pool.Valid() && pool.repr == old(pool.repr) + l.r
  {
    var element := first;
    ghost var rest := l;
    while element != null
      invariant rest.From(element) && pool.Valid() && rest.r !! pool.repr && rest.r <= l.r
      invariant pool.repr + rest.r == old(pool.repr) + l.r
      decreases |rest.cs|
    {
      rest := rest.Tail(element);
      var next := element.next;
      pool.Release(element);
      element := next;
    }
  }

  /** `bitmap_clear` */
  method Clear(head: Bitmap, pool: Pool)
    requires head.Valid(pool.w) && pool.Valid() && head.repr !! pool.repr
    modifies head, head.repr, pool
    ensures head.Valid(pool.w) && pool.Valid()
    ensures head.repr == {} && pool.repr == old(pool.repr) + old(head.repr)
    ensures head.chunks == []
  {
    ListOf(head, pool.w);
    ReleaseAll(head.first, pool, Rest(head.repr, head.chunks));
    head.first := null;
    head.SetEmpty(pool.w);
  }

  /** A temporary bitmap holding the XOR of two, and whether it has any bits. */
  method Compare(a: Bitmap, b: Bitmap, pool: Pool) returns (c: Bitmap, changed: bool)
    requires a.Valid(pool.w) && b.Valid(pool.w) && pool.Valid() && a.repr !! pool.repr && b.repr !! pool.repr
    modifies pool, pool.repr
    ensures fresh(c) && c.Valid(pool.w) && pool.Valid() && c.repr !! pool.repr
    ensures changed <==> a.Set(pool.w) != b.Set(pool.w)
    ensures Accounted(old(pool.repr), c.repr + pool.repr)
  {
    c := new Bitmap(pool.w);
    EmptyDenotesEmpty(pool.w);
    XorEmpty(a.Set(pool.w), b.Set(pool.w));
    changed := Operation(c, a, b, Xor, pool);
  }

  /** `bitmap_equal_p`: the two are compared by merging them with XOR into a third. */
  method Equal(a: Bitmap, b: Bitmap, pool: Pool) returns (ret: bool)
    requires a.Valid(pool.w) && b.Valid(pool.w) && pool.Valid() && a.repr !! pool.repr && b.repr !! pool.repr
    modifies pool, pool.repr
    ensures pool.Valid()
    ensures ret <==> a.Set(pool.w) == b.Set(pool.w)
    ensures Accounted(old(pool.repr), pool.repr)
  {
    var c, changed := Compare(a, b, pool);
    ret := !changed;
    Clear(c, pool);
  }

  lemma XorEmpty(a: iset<nat>, b: iset<nat>)
    ensures (a - b) + (b - a) == iset{} <==> a == b
  {
  }

  /** The element lists of two bitmaps are the same one or apart, and neither has a free element. */
  ghost predicate Together(to: Bitmap, from: Bitmap, pool: Pool)
    reads to, from, pool
  {
    (from == to || from.repr !! to.repr) && to.repr !! pool.repr && from.repr !! pool.repr
  }

  /** A temporary bitmap holding B & ~C. */
  method Difference(b: Bitmap, c: Bitmap, pool: Pool) returns (tmp: Bitmap)
    requires b.Valid(pool.w) && c.Valid(pool.w) && pool.Valid() && b.repr !! pool.repr && c.repr !! pool.repr
    modifies pool, pool.repr
    ensures fresh(tmp) && tmp.Valid(pool.w) && pool.Valid() && tmp.repr !! pool.repr
    ensures tmp.Set(pool.w) == old(b.Set(pool.w) - c.Set(pool.w))
    ensures Accounted(old(pool.repr), tmp.repr + pool.repr)
  {
    tmp := new Bitmap(pool.w);
    var _ := Operation(tmp, b, c, AndCompl, pool);
  }

  /** TO becomes FROM1 | FROM2; the temporary TMP is left alone. */
  method OrBeside(to: Bitmap, from1: Bitmap, from2: Bitmap, tmp: Bitmap, pool: Pool) returns (changed: bool)
    requires to.Valid(pool.w) && from1.Valid(pool.w) && from2.Valid(pool.w) && tmp.Valid(pool.w) && pool.Valid()
    requires Together(to, from1, pool) && Together(to, from2, pool)
    requires tmp != to && tmp.repr !! to.repr && tmp.repr !! pool.repr
    modifies to, to.repr, pool, pool.repr
    ensures to.Valid(pool.w) && tmp.Valid(pool.w) && pool.Valid() && to.repr !! pool.repr
    ensures tmp.repr !! to.repr && tmp.repr !! pool.repr
    ensures to.Set(pool.w) == old(from1.Set(pool.w)) + old(from2.Set(pool.w))
    ensures changed <==> to.Set(pool.w) != old(to.Set(pool.w))
    ensures Accounted(old(to.repr + pool.repr + tmp.repr), to.repr + pool.repr + tmp.repr)
  {
    changed := Operation(to, from1, from2, Ior, pool);
    tmp.Untouched(pool.w);
  }

  /** TO becomes A | TMP, and the elements of the temporary TMP are freed. */
  method OrTemporary(to: Bitmap, tmp: Bitmap, a: Bitmap, pool: Pool) returns (changed: bool)
    requires to.Valid(pool.w) && tmp.Valid(pool.w) && a.Valid(pool.w) && pool.Valid()
    requires Together(to, a, pool) && tmp != to && tmp != a && tmp.repr !! to.repr && tmp.repr !! pool.repr
    modifies to, to.repr, tmp, tmp.repr, pool, pool.repr
    ensures to.Valid(pool.w) && pool.Valid() && to.repr !! pool.repr
    ensures to.Set(pool.w) == old(tmp.Set(pool.w)) + old(a.Set(pool.w))
    ensures changed <==> to.Set(pool.w) != old(to.Set(pool.w))
    ensures Accounted(old(to.repr + pool.repr + tmp.repr), to.repr + pool.repr)
  {
    changed := OrBeside(to, tmp, a, tmp, pool);
    ClearBeside(tmp, to, pool);
  }

  /** Clearing a bitmap leaves another one alone. */
  method ClearBeside(tmp: Bitmap, to: Bitmap, pool: Pool)
    requires tmp.Valid(pool.w) && to.Valid(pool.w) && pool.Valid() && tmp != to
    requires tmp.repr !! pool.repr && to.repr !! pool.repr && tmp.repr !! to.repr
    modifies tmp, tmp.repr, pool
    ensures to.Valid(pool.w) && pool.Valid() && to.repr !! pool.repr
    ensures to.repr + pool.repr == old(to.repr + pool.repr + tmp.repr)
  {
    Clear(tmp, pool);
    to.Untouched(pool.w);
  }

  /** That temporary, made beside two bitmaps that are left alone. */
  method DifferenceBeside(b: Bitmap, c: Bitmap, dst: Bitmap, a: Bitmap, pool: Pool) returns (tmp: Bitmap)
    requires b.Valid(pool.w) && c.Valid(pool.w) && pool.Valid() && b.repr !! pool.repr && c.repr !! pool.repr
    requires dst.Valid(pool.w) && a.Valid(pool.w) && Together(dst, a, pool)
    modifies pool, pool.repr
    ensures fresh(tmp) && tmp.Valid(pool.w) && pool.Valid() && dst.Valid(pool.w) && a.Valid(pool.w)
    ensures Together(dst, a, pool) && tmp.repr !! dst.repr && tmp.repr !! pool.repr
    ensures tmp.Set(pool.w) == old(b.Set(pool.w) - c.Set(pool.w))
    ensures Accounted(old(pool.repr), tmp.repr + pool.repr)
  {
    tmp := Difference(b, c, pool);
    dst.Untouched(pool.w);
    a.Untouched(pool.w);
  }

  /** `bitmap_union_of_diff`: DST becomes A | (B & ~C), whichever of the four are the same bitmap. */
  method UnionOfDiff(dst: Bitmap, a: Bitmap, b: Bitmap, c: Bitmap, pool: Pool) returns (changed: bool)
    requires dst.Valid(pool.w) && a.Valid(pool.w) && b.Valid(pool.w) && c.Valid(pool.w) && pool.Valid()
    requires Together(dst, a, pool) && Together(dst, b, pool) && Together(dst, c, pool)
    modifies dst, dst.repr, pool, pool.repr
    ensures dst.Valid(pool.w) && pool.Valid() && dst.repr !! pool.repr
    ensures dst.Set(pool.w) == old(b.Set(pool.w) - c.Set(pool.w)) + old(a.Set(pool.w))
    ensures changed <==> dst.Set(pool.w) != old(dst.Set(pool.w))
    ensures Accounted(old(dst.repr + pool.repr), dst.repr + pool.repr)
  {
    var tmp := DifferenceBeside(b, c, dst, a, pool);
    changed := OrTemporary(dst, tmp, a, pool);
  }

  /** TO becomes TO | TMP, and the elements of the temporary TMP are freed. */
  method OrInto(to: Bitmap, tmp: Bitmap, pool: Pool)
    requires to.Valid(pool.w) && tmp.Valid(pool.w) && pool.Valid() && to.repr !! pool.repr
    requires tmp != to && tmp.repr !! to.repr && tmp.repr !! pool.repr
    modifies to, to.repr, tmp, tmp.repr, pool, pool.repr
    ensures to.Valid(pool.w) && pool.Valid() && to.repr !! pool.repr
    ensures to.Set(pool.w) == old(to.Set(pool.w) + tmp.Set(pool.w))
    ensures Accounted(old(to.repr + pool.repr + tmp.repr), to.repr + pool.repr)
  {
    var _ := OrBeside(to, to, tmp, tmp, pool);
    ClearBeside(tmp, to, pool);
  }

  /** `bitmap_ior_and_compl`: TO becomes TO | (FROM1 & ~FROM2). */
  method IorAndCompl(to: Bitmap, from1: Bitmap, from2: Bitmap, pool: Pool)
    requires to.Valid(pool.w) && from1.Valid(pool.w) && from2.Valid(pool.w) && pool.Valid()
    requires Together(to, from1, pool) && Together(to, from2, pool)
    modifies to, to.repr, pool, pool.repr
    ensures to.Valid(pool.w) && pool.Valid() && to.repr !! pool.repr
    ensures to.Set(pool.w) == old(to.Set(pool.w) + (from1.Set(pool.w) - from2.Set(pool.w)))
    ensures Accounted(old(to.repr + pool.repr), to.repr + pool.repr)
  {
    var tmp := Difference(from1, from2, pool);
    to.Untouched(pool.w);
    OrInto(to, tmp, pool);
  }

  /** One turn of the loop of `bitmap_copy`: a copy of one element goes after the last one. */
  method CopyOne(to: Bitmap, toPtr: Element?, fromPtr: Element, pool: Pool) returns (toElt: Element)
    requires to.Valid(pool.w) && pool.Valid() && to.repr !! pool.repr && fromPtr !in to.repr && fromPtr !in pool.repr
    requires toPtr == At(to.elts, |to.elts| - 1)
    requires Canonical(to.chunks + [fromPtr.Content()], pool.w) && fromPtr.indx < HIGHEST_INDEX
    modifies to, to.repr, pool, pool.repr
    ensures to.Valid(pool.w) && pool.Valid()
    ensures to.chunks == old(to.chunks) + [fromPtr.Content()] && toElt == At(to.elts, |to.elts| - 1)
    ensures to.repr == old(to.repr) + {toElt} && pool.repr == old(pool.repr) - {toElt}
            && (fresh(toElt) || toElt in old(pool.repr))
  {
    toElt := pool.NewCopy(fromPtr);
    to.Untouched(pool.w);
    to.Append(toPtr, toElt, pool.w);
  }

  /** An element goes from the free ones to the list, or is new there. */
  lemma TookOne(list: set<Element>, free: set<Element>, list': set<Element>, free': set<Element>,
      others: set<Element>, e: Element)
    requires list !! free && others !! list + free && e !in list && e !in others
    requires list' == list + {e} && free' == free - {e}
    ensures list' !! free' && others !! list' + free' && list' + free' == list + free + {e}
  {
  }

  lemma OneMore(out: seq<Chunk>, rest: seq<Chunk>, w: nat)
    requires Canonical(out + rest, w) && Below(out + rest, HIGHEST_INDEX) && rest != []
    ensures Canonical(out + [rest[0]], w) && rest[0].indx < HIGHEST_INDEX
    ensures out + rest == out + [rest[0]] + rest[1..]
  {
    assert out + rest == out + [rest[0]] + rest[1..];
    assert forall i :: 0 <= i < |out + [rest[0]]| ==> (out + [rest[0]])[i] == (out + rest)[i];
    assert (out + rest)[|out|] == rest[0];
  }

  /** The loop of `bitmap_copy` between turns: what has been copied and what is left make the whole. */
  ghost predicate Copying(to: Bitmap, toPtr: Element?, fromPtr: Element?, pool: Pool, rest: Rest, all: seq<Chunk>)
    reads to, to.repr, pool, pool.repr, rest.r
  {
    && to.Valid(pool.w) && pool.Valid() && to.repr !! pool.repr
    && rest.From(fromPtr) && rest.r !! to.repr + pool.repr
    && to.chunks + rest.cs == all && toPtr == At(to.elts, |to.elts| - 1)
  }

  /** The same turn, on the list that is being copied: what is left of it stays as it is. */
  method CopyTurn(to: Bitmap, toPtr: Element?, fromPtr: Element, pool: Pool, ghost rest: Rest, ghost all: seq<Chunk>)
    returns (toElt: Element)
    requires Copying(to, toPtr, fromPtr, pool, rest, all) && Canonical(all, pool.w) && Below(all, HIGHEST_INDEX)
    modifies to, to.repr, pool, pool.repr
    ensures rest.cs != [] && Copying(to, toElt, fromPtr.next, pool, rest.Tail(fromPtr), all)
    ensures to.repr + pool.repr == old(to.repr + pool.repr) + {toElt} && (fresh(toElt) || toElt in old(pool.repr))
  {
    OneMore(to.chunks, rest.cs, pool.w);
    toElt := CopyOne(to, toPtr, fromPtr, pool);
    TookOne(old(to.repr), old(pool.repr), to.repr, pool.repr, rest.r, toElt);
  }

  /** The loop of `bitmap_copy`. */
  method CopyLoop(to: Bitmap, start: Element?, pool: Pool, ghost l: Rest)
    requires Copying(to, null, start, pool, l, l.cs) && to.repr == {}
    requires Canonical(l.cs, pool.w) && Below(l.cs, HIGHEST_INDEX)
    modifies to, pool, pool.repr
    ensures to.Valid(pool.w) && pool.Valid() && to.repr !! pool.repr && to.Set(pool.w) == Members(l.cs, pool.w)
    ensures Accounted(old(to.repr + pool.repr), to.repr + pool.repr)
  {
    var fromPtr := start;
    var toPtr: Element? := null;
    ghost var rest := l;
    while fromPtr != null
      invariant Copying(to, toPtr, fromPtr, pool, rest, l.cs)
      invariant Accounted(old(to.repr + pool.repr), to.repr + pool.repr)
      decreases |rest.cs|
    {
      toPtr := CopyTurn(to, toPtr, fromPtr, pool, rest, l.cs);
      rest := rest.Tail(fromPtr);
      fromPtr := fromPtr.next;
    }
    assert to.chunks == l.cs by { assert rest.cs == [] && to.chunks + [] == to.chunks; }
  }

  /** Clear the target, and take the list of the source, which is empty if it is the target. */
  method BeginCopy(to: Bitmap, from: Bitmap, pool: Pool) returns (start: Element?, ghost l: Rest)
    requires to.Valid(pool.w) && from.Valid(pool.w) && pool.Valid() && Together(to, from, pool)
    modifies to, to.repr, pool
    ensures Copying(to, null, start, pool, l, l.cs) && Canonical(l.cs, pool.w) && Below(l.cs, HIGHEST_INDEX)
    ensures to.repr == {} && to.repr + pool.repr == old(to.repr + pool.repr)
    ensures l.cs == if to == from then [] else old(from.chunks)
  {
    Clear(to, pool);
    if to == from {
      return null, Rest({}, []);
    }
    from.Untouched(pool.w);
    ListOf(from, pool.w);
    start, l := from.first, Rest(from.repr, from.chunks);
  }

  /** `bitmap_copy`. A bitmap copied onto itself is cleared first, and so becomes empty. */
  method Copy(to: Bitmap, from: Bitmap, pool: Pool)
    requires to.Valid(pool.w) && from.Valid(pool.w) && pool.Valid() && Together(to, from, pool)
    modifies to, to.repr, pool, pool.repr
    ensures to.Valid(pool.w) && pool.Valid() && to.repr !! pool.repr
    ensures to.Set(pool.w) == if to == from then iset{} else old(from.Set(pool.w))
    ensures Accounted(old(to.repr + pool.repr), to.repr + pool.repr)
  {
    var start;
    ghost var l;
    start, l := BeginCopy(to, from, pool);
    EmptyDenotesEmpty(pool.w);
    CopyLoop(to, start, pool, l);
  }
}
