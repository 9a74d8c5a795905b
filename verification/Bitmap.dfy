/** Sparse bitmaps: a doubly linked list of two-word elements with a cursor, and the free list that
    all bitmaps share. */
module Bitmaps {
  import opened Arithmetic
  import opened Words
  import opened Chunks
  import opened Merge

  /** `(unsigned int) ~0`, which stands for "no element" in the merge. */
  const HIGHEST_INDEX := 0xFFFF_FFFF

  const UINT_MAX := 0xFFFF_FFFF

  class Element {
    var next: Element?
    var prev: Element?
    var indx: nat
    var lo: nat  // bits[0]
    var hi: nat  // bits[1]

    constructor ()
      ensures lo == 0 && hi == 0
    {
      lo, hi := 0, 0;
    }

    ghost function Content(): Chunk
      reads this
    {
      Chunk(indx, lo, hi)
    }
  }

  /** Element i of s, null beyond either end. */
  function At(s: seq<Element>, i: int): Element? {
    if 0 <= i < |s| then s[i] else null
  }

  /** r is the set of the elements of s, which has no repetitions. */
  ghost predicate Exactly(s: seq<Element>, r: set<Element>) {
    && (forall i :: 0 <= i < |s| ==> s[i] in r)
    && NoRepeats(s)
    && |r| == |s|
  }

  ghost predicate NoRepeats(s: seq<Element>) {
    s == [] || (s[0] !in s[1..] && NoRepeats(s[1..]))
  }

  lemma {:induction false} NoRepeatsPairs(s: seq<Element>)
    requires NoRepeats(s)
    ensures forall i, j :: 0 <= i < j < |s| ==> s[i] != s[j]
  {
    if s != [] {
      NoRepeatsPairs(s[1..]);
      forall i, j | 0 <= i < j < |s| ensures s[i] != s[j] {
        assert s[j] == s[1..][j - 1];
        if i > 0 { assert s[i] == s[1..][i - 1]; }
      }
    }
  }

  lemma {:induction false} PairsNoRepeats(s: seq<Element>)
    requires forall i, j :: 0 <= i < j < |s| ==> s[i] != s[j]
    ensures NoRepeats(s)
  {
    if s != [] {
      forall i, j | 0 <= i < j < |s[1..]| ensures s[1..][i] != s[1..][j] {
        assert s[i + 1] != s[j + 1];
      }
      PairsNoRepeats(s[1..]);
    }
  }

  /** The elements of s are chained by `next`, in this order, and the chain ends after the last. */
  ghost predicate Chained(s: seq<Element>, r: set<Element>)
    requires Exactly(s, r)
    reads r
  {
    forall i {:trigger s[i].next} :: 0 <= i < |s| ==> s[i].next == At(s, i + 1)
  }

  ghost predicate BackChained(s: seq<Element>, r: set<Element>)
    requires Exactly(s, r)
    reads r
  {
    forall i {:trigger s[i].prev} :: 0 <= i < |s| ==> s[i].prev == At(s, i - 1)
  }

  /** A doubly linked list of exactly the elements s, starting at first. */
  ghost predicate Linked(s: seq<Element>, r: set<Element>, first: Element?)
    requires Exactly(s, r)
    reads r
  {
    first == At(s, 0) && Chained(s, r) && BackChained(s, r)
  }

  ghost predicate Holds(s: seq<Element>, r: set<Element>, cs: seq<Chunk>)
    requires Exactly(s, r)
    reads r
  {
    |s| == |cs| && forall i :: 0 <= i < |s| ==> s[i].indx == cs[i].indx && s[i].lo == cs[i].lo && s[i].hi == cs[i].hi
  }

  /** The elements r, chained by `next` from ptr on, and no others. The `prev` field of an element
      on the free list means nothing. */
  ghost predicate FreeList(ptr: Element?, r: set<Element>)
    reads r
    decreases |r|
  {
    if ptr == null then r == {} else ptr in r && FreeList(ptr.next, r - {ptr})
  }

  /** No element is lost, and the only others are newly allocated. */
  twostate predicate Accounted(before: set<Element>, new after: set<Element>) {
    before <= after && forall e :: e in after ==> e in before || fresh(e)
  }

  /** No chunk is numbered between number idx and chunk p. */
  ghost predicate NearestTo(cs: seq<Chunk>, p: nat, idx: nat) {
    p < |cs| && forall i :: 0 <= i < |cs| ==>
      !(idx < cs[i].indx < cs[p].indx) && !(cs[p].indx < cs[i].indx < idx)
  }

  /** The globals of the library: the word width and the free list `bitmap_free`. */
  class Pool {
    const w: nat
    var free: Element?
    ghost var repr: set<Element>

    ghost predicate Valid()
      reads this, repr
    {
      w > 0 && FreeList(free, repr)
    }

    constructor (w: nat)
      requires w > 0
      ensures Valid() && this.w == w && repr == {}
    {
      this.w := w;
      free := null;
      repr := {};
    }

    /** `bitmap_element_allocate`: take the head of the free list, or a new element; clear its bits. */
    method Allocate() returns (e: Element)
      requires Valid()
      modifies this, repr
      ensures Valid() && e.lo == 0 && e.hi == 0
      ensures e !in repr && repr == old(repr) - {e}
      ensures if old(free) != null then e == old(free) && e in old(repr) else fresh(e)
    {
      if free != null {
        e := free;
        free := e.next;
        repr := repr - {e};
        e.lo, e.hi := 0, 0;
      } else {
        e := new Element();
      }
    }

    /** An element for chunk idx with one word filled in. */
    method NewElement(idx: nat, n: nat, v: nat) returns (e: Element)
      requires Valid()
      modifies this, repr
      ensures Valid()
      ensures e.Content() == Chunk(idx, 0, 0).WithWord(n, v)
      ensures e !in repr && repr == old(repr) - {e} && (fresh(e) || e in old(repr))
    {
      e := Allocate();
      e.indx := idx;
      if n == 0 { e.lo := v; } else { e.hi := v; }
    }

    /** An element holding what another one holds. */
    method NewCopy(from: Element) returns (e: Element)
      requires Valid() && from !in repr
      modifies this, repr
      ensures Valid()
      ensures e.Content() == old(from.Content())
      ensures e !in repr && repr == old(repr) - {e} && (fresh(e) || e in old(repr))
    {
      e := Allocate();
      e.indx := from.indx;
      e.lo, e.hi := from.lo, from.hi;
    }

    /** Put an element on the free list. */
    method Release(e: Element)
      requires Valid() && e !in repr
      modifies this, e`next
      ensures Valid() && repr == old(repr) + {e}
    {
      e.next := free;
      free := e;
      repr := repr + {e};
      assert repr - {e} == old(repr);
    }
  }

  class Bitmap {
    var first: Element?
    var current: Element?
    var indx: nat
    ghost var elts: seq<Element>
    ghost var repr: set<Element>
    ghost var chunks: seq<Chunk>
    ghost var pos: nat

    /** The list of elements is well formed and holds `chunks`. */
    ghost predicate ListOk()
      reads this, repr
    {
      Exactly(elts, repr) && Linked(elts, repr, first) && Holds(elts, repr, chunks) && Below(chunks, HIGHEST_INDEX)
    }

    /** The cursor is on the list, and `indx` caches its number, exactly when there is a list. */
    ghost predicate CursorOk()
      reads this
    {
      |elts| == |chunks| &&
      if elts == [] then current == null
      else pos < |elts| && current == elts[pos] && indx == chunks[pos].indx
    }

    ghost predicate Valid(w: nat)
      reads this, repr
    {
      w > 0 && ListOk() && Canonical(chunks, w) && CursorOk()
    }

    /** A bitmap none of whose parts was written is still as it was. */
    twostate lemma Untouched(w: nat)
      requires old(Valid(w)) && unchanged(this) && forall e :: e in repr ==> unchanged(e)
      ensures Valid(w)
    {
    }

    ghost function Set(w: nat): iset<nat>
      requires w > 0
      reads this
    {
      Members(chunks, w)
    }

    /** `bitmap_initialize` */
    constructor (ghost w: nat)
      requires w > 0
      ensures Valid(w) && repr == {} && chunks == []
    {
      first, current := null, null;
      elts, repr, chunks := [], {}, [];
    }

    /** The walk of `bitmap_find_bit` towards the front: past every element with a larger number. */
    method WalkBack(idx: nat) returns (element: Element, ghost p: nat)
      requires ListOk() && CursorOk() && Sorted(chunks) && elts != [] && indx > idx
      ensures p < |elts| && element == elts[p]
      ensures element.indx != idx ==> !HasIndex(chunks, idx) && NearestTo(chunks, p, idx)
    {
      element, p := current, pos;
      while element.prev != null && element.indx > idx
        invariant p < |elts| && element == elts[p]
        invariant forall i :: p < i < |elts| ==> chunks[i].indx > idx
        decreases p
      {
        assert elts[p].indx == chunks[p].indx;
        element := element.prev;
        p := p - 1;
      }
      assert elts[p].indx == chunks[p].indx;
    }

    /** The walk of `bitmap_find_bit` towards the end: past every element with a smaller number. */
    method WalkForward(idx: nat) returns (element: Element, ghost p: nat)
      requires ListOk() && CursorOk() && Sorted(chunks) && elts != [] && indx <= idx
      ensures p < |elts| && element == elts[p]
      ensures element.indx != idx ==> !HasIndex(chunks, idx) && NearestTo(chunks, p, idx)
    {
      element, p := current, pos;
      while element.next != null && element.indx < idx
        invariant p < |elts| && element == elts[p]
        invariant forall i :: 0 <= i < p ==> chunks[i].indx < idx
        decreases |elts| - p
      {
        assert elts[p].indx == chunks[p].indx;
        element := element.next;
        p := p + 1;
      }
      assert elts[p].indx == chunks[p].indx;
    }

    /** `bitmap_find_bit`, for the chunk number of the bit: the element with that number, if any;
        the cursor moves to the nearest element. */
    method Find(idx: nat, ghost w: nat) returns (element: Element?)
      requires Valid(w)
      modifies this`current, this`indx, this`pos
      ensures Valid(w)
      ensures element == null <==> !HasIndex(chunks, idx)
      ensures element != null ==> element == current && elts != [] && indx == idx
      ensures element == null && elts != [] ==> NearestTo(chunks, pos, idx)
    {
      if current == null || indx == idx {
        assert current != null ==> chunks[pos].indx == idx;
        return current;
      }
      ghost var p;
      if indx > idx {
        element, p := WalkBack(idx);
      } else {
        element, p := WalkForward(idx);
      }
      assert elts[p].indx == chunks[p].indx;
      current, pos := element, p;
      indx := element.indx;
      if element.indx != idx {
        element := null;
      }
    }

    /** The first loop of `bitmap_element_link`. */
    method SeekBefore(idx: nat) returns (ptr: Element, ghost p: nat)
      requires ListOk() && CursorOk() && elts != [] && indx > idx
      ensures p < |elts| && ptr == elts[p] && chunks[p].indx > idx
      ensures p > 0 ==> chunks[p - 1].indx <= idx
    {
      ptr, p := current, pos;
      while ptr.prev != null && ptr.prev.indx > idx
        invariant p < |elts| && ptr == elts[p] && chunks[p].indx > idx
        decreases p
      {
        assert p > 0 && elts[p - 1].indx == chunks[p - 1].indx;
        ptr := ptr.prev;
        p := p - 1;
      }
      assert p > 0 ==> elts[p - 1].indx == chunks[p - 1].indx;
    }

    /** The second loop of `bitmap_element_link`. */
    method SeekAfter(idx: nat) returns (ptr: Element, ghost p: nat)
      requires ListOk() && CursorOk() && elts != [] && indx <= idx
      ensures p < |elts| && ptr == elts[p] && chunks[p].indx <= idx
      ensures p + 1 < |elts| ==> chunks[p + 1].indx >= idx
    {
      ptr, p := current, pos;
      while ptr.next != null && ptr.next.indx < idx
        invariant p < |elts| && ptr == elts[p] && chunks[p].indx <= idx
        decreases |elts| - p
      {
        assert elts[p + 1].indx == chunks[p + 1].indx;
        ptr := ptr.next;
        p := p + 1;
      }
      assert p + 1 < |elts| ==> elts[p + 1].indx == chunks[p + 1].indx;
    }

    method InsertBefore(ptr: Element, element: Element, ghost k: nat, ghost t: seq<Element>)
      requires Exactly(elts, repr) && Linked(elts, repr, first) && element !in repr
      requires k < |elts| && ptr == elts[k] && Inserted(t, elts, k, element) && Exactly(t, repr + {element})
      modifies this`first, repr`next, repr`prev, element`next, element`prev
      ensures Linked(t, repr + {element}, first)
    {
      NoRepeatsPairs(elts);
      if ptr.prev != null {
        ptr.prev.next := element;
      } else {
        first := element;
      }
      element.prev := ptr.prev;
      element.next := ptr;
      ptr.prev := element;
    }

    method InsertAfter(ptr: Element, element: Element, ghost k: nat, ghost t: seq<Element>)
      requires Exactly(elts, repr) && Linked(elts, repr, first) && element !in repr
      requires 0 < k <= |elts| && ptr == elts[k - 1] && Inserted(t, elts, k, element) && Exactly(t, repr + {element})
      modifies repr`next, repr`prev, element`next, element`prev
      ensures Linked(t, repr + {element}, first)
    {
      NoRepeatsPairs(elts);
      if ptr.next != null {
        ptr.next.prev := element;
      }
      element.next := ptr.next;
      element.prev := ptr;
      ptr.next := element;
    }

    /** The pointer assignments of `bitmap_element_link`: the three places an element can go. */
    method Place(element: Element) returns (ghost k: nat, ghost t: seq<Element>)
      requires ListOk() && CursorOk() && element !in repr
      modifies this`first, repr`next, repr`prev, element`next, element`prev
      ensures Inserted(t, elts, k, element) && Exactly(t, repr + {element}) && Linked(t, repr + {element}, first)
      ensures k > 0 ==> chunks[k - 1].indx <= element.indx
      ensures k < |elts| ==> element.indx <= chunks[k].indx
    {
      if first == null {
        element.next, element.prev := null, null;
        first := element;
        k, t := 0, [element];
        return;
      }
      var ptr;
      if element.indx < indx {
        ptr, k := SeekBefore(element.indx);
        t := MakeInserted(elts, repr, k, element);
        InsertBefore(ptr, element, k, t);
      } else {
        ghost var p;
        ptr, p := SeekAfter(element.indx);
        k := p + 1;
        t := MakeInserted(elts, repr, k, element);
        InsertAfter(ptr, element, k, t);
      }
    }

    /** `bitmap_element_link`: insert an element at the place of its number, searching from the cursor. */
    method Link(element: Element, ghost w: nat)
      requires Valid(w) && element !in repr
      requires element.Content().Fits(w) && !element.Content().Zero() && element.indx < HIGHEST_INDEX
      requires !HasIndex(chunks, element.indx)
      modifies this, repr`next, repr`prev, element`next, element`prev
      ensures Valid(w)
      ensures repr == old(repr) + {element}
      ensures Inserted(chunks, old(chunks), pos, element.Content())
      ensures current == element
    {
      ghost var k, t := Place(element);
      ghost var cs := InsertChunk(chunks, k, element.Content(), w);
      InsertHolds(elts, repr, chunks, t, cs, k, element);
      SetCurrent(element, t, repr + {element}, cs, k, w);
    }

    /** Put the cursor on a new element, and take the ghost view of the new list. */
    method SetCurrent(element: Element, ghost t: seq<Element>, ghost r: set<Element>, ghost cs: seq<Chunk>,
                      ghost k: nat, ghost w: nat)
      requires w > 0 && Exactly(t, r) && Linked(t, r, first) && Holds(t, r, cs) && Below(cs, HIGHEST_INDEX)
               && Canonical(cs, w)
      requires k < |t| && element == t[k]
      modifies this
      ensures Valid(w)
      ensures first == old(first) && elts == t && repr == r && chunks == cs && pos == k && current == element
    {
      current, indx := element, element.indx;
      elts, chunks, repr, pos := t, cs, r, k;
    }

    /** The pointer assignments of `bitmap_copy`, which enters elements in sequence. */
    method PlaceLast(last: Element?, element: Element) returns (ghost t: seq<Element>)
      requires Exactly(elts, repr) && Linked(elts, repr, first) && element !in repr && last == At(elts, |elts| - 1)
      modifies this`first, repr`next, element`next, element`prev
      ensures Inserted(t, elts, |elts|, element) && Exactly(t, repr + {element}) && Linked(t, repr + {element}, first)
    {
      t := MakeInserted(elts, repr, |elts|, element);
      if last == null {
        first := element;
        element.next, element.prev := null, null;
      } else {
        NoRepeatsPairs(elts);
        element.prev := last;
        element.next := null;
        last.next := element;
      }
    }

    /** The special case of `bitmap_element_link` in `bitmap_copy`: the element goes last, and only the
        first one moves the cursor. */
    method Append(last: Element?, element: Element, ghost w: nat)
      requires Valid(w) && element !in repr && last == At(elts, |elts| - 1)
      requires Canonical(chunks + [element.Content()], w) && element.indx < HIGHEST_INDEX
      modifies this, repr`next, element`next, element`prev
      ensures Valid(w) && repr == old(repr) + {element}
      ensures chunks == old(chunks) + [element.Content()] && element == At(elts, |elts| - 1)
    {
      ghost var t := PlaceLast(last, element);
      ghost var cs := chunks + [element.Content()];
      InsertHolds(elts, repr, chunks, t, cs, |elts|, element);
      if last == null {
        SetCurrent(element, t, repr + {element}, cs, 0, w);
      } else {
        KeepCurrent(t, repr + {element}, cs, w);
      }
    }

    ghost method KeepCurrent(t: seq<Element>, r: set<Element>, cs: seq<Chunk>, w: nat)
      requires w > 0 && Exactly(t, r) && Linked(t, r, first) && Holds(t, r, cs) && Below(cs, HIGHEST_INDEX)
               && Canonical(cs, w)
      requires pos < |t| && current == t[pos] && indx == cs[pos].indx
      modifies this`elts, this`repr, this`chunks
      ensures Valid(w) && elts == t && repr == r && chunks == cs
    {
      elts, chunks, repr := t, cs, r;
    }

    /** The pointer assignments of `bitmap_element_free`: take element k out of the list. */
    method Unlink(elt: Element, ghost k: nat, ghost t: seq<Element>)
      requires Exactly(elts, repr) && Linked(elts, repr, first)
      requires k < |elts| && elt == elts[k] && Inserted(elts, t, k, elt) && Exactly(t, repr - {elt})
      requires forall i :: 0 <= i < |t| ==> t[i] == elts[if i < k then i else i + 1]
      modifies this`first, repr`next, repr`prev
      ensures Linked(t, repr - {elt}, first)
      ensures elt.next == At(elts, k + 1) && elt.prev == At(elts, k - 1)
    {
      NoRepeatsPairs(elts);
      var next, prev := elt.next, elt.prev;
      if prev != null {
        prev.next := next;
      }
      if next != null {
        next.prev := prev;
      }
      if first == elt {
        first := next;
      }
    }

    /** Take element k out of the list, with the ghost view of what remains. */
    method TakeOut(elt: Element, ghost k: nat) returns (ghost t: seq<Element>, next: Element?, prev: Element?)
      requires Exactly(elts, repr) && Linked(elts, repr, first) && k < |elts| && elt == elts[k]
      modifies this`first, repr`next, repr`prev
      ensures Inserted(elts, t, k, elt) && Exactly(t, repr - {elt}) && Linked(t, repr - {elt}, first)
      ensures next == old(elt.next) == At(elts, k + 1) && prev == old(elt.prev) == At(elts, k - 1)
    {
      assert elts[k].next == At(elts, k + 1) && elts[k].prev == At(elts, k - 1);
      next, prev := elt.next, elt.prev;
      t := MakeRemoved(elts, repr, k);
      Unlink(elt, k, t);
    }

    /** The end of `bitmap_element_free`: a cursor on the element moves to the next one in preference to the
        previous one. */
    method LeaveElement(elt: Element, next: Element?, prev: Element?, ghost t: seq<Element>, ghost cs: seq<Chunk>,
                        ghost k: nat, ghost w: nat)
      requires CursorOk() && w > 0 && NoRepeats(elts) && Exactly(t, repr - {elt}) && Linked(t, repr - {elt}, first)
      requires Holds(t, repr - {elt}, cs) && Below(cs, HIGHEST_INDEX) && Canonical(cs, w)
      requires k < |elts| && elt == elts[k] && Inserted(elts, t, k, elt) && Inserted(chunks, cs, k, chunks[k])
      requires next == At(elts, k + 1) && prev == At(elts, k - 1)
      modifies this
      ensures Valid(w) && first == old(first) && repr == old(repr) - {elt} && chunks == cs
      ensures current == if old(current) != elt then old(current) else if next != null then next else prev
    {
      NoRepeatsPairs(elts);
      if current != elt {
        pos := if pos > k then pos - 1 else pos;
        KeepCurrent(t, repr - {elt}, cs, w);
      } else if next == null && prev == null {
        SetEmpty(w);
      } else {
        SetCurrent(if next != null then next else prev, t, repr - {elt}, cs, if next != null then k else k - 1, w);
      }
    }

    /** Take an element off the list, and the cursor off the element. */
    method Detach(elt: Element, ghost k: nat, ghost w: nat)
      requires ListOk() && CursorOk() && k < |elts| && elt == elts[k] && CanonicalBut(chunks, w, k) && w > 0
      modifies this, repr`next, repr`prev
      ensures Valid(w) && repr == old(repr) - {elt} && Inserted(old(chunks), chunks, k, old(chunks)[k])
      ensures current == if old(current) != elt then old(current)
                         else if old(elt.next) != null then old(elt.next) else old(elt.prev)
    {
      ghost var t;
      var next, prev;
      t, next, prev := TakeOut(elt, k);
      ghost var cs := RemoveHeld(elts, repr, chunks, t, k, elt, w);
      LeaveElement(elt, next, prev, t, cs, k, w);
    }

    /** `bitmap_element_free`: take an element off the list and put it on the free list. */
    method Free(pool: Pool, elt: Element, ghost k: nat)
      requires ListOk() && CursorOk() && k < |elts| && elt == elts[k] && CanonicalBut(chunks, pool.w, k)
      requires pool.Valid() && repr !! pool.repr
      modifies this, repr`next, repr`prev, pool
      ensures Valid(pool.w) && pool.Valid()
      ensures repr == old(repr) - {elt} && pool.repr == old(pool.repr) + {elt}
      ensures Inserted(old(chunks), chunks, k, old(chunks)[k])
      ensures current == if old(current) != elt then old(current)
                         else if old(elt.next) != null then old(elt.next) else old(elt.prev)
    {
      Detach(elt, k, pool.w);
      pool.Release(elt);
    }

    /** Store word n of the element at the cursor. */
    method StoreWord(n: nat, v: nat, ghost w: nat)
      requires Valid(w) && elts != [] && v < Pow2(w)
      modifies this`chunks, current`lo, current`hi
      ensures ListOk() && CursorOk() && CanonicalBut(chunks, w, pos)
      ensures chunks == old(chunks)[pos := old(chunks)[pos].WithWord(n, v)]
    {
      if n == 0 { current.lo := v; } else { current.hi := v; }
      chunks := chunks[pos := chunks[pos].WithWord(n, v)];
    }

    /** Set or clear bit k of word n of the element at the cursor; the element may become all zero. */
    method StoreBit(n: nat, k: nat, v: bool, w: nat)
      requires Valid(w) && elts != [] && n < 2 && k < w
      modifies this`chunks, current`lo, current`hi
      ensures ListOk() && CursorOk() && CanonicalBut(chunks, w, pos)
      ensures |chunks| == |old(chunks)| && chunks[pos].indx == old(chunks)[pos].indx
      ensures v ==> !chunks[pos].Zero()
      ensures var b := BitNumber(w, chunks[pos].indx, n, k);
              Set(w) == if v then old(Set(w)) + iset{b} else old(Set(w)) - iset{b}
    {
      var word := if n == 0 then current.lo else current.hi;
      StoreWord(n, WithBit(word, k, w, v), w);
      UpdateBit(old(chunks), pos, w, n, k, v);
      if v { OrKeepsNonzero(old(chunks)[pos], n, k, w); }
    }

    /** The elements of the list and the free ones are accounted for, and none is on both. */
    twostate predicate Conserved(pool: Pool)
      reads this, pool
    {
      repr !! pool.repr && Accounted(old(repr + pool.repr), repr + pool.repr)
    }

    twostate lemma MovedOne(pool: Pool, new e: Element)
      requires old(repr !! pool.repr)
      requires repr == old(repr) + {e} && pool.repr == old(pool.repr) - {e} && (fresh(e) || e in old(pool.repr))
      ensures Conserved(pool)
    {
    }

    /** `bitmap_set_bit`, when no element holds the bit's chunk. */
    method SetInNew(idx: nat, n: nat, k: nat, pool: Pool)
      requires Valid(pool.w) && pool.Valid() && repr !! pool.repr
      requires idx < HIGHEST_INDEX && n < 2 && k < pool.w && !HasIndex(chunks, idx)
      modifies this, repr, pool, pool.repr
      ensures Valid(pool.w) && pool.Valid() && Conserved(pool)
      ensures Set(pool.w) == old(Set(pool.w)) + iset{BitNumber(pool.w, idx, n, k)}
    {
      Pow2Monotone(k, pool.w);
      var ptr := pool.NewElement(idx, n, Pow2(k));
      Link(ptr, pool.w);
      NewBit(old(chunks), chunks, pos, pool.w, idx, n, k);
      MovedOne(pool, ptr);
    }

    /** `bitmap_set_bit`, when the element at the cursor holds the bit's chunk. */
    method SetInOld(n: nat, k: nat, pool: Pool)
      requires Valid(pool.w) && pool.Valid() && repr !! pool.repr && elts != [] && n < 2 && k < pool.w
      modifies this`chunks, current`lo, current`hi
      ensures Valid(pool.w) && pool.Valid()
      ensures Set(pool.w) == old(Set(pool.w)) + iset{BitNumber(pool.w, indx, n, k)}
    {
      StoreBit(n, k, true, pool.w);
    }

    /** `bitmap_set_bit` */
    method SetBit(bit: nat, pool: Pool)
      requires bit <= UINT_MAX
      requires Valid(pool.w) && pool.Valid() && repr !! pool.repr
      modifies this, repr, pool, pool.repr
      ensures Valid(pool.w) && pool.Valid() && Conserved(pool)
      ensures Set(pool.w) == old(Set(pool.w)) + iset{bit}
    {
      var idx, wordNum, bitNum := Locate(bit, pool.w);
      var ptr := Find(idx, pool.w);
      if ptr == null {
        SetInNew(idx, wordNum, bitNum, pool);
      } else {
        SetInOld(wordNum, bitNum, pool);
      }
    }

    /** The last part of `bitmap_clear_bit`: if the element at the cursor is all zero, free it. */
    method FreeIfZero(pool: Pool)
      requires ListOk() && CursorOk() && CanonicalBut(chunks, pool.w, pos) && elts != []
      requires pool.Valid() && repr !! pool.repr
      modifies this, repr`next, repr`prev, pool
      ensures Valid(pool.w) && pool.Valid()
      ensures repr !! pool.repr && repr + pool.repr == old(repr + pool.repr)
      ensures Set(pool.w) == old(Set(pool.w))
    {
      assert current.lo == chunks[pos].lo && current.hi == chunks[pos].hi;
      if current.lo == 0 && current.hi == 0 {
        Free(pool, current, pos);
        ZeroChunkRemoved(old(chunks), chunks, old(pos), old(chunks[pos]), pool.w);
      }
    }

    /** `bitmap_clear_bit`, when the element at the cursor holds the bit's chunk. */
    method ClearInOld(n: nat, k: nat, pool: Pool)
      requires Valid(pool.w) && pool.Valid() && repr !! pool.repr && elts != [] && n < 2 && k < pool.w
      modifies this, repr, pool
      ensures Valid(pool.w) && pool.Valid()
      ensures repr !! pool.repr && repr + pool.repr == old(repr + pool.repr)
      ensures Set(pool.w) == old(Set(pool.w)) - iset{BitNumber(pool.w, old(indx), n, k)}
    {
      StoreBit(n, k, false, pool.w);
      FreeIfZero(pool);
    }

    /** `bitmap_clear_bit` */
    method ClearBit(bit: nat, pool: Pool)
      requires Valid(pool.w) && pool.Valid() && repr !! pool.repr
      modifies this, repr, pool
      ensures Valid(pool.w) && pool.Valid()
      ensures repr !! pool.repr && repr + pool.repr == old(repr + pool.repr)
      ensures Set(pool.w) == old(Set(pool.w)) - iset{bit}
    {
      var idx, wordNum, bitNum := Locate(bit, pool.w);
      var ptr := Find(idx, pool.w);
      if ptr == null {
        AbsentBit(chunks, pool.w, idx, wordNum, bitNum);
      } else {
        ClearInOld(wordNum, bitNum, pool);
      }
    }

    /** `bitmap_bit_p` */
    method TestBit(bit: nat, pool: Pool) returns (r: bool)
      requires Valid(pool.w)
      modifies this`current, this`indx, this`pos
      ensures Valid(pool.w)
      ensures r <==> bit in Set(pool.w)
    {
      var idx, wordNum, bitNum := Locate(bit, pool.w);
      var ptr := Find(idx, pool.w);
      if ptr == null {
        AbsentBit(chunks, pool.w, idx, wordNum, bitNum);
        return false;
      }
      PresentBit(chunks, pos, pool.w, wordNum, bitNum);
      return Bit(if wordNum == 0 then ptr.lo else ptr.hi, bitNum);
    }

    method SetEmpty(ghost w: nat)
      requires w > 0 && first == null
      modifies this`current, this`elts, this`repr, this`chunks
      ensures Valid(w) && elts == [] && repr == {} && chunks == []
    {
      current := null;
      elts, repr, chunks := [], {}, [];
    }
  }

  lemma MakeRemoved(s: seq<Element>, r: set<Element>, k: nat) returns (t: seq<Element>)
    requires k < |s| && Exactly(s, r)
    ensures Inserted(s, t, k, s[k]) && Exactly(t, r - {s[k]})
    ensures forall i :: 0 <= i < |t| ==> t[i] == s[if i < k then i else i + 1]
  {
    t := s[..k] + s[k + 1..];
    NoRepeatsPairs(s);
    PairsNoRepeats(t);
  }

  lemma RemoveChunk(cs: seq<Chunk>, k: nat, w: nat) returns (ct: seq<Chunk>)
    requires CanonicalBut(cs, w, k) && k < |cs|
    ensures Inserted(cs, ct, k, cs[k]) && Canonical(ct, w)
  {
    ct := cs[..k] + cs[k + 1..];
    assert forall i :: 0 <= i < |ct| ==> ct[i] == cs[if i < k then i else i + 1];
  }

  lemma RemoveHolds(s: seq<Element>, r: set<Element>, cs: seq<Chunk>, t: seq<Element>, ct: seq<Chunk>, k: nat,
      e: Element)
    requires Exactly(s, r) && Exactly(t, r - {e}) && Below(cs, HIGHEST_INDEX)
    requires Holds(s, r, cs) && Inserted(s, t, k, e) && Inserted(cs, ct, k, cs[k])
    ensures Holds(t, r - {e}, ct) && Below(ct, HIGHEST_INDEX)
  {
    forall i | 0 <= i < |t| ensures t[i].indx == ct[i].indx && t[i].lo == ct[i].lo && t[i].hi == ct[i].hi {
      var j := if i < k then i else i + 1;
      assert s[j].indx == cs[j].indx;
    }
    forall i | 0 <= i < |ct| ensures ct[i].indx < HIGHEST_INDEX {
      assert cs[if i < k then i else i + 1].indx < HIGHEST_INDEX;
    }
  }

  lemma RemoveHeld(s: seq<Element>, r: set<Element>, cs: seq<Chunk>, t: seq<Element>, k: nat, e: Element, w: nat)
    returns (ct: seq<Chunk>)
    requires Exactly(s, r) && Exactly(t, r - {e}) && Below(cs, HIGHEST_INDEX) && CanonicalBut(cs, w, k) && k < |cs|
    requires Holds(s, r, cs) && Inserted(s, t, k, e)
    ensures Inserted(cs, ct, k, cs[k]) && Canonical(ct, w) && Holds(t, r - {e}, ct) && Below(ct, HIGHEST_INDEX)
  {
    ct := RemoveChunk(cs, k, w);
    RemoveHolds(s, r, cs, t, ct, k, e);
  }

  lemma OrKeepsNonzero(c: Chunk, n: nat, k: nat, w: nat)
    requires n < 2 && k < w
    ensures !c.WithWord(n, WithBit(c.Word(n), k, w, true)).Zero()
  {
    WithBitBits(c.Word(n), k, w, true, k);
    ZeroBits(k);
  }

  /** The chunk, word and bit position of a bit number. */
  method Locate(bit: nat, w: nat) returns (idx: nat, n: nat, k: nat)
    requires w > 0
    ensures n < 2 && k < w && bit == BitNumber(w, idx, n, k)
    ensures bit <= UINT_MAX ==> idx < HIGHEST_INDEX
  {
    idx, n, k := bit / (2 * w), bit / w % 2, bit % w;
    SplitBitNumber(w, bit);
    if idx >= HIGHEST_INDEX {
      MulGe(w, 2 * idx);
    }
  }

  lemma MakeInserted(s: seq<Element>, r: set<Element>, k: nat, x: Element) returns (t: seq<Element>)
    requires k <= |s| && Exactly(s, r) && x !in r
    ensures Inserted(t, s, k, x) && Exactly(t, r + {x})
  {
    t := s[..k] + [x] + s[k..];
    NoRepeatsPairs(s);
    forall i | 0 <= i < |s| ensures s[i] != x { assert s[i] in r; }
    PairsNoRepeats(t);
  }

  lemma InsertHolds(s: seq<Element>, r: set<Element>, cs: seq<Chunk>, t: seq<Element>, ct: seq<Chunk>, k: nat,
      e: Element)
    requires Exactly(s, r) && Exactly(t, r + {e}) && Below(cs, HIGHEST_INDEX) && e.indx < HIGHEST_INDEX
    requires Holds(s, r, cs) && Inserted(t, s, k, e) && Inserted(ct, cs, k, e.Content())
    ensures Holds(t, r + {e}, ct) && Below(ct, HIGHEST_INDEX)
  {
  }

  lemma InsertChunk(cs: seq<Chunk>, k: nat, c: Chunk, w: nat) returns (ct: seq<Chunk>)
    requires Canonical(cs, w) && k <= |cs| && c.Fits(w) && !c.Zero() && !HasIndex(cs, c.indx)
    requires k > 0 ==> cs[k - 1].indx <= c.indx
    requires k < |cs| ==> c.indx <= cs[k].indx
    ensures Inserted(ct, cs, k, c) && Canonical(ct, w)
  {
    ct := cs[..k] + [c] + cs[k..];
    forall i, j | 0 <= i < j < |ct| ensures ct[i].indx < ct[j].indx {
      if i < k && j == k { assert cs[i].indx <= cs[k - 1].indx; }
      if i == k && j > k { assert cs[k].indx <= cs[j - 1].indx; }
    }
  }
}
