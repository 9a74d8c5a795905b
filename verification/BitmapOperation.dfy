/** `bitmap_operation`: the destructive merge of two bitmaps into a third, which may be one of them. */
module BitmapOperation {
  import opened Words
  import opened Chunks
  import opened Merge
  import opened Bitmaps

  ghost predicate AtOrAbove(cs: seq<Chunk>, idx: nat) {
    cs != [] ==> idx <= cs[0].indx
  }

  /** The part of a list that the merge has not reached: its elements, and what they hold. */
  datatype Rest = Rest(r: set<Element>, cs: seq<Chunk>) {
    /** It starts at ptr, and its elements are still as they were. */
    ghost predicate From(ptr: Element?)
      reads r
      decreases |cs|
    {
      if cs == [] then ptr == null && r == {}
      else ptr != null && ptr in r && ptr.Content() == cs[0] && Tail(ptr).From(ptr.next)
    }

    function Tail(ptr: Element): Rest
      requires cs != []
    {
      Rest(r - {ptr}, cs[1..])
    }

    ghost function Last(ptr: Element): (e: Element)
      requires From(ptr) && cs != []
      reads r
      ensures e in r
      decreases |cs|
    {
      if ptr.next == null then ptr else Tail(ptr).Last(ptr.next)
    }

    /** Pointing the last element at a free list makes one free list of the two. */
    twostate lemma {:induction false} Spliced(ptr: Element, new free: Element?, new f: set<Element>)
      requires old(From(ptr)) && cs != [] && r !! f && FreeList(free, f)
      requires old(Last(ptr)).next == free
      requires forall e :: e in r && e != old(Last(ptr)) ==> e.next == old(e.next)
      ensures FreeList(ptr, r + f)
      decreases |cs|
    {
      if old(ptr.next) == null {
        assert r == {ptr} && r + f - {ptr} == f;
      } else {
        Tail(ptr).Spliced(old(ptr.next), free, f);
        assert r + f - {ptr} == r - {ptr} + f;
      }
    }

    /** Past chunk idx, if that is what ptr points to. */
    function Past(idx: nat, ptr: Element?): Rest {
      if ptr != null && cs != [] && cs[0].indx == idx then Tail(ptr) else this
    }
  }

  /** Free the elements of TO whose numbers have been passed. */
  method Discard(start: Element?, idx: nat, pool: Pool, ghost l0: Rest)
    returns (ptr: Element?, changed: bool, ghost l: Rest)
    requires l0.From(start) && pool.Valid() && l0.r !! pool.repr
    modifies pool, l0.r`next
    ensures l.From(ptr) && pool.Valid() && l.r !! pool.repr
    ensures pool.repr + l.r == old(pool.repr) + l0.r && l.r <= l0.r
    ensures l.cs == Skip(l0.cs, idx)
    ensures if changed then |l.cs| < |l0.cs| else l == l0 && ptr == start
    ensures !changed && start != null ==> start.next == old(start.next)
  {
    ptr, changed, l := start, false, l0;
    while ptr != null && ptr.indx < idx
      invariant l.From(ptr) && pool.Valid() && l.r !! pool.repr
      invariant l.r <= l0.r && pool.repr + l.r == old(pool.repr) + l0.r
      invariant Skip(l.cs, idx) == Skip(l0.cs, idx)
      invariant if changed then |l.cs| < |l0.cs| else l == l0 && ptr == start
      invariant !changed && start != null ==> start.next == old(start.next)
      decreases |l.cs|
    {
      changed := true;
      var toTmp := ptr;
      ptr := ptr.next;
      l := l.Tail(toTmp);
      pool.Release(toTmp);
    }
  }

  /** The element to write to: the one of TO numbered idx, or a new one with no bits. */
  method TakeTarget(toPtr: Element?, idx: nat, pool: Pool, ghost l: Rest) returns (toTmp: Element, rest: Element?)
    requires l.From(toPtr) && pool.Valid() && l.r !! pool.repr
    modifies pool, pool.repr
    ensures l.Past(idx, toPtr).From(rest) && pool.Valid()
    ensures toTmp !in l.Past(idx, toPtr).r && toTmp !in pool.repr
    ensures toTmp.lo == HeadAt(l.cs, idx).lo && toTmp.hi == HeadAt(l.cs, idx).hi
    ensures l.Past(idx, toPtr) != l ==> toTmp == toPtr && rest == old(toPtr.next) && toTmp in l.r
    ensures l.Past(idx, toPtr) != l ==> unchanged(toTmp) && pool.repr == old(pool.repr)
    ensures l.Past(idx, toPtr) == l ==> rest == toPtr && pool.repr == old(pool.repr) - {toTmp}
    ensures l.Past(idx, toPtr) == l ==> fresh(toTmp) || toTmp in old(pool.repr)
  {
    if toPtr != null && toPtr.indx == idx {
      toTmp, rest := toPtr, toPtr.next;
    } else {
      rest := toPtr;
      toTmp := pool.Allocate();
    }
  }

  /** Discard, then take: the element the result of chunk idx will be written to. */
  method PrepareTarget(toPtr: Element?, idx: nat, pool: Pool, ghost l0: Rest)
    returns (toTmp: Element, rest: Element?, skipped: bool, ghost l: Rest)
    requires l0.From(toPtr) && pool.Valid() && l0.r !! pool.repr
    modifies pool, pool.repr, l0.r
    ensures l.From(rest) && pool.Valid() && l.r !! pool.repr && toTmp !in l.r && toTmp !in pool.repr
    ensures l.cs == TailAt(Skip(l0.cs, idx), idx) && l.r <= l0.r
    ensures skipped <==> Skip(l0.cs, idx) != l0.cs
    ensures toTmp.lo == HeadAt(Skip(l0.cs, idx), idx).lo && toTmp.hi == HeadAt(Skip(l0.cs, idx), idx).hi
    ensures !skipped ==> l == l0.Past(idx, toPtr) && rest == if l != l0 then old(toPtr.next) else toPtr
    ensures !skipped && l != l0 ==> toTmp == toPtr && toTmp.lo == old(toTmp.lo) && toTmp.hi == old(toTmp.hi)
    ensures pool.repr <= old(pool.repr) + l0.r && (fresh(toTmp) || toTmp in old(pool.repr) + l0.r)
    ensures old(pool.repr) + l0.r <= pool.repr + l.r + {toTmp}
  {
    var p, c;
    p, c, l := Discard(toPtr, idx, pool, l0);
    skipped := c;
    toTmp, rest := TakeTarget(p, idx, pool, l);
    l := l.Past(idx, p);
  }

  lemma Appended(ct: seq<Chunk>, cs: seq<Chunk>, k: nat, c: Chunk)
    requires Inserted(ct, cs, k, c) && Sorted(ct) && forall i :: 0 <= i < |cs| ==> cs[i].indx < c.indx
    ensures ct == cs + [c]
  {
    assert c.indx <= ct[|cs|].indx;
  }

  /** Link an element as number idx, which is above all of TO's. */
  method LinkLast(to: Bitmap, element: Element, idx: nat, pool: Pool)
    requires to.Valid(pool.w) && pool.Valid() && to.repr !! pool.repr && element !in to.repr && element !in pool.repr
    requires element.Content().Fits(pool.w) && !element.Content().Zero() && idx < HIGHEST_INDEX
    requires forall i :: 0 <= i < |to.chunks| ==> to.chunks[i].indx < idx
    modifies to, to.repr`next, to.repr`prev, element`next, element`prev, element`indx
    ensures to.Valid(pool.w) && pool.Valid() && to.repr == old(to.repr) + {element}
    ensures to.chunks == old(to.chunks) + [Chunk(idx, element.lo, element.hi)]
  {
    element.indx := idx;
    to.Untouched(pool.w);
    to.Link(element, pool.w);
    Appended(to.chunks, old(to.chunks), to.pos, element.Content());
  }

  /** Link the result into TO if it has any bits, otherwise free its element. */
  method Store(to: Bitmap, toTmp: Element, idx: nat, t0: nat, t1: nat, pool: Pool)
    requires to.Valid(pool.w) && pool.Valid() && to.repr !! pool.repr && toTmp !in to.repr && toTmp !in pool.repr
    requires Chunk(idx, t0, t1).Fits(pool.w) && idx < HIGHEST_INDEX
    requires forall i :: 0 <= i < |to.chunks| ==> to.chunks[i].indx < idx
    modifies to, to.repr`next, to.repr`prev, toTmp, pool
    ensures to.Valid(pool.w) && pool.Valid()
    ensures if t0 == 0 && t1 == 0 then to.repr == old(to.repr) && pool.repr == old(pool.repr) + {toTmp}
            else to.repr == old(to.repr) + {toTmp} && pool.repr == old(pool.repr)
    ensures to.chunks == old(to.chunks) + Kept(Chunk(idx, t0, t1))
  {
    toTmp.lo, toTmp.hi := t0, t1;
    to.Untouched(pool.w);
    if toTmp.lo != 0 || toTmp.hi != 0 {
      LinkLast(to, toTmp, idx, pool);
    } else {
      pool.Release(toTmp);
      to.Untouched(pool.w);
    }
  }

  /** One source at one step: the element numbered idx, if the source is there, else null for
      `bitmap_zero_bits`; and the pointer past it. */
  method Take(ptr: Element?, idx: nat, ghost l: Rest) returns (tmp: Element?, next: Element?)
    requires l.From(ptr)
    ensures l.Past(idx, ptr).From(next)
    ensures if l.Past(idx, ptr) == l then tmp == null && HeadAt(l.cs, idx) == Chunk(idx, 0, 0)
            else tmp == ptr && ptr in l.r && ptr.Content() == HeadAt(l.cs, idx)
    ensures next == if tmp == null then ptr else ptr.next
  {
    tmp, next := null, ptr;
    if ptr != null && ptr.indx == idx {
      tmp, next := ptr, ptr.next;
    }
  }

  /** Word n of an operand. */
  function Word(tmp: Element?, n: nat): nat
    reads tmp
  {
    if tmp == null then 0 else if n == 0 then tmp.lo else tmp.hi
  }

  /** What is left of both sources and of the target. A source may be the target's own list. */
  datatype Lists = Lists(one: Rest, two: Rest, target: Rest) {
    ghost predicate From(p1: Element?, p2: Element?, toPtr: Element?)
      reads one.r, two.r, target.r
    {
      one.From(p1) && two.From(p2) && target.From(toPtr)
    }

    /** Each source is the target's list, at the same place, or apart from it. */
    ghost predicate Shared(p1: Element?, p2: Element?, toPtr: Element?) {
      && (one.r !! target.r || (one == target && p1 == toPtr))
      && (two.r !! target.r || (two == target && p2 == toPtr))
    }

    /** No element left is among those in r. */
    ghost predicate Avoid(r: set<Element>) {
      one.r !! r && two.r !! r && target.r !! r
    }

    ghost predicate NoneBelow(idx: nat) {
      AtOrAbove(one.cs, idx) && AtOrAbove(two.cs, idx)
    }
  }

  /** The first half of a turn: find the operands and the target element. Preparing the target disturbs
      neither the words about to be read nor the rest of a source; a source that is the target is
      consumed in step with it. */
  method Fetch(p1: Element?, p2: Element?, toPtr: Element?, idx: nat, pool: Pool, ghost ls: Lists)
    returns (f1: Element?, f2: Element?, n1: Element?, n2: Element?, next: Element?, toTmp: Element, skipped: bool,
        ghost ns: Lists)
    requires pool.Valid() && ls.From(p1, p2, toPtr) && ls.Shared(p1, p2, toPtr) && ls.Avoid(pool.repr)
             && ls.NoneBelow(idx)
    modifies pool, pool.repr, ls.target.r
    ensures pool.Valid() && ns.From(n1, n2, next) && ns.Shared(n1, n2, next) && ns.Avoid(pool.repr) && ns.Avoid({toTmp})
    ensures toTmp !in pool.repr
    ensures ns.one == ls.one.Past(idx, p1) && ns.two == ls.two.Past(idx, p2)
    ensures Word(f1, 0) == HeadAt(ls.one.cs, idx).lo && Word(f1, 1) == HeadAt(ls.one.cs, idx).hi
    ensures Word(f2, 0) == HeadAt(ls.two.cs, idx).lo && Word(f2, 1) == HeadAt(ls.two.cs, idx).hi
    ensures ns.target.cs == TailAt(Skip(ls.target.cs, idx), idx) && ns.target.r <= ls.target.r
    ensures skipped <==> Skip(ls.target.cs, idx) != ls.target.cs
    ensures toTmp.lo == HeadAt(Skip(ls.target.cs, idx), idx).lo && toTmp.hi == HeadAt(Skip(ls.target.cs, idx), idx).hi
    ensures pool.repr <= old(pool.repr) + ls.target.r && (fresh(toTmp) || toTmp in old(pool.repr) + ls.target.r)
    ensures old(pool.repr) + ls.target.r <= pool.repr + ns.target.r + {toTmp}
  {
    f1, n1 := Take(p1, idx, ls.one);
    f2, n2 := Take(p2, idx, ls.two);
    ghost var after;
    toTmp, next, skipped, after := PrepareTarget(toPtr, idx, pool, ls.target);
    ns := Lists(ls.one.Past(idx, p1), ls.two.Past(idx, p2), after);
  }

  /** What the operation works on, between turns: the lists are as they were, and nothing built, free
      or left over is on two of them. */
  ghost predicate Ready(to: Bitmap, pool: Pool, ls: Lists, p1: Element?, p2: Element?, toPtr: Element?)
    reads to, to.repr, pool, pool.repr, ls.one.r, ls.two.r, ls.target.r
  {
    && to.Valid(pool.w) && pool.Valid() && ls.From(p1, p2, toPtr) && ls.Shared(p1, p2, toPtr)
    && to.repr !! pool.repr && ls.Avoid(to.repr) && ls.Avoid(pool.repr)
  }

  /** Store the words, and leave the rest of each list alone. */
  method StoreBeside(to: Bitmap, toTmp: Element, idx: nat, t0: nat, t1: nat, pool: Pool,
                     ghost ls: Lists, ghost p1: Element?, ghost p2: Element?, ghost toPtr: Element?)
    requires to.Valid(pool.w) && pool.Valid() && to.repr !! pool.repr && toTmp !in to.repr && toTmp !in pool.repr
    requires ls.From(p1, p2, toPtr) && ls.Avoid(to.repr) && ls.Avoid({toTmp})
    requires Chunk(idx, t0, t1).Fits(pool.w) && idx < HIGHEST_INDEX
    requires forall i :: 0 <= i < |to.chunks| ==> to.chunks[i].indx < idx
    modifies to, to.repr`next, to.repr`prev, toTmp, pool
    ensures to.Valid(pool.w) && pool.Valid() && ls.From(p1, p2, toPtr)
    ensures Moved(old(to.repr), old(pool.repr), to.repr, pool.repr, toTmp)
    ensures to.chunks == old(to.chunks) + Kept(Chunk(idx, t0, t1))
  {
    Store(to, toTmp, idx, t0, t1, pool);
  }

  /** An element has gone on one of two lists. */
  ghost predicate Moved(one: set<Element>, two: set<Element>, one': set<Element>, two': set<Element>, e: Element) {
    if one' == one then two' == two + {e} else one' == one + {e} && two' == two
  }

  lemma StillApart(ls: Lists, one: set<Element>, two: set<Element>, one': set<Element>, two': set<Element>, e: Element)
    requires Moved(one, two, one', two', e) && one !! two && e !in one && e !in two
    requires ls.Avoid(one) && ls.Avoid(two) && ls.Avoid({e})
    ensures one' !! two' && ls.Avoid(one') && ls.Avoid(two') && one' + two' == one + two + {e}
  {
  }

  /** The second half of a turn. */
  method Finish(to: Bitmap, toTmp: Element, idx: nat, t0: nat, t1: nat, pool: Pool,
                ghost ls: Lists, ghost p1: Element?, ghost p2: Element?, ghost toPtr: Element?)
    requires Ready(to, pool, ls, p1, p2, toPtr) && ls.Avoid({toTmp}) && toTmp !in to.repr && toTmp !in pool.repr
    requires Chunk(idx, t0, t1).Fits(pool.w) && idx < HIGHEST_INDEX
    requires forall i :: 0 <= i < |to.chunks| ==> to.chunks[i].indx < idx
    modifies to, to.repr`next, to.repr`prev, toTmp, pool
    ensures Ready(to, pool, ls, p1, p2, toPtr) && to.repr + pool.repr == old(to.repr + pool.repr) + {toTmp}
    ensures to.chunks == old(to.chunks) + Kept(Chunk(idx, t0, t1))
  {
    StoreBeside(to, toTmp, idx, t0, t1, pool, ls, p1, p2, toPtr);
    StillApart(ls, old(to.repr), old(pool.repr), to.repr, pool.repr, toTmp);
  }

  /** The first half of a turn: the two words, and the element to store them in. */
  method Compute(to: Bitmap, p1: Element?, p2: Element?, toPtr: Element?, idx: nat, op: BitOp, pool: Pool,
      ghost ls: Lists)
    returns (n1: Element?, n2: Element?, next: Element?, toTmp: Element, t0: nat, t1: nat, changed: bool,
        ghost ns: Lists)
    requires Ready(to, pool, ls, p1, p2, toPtr) && ls.NoneBelow(idx)
    modifies pool, pool.repr, ls.target.r
    ensures Ready(to, pool, ns, n1, n2, next) && ns.Avoid({toTmp}) && toTmp !in to.repr && toTmp !in pool.repr
    ensures ns.one == ls.one.Past(idx, p1) && ns.two == ls.two.Past(idx, p2)
    ensures ns.target.cs == TailAt(Skip(ls.target.cs, idx), idx) && ns.target.r <= ls.target.r
    ensures Chunk(idx, t0, t1) == Result(op, pool.w, ls.one.cs, ls.two.cs, idx)
    ensures changed <==> Differs(ls.target.cs, Chunk(idx, t0, t1))
    ensures pool.repr <= old(pool.repr) + ls.target.r && (fresh(toTmp) || toTmp in old(pool.repr) + ls.target.r)
    ensures old(pool.repr) + ls.target.r <= pool.repr + ns.target.r + {toTmp}
  {
    var f1, f2;
    f1, f2, n1, n2, next, toTmp, changed, ns := Fetch(p1, p2, toPtr, idx, pool, ls);
    t0 := Combine(op, Word(f1, 0), Word(f2, 0), pool.w);
    t1 := Combine(op, Word(f1, 1), Word(f2, 1), pool.w);
    changed := changed || t0 != toTmp.lo || t1 != toTmp.hi;
    to.Untouched(pool.w);
  }

  /** The elements the operation owns: built, free, or not reached yet. */
  ghost function Owned(to: Bitmap, pool: Pool, ls: Lists): set<Element>
    reads to, pool
  {
    to.repr + pool.repr + ls.target.r
  }

  /** One turn of the main loop: combine the chunks numbered idx, where idx is the smallest number left. */
  method Step(to: Bitmap, p1: Element?, p2: Element?, toPtr: Element?, idx: nat, op: BitOp, pool: Pool, ghost ls: Lists)
    returns (n1: Element?, n2: Element?, next: Element?, changed: bool, ghost ns: Lists)
    requires Ready(to, pool, ls, p1, p2, toPtr) && idx < HIGHEST_INDEX && ls.NoneBelow(idx)
    requires forall i :: 0 <= i < |to.chunks| ==> to.chunks[i].indx < idx
    modifies to, to.repr, pool, pool.repr, ls.target.r
    ensures Ready(to, pool, ns, n1, n2, next)
    ensures ns.one == ls.one.Past(idx, p1) && ns.two == ls.two.Past(idx, p2)
    ensures ns.target.cs == TailAt(Skip(ls.target.cs, idx), idx) && ns.target.r <= ls.target.r
    ensures var c := Result(op, pool.w, ls.one.cs, ls.two.cs, idx);
            && to.chunks == old(to.chunks) + Kept(c)
            && (changed <==> Differs(ls.target.cs, c))
    ensures Accounted(old(Owned(to, pool, ls)), Owned(to, pool, ns))
  {
    var toTmp, t0, t1;
    n1, n2, next, toTmp, t0, t1, changed, ns := Compute(to, p1, p2, toPtr, idx, op, pool, ls);
    Finish(to, toTmp, idx, t0, t1, pool, ns, n1, n2, next);
  }

  /** A valid bitmap's list, from its first element, before the merge touches it. */
  lemma {:induction false} WholeList(s: seq<Element>, r: set<Element>, cs: seq<Chunk>)
    requires Exactly(s, r) && Chained(s, r) && Holds(s, r, cs)
    ensures Rest(r, cs).From(At(s, 0))
    decreases |s|
  {
    if s != [] {
      WholeList(s[1..], r - {s[0]}, cs[1..]);
    }
  }

  lemma ListOf(b: Bitmap, w: nat)
    requires b.Valid(w)
    ensures Rest(b.repr, b.chunks).From(b.first)
  {
    WholeList(b.elts, b.repr, b.chunks);
  }

  /** Free what is left of TO: walk to its last element and splice. */
  method FreeTheLot(toPtr: Element, pool: Pool, ghost l: Rest)
    requires l.From(toPtr) && pool.Valid() && l.r !! pool.repr
    modifies pool, l.r`next
    ensures pool.Valid() && pool.repr == old(pool.repr) + l.r
  {
    var toTmp: Element := toPtr;
    ghost var rest := l;
    while toTmp.next != null
      invariant rest.From(toTmp) && rest.r <= l.r && rest.Last(toTmp) == l.Last(toPtr)
      decreases |rest.cs|
    {
      rest := rest.Tail(toTmp);
      toTmp := toTmp.next;
    }
    toTmp.next := pool.free;
    l.Spliced(toPtr, pool.free, pool.repr);
    pool.free := toPtr;
    pool.repr := l.r + pool.repr;
  }

  /** The lists of the target and the sources: each source's is the target's, or apart from it. */
  lemma SharedLists(to: Bitmap, from1: Bitmap, from2: Bitmap, pool: Pool)
    requires to.Valid(pool.w) && from1.Valid(pool.w) && from2.Valid(pool.w)
    requires (from1 == to || from1.repr !! to.repr) && (from2 == to || from2.repr !! to.repr)
    requires to.repr !! pool.repr && from1.repr !! pool.repr && from2.repr !! pool.repr
    ensures var ls := Lists(Rest(from1.repr, from1.chunks), Rest(from2.repr, from2.chunks), Rest(to.repr, to.chunks));
            && ls.From(from1.first, from2.first, to.first) && ls.Shared(from1.first, from2.first, to.first)
            && ls.Avoid(pool.repr)
  {
    ListOf(from1, pool.w);
    ListOf(from2, pool.w);
    ListOf(to, pool.w);
  }

  /** Empty TO. What it held can now only be reached through the pointers taken before. */
  method Begin(to: Bitmap, from1: Bitmap, from2: Bitmap, pool: Pool)
    returns (p1: Element?, p2: Element?, toPtr: Element?, ghost ls: Lists)
    requires to.Valid(pool.w) && from1.Valid(pool.w) && from2.Valid(pool.w) && pool.Valid()
    requires (from1 == to || from1.repr !! to.repr) && (from2 == to || from2.repr !! to.repr)
    requires to.repr !! pool.repr && from1.repr !! pool.repr && from2.repr !! pool.repr
    modifies to
    ensures Ready(to, pool, ls, p1, p2, toPtr) && to.repr == {} && to.chunks == []
    ensures ls == old(Lists(Rest(from1.repr, from1.chunks), Rest(from2.repr, from2.chunks), Rest(to.repr, to.chunks)))
  {
    SharedLists(to, from1, from2, pool);
    p1, p2, toPtr := from1.first, from2.first, to.first;
    ls := Lists(Rest(from1.repr, from1.chunks), Rest(from2.repr, from2.chunks), Rest(to.repr, to.chunks));
    to.first := null;
    to.SetEmpty(pool.w);
  }

  lemma AllOwned(target: set<Element>, free: set<Element>)
    ensures {} + free + target == target + free
  {
  }

  /** The place of the loop as values. */
  ghost function PlaceOf(to: Bitmap, ls: Lists, changed: bool): Place
    reads to
  {
    Place(to.chunks, ls.one.cs, ls.two.cs, ls.target.cs, changed)
  }

  /** A turn as the loop sees it: it combines the chunks of the smallest number left. */
  method Turn(to: Bitmap, p1: Element?, p2: Element?, toPtr: Element?, op: BitOp, pool: Pool, changed: bool,
      ghost ls: Lists)
    returns (n1: Element?, n2: Element?, next: Element?, now: bool, ghost ns: Lists)
    requires Ready(to, pool, ls, p1, p2, toPtr) && (p1 != null || p2 != null)
    requires PlaceOf(to, ls, changed).Ascending(op, pool.w, HIGHEST_INDEX)
    modifies to, to.repr, pool, pool.repr, ls.target.r
    ensures Ready(to, pool, ns, n1, n2, next)
    ensures !old(PlaceOf(to, ls, changed)).Done()
            && PlaceOf(to, ns, now) == old(PlaceOf(to, ls, changed)).Next(op, pool.w)
    ensures Accounted(old(Owned(to, pool, ls)), Owned(to, pool, ns))
  {
    var indx1 := if p1 == null then HIGHEST_INDEX else p1.indx;
    var indx2 := if p2 == null then HIGHEST_INDEX else p2.indx;
    var idx := if indx1 <= indx2 then indx1 else indx2;
    n1, n2, next, now, ns := Step(to, p1, p2, toPtr, idx, op, pool, ls);
    now := changed || now;
  }

  /** The main loop, as long as either source has elements. */
  method Loop(to: Bitmap, start1: Element?, start2: Element?, start: Element?, op: BitOp, pool: Pool, ghost ls0: Lists)
    returns (toPtr: Element?, changed: bool, ghost ls: Lists)
    requires Ready(to, pool, ls0, start1, start2, start) && to.repr == {}
    requires PlaceOf(to, ls0, false).Ascending(op, pool.w, HIGHEST_INDEX)
    modifies to, pool, pool.repr, ls0.target.r
    ensures Ready(to, pool, ls, null, null, toPtr)
    ensures PlaceOf(to, ls, changed) == old(PlaceOf(to, ls0, false)).Final(op, pool.w)
    ensures Accounted(old(Owned(to, pool, ls0)), Owned(to, pool, ls))
  {
    var p1, p2 := start1, start2;
    toPtr, changed, ls := start, false, ls0;
    while p1 != null || p2 != null
      invariant Ready(to, pool, ls, p1, p2, toPtr)
      invariant PlaceOf(to, ls, changed).Ascending(op, pool.w, HIGHEST_INDEX)
      invariant PlaceOf(to, ls, changed).Final(op, pool.w) == old(PlaceOf(to, ls0, false)).Final(op, pool.w)
      invariant Accounted(old(Owned(to, pool, ls0)), Owned(to, pool, ls))
      decreases PlaceOf(to, ls, changed).Left()
    {
      p1, p2, toPtr, changed, ls := Turn(to, p1, p2, toPtr, op, pool, changed, ls);
    }
  }

  /** What follows the main loop: if TO has elements left over, it has changed, and they are freed. */
  method CleanUp(to: Bitmap, toPtr: Element?, pool: Pool, ghost ls: Lists) returns (changed: bool)
    requires Ready(to, pool, ls, null, null, toPtr)
    modifies pool, ls.target.r`next
    ensures to.Valid(pool.w) && pool.Valid() && to.repr !! pool.repr && to.repr + pool.repr == old(Owned(to, pool, ls))
    ensures changed <==> ls.target.cs != []
  {
    changed := toPtr != null;
    if toPtr != null {
      FreeTheLot(toPtr, pool, ls.target);
      to.Untouched(pool.w);
    }
  }

  /** The loop and the clean-up after it, on the lists taken by `Begin`. */
  method Run(to: Bitmap, p1: Element?, p2: Element?, start: Element?, op: BitOp, pool: Pool, ghost ls0: Lists)
    returns (changed: bool)
    requires Ready(to, pool, ls0, p1, p2, start) && to.repr == {}
    requires PlaceOf(to, ls0, false).Ascending(op, pool.w, HIGHEST_INDEX)
    modifies to, pool, pool.repr, ls0.target.r
    ensures to.Valid(pool.w) && pool.Valid() && to.repr !! pool.repr
    ensures var f := old(PlaceOf(to, ls0, false)).Final(op, pool.w);
            to.chunks == f.out && (changed <==> f.changed || f.t != [])
    ensures Accounted(old(Owned(to, pool, ls0)), to.repr + pool.repr)
  {
    var toPtr, more;
    ghost var ls;
    toPtr, changed, ls := Loop(to, p1, p2, start, op, pool, ls0);
    more := CleanUp(to, toPtr, pool, ls);
    changed := changed || more;
  }

  /** `bitmap_operation`: TO becomes the combination of FROM1 and FROM2, even when TO is FROM1, FROM2 or
      both; the answer is whether that changed the set TO stands for. */
  method Operation(to: Bitmap, from1: Bitmap, from2: Bitmap, op: BitOp, pool: Pool) returns (changed: bool)
    requires to.Valid(pool.w) && from1.Valid(pool.w) && from2.Valid(pool.w) && pool.Valid()
    requires (from1 == to || from1.repr !! to.repr) && (from2 == to || from2.repr !! to.repr)
    requires to.repr !! pool.repr && from1.repr !! pool.repr && from2.repr !! pool.repr
    modifies to, to.repr, pool, pool.repr
    ensures to.Valid(pool.w) && pool.Valid() && to.repr !! pool.repr
    ensures to.Set(pool.w) == old(SetOp(op, pool.w, from1.chunks, from2.chunks))
    ensures changed <==> to.Set(pool.w) != old(to.Set(pool.w))
    ensures Accounted(old(to.repr + pool.repr), to.repr + pool.repr)
  {
    WholeRun(op, pool.w, from1.chunks, from2.chunks, to.chunks, HIGHEST_INDEX);
    var p1, p2, toPtr;
    ghost var ls;
    p1, p2, toPtr, ls := Begin(to, from1, from2, pool);
    AllOwned(old(to.repr), pool.repr);
    changed := Run(to, p1, p2, toPtr, op, pool, ls);
  }
}
