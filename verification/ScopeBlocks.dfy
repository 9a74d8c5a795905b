/** The tree of BLOCK nodes that leaving levels builds. */
module ScopeBlocks {
  import opened Options
  import opened ScopeNames

  /** The blocks of a chain and everything below them, in the order in which their levels were left. */
  function Post(f: Blocks): seq<nat> {
    if f.End? then [] else Post(f.subblocks) + [f.id] + Post(f.chain)
  }

  /** `chainon` */
  function Chained(f: Blocks, g: Blocks): Blocks {
    if f.End? then g else f.(chain := Chained(f.chain, g))
  }

  /** `BLOCK_SUPERCONTEXT` of the blocks that have one. */
  type Super = map<nat, nat>

  /** Every block of the chain records p as its superior, and so on below. */
  predicate Under(f: Blocks, sup: Super, p: nat) {
    f.End? || (f.id in sup && sup[f.id] == p && Under(f.subblocks, sup, f.id) && Under(f.chain, sup, p))
  }

  /** Below the blocks of the chain every block records its superior. */
  predicate LinkedBelow(f: Blocks, sup: Super) {
    f.End? || (Under(f.subblocks, sup, f.id) && LinkedBelow(f.chain, sup))
  }

  /** The blocks of a chain get a superior, or lose theirs. */
  function WithSuper(sup: Super, f: Blocks, p: Option<nat>): Super
    decreases f
  {
    if f.End? then sup
    else WithSuper(if p.Some? then sup[f.id := p.value] else sup - {f.id}, f.chain, p)
  }

  /** The blocks of the chain themselves have no superior. */
  predicate Loose(f: Blocks, sup: Super) {
    f.End? || (f.id !in sup && Loose(f.chain, sup))
  }

  /** Taking the superiors away leaves none. */
  lemma {:induction false} WithoutSuperLoose(sup: Super, f: Blocks)
    requires Increasing(Post(f))
    ensures Loose(f, WithSuper(sup, f, None))
    decreases f
  {
    if f.Block? {
      var next := sup - {f.id};
      IncreasingParts(Post(f.subblocks) + [f.id], Post(f.chain));
      assert f.id in Post(f.subblocks) + [f.id];
      WithoutSuperLoose(next, f.chain);
      WithSuperElsewhere(next, f.chain, None, [f.id]);
      assert f.id in [f.id];
    }
  }

  predicate Increasing(s: seq<nat>) {
    forall i, j :: 0 <= i < j < |s| ==> s[i] < s[j]
  }

  lemma {:induction false} PostChained(f: Blocks, g: Blocks)
    ensures Post(Chained(f, g)) == Post(f) + Post(g)
  {
    if f.Block? { PostChained(f.chain, g); }
  }

  lemma {:induction false} ChainedLinked(f: Blocks, g: Blocks, sup: Super)
    ensures LinkedBelow(Chained(f, g), sup) <==> LinkedBelow(f, sup) && LinkedBelow(g, sup)
  {
    if f.Block? { ChainedLinked(f.chain, g, sup); }
  }

  predicate Agree(sup: Super, later: Super, ids: seq<nat>) {
    forall id :: id in ids ==> (id in sup) == (id in later) && (id in sup ==> sup[id] == later[id])
  }

  lemma {:induction false} UnderKept(f: Blocks, sup: Super, later: Super, p: nat)
    requires Under(f, sup, p) && Agree(sup, later, Post(f))
    ensures Under(f, later, p)
  {
    if f.Block? {
      UnderKept(f.subblocks, sup, later, f.id);
      UnderKept(f.chain, sup, later, p);
    }
  }

  lemma {:induction false} LinkedKept(f: Blocks, sup: Super, later: Super)
    requires LinkedBelow(f, sup) && Agree(sup, later, Post(f))
    ensures LinkedBelow(f, later)
  {
    if f.Block? {
      UnderKept(f.subblocks, sup, later, f.id);
      LinkedKept(f.chain, sup, later);
    }
  }

  /** Only the blocks of the chain themselves are written. */
  lemma {:induction false} WithSuperElsewhere(sup: Super, f: Blocks, p: Option<nat>, ids: seq<nat>)
    requires forall id :: id in Post(f) ==> id !in ids
    ensures Agree(sup, WithSuper(sup, f, p), ids)
    decreases f
  {
    if f.Block? {
      var next := if p.Some? then sup[f.id := p.value] else sup - {f.id};
      assert f.id in Post(f);
      WithSuperElsewhere(next, f.chain, p, ids);
    }
  }

  lemma IncreasingParts(x: seq<nat>, y: seq<nat>)
    requires Increasing(x + y)
    ensures Increasing(x) && Increasing(y) && forall a, b :: a in x && b in y ==> a < b
  {
    assert forall i :: 0 <= i < |x| ==> (x + y)[i] == x[i];
    assert forall j :: 0 <= j < |y| ==> (x + y)[|x| + j] == y[j];
  }

  /** Linking the blocks of a chain to p completes the tree below p. */
  lemma {:induction false} WithSuperUnder(sup: Super, f: Blocks, p: nat)
    requires LinkedBelow(f, sup) && Increasing(Post(f))
    ensures Under(f, WithSuper(sup, f, Some(p)), p)
    decreases f
  {
    if f.Block? {
      var next := sup[f.id := p];
      var later := WithSuper(next, f.chain, Some(p));
      var head := Post(f.subblocks) + [f.id];
      IncreasingParts(head, Post(f.chain));
      IncreasingParts(Post(f.subblocks), [f.id]);
      assert f.id in [f.id] && f.id in head;
      UnderKept(f.subblocks, sup, next, f.id);
      assert Agree(sup, next, Post(f.chain));
      LinkedKept(f.chain, sup, next);
      WithSuperUnder(next, f.chain, p);
      WithSuperElsewhere(next, f.chain, Some(p), head);
      UnderKept(f.subblocks, next, later, f.id);
    }
  }

  /** Taking a superior away leaves what is below linked. */
  lemma {:induction false} WithoutSuperLinked(sup: Super, f: Blocks)
    requires LinkedBelow(f, sup) && Increasing(Post(f))
    ensures LinkedBelow(f, WithSuper(sup, f, None))
    decreases f
  {
    if f.Block? {
      var next := sup - {f.id};
      var head := Post(f.subblocks) + [f.id];
      IncreasingParts(head, Post(f.chain));
      IncreasingParts(Post(f.subblocks), [f.id]);
      assert f.id in [f.id] && f.id in head;
      UnderKept(f.subblocks, sup, next, f.id);
      LinkedKept(f.chain, sup, next);
      WithoutSuperLinked(next, f.chain);
      WithSuperElsewhere(next, f.chain, None, head);
      UnderKept(f.subblocks, next, WithSuper(next, f.chain, None), f.id);
    }
  }

  /** The blocks of all open levels, outermost level first. */
  function Flat(levels: seq<Level>): seq<nat> {
    if levels == [] then [] else Flat(levels[..|levels| - 1]) + Post(levels[|levels| - 1].blocks)
  }

  /** Blocks are numbered as they are made; those of the open levels are all different and in the order
      in which their levels were left, and everything below them is linked. */
  ghost predicate BlocksOk(levels: seq<Level>, sup: Super, next: nat) {
    && Increasing(Flat(levels))
    && (forall id :: id in Flat(levels) ==> id < next)
    && (forall i :: 0 <= i < |levels| ==> LinkedBelow(levels[i].blocks, sup))
  }

  lemma {:induction false} FlatContains(levels: seq<Level>, i: nat)
    requires i < |levels|
    ensures forall id :: id in Post(levels[i].blocks) ==> id in Flat(levels)
  {
    if i < |levels| - 1 { FlatContains(levels[..|levels| - 1], i); }
  }

  /** The current level is left: its chain is linked to a new block, or carried forward. */
  lemma PopLinks(levels: seq<Level>, sup: Super, next: nat, p: Option<nat>)
    requires BlocksOk(levels, sup, next) && |levels| > 1
    ensures var last := |levels| - 1;
            var f := levels[last].blocks;
            var later := WithSuper(sup, f, p);
            && BlocksOk(levels[..last], later, next)
            && (if p.Some? then Under(f, later, p.value) else LinkedBelow(f, later))
            && Increasing(Flat(levels[..last]) + Post(f))
            && forall id :: id in Flat(levels[..last]) + Post(f) ==> id < next
  {
    var last := |levels| - 1;
    var outer, f := levels[..last], levels[last].blocks;
    var later := WithSuper(sup, f, p);
    assert Flat(levels) == Flat(outer) + Post(f);
    IncreasingParts(Flat(outer), Post(f));
    forall id | id in Flat(outer) ensures id < next { assert id in Flat(levels); }
    if p.Some? { WithSuperUnder(sup, f, p.value); } else { WithoutSuperLinked(sup, f); }
    forall i | 0 <= i < last ensures LinkedBelow(outer[i].blocks, later) {
      FlatContains(outer, i);
      WithSuperElsewhere(sup, f, p, Post(outer[i].blocks));
      LinkedKept(levels[i].blocks, sup, later);
    }
  }

  /** Blocks appended to the current level. */
  lemma AppendKeeps(levels: seq<Level>, sup: Super, next: nat, g: Blocks)
    requires levels != [] && BlocksOk(levels, sup, next) && LinkedBelow(g, sup)
    requires Increasing(Flat(levels) + Post(g)) && forall id :: id in Flat(levels) + Post(g) ==> id < next
    ensures var last := |levels| - 1;
            var later := levels[last := levels[last].(blocks := Chained(levels[last].blocks, g))];
            BlocksOk(later, sup, next) && Flat(later) == Flat(levels) + Post(g)
  {
    var last := |levels| - 1;
    var later := levels[last := levels[last].(blocks := Chained(levels[last].blocks, g))];
    PostChained(levels[last].blocks, g);
    ChainedLinked(levels[last].blocks, g, sup);
    assert later[..last] == levels[..last];
    Regrouped(Flat(levels[..last]), Post(levels[last].blocks), Post(g));
  }

  lemma Regrouped(x: seq<nat>, y: seq<nat>, z: seq<nat>)
    ensures x + (y + z) == x + y + z
  {
  }

  /** The chain that leaving the current level hands on: a new block holding its chain, or the chain. */
  function HandedOn(levels: seq<Level>, decls: seq<Decl>, block: Option<nat>): Blocks
    requires levels != []
  {
    var f := levels[|levels| - 1].blocks;
    if block.Some? then Block(block.value, decls, f, End) else f
  }

  lemma PopHandsOn(levels: seq<Level>, sup: Super, next: nat, decls: seq<Decl>, block: Option<nat>)
    requires BlocksOk(levels, sup, next) && |levels| > 1 && (block.Some? ==> block.value == next)
    ensures var outer, f := levels[..|levels| - 1], levels[|levels| - 1].blocks;
            var g, later, bound := HandedOn(levels, decls, block), WithSuper(sup, f, block), if block.Some? then
                next + 1 else next;
            && BlocksOk(outer, later, bound) && LinkedBelow(g, later)
            && Post(g) == Post(f) + (if block.Some? then [next] else [])
            && Increasing(Flat(outer) + Post(g)) && (forall id :: id in Flat(outer) + Post(g) ==> id < bound)
            && Increasing(Post(g)) && (if block.Some? then Under(f, later, next) else Loose(f, later))
  {
    var outer, f := levels[..|levels| - 1], levels[|levels| - 1].blocks;
    var g := HandedOn(levels, decls, block);
    PopLinks(levels, sup, next, block);
    if block.Some? {
      assert Post(g) == Post(f) + [next] + [] == Post(f) + [next];
      assert Flat(outer) + Post(g) == Flat(outer) + Post(f) + [next];
      forall i | 0 <= i < |Flat(outer) + Post(f)| ensures (Flat(outer) + Post(f))[i] < next {
        assert (Flat(outer) + Post(f))[i] in Flat(outer) + Post(f);
      }
    }
    IncreasingParts(Flat(outer), Post(g));
    if block.None? { WithoutSuperLoose(sup, f); }
  }
}
