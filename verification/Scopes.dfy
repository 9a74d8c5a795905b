/** `pushlevel`, `pushdecl`, `poplevel`, `lookup_name` and `lookup_name_current_level`: one slot per
    identifier and a list of shadowed definitions per level, instead of a search of the levels. */
module Scopes {
  import opened Options
  import opened ScopeNames
  import opened ScopeRuns
  import opened ScopeBlocks

  class State {
    var local: Slots
    var globals: Slots
    /** The binding levels, the global one first and the current one last. */
    var levels: seq<Level>
    var keepNextLevel: bool
    var keepNextIfSubblocks: bool
    var sup: Super
    var nextBlock: nat
    /** For each level, the blocks made inside it since it was entered. */
    ghost var made: seq<seq<nat>>

    ghost function Current(): Names
      reads this`local, this`globals, this`levels
    {
      Names(local, globals, levels)
    }

    ghost predicate ValidNames()
      reads this`local, this`globals, this`levels
    {
      NamesOk(local, globals, levels)
    }

    ghost predicate ValidBlocks()
      reads this`levels, this`sup, this`nextBlock, this`made
    {
      && levels != [] && BlocksOk(levels, sup, nextBlock)
      && |made| == |levels| && forall i :: 0 <= i < |levels| ==> made[i] == Post(levels[i].blocks)
    }

    ghost predicate Valid()
      reads this
    {
      ValidNames() && ValidBlocks()
    }

    constructor ()
      ensures Valid() && |levels| == 1 && levels[0].names == []
    {
      local, globals := map[], map[];
      levels := [Level([], [], End, false, false)];
      keepNextLevel, keepNextIfSubblocks := false, false;
      sup, nextBlock := map[], 0;
      made := [[]];
      new;
      assert levels[..0] == [] && Flat(levels) == [] + Post(End);
    }

    /** `pushlevel`, for the name space of variables. */
    method PushLevel()
      requires Valid()
      modifies this`levels, this`keepNextLevel, this`keepNextIfSubblocks, this`made
      ensures Valid()
      ensures levels == old(levels) + [Level([], [], End, old(keepNextLevel), old(keepNextIfSubblocks))]
      ensures Current().Like(Step(old(Current()), Push))
      ensures made == old(made) + [[]] && !keepNextLevel && !keepNextIfSubblocks
    {
      var newLevel := Level([], [], End, keepNextLevel, keepNextIfSubblocks);
      PushKeeps(local, globals, levels, newLevel);
      assert (levels + [newLevel])[..|levels|] == levels;
      assert Flat(levels + [newLevel]) == Flat(levels) + [];
      keepNextLevel, keepNextIfSubblocks := false, false;
      PushLike(Current(), newLevel);
      levels := levels + [newLevel];
      made := made + [[]];
    }

    /** `lookup_name`: what a search of the levels would find. */
    method LookupName(n: Name) returns (val: Option<Decl>)
      requires Valid()
      ensures val == Meaning(levels, n)
    {
      if |levels| > 1 && n in local {
        val := Some(local[n]);
      } else {
        val := Slot(globals, n);
      }
      assert Slot(local, n) == Search(levels, n);
    }

    /** `lookup_name_current_level` */
    method LookupNameCurrentLevel(n: Name) returns (t: Option<Decl>)
      requires Valid()
      ensures t == Find(levels[|levels| - 1].names, n)
    {
      if |levels| == 1 {
        return Slot(globals, n);
      }
      assert Slot(local, n) == Search(levels, n);
      if n !in local {
        return None;
      }
      var names := levels[|levels| - 1].names;
      while names != []
        invariant Find(names, n) == Find(levels[|levels| - 1].names, n)
        decreases |names|
      {
        if names[0].name == Some(n) {
          return Some(names[0]);
        }
        names := names[1..];
      }
      t := None;
    }

    /** `pushdecl`. Whether an earlier declaration of the level and this one are merged is decided elsewhere
        (`duplicate_decls`) and given by `merged`. An external declaration that is held against one of an
        outer level is installed all the same, since `duplicate_decls` then answers no. */
    method PushDecl(x: Decl, merged: bool) returns (d: Decl)
      requires Valid()
      modifies this`local, this`globals, this`levels
      ensures Valid() && Current() == Step(old(Current()), Declare(x, merged))
      ensures var t := Earlier(old(levels)[|old(levels)| - 1], x);
              d == if merged && t.Some? then t.value else x
      ensures x.name.Some? ==> Meaning(levels, x.name.value) == Some(d)
      ensures var last := |old(levels)| - 1;
              (merged && Earlier(old(levels)[last], x).Some?) || levels[last].names == [x] + old(levels)[last].names
    {
      if x.name.Some? {
        var t := LookupNameCurrentLevel(x.name.value);
        if t.Some? && merged {
          return t.value;
        }
      }
      Install(x);
      d := x;
    }

    /** The end of `pushdecl`: the declaration is entered in the current level. */
    method Install(x: Decl)
      requires Valid()
      modifies this`local, this`globals, this`levels
      ensures Valid() && Current() == Step(old(Current()), Declare(x, false))
    {
      var last := |levels| - 1;
      BlocksUntouched(x);
      DeclarationKeeps(local, globals, levels, x);
      var level := Bind(x, levels[last], last == 0);
      levels := levels[last := level];
    }

    /** Set the slot, and put the declaration on the list of its level. */
    method Bind(x: Decl, level0: Level, isGlobal: bool) returns (level: Level)
      modifies this`local, this`globals
      ensures level == Declared(old(local), level0, x, isGlobal)
      ensures local == Bound(old(local), x, !isGlobal) && globals == Bound(old(globals), x, isGlobal)
    {
      level := level0;
      if x.name.Some? {
        if isGlobal {
          globals := globals[x.name.value := x];
        } else {
          var oldLocal := Slot(local, x.name.value);
          local := local[x.name.value := x];
          if oldLocal.Some? {
            level := level.(shadowed := [(x.name.value, oldLocal.value)] + level.shadowed);
          }
        }
      }
      level := level.(names := [x] + level.names);
    }

    lemma BlocksUntouched(x: Decl)
      requires Valid()
      ensures var last := |levels| - 1;
              var later := levels[last := Declared(local, levels[last], x, last == 0)];
              BlocksOk(later, sup, nextBlock) && Flat(later) == Flat(levels)
    {
    }

    /** The loop of `poplevel` that clears the slots of a level's own declarations. */
    method Clear(decls: seq<Decl>)
      modifies this`local
      ensures local == Cleared(old(local), decls)
    {
      var link := decls;
      while link != []
        invariant Cleared(local, link) == Cleared(old(local), decls)
        decreases |link|
      {
        if link[0].name.Some? {
          local := local - {link[0].name.value};
        }
        link := link[1..];
      }
    }

    /** The loop of `poplevel` that restores what a level shadowed. */
    method Restore(shadowed: seq<(Name, Decl)>)
      modifies this`local
      ensures local == Restored(old(local), shadowed)
    {
      var link := shadowed;
      while link != []
        invariant Restored(local, link) == Restored(old(local), shadowed)
        decreases |link|
      {
        local := local[link[0].0 := link[0].1];
        link := link[1..];
      }
    }

    /** The loop of `poplevel` over the subblocks. */
    method RecordSuperior(subblocks: Blocks, block: Option<nat>)
      modifies this`sup
      ensures sup == WithSuper(old(sup), subblocks, block)
    {
      var link := subblocks;
      while link.Block?
        invariant WithSuper(sup, link, block) == WithSuper(old(sup), subblocks, block)
        decreases link
      {
        sup := if block.Some? then sup[link.id := block.value] else sup - {link.id};
        link := link.chain;
      }
    }

    /** `poplevel`. The slots agree with the remaining levels if no name was redeclared in the level without
        an outer local definition to restore (`PopRestores`: and only then). A block is made for the level,
        or its subblocks are carried forward; for a function body the tree is handed over as `body`, and
        holds every block made inside, in order, each linked to its superior. */
    method PopLevel(keep: bool, reverse: bool, functionBody: bool) returns (body: Blocks)
      requires Valid() && |levels| > 1
      modifies this`local, this`levels, this`sup, this`nextBlock, this`made
      ensures Current().Like(Step(old(Current()), Pop(keep, reverse, functionBody)))
      ensures Restorable(old(levels)) ==> ValidNames()
      ensures ValidBlocks()
      ensures var level := old(levels)[|old(levels)| - 1];
              var makes := keep || functionBody || level.keep || (level.keepIfSubblocks && level.blocks.Block?);
              && nextBlock == old(nextBlock) + (if makes then 1 else 0)
              && Left(old(levels), levels, functionBody, body, if makes then Some(old(nextBlock)) else None,
                      Ordered(level.names, reverse))
              && (if makes then Under(level.blocks, sup, old(nextBlock)) else Loose(level.blocks, sup))
      ensures Handed(old(made), made, functionBody, body, if nextBlock > old(nextBlock) then [old(nextBlock)] else [])
      ensures functionBody ==> Under(body.subblocks, sup, body.id)
    {
      var level := levels[|levels| - 1];
      var decls := if reverse then Reversed(level.names) else level.names;
      Clear(decls);
      Restore(level.shadowed);
      body := PopBlocks(keep, decls, functionBody);
      PopNames(old(Current()), Pop(keep, reverse, functionBody), levels);
    }

    /** Any one call, the names being as in s. */
    method Perform(c: Call, ghost s: Names)
      requires Valid() && Current().Like(s) && (c.Pop? ==> |levels| > 1 && Restorable(s.levels))
      modifies this
      ensures Valid() && Current().Like(Step(s, c))
    {
      ghost var was := Current();
      match c {
        case Push => PushLevel();
        case Declare(x, merged) => var _ := PushDecl(x, merged);
        case Pop(keep, reverse, functionBody) =>
          RestorableSame(s.levels, levels);
          var _ := PopLevel(keep, reverse, functionBody);
      }
      StepLike(was, s, c);
      LikeTransitive(Current(), Step(was, c), Step(s, c));
    }

    /** Any run of calls. */
    method Run(calls: seq<Call>)
      requires Valid() && Possible(calls, |levels|) && Proper(Current(), calls)
      modifies this
      ensures Valid() && Current().Like(After(old(Current()), calls))
    {
      var rest := calls;
      ghost var s := Current();
      while rest != []
        invariant Valid() && Current().Like(s)
        invariant Possible(rest, |s.levels|) && Proper(s, rest) && After(s, rest) == After(old(Current()), calls)
        decreases |rest|
      {
        Perform(rest[0], s);
        s := Step(s, rest[0]);
        rest := rest[1..];
      }
    }

    /** A scope: `pushlevel`, calls inside it, and the matching `poplevel`. Every slot is back at its value. */
    method RunScope(inner: seq<Call>, pop: Call)
      requires Valid() && Inner(inner, 0) && pop.Pop?
      requires Possible(Scope(inner, pop), |levels|) && Proper(Current(), Scope(inner, pop))
      modifies this
      ensures Valid() && local == old(local) && globals == old(globals) && SameNames(levels, old(levels))
    {
      Run(Scope(inner, pop));
      ScopeRestores(old(Current()), inner, pop);
    }

    /** The part of `poplevel` that deals with blocks and leaves the level. */
    method PopBlocks(keep: bool, decls: seq<Decl>, functionBody: bool) returns (body: Blocks)
      requires ValidBlocks() && |levels| > 1
      modifies this`levels, this`sup, this`nextBlock, this`made
      ensures ValidBlocks() && SameNames(levels, old(levels)[..|old(levels)| - 1])
      ensures var level := old(levels)[|old(levels)| - 1];
              var makes := keep || functionBody || level.keep || (level.keepIfSubblocks && level.blocks.Block?);
              && nextBlock == old(nextBlock) + (if makes then 1 else 0)
              && Left(old(levels), levels, functionBody, body, if makes then Some(old(nextBlock)) else None, decls)
              && (if makes then Under(level.blocks, sup, old(nextBlock)) else Loose(level.blocks, sup))
      ensures Handed(old(made), made, functionBody, body, if nextBlock > old(nextBlock) then [old(nextBlock)] else [])
      ensures functionBody ==> Under(body.subblocks, sup, body.id)
    {
      var last := |levels| - 1;
      var makes := MakesBlock(levels[last], keep, functionBody);
      var block := if makes then Some(nextBlock) else None;
      if functionBody {
        body := TakeBody(decls);
      } else {
        body := End;
        PassOn(decls, block);
      }
    }

    /** Whether a block is made for a level that is left. */
    method MakesBlock(level: Level, keep0: bool, functionBody: bool) returns (makes: bool)
      ensures makes <==> keep0 || functionBody || level.keep || (level.keepIfSubblocks && level.blocks.Block?)
    {
      var keep := keep0 || level.keep;
      makes := keep || functionBody || (level.keepIfSubblocks && level.blocks.Block?);
    }

    /** The tree of a function. */
    method TakeBody(decls: seq<Decl>) returns (body: Blocks)
      requires ValidBlocks() && |levels| > 1
      modifies this`levels, this`sup, this`nextBlock, this`made
      ensures ValidBlocks() && levels == old(levels)[..|old(levels)| - 1]
      ensures nextBlock == old(nextBlock) + 1 && Handed(old(made), made, true, body, [old(nextBlock)])
      ensures Left(old(levels), levels, true, body, Some(old(nextBlock)), decls)
      ensures Under(body.subblocks, sup, body.id)
    {
      var g := LeaveLevel(decls, Some(nextBlock));
      body := g.(vars := []);
      HandedBody(old(made), made, g, nextBlock - 1);
    }

    /** What goes to the level outside. */
    method PassOn(decls: seq<Decl>, block: Option<nat>)
      requires ValidBlocks() && |levels| > 1 && (block.Some? ==> block.value == nextBlock)
      modifies this`levels, this`sup, this`nextBlock, this`made
      ensures ValidBlocks() && SameNames(levels, old(levels)[..|old(levels)| - 1])
      ensures nextBlock == old(nextBlock) + if block.Some? then 1 else 0
      ensures Left(old(levels), levels, false, End, block, decls)
      ensures var f := old(levels)[|old(levels)| - 1].blocks;
              if block.Some? then Under(f, sup, block.value) else Loose(f, sup)
      ensures Handed(old(made), made, false, End, if block.Some? then [old(nextBlock)] else [])
    {
      var g := LeaveLevel(decls, block);
      ghost var left := made;
      Append(g);
      HandedOutside(old(made), left, g, if block.Some? then [block.value] else []);
    }

    /** Link the subblocks to the new block, if there is one, and take the level off the stack. */
    method LeaveLevel(decls: seq<Decl>, block: Option<nat>) returns (g: Blocks)
      requires ValidBlocks() && |levels| > 1 && (block.Some? ==> block.value == nextBlock)
      modifies this`levels, this`sup, this`nextBlock, this`made
      ensures ValidBlocks() && levels == old(levels)[..|old(levels)| - 1] && made == old(made)[..|old(made)| - 1]
      ensures g == HandedOn(old(levels), decls, block) && nextBlock == old(nextBlock) + if block.Some? then 1 else 0
      ensures Post(g) == old(made)[|old(made)| - 1] + if block.Some? then [old(nextBlock)] else []
      ensures Increasing(Post(g)) && Increasing(Flat(levels) + Post(g)) && LinkedBelow(g, sup)
      ensures forall id :: id in Flat(levels) + Post(g) ==> id < nextBlock
      ensures if block.Some? then Under(g.subblocks, sup, block.value) else Loose(g, sup)
    {
      var last := |levels| - 1;
      g := HandedOn(levels, decls, block);
      PopHandsOn(levels, sup, nextBlock, decls, block);
      RecordSuperior(levels[last].blocks, block);
      if block.Some? {
        nextBlock := nextBlock + 1;
      }
      levels, made := levels[..last], made[..last];
    }

    /** Give the block just made, or else the subblocks, to the level outside. */
    method Append(g: Blocks)
      requires ValidBlocks() && LinkedBelow(g, sup)
      requires Increasing(Flat(levels) + Post(g)) && forall id :: id in Flat(levels) + Post(g) ==> id < nextBlock
      modifies this`levels, this`made
      ensures ValidBlocks() && SameNames(levels, old(levels))
      ensures var last := |old(levels)| - 1;
              levels == old(levels)[last := old(levels)[last].(blocks := Chained(old(levels)[last].blocks, g))]
      ensures made == old(made)[|made| - 1 := old(made)[|made| - 1] + Post(g)]
    {
      var last := |levels| - 1;
      AppendKeeps(levels, sup, nextBlock, g);
      PostChained(levels[last].blocks, g);
      levels := levels[last := levels[last].(blocks := Chained(levels[last].blocks, g))];
      made := made[last := made[last] + Post(g)];
    }
  }

  /** What leaving a level does with its blocks and its declarations, `block` being the block made for it, if
      any. A function's block holds no declarations. Another block holds those of its level and joins the
      blocks of the level outside, as the subblocks do if no block is made. */
  ghost predicate Left(before: seq<Level>, after: seq<Level>, functionBody: bool, body: Blocks, block: Option<nat>,
      decls: seq<Decl>)
  {
    && |before| > 1
    && var last := |before| - 1;
    var level, outer := before[last], before[last - 1];
    if functionBody then
      block.Some? && body == Block(block.value, [], level.blocks, End) && after == before[..last]
    else
      && body == End
      && var joining := if block.Some? then Block(block.value, decls, level.blocks, End) else level.blocks;
      after == before[..last][last - 1 := outer.(blocks := Chained(outer.blocks, joining))]
  }

  /** Who gets the blocks of a level that is left, `own` being the block made for it, if any: the function,
      as one tree without repetitions, or the level outside. */
  ghost predicate Handed(before: seq<seq<nat>>, after: seq<seq<nat>>, functionBody: bool, body: Blocks, own: seq<nat>) {
    var last := |before| - 1;
    if functionBody then
      last >= 0 && after == before[..last] && body.Block? && body.chain.End? && own == [body.id]
      && Post(body) == before[last] + own && Increasing(Post(body))
    else
      last >= 1 && body.End? && after == before[..last][last - 1 := before[last - 1] + (before[last] + own)]
  }

  lemma HandedBody(before: seq<seq<nat>>, after: seq<seq<nat>>, g: Blocks, own: nat)
    requires before != [] && after == before[..|before| - 1] && g.Block? && g.chain.End? && g.id == own
    requires Post(g) == before[|before| - 1] + [own] && Increasing(Post(g))
    ensures Handed(before, after, true, g.(vars := []), [own])
  {
  }

  lemma HandedOutside(before: seq<seq<nat>>, after: seq<seq<nat>>, g: Blocks, own: seq<nat>)
    requires |before| > 1 && after == before[..|before| - 1] && Post(g) == before[|before| - 1] + own
    ensures Handed(before, after[|after| - 1 := after[|after| - 1] + Post(g)], false, End, own)
  {
  }
}
