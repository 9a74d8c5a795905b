/** The values behind scope handling: the declarations of a level, the one slot an identifier has for
    all local levels together, and the list of what a level shadows. */
module ScopeNames {
  import opened Options

  type Name = string

  datatype Decl = Decl(name: Option<Name>, id: nat)

  /** A chain of BLOCK nodes. */
  datatype Blocks = End | Block(id: nat, vars: seq<Decl>, subblocks: Blocks, chain: Blocks)

  datatype Level = Level(names: seq<Decl>, shadowed: seq<(Name, Decl)>, blocks: Blocks, keep: bool,
      keepIfSubblocks: bool)

  /** `IDENTIFIER_LOCAL_VALUE` or `IDENTIFIER_GLOBAL_VALUE` of all identifiers. */
  type Slots = map<Name, Decl>

  function Slot(s: Slots, n: Name): Option<Decl> {
    if n in s then Some(s[n]) else None
  }

  /** The declarations of n on a list, newest first. */
  function Named(names: seq<Decl>, n: Name): seq<Decl> {
    if names == [] then []
    else (if names[0].name == Some(n) then [names[0]] else []) + Named(names[1..], n)
  }

  /** What a level says about n. */
  function Find(names: seq<Decl>, n: Name): Option<Decl> {
    if Named(names, n) == [] then None else Some(Named(names, n)[0])
  }

  /** What the local levels say about n, searched from the innermost one outwards; level 0 is the
      global one. */
  function Search(levels: seq<Level>, n: Name): Option<Decl> {
    if |levels| <= 1 then None
    else
      var last := |levels| - 1;
      if Find(levels[last].names, n).Some? then Find(levels[last].names, n) else Search(levels[..last], n)
  }

  /** The meaning of a name: what the innermost level that says something about it says. */
  function Meaning(levels: seq<Level>, n: Name): Option<Decl>
    requires levels != []
  {
    if Search(levels, n).Some? then Search(levels, n) else Find(levels[0].names, n)
  }

  /** The oldest definition of n on the list of what a level shadows: the last one to be restored. */
  function LastShadowed(shadowed: seq<(Name, Decl)>, n: Name): Option<Decl> {
    if shadowed == [] then None
    else if LastShadowed(shadowed[1..], n).Some? then LastShadowed(shadowed[1..], n)
    else if shadowed[0].0 == n then Some(shadowed[0].1)
    else None
  }

  /** What that is, for a level whose surroundings mean `outer` by n: the outer local definition if there
      is one; otherwise the level's own first one, if there has been another since. */
  ghost predicate ShadowOk(level: Level, outer: Option<Decl>, n: Name) {
    var ds := Named(level.names, n);
    LastShadowed(level.shadowed, n) ==
      if ds == [] then None
      else if outer.Some? then outer
      else if |ds| > 1 then Some(ds[|ds| - 1])
      else None
  }

  /** So for every local level, and every name. */
  ghost predicate ShadowsOk(levels: seq<Level>) {
    |levels| <= 1 ||
    var last := |levels| - 1;
    ShadowsOk(levels[..last]) && forall n :: ShadowOk(levels[last], Search(levels[..last], n), n)
  }

  ghost predicate SlotsOk(local: Slots, levels: seq<Level>) {
    forall n :: Slot(local, n) == Search(levels, n)
  }

  /** The slots agree with the levels. */
  ghost predicate NamesOk(local: Slots, globals: Slots, levels: seq<Level>) {
    && levels != []
    && (forall n :: Slot(globals, n) == Find(levels[0].names, n))
    && SlotsOk(local, levels) && ShadowsOk(levels)
  }

  /** Clearing the slots of the declarations on a list. */
  function Cleared(local: Slots, decls: seq<Decl>): Slots
    decreases |decls|
  {
    if decls == [] then local
    else Cleared(if decls[0].name.Some? then local - {decls[0].name.value} else local, decls[1..])
  }

  /** Restoring what is on a list of shadowed definitions, in its order. */
  function Restored(local: Slots, shadowed: seq<(Name, Decl)>): Slots
    decreases |shadowed|
  {
    if shadowed == [] then local else Restored(local[shadowed[0].0 := shadowed[0].1], shadowed[1..])
  }

  lemma {:induction false} ClearedSlot(local: Slots, decls: seq<Decl>, n: Name)
    ensures Slot(Cleared(local, decls), n) == if Named(decls, n) == [] then Slot(local, n) else None
    decreases |decls|
  {
    if decls != [] {
      ClearedSlot(if decls[0].name.Some? then local - {decls[0].name.value} else local, decls[1..], n);
    }
  }

  lemma {:induction false} RestoredSlot(local: Slots, shadowed: seq<(Name, Decl)>, n: Name)
    ensures Slot(Restored(local, shadowed), n) ==
            if LastShadowed(shadowed, n).Some? then LastShadowed(shadowed, n) else Slot(local, n)
    decreases |shadowed|
  {
    if shadowed != [] { RestoredSlot(local[shadowed[0].0 := shadowed[0].1], shadowed[1..], n); }
  }

  /** No name is declared again in the level, unless an outer local definition of it will be restored. */
  ghost predicate Restorable(levels: seq<Level>)
    requires |levels| > 1
  {
    var last := |levels| - 1;
    forall n :: |Named(levels[last].names, n)| > 1 ==> Search(levels[..last], n).Some?
  }

  /** Leaving a level puts every slot back to what the remaining levels mean exactly when that holds:
      a name declared twice in the level, with no outer local definition, keeps a stale slot. */
  lemma PopRestores(local: Slots, globals: Slots, levels: seq<Level>, reverse: bool)
    requires NamesOk(local, globals, levels) && |levels| > 1
    ensures var last := |levels| - 1;
            NamesOk(Popped(local, levels[last], reverse), globals, levels[..last]) <==> Restorable(levels)
  {
    var last := |levels| - 1;
    var level, outer := levels[last], levels[..last];
    var decls := Ordered(level.names, reverse);
    var after := Popped(local, level, reverse);
    forall n ensures (Slot(after, n) == Search(outer, n)) == (|Named(level.names, n)| > 1 ==> Search(outer, n).Some?) {
      NamedReversed(level.names, n);
      ClearedSlot(local, decls, n);
      RestoredSlot(Cleared(local, decls), level.shadowed, n);
      assert ShadowOk(level, Search(outer, n), n);
    }
    if Restorable(levels) {
      forall n ensures Slot(after, n) == Search(outer, n) {
        assert |Named(level.names, n)| > 1 ==> Search(outer, n).Some?;
      }
    }
    if SlotsOk(after, outer) {
      forall n | |Named(level.names, n)| > 1 ensures Search(outer, n).Some? {
        assert Slot(after, n) == Search(outer, n);
      }
    }
  }

  /** `nreverse` */
  function Reversed(decls: seq<Decl>): (r: seq<Decl>)
    ensures |r| == |decls| && forall k :: 0 <= k < |r| ==> r[k] == decls[|decls| - 1 - k]
  {
    if decls == [] then [] else Reversed(decls[1..]) + [decls[0]]
  }

  lemma Regrouped(x: seq<Decl>, y: seq<Decl>, z: seq<Decl>)
    ensures x + (y + z) == x + y + z
  {
  }

  lemma {:induction false} NamedJoined(a: seq<Decl>, b: seq<Decl>, n: Name)
    ensures Named(a + b, n) == Named(a, n) + Named(b, n)
  {
    if a == [] {
      assert a + b == b;
    } else {
      assert (a + b)[1..] == a[1..] + b;
      NamedJoined(a[1..], b, n);
      Regrouped(if a[0].name == Some(n) then [a[0]] else [], Named(a[1..], n), Named(b, n));
    }
  }

  lemma {:induction false} NamedReversed(decls: seq<Decl>, n: Name)
    ensures Named(Reversed(decls), n) == [] <==> Named(decls, n) == []
  {
    if decls != [] {
      NamedReversed(decls[1..], n);
      NamedJoined(Reversed(decls[1..]), [decls[0]], n);
      assert [decls[0]][1..] == [];
    }
  }

  /** Entering a level changes no meaning. */
  lemma PushKeeps(local: Slots, globals: Slots, levels: seq<Level>, level: Level)
    requires NamesOk(local, globals, levels) && level.names == [] && level.shadowed == []
    ensures NamesOk(local, globals, levels + [level])
  {
  }

  /** What a level says about the name of a new declaration: `pushdecl` merges only with that. */
  function Earlier(level: Level, x: Decl): Option<Decl> {
    if x.name.None? then None else Find(level.names, x.name.value)
  }

  /** The current level after a declaration. */
  function Declared(local: Slots, level: Level, x: Decl, isGlobal: bool): Level {
    var shadows := !isGlobal && x.name.Some? && x.name.value in local;
    level.(names := [x] + level.names,
           shadowed := if shadows then [(x.name.value, local[x.name.value])] + level.shadowed else level.shadowed)
  }

  lemma DeclaredShadows(local: Slots, level: Level, outer: Option<Decl>, x: Decl, n: Name)
    requires ShadowOk(level, outer, n)
    requires Slot(local, n) == if Find(level.names, n).Some? then Find(level.names, n) else outer
    ensures ShadowOk(Declared(local, level, x, false), outer, n)
  {
  }

  /** A declaration in a local level. */
  lemma DeclareKeeps(local: Slots, globals: Slots, levels: seq<Level>, x: Decl)
    requires NamesOk(local, globals, levels) && |levels| > 1
    ensures var last := |levels| - 1;
            NamesOk(if x.name.Some? then local[x.name.value := x] else local, globals,
                    levels[last := Declared(local, levels[last], x, false)])
  {
    var last := |levels| - 1;
    var later := levels[last := Declared(local, levels[last], x, false)];
    var slots := if x.name.Some? then local[x.name.value := x] else local;
    assert later[..last] == levels[..last] && later[last].names[1..] == levels[last].names;
    forall n ensures Slot(slots, n) == Search(later, n) {
      assert Slot(local, n) == Search(levels, n);
    }
    forall n ensures ShadowOk(later[last], Search(later[..last], n), n) {
      assert Slot(local, n) == Search(levels, n);
      DeclaredShadows(local, levels[last], Search(levels[..last], n), x, n);
    }
  }

  /** A declaration in the global level. */
  lemma DeclareGlobalKeeps(local: Slots, globals: Slots, levels: seq<Level>, x: Decl)
    requires NamesOk(local, globals, levels) && |levels| == 1
    ensures NamesOk(local, if x.name.Some? then globals[x.name.value := x] else globals,
                    [Declared(local, levels[0], x, true)])
  {
    var later := [Declared(local, levels[0], x, true)];
    assert later[0].names[1..] == levels[0].names;
    var slots := if x.name.Some? then globals[x.name.value := x] else globals;
    forall n ensures Slot(local, n) == Search(later, n) { assert Slot(local, n) == Search(levels, n); }
    forall n ensures Slot(slots, n) == Find(later[0].names, n) {
      assert Slot(globals, n) == Find(levels[0].names, n);
    }
  }

  /** A slot table after a declaration that is installed there, or elsewhere. */
  function Bound(slots: Slots, x: Decl, here: bool): Slots {
    if here && x.name.Some? then slots[x.name.value := x] else slots
  }

  /** A declaration keeps the slots in agreement with the levels. */
  lemma DeclarationKeeps(local: Slots, globals: Slots, levels: seq<Level>, x: Decl)
    requires NamesOk(local, globals, levels)
    ensures var last := |levels| - 1;
            NamesOk(Bound(local, x, last != 0), Bound(globals, x, last == 0),
                    levels[last := Declared(local, levels[last], x, last == 0)])
  {
    if |levels| > 1 {
      DeclareKeeps(local, globals, levels, x);
    } else {
      DeclareGlobalKeeps(local, globals, levels, x);
      assert levels[0 := Declared(local, levels[0], x, true)] == [Declared(local, levels[0], x, true)];
    }
  }

  /** Only names and shadowed definitions count. */
  ghost predicate SameNames(levels: seq<Level>, others: seq<Level>) {
    && |levels| == |others|
    && forall i :: 0 <= i < |levels| ==> levels[i].names == others[i].names && levels[i].shadowed == others[i].shadowed
  }

  lemma {:induction false} SearchSame(levels: seq<Level>, others: seq<Level>, n: Name)
    requires SameNames(levels, others)
    ensures Search(levels, n) == Search(others, n)
    decreases |levels|
  {
    if |levels| > 1 { SearchSame(levels[..|levels| - 1], others[..|levels| - 1], n); }
  }

  lemma {:induction false} ShadowsSame(levels: seq<Level>, others: seq<Level>)
    requires SameNames(levels, others) && ShadowsOk(levels)
    ensures ShadowsOk(others)
    decreases |levels|
  {
    if |levels| > 1 {
      var last := |levels| - 1;
      ShadowsSame(levels[..last], others[..last]);
      forall n ensures ShadowOk(others[last], Search(others[..last], n), n) {
        SearchSame(levels[..last], others[..last], n);
        assert ShadowOk(levels[last], Search(levels[..last], n), n);
      }
    }
  }

  lemma NamesOkSame(local: Slots, globals: Slots, levels: seq<Level>, others: seq<Level>)
    requires SameNames(levels, others)
    ensures NamesOk(local, globals, levels) <==> NamesOk(local, globals, others)
  {
    forall n ensures Search(levels, n) == Search(others, n) { SearchSame(levels, others, n); }
    if ShadowsOk(levels) { ShadowsSame(levels, others); }
    if ShadowsOk(others) { ShadowsSame(others, levels); }
  }

  /** The levels determine the slots. */
  lemma SlotsDetermined(local: Slots, globals: Slots, levels: seq<Level>, local': Slots, globals': Slots,
      others: seq<Level>)
    requires NamesOk(local, globals, levels) && NamesOk(local', globals', others) && SameNames(levels, others)
    ensures local == local' && globals == globals'
  {
    forall n ensures Slot(local, n) == Slot(local', n) && Slot(globals, n) == Slot(globals', n) {
      SearchSame(levels, others, n);
      assert Slot(local, n) == Search(levels, n);
      assert Slot(globals, n) == Find(levels[0].names, n);
    }
    SlotsEqual(local, local');
    SlotsEqual(globals, globals');
  }

  lemma SlotsEqual(a: Slots, b: Slots)
    requires forall n :: Slot(a, n) == Slot(b, n)
    ensures a == b
  {
    forall n ensures (n in a <==> n in b) && (n in a ==> a[n] == b[n]) {
      assert Slot(a, n) == Slot(b, n);
    }
  }

  /** The declarations of a level in the order in which `poplevel` takes them. */
  function Ordered(names: seq<Decl>, reverse: bool): seq<Decl> {
    if reverse then Reversed(names) else names
  }

  /** The slots when the current level has been left. */
  function Popped(local: Slots, level: Level, reverse: bool): Slots {
    Restored(Cleared(local, Ordered(level.names, reverse)), level.shadowed)
  }

  lemma PopKeeps(local: Slots, globals: Slots, all: seq<Level>, levels: seq<Level>, reverse: bool)
    requires NamesOk(local, globals, all) && |all| > 1 && Restorable(all) && SameNames(levels, all[..|all| - 1])
    ensures NamesOk(Popped(local, all[|all| - 1], reverse), globals, levels)
  {
    var after := Popped(local, all[|all| - 1], reverse);
    PopRestores(local, globals, all, reverse);
    NamesOkSame(after, globals, levels, all[..|all| - 1]);
  }
}
