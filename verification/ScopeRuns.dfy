/** Runs of `pushlevel`, `pushdecl` and `poplevel`, as far as names go. */
module ScopeRuns {
  import opened Options
  import opened ScopeNames

  /** The slots of all identifiers, and the levels. */
  datatype Names = Names(local: Slots, globals: Slots, levels: seq<Level>) {
    ghost predicate Ok() {
      NamesOk(local, globals, levels)
    }

    /** The same slots, and levels with the same declarations. */
    ghost predicate Like(other: Names) {
      local == other.local && globals == other.globals && SameNames(levels, other.levels)
    }
  }

  /** A call, with what `duplicate_decls` decides, and the arguments of `poplevel`. */
  datatype Call = Push | Declare(x: Decl, merged: bool) | Pop(keep: bool, reverse: bool, functionBody: bool)

  /** What a call does. */
  function Step(s: Names, c: Call): Names
    requires s.levels != [] && (c.Pop? ==> |s.levels| > 1)
  {
    var last := |s.levels| - 1;
    match c
    case Push => s.(levels := s.levels + [Level([], [], End, false, false)])
    case Declare(x, merged) =>
      if merged && Earlier(s.levels[last], x).Some? then s
      else Names(Bound(s.local, x, last != 0), Bound(s.globals, x, last == 0),
                 s.levels[last := Declared(s.local, s.levels[last], x, last == 0)])
    case Pop(_, reverse, _) => Names(Popped(s.local, s.levels[last], reverse), s.globals, s.levels[..last])
  }

  /** The global level is never left, n levels being open at first. */
  predicate Possible(calls: seq<Call>, n: nat) {
    n > 0 &&
    (calls == [] ||
     match calls[0]
     case Push => Possible(calls[1..], n + 1)
     case Declare(_, _) => Possible(calls[1..], n)
     case Pop(_, _, _) => n > 1 && Possible(calls[1..], n - 1))
  }

  function After(s: Names, calls: seq<Call>): Names
    requires Possible(calls, |s.levels|)
    decreases |calls|
  {
    if calls == [] then s else After(Step(s, calls[0]), calls[1..])
  }

  /** Whenever a level is left, no name has been declared in it again without being merged, unless an outer
      local definition of the name will be restored. */
  ghost predicate Proper(s: Names, calls: seq<Call>)
    requires Possible(calls, |s.levels|)
    decreases |calls|
  {
    calls == [] ||
    ((calls[0].Pop? ==> Restorable(s.levels)) && Proper(Step(s, calls[0]), calls[1..]))
  }

  /** After every call the slots agree with a search of the levels. */
  ghost predicate OkThroughout(s: Names, calls: seq<Call>)
    requires Possible(calls, |s.levels|)
    decreases |calls|
  {
    s.Ok() && (calls == [] || OkThroughout(Step(s, calls[0]), calls[1..]))
  }

  lemma StepOk(s: Names, c: Call)
    requires s.Ok() && (c.Pop? ==> |s.levels| > 1)
    ensures Step(s, c).Ok() <==> (c.Pop? ==> Restorable(s.levels))
  {
    match c
    case Push => PushKeeps(s.local, s.globals, s.levels, Level([], [], End, false, false));
    case Declare(x, _) => DeclarationKeeps(s.local, s.globals, s.levels, x);
    case Pop(_, reverse, _) => PopRestores(s.local, s.globals, s.levels, reverse);
  }

  /** In every run the slots agree with the levels all along exactly when every level is left properly. */
  lemma {:induction false} RunExact(s: Names, calls: seq<Call>)
    requires s.Ok() && Possible(calls, |s.levels|)
    ensures OkThroughout(s, calls) <==> Proper(s, calls)
    ensures Proper(s, calls) ==> After(s, calls).Ok()
    decreases |calls|
  {
    if calls != [] {
      StepOk(s, calls[0]);
      var next := Step(s, calls[0]);
      if next.Ok() { RunExact(next, calls[1..]); }
      assert OkThroughout(next, calls[1..]) ==> next.Ok();
    }
  }

  /** The calls between entering a level and leaving it: depth levels are open inside it. */
  predicate Inner(calls: seq<Call>, depth: nat) {
    if calls == [] then depth == 0
    else
      match calls[0]
      case Push => Inner(calls[1..], depth + 1)
      case Declare(_, _) => Inner(calls[1..], depth)
      case Pop(_, _, _) => depth > 0 && Inner(calls[1..], depth - 1)
  }

  lemma {:induction false} InnerPossible(calls: seq<Call>, depth: nat, n: nat)
    requires Inner(calls, depth) && n > depth
    ensures Possible(calls, n)
    decreases |calls|
  {
    if calls != [] {
      match calls[0]
      case Push => InnerPossible(calls[1..], depth + 1, n + 1);
      case Declare(_, _) => InnerPossible(calls[1..], depth, n);
      case Pop(_, _, _) => InnerPossible(calls[1..], depth - 1, n - 1);
    }
  }

  /** What happens inside a level does not reach the levels outside, nor the global slots. */
  lemma {:induction false} OuterKept(s: Names, calls: seq<Call>, depth: nat)
    requires |s.levels| > depth + 1 && Inner(calls, depth) && Possible(calls, |s.levels|)
    ensures var n, after := |s.levels| - depth - 1, After(s, calls);
            |after.levels| == n + 1 && after.levels[..n] == s.levels[..n] && after.globals == s.globals
    decreases |calls|
  {
    if calls != [] {
      var next := Step(s, calls[0]);
      StepOuter(s, calls[0], |s.levels| - depth - 1);
      OuterKept(next, calls[1..], if calls[0].Push? then depth + 1 else if calls[0].Pop? then depth - 1 else depth);
    }
  }

  lemma StepOuter(s: Names, c: Call, n: nat)
    requires 0 < n < |s.levels| && (c.Pop? ==> n < |s.levels| - 1)
    ensures var next := Step(s, c);
            && next.globals == s.globals && next.levels[..n] == s.levels[..n]
            && |next.levels| == |s.levels| + if c.Push? then 1 else if c.Pop? then -1 else 0
  {
  }

  lemma {:induction false} AfterBoth(s: Names, first: seq<Call>, more: seq<Call>)
    requires Possible(first, |s.levels|) && Possible(more, |After(s, first).levels|)
    ensures Possible(first + more, |s.levels|)
    ensures After(s, first + more) == After(After(s, first), more)
    decreases |first|
  {
    if first == [] {
      assert first + more == more;
    } else {
      assert (first + more)[1..] == first[1..] + more;
      AfterBoth(Step(s, first[0]), first[1..], more);
    }
  }

  /** `pushlevel`, the calls inside the level, and the matching `poplevel`. */
  function Scope(inner: seq<Call>, pop: Call): seq<Call> {
    [Push] + inner + [pop]
  }

  lemma ScopeSteps(s: Names, inner: seq<Call>, pop: Call)
    requires s.levels != [] && Inner(inner, 0) && pop.Pop?
    ensures Possible(inner, |s.levels| + 1) && Possible(Scope(inner, pop), |s.levels|)
    ensures var inside := After(Step(s, Push), inner);
            |inside.levels| == |s.levels| + 1 && After(s, Scope(inner, pop)) == Step(inside, pop)
  {
    InnerPossible(inner, 0, |s.levels| + 1);
    OuterKept(Step(s, Push), inner, 0);
    var inside := After(Step(s, Push), inner);
    assert [pop][1..] == [] && Possible([pop], |inside.levels|);
    assert After(inside, [pop]) == Step(inside, pop);
    AfterBoth(Step(s, Push), inner, [pop]);
    assert Scope(inner, pop)[1..] == inner + [pop];
  }

  /** Leaving a level puts every slot back to its value at the matching `pushlevel`, whatever was declared
      inside, exactly when the level can be restored: the whole scope leaves no trace. */
  lemma ScopeExact(s: Names, inner: seq<Call>, pop: Call)
    requires s.Ok() && Inner(inner, 0) && pop.Pop?
    requires Possible(inner, |s.levels| + 1) && Proper(Step(s, Push), inner)
    ensures var inside := After(Step(s, Push), inner);
            && |inside.levels| > 1 && Possible(Scope(inner, pop), |s.levels|)
            && (After(s, Scope(inner, pop)) == s <==> Restorable(inside.levels))
  {
    ScopeSteps(s, inner, pop);
    StepOk(s, Push);
    RunExact(Step(s, Push), inner);
    OuterKept(Step(s, Push), inner, 0);
    var inside := After(Step(s, Push), inner);
    StepOk(inside, pop);
    var after := Step(inside, pop);
    assert after.levels == s.levels && after.globals == s.globals;
    if after.Ok() {
      SlotsDetermined(after.local, after.globals, after.levels, s.local, s.globals, s.levels);
    }
  }

  /** So a scope whose levels are all left properly leaves no trace. */
  lemma ScopeRestores(s: Names, inner: seq<Call>, pop: Call)
    requires s.Ok() && Inner(inner, 0) && pop.Pop?
    requires Possible(Scope(inner, pop), |s.levels|) && Proper(s, Scope(inner, pop))
    ensures After(s, Scope(inner, pop)) == s
  {
    assert Scope(inner, pop)[1..] == inner + [pop];
    ScopeSteps(s, inner, pop);
    ProperBoth(Step(s, Push), inner, [pop]);
    ScopeExact(s, inner, pop);
  }

  lemma {:induction false} ProperBoth(s: Names, first: seq<Call>, more: seq<Call>)
    requires Possible(first + more, |s.levels|) && Proper(s, first + more) && Possible(first, |s.levels|)
    ensures Proper(s, first) && Possible(more, |After(s, first).levels|) && Proper(After(s, first), more)
    decreases |first|
  {
    if first == [] {
      assert first + more == more;
    } else {
      assert (first + more)[1..] == first[1..] + more;
      ProperBoth(Step(s, first[0]), first[1..], more);
    }
  }

  /** A run in which a slot ends up stale: x is declared twice in a function, with an error. Afterwards its
      local slot still holds the first declaration, though no local level is left. */
  lemma StaleSlot(a: Decl, b: Decl)
    requires a.name == b.name == Some("x")
    ensures var start := Names(map[], map[], [Level([], [], End, false, false)]);
            var calls := Scope([Declare(a, false), Declare(b, false)], Pop(true, false, true));
            && start.Ok() && Possible(calls, 1)
            && Slot(After(start, calls).local, "x") == Some(a) && Search(After(start, calls).levels, "x") == None
  {
    var start := Names(map[], map[], [Level([], [], End, false, false)]);
    var inner, pop := [Declare(a, false), Declare(b, false)], Pop(true, false, true);
    assert inner[1..] == [Declare(b, false)] && inner[1..][1..] == [];
    ScopeSteps(start, inner, pop);
    var one := Step(start, Push);
    var two := Step(one, inner[0]);
    var inside := Step(two, inner[1]);
    assert After(one, inner) == After(two, inner[1..]) == After(inside, []) == inside;
    assert two.levels[1].names == [a] && two.levels[1].shadowed == [];
    assert inside.levels[1].names == [b, a] && inside.levels[1].shadowed == [("x", a)];
    ClearedSlot(inside.local, [b, a], "x");
    RestoredSlot(Cleared(inside.local, [b, a]), [("x", a)], "x");
    assert [("x", a)][1..] == [];
  }

  lemma LikeTransitive(s: Names, t: Names, u: Names)
    requires s.Like(t) && t.Like(u)
    ensures s.Like(u)
  {
  }

  lemma PushLike(s: Names, level: Level)
    requires s.levels != [] && level.names == [] && level.shadowed == []
    ensures s.(levels := s.levels + [level]).Like(Step(s, Push))
  {
  }

  lemma PopNames(s: Names, c: Call, levels: seq<Level>)
    requires s.Ok() && |s.levels| > 1 && c.Pop? && SameNames(levels, s.levels[..|s.levels| - 1])
    ensures var t := Names(Popped(s.local, s.levels[|s.levels| - 1], c.reverse), s.globals, levels);
            t.Like(Step(s, c)) && (Restorable(s.levels) ==> t.Ok())
  {
    if Restorable(s.levels) { PopKeeps(s.local, s.globals, s.levels, levels, c.reverse); }
  }

  lemma RestorableSame(levels: seq<Level>, others: seq<Level>)
    requires SameNames(levels, others) && |levels| > 1 && Restorable(levels)
    ensures Restorable(others)
  {
    var last := |levels| - 1;
    forall n | |Named(others[last].names, n)| > 1 ensures Search(others[..last], n).Some? {
      SearchSame(levels[..last], others[..last], n);
    }
  }

  /** What a call does to the names depends on nothing else about the levels. */
  lemma StepLike(s: Names, t: Names, c: Call)
    requires s.Like(t) && s.levels != [] && (c.Pop? ==> |s.levels| > 1)
    ensures Step(s, c).Like(Step(t, c))
  {
  }
}
