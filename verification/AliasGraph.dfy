/** Alias sets as a graph: `record_alias_subset` keeps with every set all its descendants, so that
    `alias_sets_conflict_p` need not search. */
module AliasGraph {

  datatype Entry = Entry(children: set<int>, hasZeroChild: bool)

  type Table = map<int, Entry>

  /** What the table says lies below a set; zero stands for "anything". */
  function Below(t: Table, z: int): set<int> {
    if z !in t then {} else t[z].children + if t[z].hasZeroChild then {0} else {}
  }

  /** Zero is never kept as a child: it has its own flag. */
  predicate Proper(t: Table) {
    0 !in t && forall z :: z in t ==> 0 !in t[z].children
  }

  /** `record_alias_subset`; a call with a zero superset aborts. */
  function Recorded(t: Table, superset: int, subset: int): (r: Table)
    requires superset != 0
  {
    if superset == subset then t
    else
      var e := if superset in t then t[superset] else Entry({}, false);
      t[superset :=
        if subset == 0 then Entry(e.children, true)
        else if subset in t then Entry(e.children + t[subset].children + {subset}, e.hasZeroChild
            || t[subset].hasZeroChild)
        else Entry(e.children + {subset}, e.hasZeroChild)]
  }

  /** `alias_sets_conflict_p` */
  predicate Conflict(t: Table, set1: int, set2: int) {
    set1 == 0 || set2 == 0 || set1 == set2
    || (set1 in t && (t[set1].hasZeroChild || set2 in t[set1].children))
    || (set2 in t && (t[set2].hasZeroChild || set1 in t[set2].children))
  }

  lemma RecordedBelow(t: Table, superset: int, subset: int, z: int)
    requires superset != 0 && Proper(t)
    ensures Proper(Recorded(t, superset, subset))
    ensures Below(Recorded(t, superset, subset), z) ==
            if z == superset != subset then Below(t, z) + Below(t, subset) + {subset} else Below(t, z)
  {
  }

  /** Below, as a relation: the table's idea of "is a descendant of". */
  lemma ConflictBelow(t: Table, a: int, b: int)
    requires Proper(t)
    ensures Conflict(t, a, b) <==>
            a == 0 || b == 0 || a == b || b in Below(t, a) || a in Below(t, b) || 0 in Below(t, a) || 0 in Below(t, b)
  {
  }

  /** A pair (superset, subset) per call made. */
  type Edges = seq<(int, int)>

  /** The edges lead from a through the sets `via` to b. */
  predicate Path(edges: Edges, a: int, via: seq<int>, b: int)
    decreases |via|
  {
    if via == [] then (a, b) in edges else (a, via[0]) in edges && Path(edges, via[0], via[1..], b)
  }

  ghost predicate Reaches(edges: Edges, a: int, b: int) {
    exists via :: Path(edges, a, via, b)
  }

  /** The table is the transitive closure of the edges. */
  ghost predicate Closed(t: Table, edges: Edges) {
    forall a, b :: b in Below(t, a) <==> Reaches(edges, a, b)
  }

  lemma {:induction false} PathsJoin(edges: Edges, a: int, v: seq<int>, b: int, w: seq<int>, c: int)
    requires Path(edges, a, v, b) && Path(edges, b, w, c)
    ensures Path(edges, a, v + [b] + w, c)
    decreases |v|
  {
    var all := v + [b] + w;
    if v == [] {
      assert all[1..] == w;
    } else {
      PathsJoin(edges, v[0], v[1..], b, w, c);
      assert all[1..] == v[1..] + [b] + w;
    }
  }

  lemma ReachesTransitive(edges: Edges, a: int, b: int, c: int)
    requires Reaches(edges, a, b) && Reaches(edges, b, c)
    ensures Reaches(edges, a, c)
  {
    var v :| Path(edges, a, v, b);
    var w :| Path(edges, b, w, c);
    PathsJoin(edges, a, v, b, w, c);
  }

  lemma {:induction false} PathKept(edges: Edges, e: (int, int), a: int, v: seq<int>, b: int)
    requires Path(edges, a, v, b)
    ensures Path(edges + [e], a, v, b)
    decreases |v|
  {
    if v != [] { PathKept(edges, e, v[0], v[1..], b); }
  }

  lemma ReachesKept(edges: Edges, e: (int, int), a: int, b: int)
    requires Reaches(edges, a, b)
    ensures Reaches(edges + [e], a, b)
  {
    var v :| Path(edges, a, v, b);
    PathKept(edges, e, a, v, b);
  }

  /** With one more edge (s, t): reachable before, or by way of that edge. */
  ghost predicate ReachesWith(edges: Edges, s: int, t: int, a: int, b: int) {
    Reaches(edges, a, b) || ((a == s || Reaches(edges, a, s)) && (b == t || Reaches(edges, t, b)))
  }

  lemma {:induction false} PathWith(edges: Edges, s: int, t: int, a: int, v: seq<int>, b: int)
    requires Path(edges + [(s, t)], a, v, b)
    ensures ReachesWith(edges, s, t, a, b)
    decreases |v|
  {
    var c := if v == [] then b else v[0];
    if (a, c) in edges { assert Path(edges, a, [], c); }
    if v != [] {
      PathWith(edges, s, t, c, v[1..], b);
      if (a, c) in edges {
        if Reaches(edges, c, b) { ReachesTransitive(edges, a, c, b); }
        if Reaches(edges, c, s) { ReachesTransitive(edges, a, c, s); }
      }
    }
  }

  lemma NewEdge(edges: Edges, s: int, t: int, a: int, b: int)
    ensures Reaches(edges + [(s, t)], a, b) <==> ReachesWith(edges, s, t, a, b)
  {
    var all := edges + [(s, t)];
    if Reaches(all, a, b) {
      var v :| Path(all, a, v, b);
      PathWith(edges, s, t, a, v, b);
    }
    if Reaches(edges, a, b) {
      ReachesKept(edges, (s, t), a, b);
    } else if ReachesWith(edges, s, t, a, b) {
      assert Path(all, s, [], t);
      if a != s {
        ReachesKept(edges, (s, t), a, s);
        ReachesTransitive(all, a, s, t);
      }
      if b != t {
        ReachesKept(edges, (s, t), t, b);
        ReachesTransitive(all, a, t, b);
      }
    }
  }

  /** Every set that already has the superset below it has the subset below it too. */
  predicate Complete(t: Table, superset: int, subset: int) {
    forall z :: z in t && z != superset && superset in Below(t, z) ==> subset in Below(t, z)
  }

  /** A call keeps the table closed exactly when the superset is not yet below any set that lacks the
      subset: descendants are folded in once, when the edge is recorded. */
  lemma RecordKeepsClosed(t: Table, edges: Edges, superset: int, subset: int)
    requires superset != 0 && superset != subset && Proper(t) && Closed(t, edges)
    ensures Closed(Recorded(t, superset, subset), edges + [(superset, subset)]) <==> Complete(t, superset, subset)
  {
    var r, all := Recorded(t, superset, subset), edges + [(superset, subset)];
    forall a, b ensures Reaches(all, a, b) <==> ReachesWith(edges, superset, subset, a, b) {
      NewEdge(edges, superset, subset, a, b);
    }
    forall a ensures Below(r, a) == if a == superset then Below(t, a) + Below(t, subset) + {subset} else Below(t, a) {
      RecordedBelow(t, superset, subset, a);
    }
    if Complete(t, superset, subset) {
      forall a, b ensures b in Below(r, a) <==> Reaches(all, a, b) {
        if a != superset && Reaches(edges, a, superset) {
          assert a in t && superset in Below(t, a);
          assert subset in Below(t, a) && Reaches(edges, a, subset);
          if Reaches(edges, subset, b) { ReachesTransitive(edges, a, subset, b); }
        }
      }
    }
    if Closed(r, all) {
      forall z | z in t && z != superset && superset in Below(t, z) ensures subset in Below(t, z) {
        assert Reaches(edges, z, superset);
        assert ReachesWith(edges, superset, subset, z, subset);
        assert Reaches(all, z, subset) && subset in Below(r, z);
      }
    }
  }

  /** The table after a run of calls, from an empty one. */
  function Run(edges: Edges): (t: Table)
    requires forall e :: e in edges ==> e.0 != 0
  {
    if edges == [] then map[] else Recorded(Run(edges[..|edges| - 1]), edges[|edges| - 1].0, edges[|edges| - 1].1)
  }

  /** A set receives its own subsets before it becomes a subset itself. */
  ghost predicate InOrder(edges: Edges) {
    && (forall i :: 0 <= i < |edges| ==> edges[i].0 != 0 && edges[i].0 != edges[i].1)
    && forall i, j :: 0 <= i < j < |edges| ==> edges[i].1 != edges[j].0
  }

  lemma {:induction false} PathEnds(edges: Edges, a: int, v: seq<int>, b: int)
    requires Path(edges, a, v, b)
    ensures exists i :: 0 <= i < |edges| && edges[i].1 == b
    decreases |v|
  {
    if v == [] {
      var i :| 0 <= i < |edges| && edges[i] == (a, b);
    } else {
      PathEnds(edges, v[0], v[1..], b);
    }
  }

  /** In such a run the table is closed throughout. */
  lemma {:induction false} RunClosed(edges: Edges)
    requires InOrder(edges)
    ensures Proper(Run(edges)) && Closed(Run(edges), edges)
  {
    if edges == [] {
      forall a, b ensures !Reaches([], a, b) {
        if Reaches([], a, b) {
          var v :| Path([], a, v, b);
          PathEnds([], a, v, b);
        }
      }
    } else {
      var before, e := edges[..|edges| - 1], edges[|edges| - 1];
      RunClosed(before);
      var t := Run(before);
      forall z ensures !Reaches(before, z, e.0) {
        if Reaches(before, z, e.0) {
          var v :| Path(before, z, v, e.0);
          PathEnds(before, z, v, e.0);
          assert false;
        }
      }
      RecordKeepsClosed(t, before, e.0, e.1);
      RecordedBelow(t, e.0, e.1, 0);
      assert before + [e] == edges;
    }
  }

  /** So the two lookups decide what a search of the graph would. */
  lemma RunConflict(edges: Edges, a: int, b: int)
    requires InOrder(edges)
    ensures Conflict(Run(edges), a, b) <==>
            || a == 0 || b == 0 || a == b
            || Reaches(edges, a, b) || Reaches(edges, b, a) || Reaches(edges, a, 0) || Reaches(edges, b, 0)
  {
    RunClosed(edges);
    ConflictBelow(Run(edges), a, b);
  }

  /** Out of order, the closure is lost: 1 has 2 as a subset before 2 gets 3. */
  lemma OutOfOrder()
    ensures Reaches([(1, 2), (2, 3)], 1, 3) && !Conflict(Run([(1, 2), (2, 3)]), 1, 3)
  {
    var edges := [(1, 2), (2, 3)];
    assert Path(edges, 2, [], 3) && [2][1..] == [] && Path(edges, 1, [2], 3);
    assert edges[..1] == [(1, 2)];
    var none: Edges := [];
    assert edges[..1][..0] == none && Run(none) == map[];
    assert Run(edges[..1]) == Recorded(map[], 1, 2);
    assert Run(edges) == Recorded(Recorded(map[], 1, 2), 2, 3);
  }
}
