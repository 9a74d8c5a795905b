/** `c_add_case_label`: overlapping case ranges are found by looking at the equal key and the two
    neighbours only. */
module CaseLabels {
  import opened Options

  /** A case label; no low value means `default`, no high value a single value. */
  datatype Label = Label(low: Option<int>, high: Option<int>) {
    /** Only a label with a low value has a high one, and then a different one. */
    predicate Normal() {
      high.Some? ==> low.Some? && low.value != high.value
    }

    /** A value the label takes. */
    predicate Takes(v: int) {
      low.Some? && low.value <= v <= if high.Some? then high.value else low.value
    }

    /** A range written backwards, which takes no value. */
    predicate Empty() {
      high.Some? && low.Some? && high.value < low.value
    }

    /** The last value the label keeps others from: an empty range keeps them from its low value. */
    function Last(): int
      requires low.Some?
    {
      if high.Some? && low.value < high.value then high.value else low.value
    }

    predicate Covers(v: int) {
      low.Some? && low.value <= v <= Last()
    }
  }

  /** Two labels overlap: both are defaults, or both take some value. */
  ghost predicate Overlap(a: Label, b: Label) {
    (a.low.None? && b.low.None?) || exists v :: a.Takes(v) && b.Takes(v)
  }

  /** What the check finds: both are defaults, or both cover some value. */
  ghost predicate Clash(a: Label, b: Label) {
    (a.low.None? && b.low.None?) || exists v :: a.Covers(v) && b.Covers(v)
  }

  /** `case_compare` < 0: a default comes before every other label. */
  predicate Before(a: Option<int>, b: Option<int>) {
    b.Some? && (a.None? || a.value < b.value)
  }

  ghost predicate Sorted(cs: seq<Label>) {
    && (forall i :: 0 <= i < |cs| ==> cs[i].Normal())
    && (forall i, j :: 0 <= i < j < |cs| ==> Before(cs[i].low, cs[j].low))
  }

  ghost predicate Disjoint(cs: seq<Label>) {
    forall i, j :: 0 <= i < j < |cs| ==> !Clash(cs[i], cs[j])
  }

  /** The number of labels before a key: where it is or belongs. */
  function Place(cs: seq<Label>, key: Option<int>): (k: nat)
    requires Sorted(cs)
    ensures k <= |cs|
    ensures forall i :: 0 <= i < |cs| ==> (i < k <==> Before(cs[i].low, key))
  {
    if cs == [] || !Before(cs[0].low, key) then 0 else 1 + Place(cs[1..], key)
  }

  /** `splay_tree_lookup` */
  function Lookup(cs: seq<Label>, key: Option<int>): Option<Label>
    requires Sorted(cs)
  {
    var k := Place(cs, key);
    if k < |cs| && cs[k].low == key then Some(cs[k]) else None
  }

  /** `splay_tree_predecessor` and `splay_tree_successor` of a key that is not in the tree. */
  function Predecessor(cs: seq<Label>, key: Option<int>): Option<Label>
    requires Sorted(cs)
  {
    var k := Place(cs, key);
    if k > 0 then Some(cs[k - 1]) else None
  }

  function Successor(cs: seq<Label>, key: Option<int>): Option<Label>
    requires Sorted(cs)
  {
    var k := Place(cs, key);
    if k < |cs| then Some(cs[k]) else None
  }

  /** `splay_tree_insert`: a label with the same key is replaced. */
  function Inserted(cs: seq<Label>, l: Label): (r: seq<Label>)
    requires Sorted(cs) && l.Normal()
    ensures Sorted(r)
  {
    var k := Place(cs, l.low);
    if k < |cs| && cs[k].low == l.low then cs[k := l] else cs[..k] + [l] + cs[k..]
  }

  lemma InsertedMembers(cs: seq<Label>, l: Label)
    requires Sorted(cs) && l.Normal()
    ensures forall m :: m in Inserted(cs, l) <==> m == l || (m in cs && m.low != l.low)
  {
    forall m ensures m in Inserted(cs, l) <==> m == l || (m in cs && m.low != l.low) {
      InsertedMember(cs, l, m);
    }
  }

  lemma InsertedMember(cs: seq<Label>, l: Label, m: Label)
    requires Sorted(cs) && l.Normal()
    ensures m in Inserted(cs, l) <==> m == l || (m in cs && m.low != l.low)
  {
    var k, r := Place(cs, l.low), Inserted(cs, l);
    var overwrites := k < |cs| && cs[k].low == l.low;
    assert r[k] == l;
    if m in cs && m.low != l.low {
      var i :| 0 <= i < |cs| && cs[i] == m;
      assert r[if i < k || overwrites then i else i + 1] == m;
    }
    if m in r && m != l {
      var i :| 0 <= i < |r| && r[i] == m;
      assert m == cs[if i < k || overwrites then i else i - 1];
    }
  }

  /** The recorded label that a new one is reported to overlap, if any. */
  function Duplicate(cs: seq<Label>, l: Label): Option<Label>
    requires Sorted(cs)
  {
    var node := Lookup(cs, l.low);
    if node.Some? || l.low.None? then node
    else
      var lowBound, highBound := Predecessor(cs, l.low), Successor(cs, l.low);
      if lowBound.Some? && lowBound.value.high.Some? && lowBound.value.high.value >= l.low.value then lowBound
      else if highBound.Some? && highBound.value.low.Some? && l.high.Some?
          && highBound.value.low.value <= l.high.value then highBound
      else None
  }

  /** `tree_int_cst_equal (low_value, high_value)`: not really a range. */
  function Normalized(low: Option<int>, high: Option<int>): (l: Label)
    requires high.Some? ==> low.Some?
    ensures l.Normal() && l.low == low && forall v :: l.Takes(v) <==> Label(low, high).Takes(v)
  {
    if low == high then Label(low, None) else Label(low, high)
  }

  class Switch {
    /** The tree of labels, in the order of their keys. */
    var cases: seq<Label>

    constructor ()
      ensures cases == []
    {
      cases := [];
    }

    /** `c_add_case_label`, with values already converted to the type of the condition. The label is
        recorded even when it is reported. */
    method AddCaseLabel(low: Option<int>, high0: Option<int>) returns (node: Option<Label>)
      requires Sorted(cases) && (high0.Some? ==> low.Some?)
      modifies this
      ensures Sorted(cases) && cases == Inserted(old(cases), Normalized(low, high0))
      ensures node == Duplicate(old(cases), Normalized(low, high0))
    {
      var high := high0;
      if low == high {
        high := None;
      }
      node := Lookup(cases, low);
      if node.None? && (low.Some? || high.Some?) {
        var lowBound := Predecessor(cases, low);
        var highBound := Successor(cases, low);
        if lowBound.Some? && lowBound.value.high.Some? && lowBound.value.high.value >= low.value {
          node := lowBound;
        } else if highBound.Some? && high.Some? && highBound.value.low.value <= high.value {
          node := highBound;
        }
      }
      cases := Inserted(cases, Label(low, high));
    }
  }

  /** Labels clash when each begins no later than the other ends. */
  lemma ClashMeans(a: Label, b: Label)
    ensures Clash(a, b) <==>
            if a.low.None? || b.low.None? then a.low == b.low else a.low.value <= b.Last() && b.low.value <= a.Last()
  {
    if a.low.Some? && b.low.Some? && a.low.value <= b.Last() && b.low.value <= a.Last() {
      var v := if a.low.value < b.low.value then b.low.value else a.low.value;
      assert a.Covers(v) && b.Covers(v);
    }
  }

  /** As long as the recorded labels are disjoint, a label is reported exactly when it clashes with one
      of them, and it is reported together with one it clashes with. */
  lemma DuplicateExact(cs: seq<Label>, l: Label)
    requires Sorted(cs) && Disjoint(cs) && l.Normal()
    ensures Duplicate(cs, l).Some? <==> exists i :: 0 <= i < |cs| && Clash(cs[i], l)
    ensures Duplicate(cs, l).Some? ==> Duplicate(cs, l).value in cs && Clash(Duplicate(cs, l).value, l)
  {
    var k, d := Place(cs, l.low), Duplicate(cs, l);
    if d.Some? {
      assert d.value in cs;
      ClashMeans(d.value, l);
    } else {
      forall i | 0 <= i < |cs| ensures !Clash(cs[i], l) {
        ClashMeans(cs[i], l);
        if i + 1 < k { ClashMeans(cs[i], cs[k - 1]); }
      }
    }
  }

  /** Which label is named: the one with the same key if there is one, then one before it that clashes, and
      otherwise the next one after it. */
  lemma ReportedWhich(cs: seq<Label>, l: Label)
    requires Sorted(cs) && Disjoint(cs) && l.Normal() && Duplicate(cs, l).Some?
    ensures var d := Duplicate(cs, l).value;
            && (forall m :: m in cs && m.low == l.low ==> d == m)
            && (forall m :: m in cs && Before(m.low, l.low) && Clash(m, l) ==> d == m || d.low == l.low)
            && (Before(l.low, d.low) ==> forall m :: m in cs && Before(l.low, m.low) ==> !Before(m.low, d.low))
  {
    var k, d := Place(cs, l.low), Duplicate(cs, l).value;
    forall m | m in cs && Before(m.low, l.low) && Clash(m, l) ensures d == m || d.low == l.low {
      var i :| 0 <= i < |cs| && cs[i] == m;
      ClashMeans(m, l);
      if i + 1 < k { ClashMeans(cs[i], cs[k - 1]); }
    }
  }

  /** A label that is not reported leaves the labels disjoint. */
  lemma InsertedDisjoint(cs: seq<Label>, l: Label)
    requires Sorted(cs) && Disjoint(cs) && l.Normal() && Duplicate(cs, l).None?
    ensures Disjoint(Inserted(cs, l))
  {
    DuplicateExact(cs, l);
    var r := Inserted(cs, l);
    var k := Place(cs, l.low);
    forall i, j | 0 <= i < j < |r| ensures !Clash(r[i], r[j]) {
      if i == k { assert r[j] == cs[j - 1]; }
      if j == k { assert r[i] == cs[i]; }
    }
  }

  /** The labels recorded by a run of calls. */
  function Recorded(ls: seq<Label>): (cs: seq<Label>)
    requires forall i :: 0 <= i < |ls| ==> ls[i].Normal()
    ensures Sorted(cs)
  {
    if ls == [] then [] else Inserted(Recorded(ls[..|ls| - 1]), ls[|ls| - 1])
  }

  /** No call of the run reports an error. */
  predicate Silent(ls: seq<Label>)
    requires forall i :: 0 <= i < |ls| ==> ls[i].Normal()
  {
    ls == [] || (Silent(ls[..|ls| - 1]) && Duplicate(Recorded(ls[..|ls| - 1]), ls[|ls| - 1]).None?)
  }

  /** A switch is accepted exactly when no two of its labels clash. */
  lemma {:induction false} SilentExact(ls: seq<Label>)
    requires forall i :: 0 <= i < |ls| ==> ls[i].Normal()
    ensures Silent(ls) <==> Disjoint(ls)
    ensures Silent(ls) ==> Disjoint(Recorded(ls)) && forall m :: m in Recorded(ls) <==> m in ls
  {
    if ls != [] {
      var before, l := ls[..|ls| - 1], ls[|ls| - 1];
      SilentExact(before);
      assert ls == before + [l];
      if Silent(before) {
        SilentStep(Recorded(before), before, l);
      } else {
        var i, j :| 0 <= i < j < |before| && Clash(before[i], before[j]);
        assert Clash(ls[i], ls[j]);
      }
    }
  }

  lemma SilentStep(cs: seq<Label>, before: seq<Label>, l: Label)
    requires Sorted(cs) && Disjoint(cs) && Disjoint(before) && l.Normal() && forall m :: m in cs <==> m in before
    ensures Duplicate(cs, l).None? <==> Disjoint(before + [l])
    ensures Duplicate(cs, l).None? ==>
              Disjoint(Inserted(cs, l)) && forall m :: m in Inserted(cs, l) <==> m in before + [l]
  {
    DuplicateExact(cs, l);
    ClashAmong(cs, before, l);
    if Duplicate(cs, l).None? {
      InsertedDisjoint(cs, l);
      SameKeyClash(cs, l);
      InsertedMembers(cs, l);
    }
  }

  lemma ClashAmong(cs: seq<Label>, before: seq<Label>, l: Label)
    requires Disjoint(before) && forall m :: m in cs <==> m in before
    ensures Disjoint(before + [l]) <==> !exists i :: 0 <= i < |cs| && Clash(cs[i], l)
  {
    if i :| 0 <= i < |cs| && Clash(cs[i], l) {
      assert cs[i] in before;
      var j :| 0 <= j < |before| && before[j] == cs[i];
      assert Clash((before + [l])[j], (before + [l])[|before|]);
    } else {
      forall i, j | 0 <= i < j < |before + [l]| ensures !Clash((before + [l])[i], (before + [l])[j]) {
        if j == |before| {
          assert before[i] in cs;
        }
      }
    }
  }

  lemma SameKeyClash(cs: seq<Label>, l: Label)
    requires l.Normal() && forall m :: m in cs ==> m.Normal()
    requires !exists i :: 0 <= i < |cs| && Clash(cs[i], l)
    ensures forall m :: m in cs ==> m.low != l.low
  {
    forall m | m in cs ensures m.low != l.low {
      var i :| 0 <= i < |cs| && cs[i] == m;
      ClashMeans(cs[i], l);
    }
  }

  /** Labels that overlap clash, and labels that clash overlap unless one is empty. */
  lemma ClashIsOverlap(a: Label, b: Label)
    requires a.Normal() && b.Normal()
    ensures Overlap(a, b) ==> Clash(a, b)
    ensures !a.Empty() && !b.Empty() ==> (Clash(a, b) <==> Overlap(a, b))
  {
    if v :| a.Takes(v) && b.Takes(v) { assert a.Covers(v) && b.Covers(v); }
    if v :| a.Covers(v) && b.Covers(v) && !a.Empty() && !b.Empty() { assert a.Takes(v) && b.Takes(v); }
  }

  ghost predicate Apart(cs: seq<Label>) {
    forall i, j :: 0 <= i < j < |cs| ==> !Overlap(cs[i], cs[j])
  }

  predicate NoneEmpty(cs: seq<Label>) {
    forall i :: 0 <= i < |cs| ==> !cs[i].Empty()
  }

  /** Among nonempty labels that do not overlap, a nonempty one is reported exactly when it overlaps one. */
  lemma ReportExact(cs: seq<Label>, l: Label)
    requires Sorted(cs) && Apart(cs) && NoneEmpty(cs) && l.Normal() && !l.Empty()
    ensures Duplicate(cs, l).Some? <==> exists i :: 0 <= i < |cs| && Overlap(cs[i], l)
    ensures Duplicate(cs, l).Some? ==> Duplicate(cs, l).value in cs && Overlap(Duplicate(cs, l).value, l)
  {
    forall i, j | 0 <= i < j < |cs| ensures !Clash(cs[i], cs[j]) { ClashIsOverlap(cs[i], cs[j]); }
    DuplicateExact(cs, l);
    forall i | 0 <= i < |cs| ensures Clash(cs[i], l) <==> Overlap(cs[i], l) { ClashIsOverlap(cs[i], l); }
  }

  /** No two labels of an accepted switch overlap. Without empty ranges, that is all that is asked. */
  lemma AcceptedExact(ls: seq<Label>)
    requires forall i :: 0 <= i < |ls| ==> ls[i].Normal()
    ensures Silent(ls) ==> Apart(ls)
    ensures NoneEmpty(ls) ==> (Silent(ls) <==> Apart(ls))
  {
    SilentExact(ls);
    forall i, j | 0 <= i < j < |ls|
      ensures Overlap(ls[i], ls[j]) ==> Clash(ls[i], ls[j])
      ensures !ls[i].Empty() && !ls[j].Empty() ==> (Clash(ls[i], ls[j]) <==> Overlap(ls[i], ls[j]))
    {
      ClashIsOverlap(ls[i], ls[j]);
    }
  }

  /** An empty range can be reported although it takes no value: 5, then 5 ... 3. */
  lemma EmptyReported()
    ensures var a, b := Label(Some(5), None), Label(Some(5), Some(3));
            b.Empty() && !Overlap(a, b) && Duplicate(Recorded([a]), b) == Some(a)
  {
    var a, b := Label(Some(5), None), Label(Some(5), Some(3));
    var none: seq<Label> := [];
    assert [a][..0] == none;
    assert Recorded([a]) == Inserted(none, a) == none[..0] + [a] + none[0..] == [a];
    assert Place([a], b.low) == 0;
  }

  /** After an error the check can miss a clash: 1 ... 10, then 5 ... 6, which is reported, then 8. */
  lemma MissedAfterError()
    ensures var a, b, c := Label(Some(1), Some(10)), Label(Some(5), Some(6)), Label(Some(8), None);
            && Duplicate(Recorded([a]), b) == Some(a)
            && Clash(a, c) && Duplicate(Recorded([a, b]), c) == None
  {
    var a, b, c := Label(Some(1), Some(10)), Label(Some(5), Some(6)), Label(Some(8), None);
    var none: seq<Label> := [];
    assert [a][..0] == none && [a, b][..1] == [a];
    assert Recorded([a]) == Inserted(none, a) == none[..0] + [a] + none[0..] == [a];
    assert Place([a], b.low) == 1;
    assert Recorded([a, b]) == Inserted([a], b) == [a][..1] + [b] + [a][1..] == [a, b];
    assert a.Covers(8) && c.Covers(8);
  }
}
