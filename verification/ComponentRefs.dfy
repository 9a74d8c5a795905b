/** `nonoverlapping_component_refs_p`: two chains of field references that part ways in one record type
    cannot overlap. */
module ComponentRefs {

  datatype Aggregate = Record(id: nat) | Union(id: nat)

  /** A field: the type it belongs to (`DECL_FIELD_CONTEXT`), and its place there. */
  datatype Field = Field(context: Aggregate, index: nat)

  /** A COMPONENT_REF, or whatever expression the chain starts from. */
  datatype Ref = Base(id: nat) | Component(inner: Ref, field: Field)

  /** The fields of a chain, the outermost reference first; deeper ones belong to larger objects. */
  function Levels(x: Ref): seq<Field> {
    if x.Base? then [] else [x.field] + Levels(x.inner)
  }

  /** Somewhere the chains select different fields of one record type. */
  ghost predicate Part(xs: seq<Field>, ys: seq<Field>) {
    exists i, j :: 0 <= i < |xs| && 0 <= j < |ys| && PartAt(xs[i], ys[j])
  }

  predicate PartAt(f: Field, g: Field) {
    f.context == g.context && f.context.Record? && f != g
  }

  /** No type contains itself: deeper levels have contexts of higher rank. */
  ghost predicate Nested(xs: seq<Field>, rank: Aggregate -> nat) {
    forall i, j :: 0 <= i < j < |xs| ==> rank(xs[i].context) < rank(xs[j].context)
  }

  lemma NestedBelow(xs: seq<Field>, a: nat, rank: Aggregate -> nat)
    requires Nested(xs, rank) && a <= |xs|
    ensures Nested(xs[a..], rank)
  {
  }

  /** The innermost loop: the first level of y in the same type as fieldx. */
  method FindInY(context: Aggregate, origY: Ref) returns (found: bool, y: Ref, ghost j: nat)
    requires origY.Component?
    ensures j <= |Levels(origY)| && Levels(y) == Levels(origY)[j..]
    ensures forall j' :: 0 <= j' < j ==> Levels(origY)[j'].context != context
    ensures if found then y.Component? && y.field.context == context else j == |Levels(origY)|
    ensures found <==> exists k :: 0 <= k < |Levels(origY)| && Levels(origY)[k].context == context
  {
    y, j, found := origY, 0, false;
    while true
      invariant y.Component? && j < |Levels(origY)| && Levels(y) == Levels(origY)[j..]
      invariant forall j' :: 0 <= j' < j ==> Levels(origY)[j'].context != context
      decreases y
    {
      assert y.field == Levels(y)[0] == Levels(origY)[j];
      if y.field.context == context {
        found := true;
        return;
      }
      assert Levels(y.inner) == Levels(y)[1..];
      y, j := y.inner, j + 1;
      if !y.Component? {
        return;
      }
    }
  }

  /** Where the two chains can be compared: the first level of x, and for it the first of y,
      in the same type. */
  method FindCommon(x0: Ref, origY: Ref) returns (found: bool, x: Ref, y: Ref, ghost i: nat, ghost j: nat)
    requires x0.Component? && origY.Component?
    ensures i <= |Levels(x0)| && j <= |Levels(origY)| && Levels(x) == Levels(x0)[i..] && Levels(y) == Levels(origY)[j..]
    ensures forall i', j' :: 0 <= i' < i && 0 <= j' < |Levels(origY)| ==>
      Levels(x0)[i'].context != Levels(origY)[j'].context
    ensures if found then i < |Levels(x0)| && j < |Levels(origY)| && x.Component? && y.Component?
            && x.field.context == y.field.context
            else i == |Levels(x0)|
    ensures found ==> forall j' :: 0 <= j' < j ==> x.field.context != Levels(origY)[j'].context
  {
    x, i := x0, 0;
    while true
      invariant x.Component? && i < |Levels(x0)| && Levels(x) == Levels(x0)[i..]
      invariant forall i', j' :: 0 <= i' < i && 0 <= j' < |Levels(origY)| ==>
        Levels(x0)[i'].context != Levels(origY)[j'].context
      decreases x
    {
      assert x.field == Levels(x)[0] == Levels(x0)[i];
      found, y, j := FindInY(x.field.context, origY);
      if found {
        return;
      }
      assert Levels(x.inner) == Levels(x)[1..];
      x, i := x.inner, i + 1;
      if !x.Component? {
        return;
      }
    }
  }

  /** Of nested chains, only what is deeper than a common level can still part. */
  lemma PartDeeper(xs: seq<Field>, ys: seq<Field>, i: nat, j: nat, rank: Aggregate -> nat)
    requires Nested(xs, rank) && Nested(ys, rank) && i < |xs| && j < |ys|
    requires xs[i].context == ys[j].context && !PartAt(xs[i], ys[j])
    requires forall i', j' :: 0 <= i' < i && 0 <= j' < |ys| ==> xs[i'].context != ys[j'].context
    ensures Part(xs, ys) <==> Part(xs[i + 1..], ys[j + 1..])
  {
  }

  lemma PartKept(xs: seq<Field>, ys: seq<Field>, i: nat, j: nat)
    requires i <= |xs| && j <= |ys| && Part(xs[i..], ys[j..])
    ensures Part(xs, ys)
  {
  }

  /** Where things are: the bases, the place and size of each field in its type, the size of each type. */
  datatype Layout = Layout(base: nat -> int, offset: Field -> int, size: Field -> int, extent: Aggregate -> int) {
    function Address(x: Ref): int {
      if x.Base? then base(x.id) else Address(x.inner) + offset(x.field)
    }

    /** Fields lie within their type, and different fields of a record do not overlap; those of a union may. */
    ghost predicate Sensible() {
      && (forall f :: 0 <= offset(f) && offset(f) + size(f) <= extent(f.context))
      && (forall f: Field, g: Field :: f.context == g.context && f.context.Record? && f.index != g.index ==>
            offset(f) + size(f) <= offset(g) || offset(g) + size(g) <= offset(f))
    }

    /** The places two references stand for have nothing in common. */
    predicate Apart(x: Ref, y: Ref)
      requires x.Component? && y.Component?
    {
      Address(x) + size(x.field) <= Address(y) || Address(y) + size(y.field) <= Address(x)
    }

    /** A field whose own fields are selected has their type, or a larger one. */
    ghost predicate Typed(x: Ref) {
      x.Component? && x.inner.Component? ==> extent(x.field.context) <= size(x.inner.field) && Typed(x.inner)
    }

    /** Two objects of one record type are the same, or do not overlap. */
    ghost predicate Distinct(x: Ref, y: Ref) {
      forall i, j :: 0 <= i < |Levels(x)| && 0 <= j < |Levels(y)| && Levels(x)[i].context == Levels(y)[j].context ==>
        var p, q, e := Address(Level(x, i).inner), Address(Level(y, j).inner), extent(Levels(x)[i].context);
        p == q || p + e <= q || q + e <= p
    }

    lemma {:induction false} InnerContains(x: Ref, i: nat)
      requires Sensible() && Typed(x) && i < |Levels(x)|
      ensures var c := Level(x, i);
              Address(c) <= Address(x) && Address(x) + size(x.field) <= Address(c) + size(c.field)
      decreases i
    {
      if i > 0 {
        assert x.inner.Component?;
        InnerContains(x.inner, i - 1);
      }
    }

    /** References that part do not overlap, in any layout. */
    lemma PartIsApart(x: Ref, y: Ref)
      requires Sensible() && Typed(x) && Typed(y) && Distinct(x, y) && Part(Levels(x), Levels(y))
      ensures x.Component? && y.Component? && Apart(x, y)
    {
      var i, j :| 0 <= i < |Levels(x)| && 0 <= j < |Levels(y)| && PartAt(Levels(x)[i], Levels(y)[j]);
      InnerContains(x, i);
      InnerContains(y, j);
      var c, d := Level(x, i), Level(y, j);
      assert c.field == Levels(x)[i] && d.field == Levels(y)[j];
      assert Address(c) == Address(c.inner) + offset(c.field) && Address(d) == Address(d.inner) + offset(d.field);
    }
  }

  /** Level i of a chain. */
  function Level(x: Ref, i: nat): (r: Ref)
    requires i < |Levels(x)|
    ensures r.Component? && r.field == Levels(x)[i]
  {
    if i == 0 then x else Level(x.inner, i - 1)
  }

  /** The layouts that the types of two references, and what is known of their objects, allow. */
  ghost predicate Allowed(l: Layout, x: Ref, y: Ref) {
    l.Sensible() && l.Typed(x) && l.Typed(y) && l.Distinct(x, y)
  }

  /** Two references do not overlap, whatever the layout is. */
  ghost predicate AlwaysApart(x: Ref, y: Ref)
    requires x.Component? && y.Component?
  {
    forall l: Layout :: Allowed(l, x, y) ==> l.Apart(x, y)
  }

  /** Everything at address 0, with the selected fields of size 1 and all others of size 0. */
  function Crowded(x: Ref, y: Ref): Layout {
    Layout(_ => 0, _ => 0, f => if f in Levels(x) || f in Levels(y) then 1 else 0, _ => 1)
  }

  lemma {:induction false} CrowdedAddress(x: Ref, y: Ref, z: Ref)
    ensures Crowded(x, y).Address(z) == 0
  {
    if z.Component? { CrowdedAddress(x, y, z.inner); }
  }

  lemma {:induction false} CrowdedTyped(x: Ref, y: Ref, z: Ref)
    requires forall f :: f in Levels(z) ==> f in Levels(x) || f in Levels(y)
    ensures Crowded(x, y).Typed(z)
  {
    if z.Component? && z.inner.Component? {
      assert Levels(z) == [z.field] + Levels(z.inner) && Levels(z.inner)[0] == z.inner.field;
      CrowdedTyped(x, y, z.inner);
    }
  }

  /** Nested chains that do not part overlap in the crowded layout, which is allowed. */
  lemma CrowdedAllowed(x: Ref, y: Ref, rank: Aggregate -> nat)
    requires x.Component? && y.Component? && Nested(Levels(x), rank) && Nested(Levels(y), rank)
    requires !Part(Levels(x), Levels(y))
    ensures Allowed(Crowded(x, y), x, y) && !Crowded(x, y).Apart(x, y)
  {
    var l := Crowded(x, y);
    forall f: Field, g: Field | f.context == g.context && f.context.Record? && f.index != g.index
      ensures l.size(f) == 0 || l.size(g) == 0
    {
      OneSelected(x, y, f, g, rank);
    }
    CrowdedTyped(x, y, x);
    CrowdedTyped(x, y, y);
    forall i, j | 0 <= i < |Levels(x)| && 0 <= j < |Levels(y)|
      ensures l.Address(Level(x, i).inner) == l.Address(Level(y, j).inner) == 0
    {
      CrowdedAddress(x, y, Level(x, i).inner);
      CrowdedAddress(x, y, Level(y, j).inner);
    }
    CrowdedAddress(x, y, x);
    CrowdedAddress(x, y, y);
    assert x.field == Levels(x)[0] && y.field == Levels(y)[0];
  }

  lemma OneSelected(x: Ref, y: Ref, f: Field, g: Field, rank: Aggregate -> nat)
    requires Nested(Levels(x), rank) && Nested(Levels(y), rank) && !Part(Levels(x), Levels(y))
    requires f.context == g.context && f.context.Record? && f != g
    ensures (f !in Levels(x) && f !in Levels(y)) || (g !in Levels(x) && g !in Levels(y))
  {
    assert PartAt(f, g) && PartAt(g, f);
  }

  /** References are apart in every layout if they part, and for nested chains only then. */
  lemma AlwaysApartExact(x: Ref, y: Ref, rank: Aggregate -> nat)
    requires x.Component? && y.Component?
    ensures Part(Levels(x), Levels(y)) ==> AlwaysApart(x, y)
    ensures Nested(Levels(x), rank) && Nested(Levels(y), rank) ==> (AlwaysApart(x, y) <==> Part(Levels(x), Levels(y)))
  {
    if Part(Levels(x), Levels(y)) {
      forall l: Layout | Allowed(l, x, y) ensures l.Apart(x, y) { l.PartIsApart(x, y); }
    } else if Nested(Levels(x), rank) && Nested(Levels(y), rank) {
      CrowdedAllowed(x, y, rank);
    }
  }

  /** Two members of one union, which may be the same object, overlap in some layout. */
  lemma UnionMembers(base: nat, u: nat, a: nat, b: nat)
    ensures var x, y := Component(Base(base), Field(Union(u), a)), Component(Base(base), Field(Union(u), b));
            !AlwaysApart(x, y)
  {
    var x, y := Component(Base(base), Field(Union(u), a)), Component(Base(base), Field(Union(u), b));
    AlwaysApartExact(x, y, _ => 0);
    assert Levels(x) == [x.field] && Levels(y) == [y.field];
  }

  /** `nonoverlapping_component_refs_p`: true only if the references do not overlap in any layout, and for
      nested chains whenever that is so. */
  method NonoverlappingComponentRefs(x0: Ref, y0: Ref, ghost rank: Aggregate -> nat) returns (r: bool)
    requires x0.Component? && y0.Component?
    ensures r ==> AlwaysApart(x0, y0)
    ensures Nested(Levels(x0), rank) && Nested(Levels(y0), rank) ==> (r <==> AlwaysApart(x0, y0))
  {
    AlwaysApartExact(x0, y0, rank);
    var x, y := x0, y0;
    ghost var nested := Nested(Levels(x0), rank) && Nested(Levels(y0), rank);
    while true
      invariant x.Component? && y.Component?
      invariant Part(Levels(x), Levels(y)) ==> Part(Levels(x0), Levels(y0))
      invariant nested ==> Nested(Levels(x), rank) && Nested(Levels(y), rank)
      invariant nested && Part(Levels(x0), Levels(y0)) ==> Part(Levels(x), Levels(y))
      decreases |Levels(x)|
    {
      ghost var xs, ys := Levels(x), Levels(y);
      var found, cx, cy;
      ghost var i, j;
      found, cx, cy, i, j := FindCommon(x, y);
      if !found {
        return false;
      }
      assert cx.field == xs[i] && cy.field == ys[j];
      if cx.field.context.Record? && cx.field != cy.field {
        assert PartAt(xs[i], ys[j]);
        return true;
      }
      if nested {
        PartDeeper(xs, ys, i, j, rank);
        NestedBelow(xs, i + 1, rank);
        NestedBelow(ys, j + 1, rank);
      }
      assert Levels(cx.inner) == xs[i + 1..] && Levels(cy.inner) == ys[j + 1..];
      x, y := cx.inner, cy.inner;
      if !x.Component? || !y.Component? {
        return false;
      }
      if Part(Levels(x), Levels(y)) { PartKept(xs, ys, i + 1, j + 1); }
    }
  }
}
