/** `get_alias_set` on types: one alias set per type, each recorded as a superset of the sets of its
    addressable components. */
module AliasSets {
  import opened AliasGraph

  /** C types as far as alias sets go. A pointed-to type is named by a number that stands for it with
      all qualifiers removed; `plain` says that there were none. Unions are treated like structs. */
  datatype Type =
    | Char
    | Boolean
    | Integer(rank: nat, unsigned: bool)
    | Scalar(name: nat)
    | Pointer(target: nat, plain: bool)
    | FunctionType(signature: nat)
    | Array(elem: Type, nonaliased: bool)
    | Struct(tag: nat, fields: Fields)
    | Complex(elem: Type)
    | Vector(elem: Type)
  {
    /** The type whose alias set this type has: the signed variant, the pointer without qualifiers, the
        element of a vector. */
    function Owner(): Type {
      match this
      case Integer(rank, _) => Integer(rank, false)
      case Pointer(target, _) => Pointer(target, true)
      case Vector(elem) => elem.Owner()
      case _ => this
    }

    /** A type that may alias anything: character types have no set, functions no objects. */
    predicate AliasesAll() {
      Owner().Char? || Owner().FunctionType?
    }

    /** The owners of all addressable components, at any depth. */
    function Inside(): set<Type> {
      match this
      case Array(elem, nonaliased) => if nonaliased then {} else {elem.Owner()} + elem.Inside()
      case Struct(_, fields) => fields.Inside()
      case Complex(elem) => {elem.Owner()} + elem.Inside()
      case Vector(elem) => elem.Inside()
      case _ => {}
    }

    function Size(): nat {
      match this
      case Array(elem, _) => 1 + elem.Size()
      case Struct(_, fields) => 1 + fields.Size()
      case Complex(elem) => 1 + elem.Size()
      case Vector(elem) => 1 + elem.Size()
      case _ => 0
    }

    predicate Own() {
      Owner() == this && !AliasesAll()
    }

    /** `AGGREGATE_TYPE_P` or complex: components are recorded. */
    predicate Composite() {
      Array? || Struct? || Complex?
    }
  }

  /** A chain of fields. */
  datatype Fields = End | Field(of: Type, addressable: bool, rest: Fields) {
    function Inside(): set<Type> {
      if End? then {}
      else (if addressable then {of.Owner()} + of.Inside() else {}) + rest.Inside()
    }

    function Size(): nat {
      if End? then 0 else of.Size() + rest.Size()
    }
  }

  lemma {:induction false} OwnerFacts(t: Type)
    ensures t.Owner().Owner() == t.Owner() && !t.Owner().Vector?
    ensures t.Owner().Inside() == t.Inside()
    ensures t.Owner().Size() <= t.Size()
    ensures t.AliasesAll() ==> t.Inside() == {}
  {
    if t.Vector? { OwnerFacts(t.elem); }
  }

  type Memo = map<Type, int>

  predicate Known(memo: Memo, t: Type) {
    t.AliasesAll() || t.Owner() in memo
  }

  predicate AllKnown(memo: Memo, ts: set<Type>) {
    forall t :: t in ts ==> Known(memo, t)
  }

  /** The alias set of a type. */
  function Number(memo: Memo, t: Type): int {
    if t.AliasesAll() || t.Owner() !in memo then 0 else memo[t.Owner()]
  }

  function Numbers(memo: Memo, ts: set<Type>): set<int> {
    set t | t in ts :: Number(memo, t)
  }

  ghost predicate Grows(memo: Memo, later: Memo) {
    forall t :: t in memo ==> t in later && later[t] == memo[t]
  }

  lemma NumbersKept(memo: Memo, later: Memo, ts: set<Type>)
    requires Grows(memo, later) && AllKnown(memo, ts)
    ensures AllKnown(later, ts) && Numbers(later, ts) == Numbers(memo, ts)
  {
  }

  lemma NumbersOfPart(memo: Memo, ts: set<Type>, c: Type)
    ensures Numbers(memo, ts + ({c.Owner()} + c.Inside()))
            == Numbers(memo, ts) + Numbers(memo, c.Inside()) + {Number(memo, c)}
  {
    OwnerFacts(c);
    NumbersJoined(memo, ts, {c.Owner()} + c.Inside());
    NumbersJoined(memo, {c.Owner()}, c.Inside());
    assert Numbers(memo, {c.Owner()}) == {Number(memo, c)};
  }

  lemma NumbersJoined(memo: Memo, ts: set<Type>, us: set<Type>)
    ensures Numbers(memo, ts + us) == Numbers(memo, ts) + Numbers(memo, us)
  {
  }

  /** What `memo` may hold: types with a set of their own, functions, and vectors with their element's. */
  ghost predicate Placed(memo: Memo, t: Type) {
    t in memo ==>
      && !t.Char? && (t.Vector? || t.Owner() == t) && Known(memo, t)
      && memo[t] == if t.AliasesAll() then 0 else Number(memo, t)
  }

  ghost predicate MemoOk(memo: Memo, last: nat) {
    && (forall t :: Placed(memo, t))
    && (forall t :: t in memo && t.Own() ==> 1 <= memo[t] <= last)
    && (forall t, u :: t in memo && u in memo && t.Own() && u.Own() && t != u ==> memo[t] != memo[u])
  }

  /** A type's set has below it exactly the sets of what is inside the type. */
  ghost predicate FoldedIn(entries: Table, memo: Memo, t: Type) {
    AllKnown(memo, t.Inside()) && Below(entries, Number(memo, t)) == Numbers(memo, t.Inside())
  }

  /** What holds of the globals between calls: `open` are the types whose components are being recorded. */
  ghost predicate Consistent(entries: Table, memo: Memo, last: nat, open: set<Type>) {
    && Proper(entries) && MemoOk(memo, last)
    && (forall z :: z in entries ==> z <= last)
    && (forall t :: t in memo && t.Own() && t !in open ==> FoldedIn(entries, memo, t))
  }

  /** A type gets the next number. */
  lemma NumberGiven(entries: Table, memo: Memo, last: nat, open: set<Type>, t: Type)
    requires Consistent(entries, memo, last, open) && t.Own() && t !in memo
    ensures Consistent(entries, memo[t := last + 1], last + 1, open + {t})
    ensures Grows(memo, memo[t := last + 1]) && Below(entries, last + 1) == {}
  {
    var later := memo[t := last + 1];
    MemoKept(memo, later);
    forall u ensures Placed(later, u) { assert Placed(memo, u); }
    forall u | u in later && u.Own() && u !in open + {t} ensures FoldedIn(entries, later, u) {
      NumbersKept(memo, later, u.Inside());
    }
  }

  lemma MemoKept(memo: Memo, later: Memo)
    requires Grows(memo, later)
    ensures forall t :: Known(memo, t) ==> Known(later, t) && Number(later, t) == Number(memo, t)
  {
  }

  /** A type without a set of its own keeps its number too. */
  lemma NumberShared(entries: Table, memo: Memo, last: nat, open: set<Type>, t: Type)
    requires Consistent(entries, memo, last, open) && (t.FunctionType? || t.Vector?) && t !in memo && Known(memo, t)
    ensures var later := memo[t := Number(memo, t)];
            Consistent(entries, later, last, open) && Grows(memo, later)
  {
    var later := memo[t := Number(memo, t)];
    OwnerFacts(t);
    MemoKept(memo, later);
    forall u ensures Placed(later, u) { assert Placed(memo, u); }
    forall u | u in later && u.Own() && u !in open ensures FoldedIn(entries, later, u) {
      assert u != t;
      NumbersKept(memo, later, u.Inside());
    }
  }

  /** Recording a component of an open type changes what is below that type only. */
  lemma ComponentRecorded(entries: Table, memo: Memo, last: nat, open: set<Type>, t: Type, c: Type, done: set<Type>)
    requires Consistent(entries, memo, last, open) && t.Own() && t in memo && t in open
    requires c.Owner() != t && Known(memo, c) && (c.AliasesAll() || c.Owner() !in open)
    requires AllKnown(memo, done) && Below(entries, memo[t]) == Numbers(memo, done)
    ensures var all := done + ({c.Owner()} + c.Inside());
            var later := Recorded(entries, memo[t], Number(memo, c));
            && Consistent(later, memo, last, open)
            && AllKnown(memo, all) && Below(later, memo[t]) == Numbers(memo, all)
            && forall z :: z != memo[t] ==> Below(later, z) == Below(entries, z)
  {
    var s, n := memo[t], Number(memo, c);
    var later := Recorded(entries, s, n);
    OwnerFacts(c);
    NumbersOfPart(memo, done, c);
    assert n != s;
    forall z ensures Below(later, z) == if z == s then
        Below(entries, s) + Below(entries, n) + {n} else Below(entries, z) {
      RecordedBelow(entries, s, n, z);
    }
    RecordedBelow(entries, s, n, s);
    ComponentBelow(entries, memo, last, open, c);
    forall u | u in memo && u.Own() && u !in open ensures FoldedIn(later, memo, u) {
      assert FoldedIn(entries, memo, u) && memo[u] != s;
    }
  }

  /** What is below a known type's set that is not open. */
  lemma ComponentBelow(entries: Table, memo: Memo, last: nat, open: set<Type>, c: Type)
    requires Consistent(entries, memo, last, open) && Known(memo, c) && (c.AliasesAll() || c.Owner() !in open)
    ensures AllKnown(memo, c.Inside()) && Below(entries, Number(memo, c)) == Numbers(memo, c.Inside())
  {
  }

  /** A type is closed once everything inside it is recorded. */
  lemma TypeDone(entries: Table, memo: Memo, last: nat, open: set<Type>, t: Type)
    requires Consistent(entries, memo, last, open) && FoldedIn(entries, memo, t)
    ensures Consistent(entries, memo, last, open - {t})
  {
  }

  /** A type with no components has nothing below it. */
  lemma NothingInside(entries: Table, memo: Memo, t: Type)
    requires !t.Composite() && !t.Vector? && Below(entries, Number(memo, t)) == {}
    ensures FoldedIn(entries, memo, t)
  {
  }

  /** Whether an access as one type may touch an object accessed as the other: one of them aliases
      everything, they share a set, or one is, or holds something that aliases everything, inside the
      other. */
  ghost predicate MayAlias(t: Type, u: Type) {
    || t.AliasesAll() || u.AliasesAll() || t.Owner() == u.Owner()
    || u.Owner() in t.Inside() || t.Owner() in u.Inside()
    || HoldsAnything(t) || HoldsAnything(u)
  }

  ghost predicate HoldsAnything(t: Type) {
    exists c :: c in t.Inside() && c.AliasesAll()
  }

  /** The same type but for signedness, the qualifiers a pointer points to, and being a vector of it. */
  predicate Alike(t: Type, u: Type) {
    || t == u
    || (t.Integer? && u.Integer? && t.rank == u.rank)
    || (t.Pointer? && u.Pointer? && t.target == u.target)
    || (t.Vector? && Alike(t.elem, u))
    || (u.Vector? && Alike(t, u.elem))
  }

  /** Character types, functions, and vectors of such. */
  predicate Anything(t: Type) {
    t.Char? || t.FunctionType? || (t.Vector? && Anything(t.elem))
  }

  /** c is an element of t that may be aliased, an addressable field, or a part of a complex or vector. */
  predicate Component(t: Type, c: Type): (r: bool)
    ensures r ==> c.Size() < t.Size()
  {
    match t
    case Array(elem, nonaliased) => !nonaliased && c == elem
    case Struct(_, fields) => HasField(fields, c)
    case Complex(elem) => c == elem
    case Vector(elem) => c == elem
    case _ => false
  }

  predicate HasField(fields: Fields, c: Type): (r: bool)
    ensures r ==> c.Size() <= fields.Size()
  {
    fields.Field? && ((fields.addressable && fields.of == c) || HasField(fields.rest, c))
  }

  /** d is t, or is reached from it by component steps. */
  ghost predicate PartOf(d: Type, t: Type)
    decreases t.Size()
  {
    d == t || exists c :: Component(t, c) && PartOf(d, c)
  }

  /** Some part of t may alias anything, or is a type like u. */
  ghost predicate Covers(t: Type, u: Type) {
    exists d :: PartOf(d, t) && (Anything(d) || Alike(d, u))
  }

  lemma {:induction false} OwnerAlike(t: Type, u: Type)
    ensures t.Owner() == u.Owner() <==> Alike(t, u)
    decreases t.Size() + u.Size()
  {
    OwnerFacts(t);
    OwnerFacts(u);
    if t.Vector? { OwnerAlike(t.elem, u); }
    if u.Vector? { OwnerAlike(t, u.elem); }
  }

  lemma {:induction false} OwnerAnything(t: Type)
    ensures t.AliasesAll() <==> Anything(t)
  {
    if t.Vector? { OwnerAnything(t.elem); }
  }

  /** What is inside a type, and the type itself, are its parts. */
  lemma {:induction false} InsideIsPart(t: Type, c: Type) returns (d: Type)
    requires c == t.Owner() || c in t.Inside()
    ensures PartOf(d, t) && d.Owner() == c
    decreases t, 1
  {
    d := t;
    if c != t.Owner() {
      match t
      case Array(elem, _) => d := InsideIsPart(elem, c); assert Component(t, elem);
      case Struct(_, fields) =>
        var of;
        of, d := InsideFields(fields, c);
        assert Component(t, of);
      case Complex(elem) => d := InsideIsPart(elem, c); assert Component(t, elem);
      case Vector(elem) => d := InsideIsPart(elem, c); assert Component(t, elem);
      case _ =>
    }
  }

  lemma {:induction false} InsideFields(fields: Fields, c: Type) returns (of: Type, d: Type)
    requires c in fields.Inside()
    ensures HasField(fields, of) && PartOf(d, of) && d.Owner() == c
    decreases fields, 0
  {
    if c in fields.rest.Inside() {
      of, d := InsideFields(fields.rest, c);
    } else {
      of := fields.of;
      d := InsideIsPart(of, c);
    }
  }

  lemma {:induction false} PartIsInside(t: Type, d: Type)
    requires PartOf(d, t)
    ensures d.Owner() == t.Owner() || d.Owner() in t.Inside()
    decreases t.Size()
  {
    if d != t {
      var c :| Component(t, c) && PartOf(d, c);
      PartIsInside(c, d);
      if t.Struct? { FieldInside(t.fields, c, d.Owner()); }
    }
  }

  lemma {:induction false} FieldInside(fields: Fields, c: Type, o: Type)
    requires HasField(fields, c) && (o == c.Owner() || o in c.Inside())
    ensures o in fields.Inside()
  {
    if !(fields.addressable && fields.of == c) { FieldInside(fields.rest, c, o); }
  }

  lemma CoversExact(t: Type, u: Type)
    ensures Covers(t, u) <==>
            t.AliasesAll() || HoldsAnything(t) || t.Owner() == u.Owner() || u.Owner() in t.Inside()
  {
    forall d | PartOf(d, t) && (Anything(d) || Alike(d, u))
      ensures t.AliasesAll() || HoldsAnything(t) || t.Owner() == u.Owner() || u.Owner() in t.Inside()
    {
      PartIsInside(t, d);
      OwnerAnything(d);
      OwnerAlike(d, u);
      OwnerFacts(d);
    }
    if t.AliasesAll() {
      OwnerAnything(t);
      assert PartOf(t, t);
    } else if HoldsAnything(t) {
      var c :| c in t.Inside() && c.AliasesAll();
      var d := InsideIsPart(t, c);
      OwnerFacts(d);
      OwnerAnything(d);
    } else if t.Owner() == u.Owner() || u.Owner() in t.Inside() {
      var d := InsideIsPart(t, u.Owner());
      OwnerAlike(d, u);
    }
  }

  /** Accesses as two types may touch the same object when one covers the other. */
  lemma MayAliasExact(t: Type, u: Type)
    ensures MayAlias(t, u) <==> Covers(t, u) || Covers(u, t)
  {
    CoversExact(t, u);
    CoversExact(u, t);
  }

  lemma InsideOwners(t: Type, c: Type)
    requires c in t.Inside()
    ensures c.Owner() == c
    decreases t, 0
  {
    match t
    case Array(elem, _) => InsideElem(elem, c);
    case Complex(elem) => InsideElem(elem, c);
    case Vector(elem) => InsideOwners(elem, c);
    case Struct(_, fields) => InsideFieldOwners(fields, c);
    case _ =>
  }

  lemma InsideElem(elem: Type, c: Type)
    requires c == elem.Owner() || c in elem.Inside()
    ensures c.Owner() == c
    decreases elem, 1
  {
    OwnerFacts(elem);
    if c in elem.Inside() { InsideOwners(elem, c); }
  }

  lemma InsideFieldOwners(fields: Fields, c: Type)
    requires c in fields.Inside()
    ensures c.Owner() == c
    decreases fields, 0
  {
    if c in fields.rest.Inside() { InsideFieldOwners(fields.rest, c); } else { InsideElem(fields.of, c); }
  }

  /** Two known types that do not alias everything have the same number only if they share it. */
  lemma NumbersDiffer(memo: Memo, last: nat, t: Type, u: Type)
    requires MemoOk(memo, last) && Known(memo, t) && Known(memo, u)
    ensures Number(memo, t) == 0 <==> t.AliasesAll()
    ensures !t.AliasesAll() && !u.AliasesAll() && Number(memo, t) == Number(memo, u) ==> t.Owner() == u.Owner()
  {
    OwnerFacts(t);
    OwnerFacts(u);
  }

  lemma InsideNumber(memo: Memo, last: nat, t: Type, u: Type)
    requires MemoOk(memo, last) && AllKnown(memo, t.Inside()) && Known(memo, u)
    ensures u.AliasesAll() ==> (Number(memo, u) in Numbers(memo, t.Inside()) <==> HoldsAnything(t))
    ensures !u.AliasesAll() ==> (Number(memo, u) in Numbers(memo, t.Inside()) <==> u.Owner() in t.Inside())
  {
    OwnerFacts(u);
    forall c | c in t.Inside()
      ensures c.Owner() == c
      ensures Number(memo, c) == Number(memo, u) ==>
        c.AliasesAll() == u.AliasesAll() && (!c.AliasesAll() ==> c == u.Owner())
    {
      InsideOwners(t, c);
      assert Known(memo, c);
      NumbersDiffer(memo, last, c, u);
      NumbersDiffer(memo, last, u, c);
    }
    if u.Owner() in t.Inside() { assert Number(memo, u.Owner()) == Number(memo, u); }
    if u.AliasesAll() && HoldsAnything(t) {
      var c :| c in t.Inside() && c.AliasesAll();
      assert Number(memo, c) == 0;
    }
  }

  /** The two lookups in the table decide what the structure of the types says. */
  lemma ConflictIsMayAlias(entries: Table, memo: Memo, last: nat, t: Type, u: Type)
    requires Consistent(entries, memo, last, {}) && Known(memo, t) && Known(memo, u)
    ensures Conflict(entries, Number(memo, t), Number(memo, u)) <==> MayAlias(t, u)
    ensures Conflict(entries, Number(memo, t), Number(memo, u)) <==> Covers(t, u) || Covers(u, t)
  {
    MayAliasExact(t, u);
    var a, b := Number(memo, t), Number(memo, u);
    ConflictBelow(entries, a, b);
    ComponentBelow(entries, memo, last, {}, t);
    ComponentBelow(entries, memo, last, {}, u);
    NumbersDiffer(memo, last, t, u);
    NumbersDiffer(memo, last, u, t);
    InsideNumber(memo, last, t, u);
    InsideNumber(memo, last, u, t);
    assert Known(memo, Char);
    InsideNumber(memo, last, t, Char);
    InsideNumber(memo, last, u, Char);
  }

  /** In particular every type conflicts with each of its addressable components, at any depth. */
  lemma ComponentsConflict(entries: Table, memo: Memo, last: nat, t: Type, d: Type)
    requires Consistent(entries, memo, last, {}) && Known(memo, t) && PartOf(d, t)
    ensures Known(memo, d) && Conflict(entries, Number(memo, t), Number(memo, d))
            && Conflict(entries, Number(memo, d), Number(memo, t))
  {
    PartIsInside(t, d);
    OwnerFacts(t);
    OwnerFacts(d);
    ComponentBelow(entries, memo, last, {}, t);
    assert d.Owner() in t.Inside() ==> Known(memo, d.Owner());
    assert Alike(d, d);
    ConflictIsMayAlias(entries, memo, last, t, d);
    ConflictIsMayAlias(entries, memo, last, d, t);
  }

  /** Types share a set exactly when they are alike, and have set 0 exactly when they may alias anything. */
  lemma SameNumber(memo: Memo, last: nat, t: Type, u: Type)
    requires MemoOk(memo, last) && Known(memo, t) && Known(memo, u)
    ensures Number(memo, t) == 0 <==> Anything(t)
    ensures Number(memo, t) == Number(memo, u) <==> (Anything(t) && Anything(u)) || Alike(t, u)
  {
    NumbersDiffer(memo, last, t, u);
    NumbersDiffer(memo, last, u, t);
    OwnerAlike(t, u);
    OwnerAnything(t);
    OwnerAnything(u);
  }

  lemma {:induction false} InsideSmaller(t: Type, c: Type)
    requires c in t.Inside()
    ensures c.Size() < t.Size()
  {
    match t
    case Array(elem, _) => OwnerFacts(elem); if c in elem.Inside() { InsideSmaller(elem, c); }
    case Complex(elem) => OwnerFacts(elem); if c in elem.Inside() { InsideSmaller(elem, c); }
    case Vector(elem) => InsideSmaller(elem, c);
    case Struct(_, fields) => InsideFieldsSmaller(fields, c);
    case _ =>
  }

  lemma {:induction false} InsideFieldsSmaller(fields: Fields, c: Type)
    requires c in fields.Inside()
    ensures c.Size() <= fields.Size()
  {
    if c in fields.rest.Inside() {
      InsideFieldsSmaller(fields.rest, c);
    } else {
      OwnerFacts(fields.of);
      if c in fields.of.Inside() { InsideSmaller(fields.of, c); }
    }
  }

  /** Below the set of a type of its own are exactly the sets of its proper parts. */
  lemma FoldedParts(entries: Table, memo: Memo, t: Type, z: int)
    requires t.Own() && FoldedIn(entries, memo, t)
    ensures z in Below(entries, Number(memo, t)) <==> exists d :: d != t && PartOf(d, t) && Number(memo, d) == z
  {
    if z in Below(entries, Number(memo, t)) {
      var c :| c in t.Inside() && Number(memo, c) == z;
      InsideOwners(t, c);
      var d := InsideIsPart(t, c);
      InsideSmaller(t, c);
      OwnerFacts(d);
    }
    if d :| d != t && PartOf(d, t) && Number(memo, d) == z {
      var c :| Component(t, c) && PartOf(d, c);
      PartIsInside(c, d);
      if t.Struct? { FieldInside(t.fields, c, d.Owner()); }
      OwnerFacts(t);
      OwnerFacts(d);
      assert d.Owner() in t.Inside() && Number(memo, d.Owner()) == z;
    }
  }

  /** The globals behind `get_alias_set`: the table of entries, the last number given out, and the
      numbers kept in the types. */
  class Sets {
    var entries: Table
    var last: nat
    var memo: Memo
    ghost var open: set<Type>

    ghost predicate Valid()
      reads this
    {
      Consistent(entries, memo, last, open)
    }

    constructor ()
      ensures Valid() && open == {} && memo == map[] && entries == map[]
    {
      entries, last, memo, open := map[], 0, map[], {};
    }

    /** `record_alias_subset` */
    method RecordSubset(superset: int, subset: int)
      requires superset != 0
      modifies this`entries
      ensures entries == Recorded(old(entries), superset, subset)
    {
      if superset == subset {
        return;
      }
      if superset !in entries {
        entries := entries[superset := Entry({}, false)];
      }
      if subset == 0 {
        entries := entries[superset := entries[superset].(hasZeroChild := true)];
      } else {
        if subset in entries {
          if entries[subset].hasZeroChild {
            entries := entries[superset := entries[superset].(hasZeroChild := true)];
          }
          var taken := entries[superset].children + entries[subset].children;
          entries := entries[superset := entries[superset].(children := taken)];
        }
        entries := entries[superset := entries[superset].(children := entries[superset].children + {subset})];
      }
    }

    /** What a call may do to sets other than the one numbered s: nothing to those that were there. */
    twostate predicate Extends(s: int)
      reads this
    {
      && open == old(open) && Grows(old(memo), memo) && last >= old(last)
      && forall z :: z <= old(last) && z != s ==> Below(entries, z) == old(Below(entries, z))
    }

    /** `get_alias_set`, for a type. */
    method GetAliasSet(t: Type) returns (number: int)
      requires Valid() && forall o :: o in open ==> t.Size() < o.Size()
      modifies this
      ensures Valid() && Extends(0)
      ensures Known(memo, t) && number == Number(memo, t)
      decreases t.Size(), 2
    {
      OwnerFacts(t);
      assert Placed(memo, t);
      if t in memo {
        return memo[t];
      }
      // The language hook.
      if t.Char? {
        return 0;
      }
      if t.Integer? && t.unsigned {
        number := OwnSet(Integer(t.rank, false));
        return;
      }
      if t.Pointer? && !t.plain {
        number := OwnSet(Pointer(t.target, true));
        return;
      }
      if t.FunctionType? {
        NumberShared(entries, memo, last, open, t);
        memo := memo[t := 0];
        return 0;
      }
      if t.Vector? {
        number := GetAliasSet(t.elem);
        KeepForVector(t, number);
        return;
      }
      number := OwnSet(t);
    }

    /** A vector is given its element's set. */
    method KeepForVector(t: Type, number: int)
      requires Valid() && t.Vector? && Known(memo, t.elem) && number == Number(memo, t.elem)
      modifies this`memo
      ensures Valid() && Extends(0) && Known(memo, t) && number == Number(memo, t)
    {
      OwnerFacts(t);
      if t in memo {
        assert Placed(memo, t) && memo[t := number] == memo;
      } else {
        NumberShared(entries, memo, last, open, t);
      }
      memo := memo[t := number];
    }

    /** `new_alias_set` for a type, whose components are to be recorded now. */
    method GiveNumber(t: Type) returns (number: int)
      requires Valid() && t.Own() && t !in memo
      modifies this
      ensures Valid() && open == old(open) + {t} && entries == old(entries) && Below(entries, number) == {}
      ensures number == last == old(last) + 1 && memo == old(memo)[t := number]
    {
      NumberGiven(entries, memo, last, open, t);
      last := last + 1;
      number := last;
      memo := memo[t := number];
      open := open + {t};
    }

    /** The rest of `get_alias_set` for a type with a set of its own. */
    method OwnSet(t: Type) returns (number: int)
      requires Valid() && t.Own() && forall o :: o in open ==> t.Size() < o.Size()
      modifies this
      ensures Valid() && Extends(0)
      ensures Known(memo, t) && number == Number(memo, t)
      decreases t.Size(), 1
    {
      if t in memo {
        return memo[t];
      }
      number := GiveNumber(t);
      OwnerFacts(t);
      if t.Composite() {
        RecordComponents(t);
      } else {
        assert Number(memo, t) == number;
        NothingInside(entries, memo, t);
      }
      TypeDone(entries, memo, last, open, t);
      open := open - {t};
    }

    /** `record_component_aliases` */
    method RecordComponents(t: Type)
      requires Valid() && t.Own() && t.Composite() && t in memo && t in open && Below(entries, memo[t]) == {}
      requires forall o :: o in open && o != t ==> t.Size() < o.Size()
      modifies this
      ensures Valid() && Extends(old(memo[t]))
      ensures FoldedIn(entries, memo, t)
      decreases t.Size(), 0
    {
      ghost var done := {};
      match t
      case Array(elem, nonaliased) =>
        if !nonaliased {
          AddComponent(t, elem, {});
        }
      case Struct(_, fields) =>
        var field := fields;
        while field.Field?
          invariant Valid() && Extends(old(memo[t]))
          invariant field.Size() < t.Size() && done + field.Inside() == t.Inside()
          invariant AllKnown(memo, done) && Below(entries, memo[t]) == Numbers(memo, done)
          decreases field
        {
          if field.addressable {
            AddComponent(t, field.of, done);
            done := done + ({field.of.Owner()} + field.of.Inside());
          }
          field := field.rest;
        }
      case Complex(elem) =>
        AddComponent(t, elem, {});
    }

    /** Record the set of one component of t, after those of `done`. */
    method AddComponent(t: Type, c: Type, ghost done: set<Type>)
      requires Valid() && t.Own() && t in memo && t in open && c.Size() < t.Size()
      requires forall o :: o in open && o != t ==> t.Size() < o.Size()
      requires AllKnown(memo, done) && Below(entries, memo[t]) == Numbers(memo, done)
      modifies this
      ensures Valid() && Extends(old(memo[t]))
      ensures var all := done + ({c.Owner()} + c.Inside());
              AllKnown(memo, all) && Below(entries, memo[t]) == Numbers(memo, all)
      decreases c.Size(), 3
    {
      var number := GetAliasSet(c);
      NumbersKept(old(memo), memo, done);
      OwnerFacts(c);
      ComponentRecorded(entries, memo, last, open, t, c, done);
      RecordSubset(memo[t], number);
    }

    /** Whether accesses as two types may alias, whatever types were asked about before. */
    method TypesConflict(t: Type, u: Type) returns (r: bool)
      requires Valid() && open == {}
      modifies this
      ensures Valid() && open == {}
      ensures r <==> Covers(t, u) || Covers(u, t)
    {
      var a := GetAliasSet(t);
      var b := GetAliasSet(u);
      MemoKept(memo, memo);
      ConflictIsMayAlias(entries, memo, last, t, u);
      r := Conflict(entries, a, b);
    }
  }
}
