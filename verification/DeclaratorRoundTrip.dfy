/** Reading what `gen_type` prints gives the type back. */
module DeclaratorRoundTrip {
  import opened Arithmetic
  import opened Options
  import opened Declarators
  import opened AuxInfo

  /** The type as printed: an array that takes no space has lost its number of elements. */
  function Normal(t: Type, sz: Sizes): Type {
    match t
    case Named(_, _, _) => t
    case Pointer(c, v, to) => Pointer(c, v, Normal(to, sz))
    case Array(_, to) => Array(sz.Printed(t), Normal(to, sz))
    case Function(args, to) => Function(NormalArgs(args, sz), Normal(to, sz))
  }

  function NormalArgs(args: Args, sz: Sizes): Args {
    if args.Arg? then Arg(Normal(args.arg, sz), NormalArgs(args.rest, sz)) else args
  }

  /** No parameter is plain `void`, which would end the list. */
  predicate WellFormed(t: Type) {
    match t
    case Named(_, _, _) => true
    case Pointer(_, _, to) => WellFormed(to)
    case Array(_, to) => WellFormed(to)
    case Function(args, to) => WellFormedArgs(args) && WellFormed(to)
  }

  predicate WellFormedArgs(args: Args) {
    args.Arg? ==> args.arg != Named("void", false, false) && WellFormed(args.arg) && WellFormedArgs(args.rest)
  }

  /** What may follow a direct declarator: suffixes, or the end of the declarator. */
  predicate Follows(r: Text) {
    !Starts2(r, LPar, Star) && !Starts(r, Star) && (r == [] || !r[0].Word?)
  }

  predicate Ends(r: Text) {
    r == [] || r[0] == RPar || r[0] == Comma
  }

  /** s reads as a direct declarator, which may be followed by suffixes. */
  ghost predicate Direct(s: Text, name: Option<string>, mods: seq<Mod>) {
    forall r: Text :: Follows(r) ==>
      ReadDirect(s + r) == ReadSuffixes(Declarator(name, mods), r) && !Starts(s + r, Star)
  }

  /** s reads as a declarator. */
  ghost predicate Whole(s: Text, name: Option<string>, mods: seq<Mod>) {
    forall r: Text :: Ends(r) ==> ReadDeclarator(s + r) == Got(Declarator(name, mods), r)
  }

  lemma DirectWhole(s: Text, name: Option<string>, mods: seq<Mod>)
    requires Direct(s, name, mods)
    ensures Whole(s, name, mods)
  {
  }

  lemma SeedDirect(name: Option<string>)
    ensures Direct(SeedText(name), name, [])
  {
    forall r: Text | Follows(r)
      ensures ReadDirect(SeedText(name) + r) == ReadSuffixes(Declarator(name, []), r)
              && !Starts(SeedText(name) + r, Star)
    {
      if name.Some? { assert (SeedText(name) + r)[1..] == r; } else { assert SeedText(name) + r == r; }
    }
  }

  lemma SizeReads(s: Text, name: Option<string>, mods: seq<Mod>, n: Option<nat>)
    requires Direct(s, name, mods)
    ensures Direct(s + SizeText(n), name, mods + [ArrayOf(n)])
  {
    forall r: Text | Follows(r)
      ensures ReadDirect(s + SizeText(n) + r) == ReadSuffixes(Declarator(name, mods + [ArrayOf(n)]), r)
      ensures !Starts(s + SizeText(n) + r, Star)
    {
      var more := SizeText(n) + r;
      assert s + SizeText(n) + r == s + more && Follows(more);
      assert more[|SizeText(n)|..] == r;
    }
  }

  /** A parameter list, after its opening parenthesis, reads as args. */
  ghost predicate ListReads(s: Text, args: Args) {
    s != [] && s[0] != Star && forall r: Text :: ReadArgs(s + r) == Got(args, r)
  }

  lemma FunctionStep(d: Declarator, list: Text, args: Args, r: Text)
    requires list != [] && list[0] != Star && ReadArgs(list + r) == Got(args, r)
    ensures ReadSuffixes(d, [LPar] + (list + r)) == ReadSuffixes(d.(mods := d.mods + [FunctionOf(args)]), r)
  {
    var more := [LPar] + (list + r);
    assert more[1..] == list + r && more[1] == list[0];
  }

  lemma FunctionReads(s: Text, name: Option<string>, mods: seq<Mod>, list: Text, args: Args)
    requires Direct(s, name, mods) && ListReads(list, args)
    ensures Direct(s + ([LPar] + list), name, mods + [FunctionOf(args)])
  {
    forall r: Text | Follows(r)
      ensures ReadDirect(s + ([LPar] + list) + r) == ReadSuffixes(Declarator(name, mods + [FunctionOf(args)]), r)
      ensures !Starts(s + ([LPar] + list) + r, Star)
    {
      var more := [LPar] + (list + r);
      assert s + ([LPar] + list) + r == s + more && Follows(more);
      FunctionStep(Declarator(name, mods), list, args, r);
    }
  }

  lemma QualsRead(c: bool, v: bool, ts: Text)
    requires Plain(ts)
    ensures Quals(QualText(c, v) + ts) == Qualified(c, v, ts)
  {
    var all := QualText(c, v) + ts;
    assert Quals(ts) == Qualified(false, false, ts);
    if c && v {
      assert all[1..] == [Const] + ts && ([Const] + ts)[1..] == ts;
    } else if c || v {
      assert all[1..] == ts;
    } else {
      assert all == ts;
    }
  }

  lemma PointerStep(c: bool, v: bool, ts: Text, d: Declarator, r: Text)
    requires Plain(ts) && ReadDeclarator(ts) == Got(d, r)
    ensures ReadDeclarator([Star] + (QualText(c, v) + ts)) == Got(d.(mods := d.mods + [PointerTo(c, v)]), r)
  {
    var all := [Star] + (QualText(c, v) + ts);
    assert all[1..] == QualText(c, v) + ts;
    QualsRead(c, v, ts);
  }

  lemma Regrouped(a: Text, b: Text, c: Text, d: Text)
    ensures a + b + c + d == a + (b + (c + d))
  {
  }

  lemma PointerReads(s: Text, name: Option<string>, mods: seq<Mod>, c: bool, v: bool)
    requires Whole(s, name, mods) && Plain(s)
    ensures Whole([Star] + QualText(c, v) + s, name, mods + [PointerTo(c, v)])
  {
    forall r: Text | Ends(r)
      ensures ReadDeclarator([Star] + QualText(c, v) + s + r) == Got(Declarator(name, mods + [PointerTo(c, v)]), r)
    {
      Regrouped([Star], QualText(c, v), s, r);
      PointerStep(c, v, s + r, Declarator(name, mods), r);
    }
  }

  lemma ParenthesesRead(s: Text, name: Option<string>, mods: seq<Mod>)
    requires Whole(s, name, mods) && Starts(s, Star)
    ensures Direct([LPar] + s + [RPar], name, mods)
  {
    forall r: Text | Follows(r)
      ensures ReadDirect([LPar] + s + [RPar] + r) == ReadSuffixes(Declarator(name, mods), r)
      ensures !Starts([LPar] + s + [RPar] + r, Star)
    {
      var all := [LPar] + s + [RPar] + r;
      assert all[1..] == s + ([RPar] + r) && Ends([RPar] + r);
      assert ([RPar] + r)[1..] == r;
    }
  }

  lemma ApplyMore(mods: seq<Mod>, m: Mod, inner: Type)
    ensures Apply(mods + [m], inner) == Apply(mods, Modified(m, inner))
  {
  }

  /** The declarator built around a seed that reads as `mods` reads as those followed by the parts of t. */
  lemma {:induction false} DeclaratorReads(seed: Text, name: Option<string>, mods: seq<Mod>, t: Type,
      sz: Sizes) returns (all: seq<Mod>)
    requires Whole(seed, name, mods) && Plain(seed) && WellFormed(t)
    requires t.Array? || t.Function? ==> Direct(seed, name, mods)
    ensures Whole(DeclaratorText(seed, t, sz), name, all) && Apply(all, Specifier(t)) == Apply(mods, Normal(t, sz))
    decreases t, 0
  {
    match t
    case Named(_, _, _) =>
      all := mods;
    case Pointer(c, v, to) =>
      var s := [Star] + QualText(c, v) + seed;
      PointerReads(seed, name, mods, c, v);
      if to.Array? || to.Function? {
        ParenthesesRead(s, name, mods + [PointerTo(c, v)]);
        DirectWhole([LPar] + s + [RPar], name, mods + [PointerTo(c, v)]);
      }
      all := DeclaratorReads(PointerText(seed, t), name, mods + [PointerTo(c, v)], to, sz);
      ApplyMore(mods, PointerTo(c, v), Normal(to, sz));
    case Array(_, to) =>
      var n := sz.Printed(t);
      SizeReads(seed, name, mods, n);
      DirectWhole(seed + SizeText(n), name, mods + [ArrayOf(n)]);
      all := DeclaratorReads(seed + SizeText(n), name, mods + [ArrayOf(n)], to, sz);
      ApplyMore(mods, ArrayOf(n), Normal(to, sz));
    case Function(args, to) =>
      var list := ArgsText(args, sz)[1..];
      var m := FunctionOf(NormalArgs(args, sz));
      ArgsRead(args, sz);
      assert ArgsText(args, sz) == [LPar] + list;
      FunctionReads(seed, name, mods, list, NormalArgs(args, sz));
      DirectWhole(seed + ArgsText(args, sz), name, mods + [m]);
      all := DeclaratorReads(seed + ArgsText(args, sz), name, mods + [m], to, sz);
      ApplyMore(mods, m, Normal(to, sz));
  }

  lemma TypeStep(c: bool, v: bool, name: string, core: Text, d: Declarator, r: Text)
    requires ReadDeclarator(core) == Got(d, r)
    ensures ReadType(QualText(c, v) + ([Word(name)] + core)) == Got((d.name, Apply(d.mods, Named(name, c, v))), r)
  {
    var after := [Word(name)] + core;
    QualsRead(c, v, after);
    assert after[1..] == core;
  }

  /** A whole declaration reads as its name and type, whatever ends it. */
  lemma {:induction false} TypeReads(name: Option<string>, t: Type, sz: Sizes, r: Text)
    requires WellFormed(t) && Ends(r)
    ensures ReadType(TypeText(SeedText(name), t, sz) + r) == Got((name, Normal(t, sz)), r)
    decreases t, 1
  {
    var seed := SeedText(name);
    var s, core := Specifier(t), DeclaratorText(seed, t, sz);
    SeedDirect(name);
    DirectWhole(seed, name, []);
    var mods := DeclaratorReads(seed, name, [], t, sz);
    Regrouped(QualText(s.isConst, s.isVolatile), [Word(s.name)], core, r);
    TypeStep(s.isConst, s.isVolatile, s.name, core + r, Declarator(name, mods), r);
  }

  /** The text of a parameter other than plain `void` does not look like the end of a list, or `void)`. */
  lemma TypeStart(t: Type, sz: Sizes, r: Text)
    requires t != Named("void", false, false)
    ensures var all := TypeText([], t, sz) + r;
            all != [] && all[0] != RPar && all[0] != Star && !Starts2(all, Word("void"), RPar)
  {
    var s, core := Specifier(t), DeclaratorText([], t, sz);
    if !t.Named? { CoreStart([], t, sz); }
    if !s.isConst && !s.isVolatile { assert TypeText([], t, sz) == [Word(s.name)] + core; }
  }

  lemma {:induction false} CoreStart(seed: Text, t: Type, sz: Sizes)
    requires !Starts(seed, RPar) && (t.Named? ==> seed != [])
    ensures DeclaratorText(seed, t, sz) != [] && !Starts(DeclaratorText(seed, t, sz), RPar)
    decreases t
  {
    match t
    case Named(_, _, _) =>
    case Pointer(_, _, to) => CoreStart(PointerText(seed, t), to, sz);
    case Array(_, to) => CoreStart(seed + SizeText(sz.Printed(t)), to, sz);
    case Function(args, to) => CoreStart(seed + ArgsText(args, sz), to, sz);
  }

  lemma {:induction false} ArgsRead(args: Args, sz: Sizes)
    requires WellFormedArgs(args)
    ensures ListReads(ArgsText(args, sz)[1..], NormalArgs(args, sz))
    decreases args, 3
  {
    var list := ArgsText(args, sz)[1..];
    match args
    case Open => forall r: Text ensures ReadArgs(list + r) == Got(Open, r) { assert (list + r)[1..] == r; }
    case Closed => forall r: Text ensures ReadArgs(list + r) == Got(Closed, r) { assert (list + r)[2..] == r; }
    case Arg(_, _) =>
      var text, tail := TypeText([], args.arg, sz), Tail(args.rest, sz);
      assert ArgsText(args, sz) == [LPar] + (text + tail + [RPar]);
      assert list == text + tail + [RPar];
      forall r: Text ensures ReadArgs(list + r) == Got(NormalArgs(args, sz), r) && list != [] && list[0] != Star {
        ListRead(args, sz, r);
        Regrouped(text, tail, [RPar], r);
        TypeStart(args.arg, sz, tail + ([RPar] + r));
      }
      assert ReadArgs(list + []).Got?;
  }

  lemma {:induction false} ListRead(args: Args, sz: Sizes, r: Text)
    requires args.Arg? && WellFormedArgs(args)
    ensures ReadList(ListText(args, sz) + [RPar] + r) == Got(NormalArgs(args, sz), r)
    decreases args, 2
  {
    TypeReads(None, args.arg, sz, Tail(args.rest, sz) + ([RPar] + r));
    if args.rest.Arg? { ListRead(args.rest, sz, r); }
    ListStep(args, sz, r, Normal(args.arg, sz), NormalArgs(args.rest, sz));
  }

  lemma ListStep(args: Args, sz: Sizes, r: Text, t: Type, others: Args)
    requires args.Arg?
    requires var rest := Tail(args.rest, sz) + ([RPar] + r);
             ReadType(TypeText([], args.arg, sz) + rest) == Got((None, t), rest)
    requires if args.rest.Arg? then
             ReadList(ListText(args.rest, sz) + [RPar] + r) == Got(others, r) else others == args.rest
    ensures ReadList(ListText(args, sz) + [RPar] + r) == Got(Arg(t, others), r)
  {
    var text, tail := TypeText([], args.arg, sz), Tail(args.rest, sz);
    var rest := tail + ([RPar] + r);
    Regrouped(text, tail, [RPar], r);
    if args.rest.Arg? {
      var list := ListText(args.rest, sz);
      ListNotEllipsis(args.rest, sz);
      CommaRegrouped(list, r);
      ListGoesOn(text + rest, t, rest, list + [RPar] + r, others, r);
    } else {
      ListStops(text + rest, t, rest, args.rest, r);
    }
  }

  lemma CommaRegrouped(list: Text, r: Text)
    ensures ([Comma] + list) + ([RPar] + r) == [Comma] + (list + [RPar] + r)
  {
  }

  lemma ListStops(ts: Text, t: Type, rest: Text, end: Args, r: Text)
    requires ReadType(ts) == Got((None, t), rest) && !end.Arg?
    requires rest == (if end.Open? then [Comma, Ellipsis] else []) + ([RPar] + r)
    ensures ReadList(ts) == Got(Arg(t, end), r)
  {
  }

  lemma ListGoesOn(ts: Text, t: Type, rest: Text, more: Text, args: Args, r: Text)
    requires ReadType(ts) == Got((None, t), rest) && rest == [Comma] + more
    requires more != [] && more[0] != Ellipsis && ReadList(more) == Got(args, r)
    ensures ReadList(ts) == Got(Arg(t, args), r)
  {
  }

  lemma ListNotEllipsis(args: Args, sz: Sizes)
    requires args.Arg?
    ensures ListText(args, sz) != [] && ListText(args, sz)[0] != Ellipsis
  {
  }

  /** An array of things that take no space, but not of none. */
  predicate Countless(t: Type, sz: Sizes) {
    match t
    case Named(_, _, _) => false
    case Pointer(_, _, to) => Countless(to, sz)
    case Array(n, to) => (n.Some? && n.value != 0 && sz.Bytes(to) == 0) || Countless(to, sz)
    case Function(args, to) => CountlessArgs(args, sz) || Countless(to, sz)
  }

  predicate CountlessArgs(args: Args, sz: Sizes) {
    args.Arg? && (Countless(args.arg, sz) || CountlessArgs(args.rest, sz))
  }

  lemma {:induction false} NormalSame(t: Type, sz: Sizes)
    ensures Normal(t, sz) == t <==> !Countless(t, sz)
    decreases t
  {
    match t
    case Named(_, _, _) =>
    case Pointer(_, _, to) => NormalSame(to, sz);
    case Array(n, to) =>
      NormalSame(to, sz);
      if n.Some? && sz.Bytes(t) != 0 { CountPositive(n.value, sz.Bytes(to)); }
      if n.Some? && n.value != 0 && sz.Bytes(to) != 0 { MulGe(n.value, sz.Bytes(to)); }
    case Function(args, to) =>
      NormalArgsSame(args, sz);
      NormalSame(to, sz);
  }

  lemma {:induction false} NormalArgsSame(args: Args, sz: Sizes)
    ensures NormalArgs(args, sz) == args <==> !CountlessArgs(args, sz)
    decreases args
  {
    if args.Arg? {
      NormalSame(args.arg, sz);
      NormalArgsSame(args.rest, sz);
    }
  }

  /** An array of three things that take no space is printed as one of none. */
  lemma LostSize(sz: Sizes)
    requires sz.named("struct empty") == 0
    ensures var e := Named("struct empty", false, false);
            && WellFormed(Array(Some(3), e)) && Countless(Array(Some(3), e), sz)
            && ReadType(TypeText(SeedText(Some("x")), Array(Some(3), e), sz)) == Got((Some("x"), Array(Some(0), e)), [])
  {
    var t := Array(Some(3), Named("struct empty", false, false));
    TypeReads(Some("x"), t, sz, []);
    assert TypeText(SeedText(Some("x")), t, sz) + [] == TypeText(SeedText(Some("x")), t, sz);
  }

  /** The round trip: reading the declaration printed for a name and a type gives both back, exactly when no
      array in the type loses its size. */
  lemma RoundTrip(name: Option<string>, t: Type, sz: Sizes)
    requires WellFormed(t)
    ensures ReadType(TypeText(SeedText(name), t, sz)) == Got((name, t), []) <==> !Countless(t, sz)
  {
    var text := TypeText(SeedText(name), t, sz);
    TypeReads(name, t, sz, []);
    assert text + [] == text;
    NormalSame(t, sz);
  }
}
