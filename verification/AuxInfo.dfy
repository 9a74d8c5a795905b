/** `gen_type` and `gen_formal_list_for_type`: C declarations printed inside out, with the type specifier
    left in a global variable that nested calls overwrite. */
module AuxInfo {
  import opened Arithmetic
  import opened Options
  import opened Declarators

  /** The sizes in bytes that `int_size_in_bytes` gives. */
  datatype Sizes = Sizes(named: string -> nat, pointer: nat) {
    function Bytes(t: Type): nat {
      match t
      case Named(name, _, _) => named(name)
      case Pointer(_, _, _) => pointer
      case Array(None, _) => 0
      case Array(Some(n), to) => n * Bytes(to)
      case Function(_, _) => 0
    }

    /** The number of elements that is printed: none if the array takes no space. */
    function Printed(t: Type): Option<nat>
      requires t.Array?
    {
      if t.size.None? then None
      else if Bytes(t) == 0 then Some(0)
      else
        CountPositive(t.size.value, Bytes(t.to));
        Some(Bytes(t) / Bytes(t.to))
    }
  }

  lemma CountPositive(n: nat, d: nat)
    requires n * d != 0
    ensures d > 0 && n * d / d == n
  {
  }

  /** volatile and const, in the order in which they come to stand. */
  function QualText(c: bool, v: bool): Text {
    (if v then [Volatile] else []) + (if c then [Const] else [])
  }

  /** The named type at the end of a type. */
  function Specifier(t: Type): (s: Type)
    ensures s.Named?
    decreases t
  {
    if t.Named? then t else Specifier(t.to)
  }

  function PointerText(seed: Text, t: Type): Text
    requires t.Pointer?
  {
    var s := [Star] + QualText(t.isConst, t.isVolatile) + seed;
    if t.to.Array? || t.to.Function? then [LPar] + s + [RPar] else s
  }

  function SizeText(n: Option<nat>): Text {
    if n.None? then [LBracket, RBracket] else [LBracket, Num(n.value), RBracket]
  }

  /** The declarator that `gen_type` builds around a seed. */
  function DeclaratorText(seed: Text, t: Type, sz: Sizes): Text
    decreases t, 0
  {
    match t
    case Named(_, _, _) => seed
    case Pointer(_, _, to) => DeclaratorText(PointerText(seed, t), to, sz)
    case Array(_, to) => DeclaratorText(seed + SizeText(sz.Printed(t)), to, sz)
    case Function(args, to) => DeclaratorText(seed + ArgsText(args, sz), to, sz)
  }

  /** A whole declaration: qualifiers, the type specifier, the declarator. */
  function TypeText(seed: Text, t: Type, sz: Sizes): Text
    decreases t, 1
  {
    var s := Specifier(t);
    QualText(s.isConst, s.isVolatile) + [Word(s.name)] + DeclaratorText(seed, t, sz)
  }

  /** What a declaration is built around: a name, if there is one. */
  function SeedText(name: Option<string>): Text {
    if name.Some? then [Word(name.value)] else []
  }

  /** A parameter list in parentheses. */
  function ArgsText(args: Args, sz: Sizes): Text
    decreases args, 1
  {
    match args
    case Open => [LPar, RPar]
    case Closed => [LPar, Word("void"), RPar]
    case Arg(_, _) => [LPar] + ListText(args, sz) + [RPar]
  }

  function ListText(args: Args, sz: Sizes): Text
    requires args.Arg?
    decreases args, 0
  {
    TypeText([], args.arg, sz) + Tail(args.rest, sz)
  }

  /** What follows a parameter in the list. */
  function Tail(rest: Args, sz: Sizes): Text
    decreases rest, 1
  {
    match rest
    case Open => [Comma, Ellipsis]
    case Closed => []
    case Arg(_, _) => [Comma] + ListText(rest, sz)
  }

  /** No qualifier comes first. */
  predicate Plain(ts: Text) {
    !Starts(ts, Const) && !Starts(ts, Volatile)
  }

  lemma {:induction false} DeclaratorPlain(seed: Text, t: Type, sz: Sizes)
    requires Plain(seed)
    ensures Plain(DeclaratorText(seed, t, sz))
    decreases t
  {
    match t
    case Named(_, _, _) =>
    case Pointer(_, _, to) => DeclaratorPlain(PointerText(seed, t), to, sz);
    case Array(_, to) => DeclaratorPlain(seed + SizeText(sz.Printed(t)), to, sz);
    case Function(args, to) => DeclaratorPlain(seed + ArgsText(args, sz), to, sz);
  }

  function LeadingQuals(ts: Text): (k: nat)
    ensures k <= |ts|
  {
    if Plain(ts) then 0 else 1 + LeadingQuals(ts[1..])
  }

  /** `affix_data_type` */
  function Affixed(dataType: string, ts: Text): Text {
    ts[..LeadingQuals(ts)] + [Word(dataType)] + ts[LeadingQuals(ts)..]
  }

  lemma AffixedAfterQuals(name: string, c: bool, v: bool, ts: Text)
    requires Plain(ts)
    ensures Affixed(name, QualText(c, v) + ts) == QualText(c, v) + [Word(name)] + ts
  {
    var all := QualText(c, v) + ts;
    if c && v {
      assert all[1..] == [Const] + ts && all[1..][1..] == ts;
    } else if c || v {
      assert all[1..] == ts;
    } else {
      assert all == ts;
    }
    assert LeadingQuals(ts) == 0 && LeadingQuals([Const] + ts) <= 1 + LeadingQuals(([Const] + ts)[1..]);
    assert LeadingQuals(all) == |QualText(c, v)|;
  }

  class Printer {
    const sz: Sizes
    /** The type specifier of the last type that was looked at. */
    var dataType: string

    constructor (sz: Sizes) {
      this.sz := sz;
      dataType := "";
    }

    /** `gen_type` */
    method GenType(seed: Text, t: Type) returns (r: Text)
      modifies this
      ensures var s := Specifier(t);
              r == QualText(s.isConst, s.isVolatile) + DeclaratorText(seed, t, sz) && dataType == s.name
      decreases t, 0
    {
      r := seed;
      match t
      case Pointer(c, v, to) =>
        if c { r := [Const] + r; }
        if v { r := [Volatile] + r; }
        r := [Star] + r;
        if to.Array? || to.Function? {
          r := [LPar] + r + [RPar];
        }
        assert r == PointerText(seed, t);
        r := GenType(r, to);
      case Array(_, to) =>
        r := GenType(r + SizeText(sz.Printed(t)), to);
      case Function(args, to) =>
        var formals := GenFormalListForType(args);
        r := GenType(r + formals, to);
      case Named(name, c, v) =>
        dataType := name;
        if c { r := [Const] + r; }
        if v { r := [Volatile] + r; }
        assert r == QualText(c, v) + seed;
    }

    /** `gen_formal_list_for_type` */
    method GenFormalListForType(args: Args) returns (r: Text)
      modifies this
      ensures r == ArgsText(args, sz)
      decreases args, 1
    {
      var formalList: Text := [];
      var formalType := args;
      while formalType.Arg?
        invariant formalList == [] ==> formalType == args
        invariant formalList != [] ==> args.Arg? && ListText(args, sz) == formalList + Tail(formalType, sz)
        invariant formalType == args || formalType < args
        decreases formalType
      {
        ghost var before := formalList;
        formalList := AppendParameter(formalList, formalType.arg);
        ParameterStep(before, formalType, sz);
        formalType := formalType.rest;
      }
      if formalList == [] {
        if args == Closed {
          formalList := [Word("void")];
        }
      } else if formalType == Open {
        formalList := formalList + [Comma, Ellipsis];
      }
      r := [LPar] + formalList + [RPar];
    }

    /** Add a parameter to the list so far. */
    method AppendParameter(formalList: Text, t: Type) returns (r: Text)
      modifies this
      ensures r == Listed(formalList, t, sz) && r != []
      decreases t, 3
    {
      r := formalList;
      if r != [] {
        r := r + [Comma];
      }
      var text := GenParameter(t);
      r := r + text;
    }

    /** A parameter's type, with the type specifier affixed. */
    method GenParameter(t: Type) returns (r: Text)
      modifies this
      ensures r == TypeText([], t, sz) && r != []
      decreases t, 2
    {
      var thisType := GenType([], t);
      var s := Specifier(t);
      DeclaratorPlain([], t, sz);
      AffixedAfterQuals(s.name, s.isConst, s.isVolatile, DeclaratorText([], t, sz));
      if thisType != [] {
        r := AffixDataType(thisType);
      } else {
        r := [Word(dataType)];
      }
    }

    /** `gen_decl` up to the storage class, for something that is declared without qualifiers of its own. */
    method GenDecl(name: Option<string>, t: Type) returns (r: Text)
      modifies this
      ensures r == TypeText(SeedText(name), t, sz)
    {
      dataType := "";
      r := GenType(SeedText(name), t);
      var s := Specifier(t);
      DeclaratorPlain(SeedText(name), t, sz);
      AffixedAfterQuals(s.name, s.isConst, s.isVolatile, DeclaratorText(SeedText(name), t, sz));
      r := AffixDataType(r);
    }

    /** `affix_data_type` */
    method AffixDataType(param: Text) returns (r: Text)
      ensures r == Affixed(dataType, param)
    {
      var p := 0;
      while !Plain(param[p..])
        invariant p <= |param| && LeadingQuals(param) == p + LeadingQuals(param[p..])
        decreases |param| - p
      {
        assert param[p..][1..] == param[p + 1..];
        p := p + 1;
      }
      if p == 0 {
        return [Word(dataType)] + param;
      }
      r := param[..p] + [Word(dataType)] + param[p..];
    }
  }

  function Listed(done: Text, t: Type, sz: Sizes): Text {
    done + (if done != [] then [Comma] else []) + TypeText([], t, sz)
  }

  lemma ParameterStep(done: Text, args: Args, sz: Sizes)
    requires args.Arg?
    ensures (if done == [] then
            ListText(args, sz) else done + Tail(args, sz)) == Listed(done, args.arg, sz) + Tail(args.rest, sz)
  {
  }
}
