/** C declarators as sequences of tokens, and the grammar that reads them (sections 6.7.5 and 6.7.6 of
    ISO/IEC 9899:1999). White space and comments are not tokens. */
module Declarators {
  import opened Options

  datatype Token =
    | Star | LPar | RPar | LBracket | RBracket | Comma | Ellipsis | Const | Volatile
    | Word(name: string) | Num(n: nat)

  type Text = seq<Token>

  /** Types: a named one (of any spelling), pointers, arrays (None: of unknown size) and functions. Only
      the first two have qualifiers of their own. */
  datatype Type =
    | Named(name: string, isConst: bool, isVolatile: bool)
    | Pointer(isConst: bool, isVolatile: bool, to: Type)
    | Array(size: Option<nat>, to: Type)
    | Function(args: Args, to: Type)

  /** TYPE_ARG_TYPES: a chain of types, ended by `void` or not ended. Without any type, that means `(void)`
      and no prototype; after some, a fixed list and one that goes on with an ellipsis. */
  datatype Args = Open | Closed | Arg(arg: Type, rest: Args)

  /** What one part of a declarator says, the part nearest to the name first. */
  datatype Mod = PointerTo(isConst: bool, isVolatile: bool) | ArrayOf(size: Option<nat>) | FunctionOf(args: Args)

  function Modified(m: Mod, inner: Type): Type {
    match m
    case PointerTo(c, v) => Pointer(c, v, inner)
    case ArrayOf(n) => Array(n, inner)
    case FunctionOf(args) => Function(args, inner)
  }

  /** The type that a list of parts makes of the type specifier. */
  function Apply(mods: seq<Mod>, inner: Type): Type {
    if mods == [] then inner else Apply(mods[..|mods| - 1], Modified(mods[|mods| - 1], inner))
  }

  datatype Read<T> = Fail | Got(value: T, rest: Text)

  datatype Declarator = Declarator(name: Option<string>, mods: seq<Mod>)

  datatype Qualified = Qualified(isConst: bool, isVolatile: bool, rest: Text)

  predicate Starts(ts: Text, t: Token) {
    ts != [] && ts[0] == t
  }

  predicate Starts2(ts: Text, t: Token, u: Token) {
    |ts| >= 2 && ts[0] == t && ts[1] == u
  }

  /** Leading qualifiers. */
  function Quals(ts: Text): (q: Qualified)
    ensures |q.rest| <= |ts|
  {
    if Starts(ts, Const) then Quals(ts[1..]).(isConst := true)
    else if Starts(ts, Volatile) then Quals(ts[1..]).(isVolatile := true)
    else Qualified(false, false, ts)
  }

  /** A declaration or type name: qualifiers, the type, a declarator. */
  function ReadType(ts: Text): (r: Read<(Option<string>, Type)>)
    ensures r.Got? ==> |r.rest| < |ts|
    decreases |ts|, 3
  {
    var q := Quals(ts);
    if q.rest == [] || !q.rest[0].Word? then Fail
    else
      match ReadDeclarator(q.rest[1..])
      case Fail => Fail
      case Got(d, rest) => Got((d.name, Apply(d.mods, Named(q.rest[0].name, q.isConst, q.isVolatile))), rest)
  }

  /** A declarator: a pointer applies to what the rest of the declarator, which binds tighter, declares. */
  function ReadDeclarator(ts: Text): (r: Read<Declarator>)
    ensures r.Got? ==> |r.rest| <= |ts|
    decreases |ts|, 2
  {
    if Starts(ts, Star) then
      var q := Quals(ts[1..]);
      match ReadDeclarator(q.rest)
      case Fail => Fail
      case Got(d, rest) => Got(d.(mods := d.mods + [PointerTo(q.isConst, q.isVolatile)]), rest)
    else ReadDirect(ts)
  }

  /** A direct declarator: a declarator in parentheses, a name or nothing, and what follows it. */
  function ReadDirect(ts: Text): (r: Read<Declarator>)
    ensures r.Got? ==> |r.rest| <= |ts|
    decreases |ts|, 1
  {
    if Starts2(ts, LPar, Star) then
      match ReadDeclarator(ts[1..])
      case Fail => Fail
      case Got(d, rest) => if Starts(rest, RPar) then ReadSuffixes(d, rest[1..]) else Fail
    else if ts != [] && ts[0].Word? then ReadSuffixes(Declarator(Some(ts[0].name), []), ts[1..])
    else ReadSuffixes(Declarator(None, []), ts)
  }

  /** Array sizes and parameter lists. */
  function ReadSuffixes(d: Declarator, ts: Text): (r: Read<Declarator>)
    ensures r.Got? ==> |r.rest| <= |ts|
    decreases |ts|, 0
  {
    if Starts2(ts, LBracket, RBracket) then ReadSuffixes(d.(mods := d.mods + [ArrayOf(None)]), ts[2..])
    else if |ts| >= 3 && ts[0] == LBracket && ts[1].Num? && ts[2] == RBracket then
      ReadSuffixes(d.(mods := d.mods + [ArrayOf(Some(ts[1].n))]), ts[3..])
    else if Starts(ts, LPar) && !Starts2(ts, LPar, Star) then
      match ReadArgs(ts[1..])
      case Fail => Fail
      case Got(args, rest) => ReadSuffixes(d.(mods := d.mods + [FunctionOf(args)]), rest)
    else Got(d, ts)
  }

  /** A parameter list, after its opening parenthesis. */
  function ReadArgs(ts: Text): (r: Read<Args>)
    ensures r.Got? ==> |r.rest| < |ts|
    decreases |ts|, 5
  {
    if Starts(ts, RPar) then Got(Open, ts[1..])
    else if Starts2(ts, Word("void"), RPar) then Got(Closed, ts[2..])
    else ReadList(ts)
  }

  function ReadList(ts: Text): (r: Read<Args>)
    ensures r.Got? ==> |r.rest| < |ts|
    decreases |ts|, 4
  {
    match ReadType(ts)
    case Fail => Fail
    case Got((_, t), rest) =>
      if Starts(rest, RPar) then Got(Arg(t, Closed), rest[1..])
      else if Starts2(rest, Comma, Ellipsis) && |rest| >= 3 && rest[2] == RPar then Got(Arg(t, Open), rest[3..])
      else if Starts(rest, Comma) then
        match ReadList(rest[1..]) {
          case Fail => Fail
          case Got(args, last) => Got(Arg(t, args), last)
        }
      else Fail
  }
}
