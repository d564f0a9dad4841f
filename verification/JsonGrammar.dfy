/**
  The LL(1) grammar of the JSON parser: its symbols, rule table and transition
  table, and derivation trees, which know nothing of the transition table.
 */
module JsonGrammar {
  import opened JsonValue

  datatype Sym =
    | BeginObject | EndObject | BeginArray | EndArray | NameSep | ValueSep | Str | Num | Ident
    | Document | Value | Object | ObjBody | ObjElems | ObjTail | ObjElem
    | Array | ArrBody | ArrElems | ArrTail

  predicate Terminal(s: Sym) {
    s.BeginObject? || s.EndObject? || s.BeginArray? || s.EndArray? || s.NameSep? || s.ValueSep?
    || s.Str? || s.Num? || s.Ident?
  }

  predicate Scalar(s: Sym) {
    s.Str? || s.Num? || s.Ident?
  }

  type Rule = r: int | 1 <= r <= 20 witness 1

  /** Left-hand sides. */
  function Lhs(r: Rule): (s: Sym)
    ensures !Terminal(s)
  {
    if r <= 2 then Document
    else if r <= 7 then Value
    else if r == 8 then Object
    else if r <= 10 then ObjBody
    else if r == 11 then ObjElems
    else if r <= 13 then ObjTail
    else if r == 14 then ObjElem
    else if r == 15 then Array
    else if r <= 17 then ArrBody
    else if r == 18 then ArrElems
    else ArrTail
  }

  /** Right-hand sides. */
  function Rhs(r: Rule): (s: seq<Sym>)
    ensures 1 <= |s| <= 3
  {
    match r
    case 1 => [Object]
    case 2 => [Array]
    case 3 => [Object]
    case 4 => [Array]
    case 5 => [Str]
    case 6 => [Num]
    case 7 => [Ident]
    case 8 => [BeginObject, ObjBody]
    case 9 => [EndObject]
    case 10 => [ObjElems]
    case 11 => [ObjElem, ObjTail]
    case 12 => [ValueSep, ObjElems]
    case 13 => [EndObject]
    case 14 => [Str, NameSep, Value]
    case 15 => [BeginArray, ArrBody]
    case 16 => [EndArray]
    case 17 => [ArrElems]
    case 18 => [Value, ArrTail]
    case 19 => [ValueSep, ArrElems]
    case 20 => [EndArray]
  }

  /** The transition table; 0 where the parser reports an error. */
  function Table(top: Sym, t: Sym): (r: int)
    ensures 0 <= r <= 20
    ensures r != 0 ==> Lhs(r) == top && Rank(Rhs(r)[0]) < Rank(top)
  {
    match top
    case Document => if t.BeginObject? then 1 else if t.BeginArray? then 2 else 0
    case Value =>
      if t.BeginObject? then 3 else if t.BeginArray? then 4
      else if t.Str? then 5 else if t.Num? then 6 else if t.Ident? then 7 else 0
    case Object => if t.BeginObject? then 8 else 0
    case ObjBody => if t.EndObject? then 9 else if t.Str? then 10 else 0
    case ObjElems => if t.Str? then 11 else 0
    case ObjTail => if t.EndObject? then 13 else if t.ValueSep? then 12 else 0
    case ObjElem => if t.Str? then 14 else 0
    case Array => if t.BeginArray? then 15 else 0
    case ArrBody => if t.BeginObject? || t.BeginArray? || Scalar(t) then 17 else if t.EndArray? then 16 else 0
    case ArrElems => if t.BeginObject? || t.BeginArray? || Scalar(t) then 18 else 0
    case ArrTail => if t.EndArray? then 20 else if t.ValueSep? then 19 else 0
    case _ => 0
  }

  /** Leftmost symbols strictly go down: the expansion loop ends. */
  function Rank(s: Sym): nat {
    match s
    case ArrBody => 4
    case ObjBody => 3
    case ArrElems => 3
    case Document => 2
    case Value => 2
    case ObjElems => 2
    case Object => 1
    case Array => 1
    case ObjElem => 1
    case ObjTail => 1
    case ArrTail => 1
    case _ => 0
  }

  datatype Token = Token(sym: Sym, val: Json)

  /** Every token is a terminal, and a string token carries a string. */
  predicate TokenOk(t: Token) {
    Terminal(t.sym) && (t.sym.Str? ==> t.val.JString?)
  }

  /** A derivation: a rule applied to a symbol, with a derivation of each symbol of its right-hand side. */
  datatype Tree = Leaf(tok: Token) | Node(rule: Rule, kids: seq<Tree>)

  function Root(t: Tree): Sym {
    match t
    case Leaf(tok) => tok.sym
    case Node(r, _) => Lhs(r)
  }

  function Roots(ts: seq<Tree>): (s: seq<Sym>)
    ensures |s| == |ts|
  {
    if ts == [] then [] else [Root(ts[0])] + Roots(ts[1..])
  }

  predicate Derivation(t: Tree) {
    match t
    case Leaf(tok) => TokenOk(tok)
    case Node(r, kids) => Roots(kids) == Rhs(r) && Derivations(kids)
  }

  predicate Derivations(ts: seq<Tree>) {
    ts == [] || (Derivation(ts[0]) && Derivations(ts[1..]))
  }

  function Yield(t: Tree): seq<Token> {
    match t
    case Leaf(tok) => [tok]
    case Node(_, kids) => Yields(kids)
  }

  function Yields(ts: seq<Tree>): seq<Token> {
    if ts == [] then [] else Yield(ts[0]) + Yields(ts[1..])
  }

  /** A token can begin what a symbol derives. */
  predicate Starts(s: Sym, t: Sym) {
    s == t || Table(s, t) != 0
  }

  /** The LL(1) condition: what can begin a right-hand side selects that rule. */
  lemma TableSelects(r: Rule, t: Sym)
    requires Terminal(t) && Starts(Rhs(r)[0], t)
    ensures Table(Lhs(r), t) == r
  {
    match r
    case 1 => case 2 => case 3 => case 4 => case 5 => case 6 => case 7 => case 8 => case 9 => case 10 =>
    case 11 => case 12 => case 13 => case 14 => case 15 => case 16 => case 17 => case 18 => case 19 => case 20 =>
  }

  /** A derivation has a first token, and its symbol can start with it. */
  lemma {:induction false} YieldStarts(t: Tree)
    requires Derivation(t)
    ensures Yield(t) != [] && TokenOk(Yield(t)[0]) && Starts(Root(t), Yield(t)[0].sym)
    decreases t
  {
    match t
    case Leaf(_) =>
    case Node(r, kids) =>
      assert |kids| >= 1 && Roots(kids)[0] == Root(kids[0]);
      YieldStarts(kids[0]);
      TableSelects(r, Yield(kids[0])[0].sym);
  }
}
