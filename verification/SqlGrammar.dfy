/**
 The fragment of SQL expressions that the object store writes, as PostgreSQL reads it. The parser follows the operator
 precedence table of section 4.1.6 of the PostgreSQL documentation and keeps the parentheses of the text in the tree,
 so that a tree determines its text and 'Parse' and 'Flat' are inverse of each other.
 */
module SqlGrammar {
  import opened Wrappers

  datatype Operator =
    | Or | And
    | Eq | NotEq | Less | LessEq | Greater | GreaterEq
    | Like
    | JsonGet | JsonText | HasKey | ContainsAll | Overlaps
    | Add | Sub | Mul | Div | Mod

  const NOT_LEVEL := 2
  const IS_LEVEL := 3
  const IN_LEVEL := 5
  const TOP_LEVEL := 8
  const ATOM_LEVEL := 9

  /** Precedence in PostgreSQL. 'not' is level 2 and the null tests are level 3, below the comparisons. */
  function Level(op: Operator): (level: nat)
    ensures level <= TOP_LEVEL && level != NOT_LEVEL && level != IS_LEVEL
  {
    match op
    case Or => 0
    case And => 1
    case Eq | NotEq | Less | LessEq | Greater | GreaterEq => 4
    case Like => IN_LEVEL
    case JsonGet | JsonText | HasKey | ContainsAll | Overlaps => 6
    case Add | Sub => 7
    case Mul | Div | Mod => TOP_LEVEL
  }

  /** Comparisons and pattern matching don't associate, the other operators associate to the left. */
  predicate Associates(op: Operator) {
    Level(op) != 4 && op != Like
  }

  datatype Token =
    | Open | Close | OpenBracket | CloseBracket | Comma
    | Symbol(op: Operator)
    | Not | Is | In | Null | As | Array | Cast | NullIf
    | Name(name: string)
    | Number(number: int)
    | Boolean(value: bool)
    | Text(text: string)      // a string constant, with its quotes and escapes
    | Quoted(plain: string)   // a constant of plain characters between quotes: a field name or a date
    | Parameter(index: nat)

  /** Expressions, with the parentheses of the text. 'Missing' is an operand for which no text was written. */
  datatype Expr =
    | Missing
    | Atom(token: Token)
    | Paren(inner: Expr)
    | ArrayOf(item: Expr)
    | CastAs(value: Expr, target: string)
    | NullIfEqual(column: string, text: string)
    | Binary(op: Operator, left: Expr, right: Expr)
    | Negation(operand: Expr)
    | IsTest(subject: Expr, negated: bool, against: Expr)
    | InList(key: Expr, items: seq<Expr>)

  predicate IsAtom(token: Token) {
    token.Null? || token.Name? || token.Number? || token.Boolean? || token.Text? || token.Quoted? || token.Parameter?
  }

  /** The text of an expression. */
  function Flat(e: Expr): (ts: seq<Token>) {
    match e
    case Missing => []
    case Atom(token) => [token]
    case Paren(inner) => [Open] + Flat(inner) + [Close]
    case ArrayOf(item) => [Array, OpenBracket] + Flat(item) + [CloseBracket]
    case CastAs(value, target) => [Cast, Open] + Flat(value) + [As, Name(target), Close]
    case NullIfEqual(column, text) => [NullIf, Open, Name(column), Comma, Quoted(text), Close]
    case Binary(op, left, right) => Flat(left) + [Symbol(op)] + Flat(right)
    case Negation(operand) => [Not] + Flat(operand)
    case IsTest(subject, negated, against) =>
      Flat(subject) + (if negated then [Is, Not] else [Is]) + Flat(against)
    case InList(key, items) => Flat(key) + [In, Open] + FlatList(items) + [Close]
  }

  function FlatList(items: seq<Expr>): (ts: seq<Token>) {
    if items == [] then []
    else if |items| == 1 then Flat(items[0])
    else Flat(items[0]) + [Comma] + FlatList(items[1..])
  }

  /** The loosest operator that is visible from the left of the expression. */
  function LeftEdge(e: Expr): (level: nat)
    ensures level <= ATOM_LEVEL
  {
    match e
    case Binary(op, left, _) => Min(Level(op), LeftEdge(left))
    case Negation(_) => NOT_LEVEL
    case IsTest(subject, _, _) => Min(IS_LEVEL, LeftEdge(subject))
    case InList(key, _) => Min(IN_LEVEL, LeftEdge(key))
    case _ => ATOM_LEVEL
  }

  /** The tightest operator that can follow the expression and take all of it as its left operand. */
  function RightEdge(e: Expr): (level: int)
    ensures -1 <= level <= TOP_LEVEL
  {
    match e
    case Binary(op, _, _) => if Associates(op) then Level(op) else Level(op) - 1
    case Negation(_) => NOT_LEVEL - 1
    case _ => TOP_LEVEL
  }

  function Min(a: nat, b: nat): nat {
    if a < b then a else b
  }

  /** Every operand that is written without parentheses binds tightly enough to do without them. */
  predicate WellFormed(e: Expr) {
    match e
    case Missing => false
    case Atom(token) => IsAtom(token)
    case Paren(inner) => WellFormed(inner)
    case ArrayOf(item) => WellFormed(item)
    case CastAs(value, _) => WellFormed(value)
    case NullIfEqual(_, _) => true
    case Binary(op, left, right) =>
      && WellFormed(left)
      && WellFormed(right)
      && Level(op) <= RightEdge(left)
      && Level(op) < LeftEdge(right)
    case Negation(operand) => WellFormed(operand) && NOT_LEVEL <= LeftEdge(operand)
    case IsTest(subject, _, against) =>
      WellFormed(subject) && IS_LEVEL <= RightEdge(subject) && against == Atom(Null)
    case InList(key, items) =>
      && WellFormed(key)
      && IN_LEVEL <= RightEdge(key)
      && items != []
      && forall i :: 0 <= i < |items| ==> WellFormed(items[i])
  }

  /* ---------- The parser ---------- */

  datatype Parsed = Parsed(expr: Expr, rest: seq<Token>)
  datatype ParsedList = ParsedList(items: seq<Expr>, rest: seq<Token>)

  predicate StartsWith(ts: seq<Token>, token: Token) {
    |ts| > 0 && ts[0] == token
  }

  function ParsePrimary(ts: seq<Token>): (r: Option<Parsed>)
    ensures r.Some? ==> |r.value.rest| < |ts|
    decreases |ts|, 1
  {
    if ts == [] then None
    else if IsAtom(ts[0]) then Some(Parsed(Atom(ts[0]), ts[1..]))
    else if ts[0] == Open then ParseParen(ts)
    else if ts[0] == Array then ParseArray(ts)
    else if ts[0] == Cast then ParseCast(ts)
    else if ts[0] == NullIf then ParseNullIf(ts)
    else None
  }

  function ParseParen(ts: seq<Token>): (r: Option<Parsed>)
    requires StartsWith(ts, Open)
    ensures r.Some? ==> |r.value.rest| < |ts|
    decreases |ts|, 0
  {
    var inner := ParseExpr(0, ts[1..]);
    if inner.None? || !StartsWith(inner.value.rest, Close) then None
    else Some(Parsed(Paren(inner.value.expr), inner.value.rest[1..]))
  }

  function ParseArray(ts: seq<Token>): (r: Option<Parsed>)
    requires StartsWith(ts, Array)
    ensures r.Some? ==> |r.value.rest| < |ts|
    decreases |ts|, 0
  {
    if !StartsWith(ts[1..], OpenBracket) then None
    else
      var item := ParseExpr(0, ts[2..]);
      if item.None? || !StartsWith(item.value.rest, CloseBracket) then None
      else Some(Parsed(ArrayOf(item.value.expr), item.value.rest[1..]))
  }

  function ParseCast(ts: seq<Token>): (r: Option<Parsed>)
    requires StartsWith(ts, Cast)
    ensures r.Some? ==> |r.value.rest| < |ts|
    decreases |ts|, 0
  {
    if !StartsWith(ts[1..], Open) then None
    else
      var value := ParseExpr(0, ts[2..]);
      if value.None? then None
      else
        var rest := value.value.rest;
        if |rest| < 3 || rest[0] != As || !rest[1].Name? || rest[2] != Close then None
        else Some(Parsed(CastAs(value.value.expr, rest[1].name), rest[3..]))
  }

  function ParseNullIf(ts: seq<Token>): (r: Option<Parsed>)
    requires StartsWith(ts, NullIf)
    ensures r.Some? ==> |r.value.rest| < |ts|
  {
    if |ts| < 6 || ts[1] != Open || !ts[2].Name? || ts[3] != Comma || !ts[4].Quoted? || ts[5] != Close then None
    else Some(Parsed(NullIfEqual(ts[2].name, ts[4].plain), ts[6..]))
  }

  /** Parses an expression whose operators are at least as tight as the given level. */
  function ParseExpr(level: nat, ts: seq<Token>): (r: Option<Parsed>)
    ensures r.Some? ==> |r.value.rest| < |ts|
    decreases |ts|, 2
  {
    if StartsWith(ts, Not) && level <= NOT_LEVEL then
      var operand := ParseExpr(NOT_LEVEL, ts[1..]);
      if operand.None? then None else ParseMore(Negation(operand.value.expr), level, operand.value.rest)
    else
      var primary := ParsePrimary(ts);
      if primary.None? then None else ParseMore(primary.value.expr, level, primary.value.rest)
  }

  /** Extends the expression parsed so far with the operators that follow it. */
  function ParseMore(left: Expr, level: nat, ts: seq<Token>): (r: Option<Parsed>)
    ensures r.Some? ==> |r.value.rest| <= |ts|
    decreases |ts|, 1
  {
    if level <= Next(ts) <= RightEdge(left) then
      if ts[0].Symbol? then ParseBinary(left, level, ts)
      else if ts[0] == Is then ParseIsTest(left, level, ts)
      else ParseInList(left, level, ts)
    else Some(Parsed(left, ts))
  }

  /** The level of the operator at the start of the text, when there is one. */
  function Next(ts: seq<Token>): (level: int)
    ensures level >= 0 ==> ts != [] && (ts[0].Symbol? || ts[0] == Is || ts[0] == In)
  {
    if ts == [] then -1
    else match ts[0]
      case Symbol(op) => Level(op)
      case Is => IS_LEVEL
      case In => IN_LEVEL
      case _ => -1
  }

  function ParseBinary(left: Expr, level: nat, ts: seq<Token>): (r: Option<Parsed>)
    requires ts != [] && ts[0].Symbol?
    ensures r.Some? ==> |r.value.rest| <= |ts|
    decreases |ts|, 0
  {
    var right := ParseExpr(Level(ts[0].op) + 1, ts[1..]);
    if right.None? then None
    else ParseMore(Binary(ts[0].op, left, right.value.expr), level, right.value.rest)
  }

  function ParseIsTest(left: Expr, level: nat, ts: seq<Token>): (r: Option<Parsed>)
    requires StartsWith(ts, Is)
    ensures r.Some? ==> |r.value.rest| <= |ts|
    decreases |ts|, 0
  {
    if StartsWith(ts[1..], Null) then
      ParseMore(IsTest(left, false, Atom(Null)), level, ts[2..])
    else if StartsWith(ts[1..], Not) && StartsWith(ts[2..], Null) then
      ParseMore(IsTest(left, true, Atom(Null)), level, ts[3..])
    else None
  }

  function ParseInList(left: Expr, level: nat, ts: seq<Token>): (r: Option<Parsed>)
    requires StartsWith(ts, In)
    ensures r.Some? ==> |r.value.rest| <= |ts|
    decreases |ts|, 0
  {
    if !StartsWith(ts[1..], Open) then None
    else
      var items := ParseList(ts[2..]);
      if items.None? || !StartsWith(items.value.rest, Close) then None
      else ParseMore(InList(left, items.value.items), level, items.value.rest[1..])
  }

  function ParseList(ts: seq<Token>): (r: Option<ParsedList>)
    ensures r.Some? ==> |r.value.rest| < |ts|
    decreases |ts|, 3
  {
    var first := ParseExpr(0, ts);
    if first.None? then None
    else if !StartsWith(first.value.rest, Comma) then Some(ParsedList([first.value.expr], first.value.rest))
    else
      var others := ParseList(first.value.rest[1..]);
      if others.None? then None
      else Some(ParsedList([first.value.expr] + others.value.items, others.value.rest))
  }

  function Parse(ts: seq<Token>): (e: Option<Expr>) {
    var r := ParseExpr(0, ts);
    if r.Some? && r.value.rest == [] then Some(r.value.expr) else None
  }

  /** Takes the opening of a text and shows what is left. */
  lemma Opening<T>(head: seq<T>, middle: seq<T>, tail: seq<T>, rest: seq<T>)
    ensures var ts := head + middle + tail + rest;
      && ts == head + (middle + (tail + rest))
      && ts[|head|..] == middle + (tail + rest)
      && (tail + rest)[|tail|..] == rest
      && (forall i :: 0 <= i < |head| ==> ts[i] == head[i])
      && (forall i :: 0 <= i < |tail| ==> (tail + rest)[i] == tail[i])
  {
  }

  lemma Regroup<T>(a: seq<T>, b: seq<T>, c: seq<T>, d: seq<T>, e: seq<T>)
    ensures (a + b + c) + d + e == a + b + (c + d + e)
  {
  }

  lemma BinaryText(op: Operator, left: Expr, right: Expr, rest: seq<Token>)
    ensures Flat(Binary(op, left, right)) + rest == Flat(left) + ([Symbol(op)] + (Flat(right) + rest))
    ensures ([Symbol(op)] + (Flat(right) + rest))[1..] == Flat(right) + rest
  {
    Opening(Flat(left), [Symbol(op)], Flat(right), rest);
  }

  lemma IsTestText(subject: Expr, negated: bool, rest: seq<Token>)
    ensures var test := if negated then [Is, Not, Null] else [Is, Null];
      && Flat(IsTest(subject, negated, Atom(Null))) + rest == Flat(subject) + (test + rest)
      && (test + rest)[|test|..] == rest
  {
  }

  lemma InListText(key: Expr, items: seq<Expr>, rest: seq<Token>)
    ensures var list := [In, Open] + (FlatList(items) + ([Close] + rest));
      && Flat(InList(key, items)) + rest == Flat(key) + list
      && list[2..] == FlatList(items) + ([Close] + rest)
      && ([Close] + rest)[1..] == rest
  {
    Opening([In, Open], FlatList(items), [Close], rest);
    Opening(Flat(key), [In, Open], FlatList(items) + [Close], rest);
  }

  /* ---------- What is parsed has the parsed text and needs no more parentheses ---------- */

  ghost predicate Reads(ts: seq<Token>, level: nat, r: Parsed) {
    && ts == Flat(r.expr) + r.rest
    && WellFormed(r.expr)
    && level <= LeftEdge(r.expr)
  }

  lemma {:induction false} PrimarySound(ts: seq<Token>)
    requires ParsePrimary(ts).Some?
    ensures Reads(ts, ATOM_LEVEL, ParsePrimary(ts).value)
    ensures RightEdge(ParsePrimary(ts).value.expr) == TOP_LEVEL
    decreases |ts|, 0, 1
  {
    if ts[0] == Open {
      ParenSound(ts);
    } else if ts[0] == Array {
      ArraySound(ts);
    } else if ts[0] == Cast {
      CastSound(ts);
    } else if ts[0] == NullIf {
      NullIfSound(ts);
    }
  }

  lemma {:induction false} ParenSound(ts: seq<Token>)
    requires StartsWith(ts, Open) && ParseParen(ts).Some?
    ensures Reads(ts, ATOM_LEVEL, ParseParen(ts).value)
    ensures RightEdge(ParseParen(ts).value.expr) == TOP_LEVEL
    decreases |ts|, 0, 0
  {
    ExprSound(0, ts[1..]);
    var inner := ParseExpr(0, ts[1..]).value;
    var rest := inner.rest[1..];
    assert inner.rest == [Close] + rest && ts == [Open] + ts[1..];
    Opening([Open], Flat(inner.expr), [Close], rest);
  }

  lemma {:induction false} ArraySound(ts: seq<Token>)
    requires StartsWith(ts, Array) && ParseArray(ts).Some?
    ensures Reads(ts, ATOM_LEVEL, ParseArray(ts).value)
    ensures RightEdge(ParseArray(ts).value.expr) == TOP_LEVEL
    decreases |ts|, 0, 0
  {
    ExprSound(0, ts[2..]);
    var item := ParseExpr(0, ts[2..]).value;
    var rest := item.rest[1..];
    assert item.rest == [CloseBracket] + rest && ts == [Array, OpenBracket] + ts[2..];
    Opening([Array, OpenBracket], Flat(item.expr), [CloseBracket], rest);
  }

  lemma {:induction false} CastSound(ts: seq<Token>)
    requires StartsWith(ts, Cast) && ParseCast(ts).Some?
    ensures Reads(ts, ATOM_LEVEL, ParseCast(ts).value)
    ensures RightEdge(ParseCast(ts).value.expr) == TOP_LEVEL
    decreases |ts|, 0, 0
  {
    ExprSound(0, ts[2..]);
    var value := ParseExpr(0, ts[2..]).value;
    var tail, rest := [As, value.rest[1], Close], value.rest[3..];
    assert value.rest == tail + rest && ts == [Cast, Open] + ts[2..];
    Opening([Cast, Open], Flat(value.expr), tail, rest);
  }

  lemma NullIfSound(ts: seq<Token>)
    requires StartsWith(ts, NullIf) && ParseNullIf(ts).Some?
    ensures Reads(ts, ATOM_LEVEL, ParseNullIf(ts).value)
    ensures RightEdge(ParseNullIf(ts).value.expr) == TOP_LEVEL
  {
    assert ts == ts[..6] + ts[6..];
    assert ts[..6] == [NullIf, Open, ts[2], Comma, ts[4], Close];
  }

  lemma {:induction false} ExprSound(level: nat, ts: seq<Token>)
    requires level <= ATOM_LEVEL
    requires ParseExpr(level, ts).Some?
    ensures Reads(ts, level, ParseExpr(level, ts).value)
    decreases |ts|, 1
  {
    if StartsWith(ts, Not) && level <= NOT_LEVEL {
      ExprSound(NOT_LEVEL, ts[1..]);
      var operand := ParseExpr(NOT_LEVEL, ts[1..]).value;
      var e := Negation(operand.expr);
      assert ts == Flat(e) + operand.rest by {
        assert ts == [Not] + (Flat(operand.expr) + operand.rest);
      }
      MoreSound(e, level, operand.rest);
    } else {
      PrimarySound(ts);
      var primary := ParsePrimary(ts).value;
      MoreSound(primary.expr, level, primary.rest);
    }
  }

  lemma {:induction false} MoreSound(left: Expr, level: nat, ts: seq<Token>)
    requires WellFormed(left) && level <= LeftEdge(left)
    requires ParseMore(left, level, ts).Some?
    ensures Reads(Flat(left) + ts, level, ParseMore(left, level, ts).value)
    decreases |ts|, 0, 1
  {
    if level <= Next(ts) <= RightEdge(left) {
      if ts[0].Symbol? {
        BinarySound(left, level, ts);
      } else if ts[0] == Is {
        IsTestSound(left, level, ts);
      } else {
        InListSound(left, level, ts);
      }
    }
  }

  lemma {:induction false} BinarySound(left: Expr, level: nat, ts: seq<Token>)
    requires WellFormed(left) && level <= LeftEdge(left)
    requires ts != [] && ts[0].Symbol? && level <= Level(ts[0].op) <= RightEdge(left)
    requires ParseBinary(left, level, ts).Some?
    ensures Reads(Flat(left) + ts, level, ParseBinary(left, level, ts).value)
    decreases |ts|, 0, 0
  {
    ExprSound(Level(ts[0].op) + 1, ts[1..]);
    var right := ParseExpr(Level(ts[0].op) + 1, ts[1..]).value;
    var longer := Binary(ts[0].op, left, right.expr);
    BinaryText(ts[0].op, left, right.expr, right.rest);
    assert ts == [ts[0]] + ts[1..];
    MoreSound(longer, level, right.rest);
  }

  lemma {:induction false} IsTestSound(left: Expr, level: nat, ts: seq<Token>)
    requires WellFormed(left) && level <= LeftEdge(left)
    requires StartsWith(ts, Is) && level <= IS_LEVEL <= RightEdge(left)
    requires ParseIsTest(left, level, ts).Some?
    ensures Reads(Flat(left) + ts, level, ParseIsTest(left, level, ts).value)
    decreases |ts|, 0, 0
  {
    var negated := !StartsWith(ts[1..], Null);
    var longer := IsTest(left, negated, Atom(Null));
    var rest := if negated then ts[3..] else ts[2..];
    IsTestText(left, negated, rest);
    assert ts == (if negated then [Is, Not, Null] else [Is, Null]) + rest;
    MoreSound(longer, level, rest);
  }

  lemma {:induction false} InListSound(left: Expr, level: nat, ts: seq<Token>)
    requires WellFormed(left) && level <= LeftEdge(left)
    requires StartsWith(ts, In) && level <= IN_LEVEL <= RightEdge(left)
    requires ParseInList(left, level, ts).Some?
    ensures Reads(Flat(left) + ts, level, ParseInList(left, level, ts).value)
    decreases |ts|, 0, 0
  {
    ListSound(ts[2..]);
    var items := ParseList(ts[2..]).value;
    var longer := InList(left, items.items);
    InListText(left, items.items, items.rest[1..]);
    assert items.rest == [Close] + items.rest[1..];
    assert ts == [In, Open] + ts[2..];
    MoreSound(longer, level, items.rest[1..]);
  }

  ghost predicate ReadsList(ts: seq<Token>, r: ParsedList) {
    && ts == FlatList(r.items) + r.rest
    && r.items != []
    && forall i :: 0 <= i < |r.items| ==> WellFormed(r.items[i])
  }

  lemma {:induction false} ListSound(ts: seq<Token>)
    requires ParseList(ts).Some?
    ensures ReadsList(ts, ParseList(ts).value)
    decreases |ts|, 2
  {
    ExprSound(0, ts);
    var first := ParseExpr(0, ts).value;
    if StartsWith(first.rest, Comma) {
      ListSound(first.rest[1..]);
      var others := ParseList(first.rest[1..]).value;
      ReadsListCons(ts, first, others);
    }
  }

  lemma ReadsListCons(ts: seq<Token>, first: Parsed, others: ParsedList)
    requires Reads(ts, 0, first) && StartsWith(first.rest, Comma)
    requires ReadsList(first.rest[1..], others)
    ensures ReadsList(ts, ParsedList([first.expr] + others.items, others.rest))
  {
    var items := [first.expr] + others.items;
    assert items[1..] == others.items;
    Opening(Flat(first.expr), [Comma], FlatList(others.items), others.rest);
    assert first.rest == [Comma] + first.rest[1..];
  }

  /* ---------- What needs no more parentheses is parsed as it is ---------- */

  /** An expression is read up to its end, and then whatever follows it is considered. */
  lemma {:induction false} ExprComplete(e: Expr, level: nat, rest: seq<Token>)
    requires WellFormed(e)
    requires level <= LeftEdge(e)
    requires Next(rest) <= RightEdge(e)
    ensures ParseExpr(level, Flat(e) + rest) == ParseMore(e, level, rest)
    decreases e, 1
  {
    if e.Binary? {
      BinaryComplete(e, level, rest);
    } else if e.Negation? {
      NegationComplete(e, level, rest);
    } else if e.IsTest? {
      IsTestComplete(e, level, rest);
    } else if e.InList? {
      InListComplete(e, level, rest);
    } else {
      PrimaryComplete(e, rest);
      assert Flat(e)[0] != Not;
    }
  }

  lemma {:induction false} PrimaryComplete(e: Expr, rest: seq<Token>)
    requires WellFormed(e)
    requires e.Atom? || e.Paren? || e.ArrayOf? || e.CastAs? || e.NullIfEqual?
    ensures ParsePrimary(Flat(e) + rest) == Some(Parsed(e, rest))
    decreases e, 0, 1
  {
    if e.Paren? {
      ParenComplete(e, rest);
    } else if e.ArrayOf? {
      ArrayComplete(e, rest);
    } else if e.CastAs? {
      CastComplete(e, rest);
    } else {
      AtomComplete(e, rest);
    }
  }

  lemma AtomComplete(e: Expr, rest: seq<Token>)
    requires WellFormed(e) && (e.Atom? || e.NullIfEqual?)
    ensures ParsePrimary(Flat(e) + rest) == Some(Parsed(e, rest))
  {
    assert (Flat(e) + rest)[|Flat(e)|..] == rest;
  }

  lemma {:induction false} ParenComplete(e: Expr, rest: seq<Token>)
    requires WellFormed(e) && e.Paren?
    ensures ParseParen(Flat(e) + rest) == Some(Parsed(e, rest))
    decreases e, 0, 0
  {
    Opening([Open], Flat(e.inner), [Close], rest);
    Enclosed(e.inner, [Close] + rest);
  }

  lemma {:induction false} ArrayComplete(e: Expr, rest: seq<Token>)
    requires WellFormed(e) && e.ArrayOf?
    ensures ParseArray(Flat(e) + rest) == Some(Parsed(e, rest))
    decreases e, 0, 0
  {
    Opening([Array, OpenBracket], Flat(e.item), [CloseBracket], rest);
    Enclosed(e.item, [CloseBracket] + rest);
  }

  lemma {:induction false} CastComplete(e: Expr, rest: seq<Token>)
    requires WellFormed(e) && e.CastAs?
    ensures ParseCast(Flat(e) + rest) == Some(Parsed(e, rest))
    decreases e, 0, 0
  {
    var tail := [As, Name(e.target), Close];
    Opening([Cast, Open], Flat(e.value), tail, rest);
    Enclosed(e.value, tail + rest);
  }

  lemma {:induction false} BinaryComplete(e: Expr, level: nat, rest: seq<Token>)
    requires WellFormed(e) && e.Binary?
    requires level <= LeftEdge(e)
    requires Next(rest) <= RightEdge(e)
    ensures ParseExpr(level, Flat(e) + rest) == ParseMore(e, level, rest)
    decreases e, 0
  {
    var after := [Symbol(e.op)] + (Flat(e.right) + rest);
    BinaryText(e.op, e.left, e.right, rest);
    ExprComplete(e.left, level, after);
    RightOperand(e, rest);
    ExprComplete(e.right, Level(e.op) + 1, rest);
    assert ParseBinary(e.left, level, after) == ParseMore(e, level, rest);
  }

  lemma {:induction false} NegationComplete(e: Expr, level: nat, rest: seq<Token>)
    requires WellFormed(e) && e.Negation?
    requires level <= LeftEdge(e)
    requires Next(rest) <= RightEdge(e)
    ensures ParseExpr(level, Flat(e) + rest) == ParseMore(e, level, rest)
    decreases e, 0
  {
    Opening([Not], Flat(e.operand), [], rest);
    assert Flat(e) + [] == Flat(e) && [] + rest == rest;
    ExprComplete(e.operand, NOT_LEVEL, rest);
    assert ParseMore(e.operand, NOT_LEVEL, rest) == Some(Parsed(e.operand, rest));
  }

  lemma {:induction false} IsTestComplete(e: Expr, level: nat, rest: seq<Token>)
    requires WellFormed(e) && e.IsTest?
    requires level <= LeftEdge(e)
    ensures ParseExpr(level, Flat(e) + rest) == ParseMore(e, level, rest)
    decreases e, 0
  {
    var after := (if e.negated then [Is, Not, Null] else [Is, Null]) + rest;
    IsTestText(e.subject, e.negated, rest);
    ExprComplete(e.subject, level, after);
    assert ParseIsTest(e.subject, level, after) == ParseMore(e, level, rest);
  }

  lemma {:induction false} InListComplete(e: Expr, level: nat, rest: seq<Token>)
    requires WellFormed(e) && e.InList?
    requires level <= LeftEdge(e)
    ensures ParseExpr(level, Flat(e) + rest) == ParseMore(e, level, rest)
    decreases e, 0
  {
    var after := [In, Open] + (FlatList(e.items) + ([Close] + rest));
    InListText(e.key, e.items, rest);
    ExprComplete(e.key, level, after);
    ListComplete(e.items, [Close] + rest);
    ListRead(e.key, level, e.items, FlatList(e.items) + ([Close] + rest), rest);
  }

  lemma ListRead(key: Expr, level: nat, items: seq<Expr>, list: seq<Token>, rest: seq<Token>)
    requires ParseList(list) == Some(ParsedList(items, [Close] + rest))
    ensures ParseInList(key, level, [In, Open] + list) == ParseMore(InList(key, items), level, rest)
  {
    var ts := [In, Open] + list;
    assert ts[1..][0] == Open && ts[2..] == list;
    assert ([Close] + rest)[1..] == rest;
  }

  lemma RightOperand(e: Expr, rest: seq<Token>)
    requires e.Binary? && WellFormed(e)
    requires Next(rest) <= RightEdge(e)
    ensures Next(rest) <= RightEdge(e.right)
    ensures ParseMore(e.right, Level(e.op) + 1, rest) == Some(Parsed(e.right, rest))
  {
  }

  lemma {:induction false} Enclosed(e: Expr, rest: seq<Token>)
    requires WellFormed(e)
    requires Next(rest) == -1 && rest != []
    ensures ParseExpr(0, Flat(e) + rest) == Some(Parsed(e, rest))
    decreases e, 2
  {
    ExprComplete(e, 0, rest);
  }

  lemma {:induction false} ListComplete(items: seq<Expr>, rest: seq<Token>)
    requires items != [] && forall i :: 0 <= i < |items| ==> WellFormed(items[i])
    requires StartsWith(rest, Close)
    ensures ParseList(FlatList(items) + rest) == Some(ParsedList(items, rest))
    decreases items
  {
    assert WellFormed(items[0]);
    if |items| == 1 {
      OneItem(items[0], rest);
      assert items == [items[0]];
    } else {
      ListComplete(items[1..], rest);
      assert items == [items[0]] + items[1..];
      LongerList(items[0], items[1..], rest);
    }
  }

  lemma {:induction false} OneItem(item: Expr, rest: seq<Token>)
    requires WellFormed(item) && StartsWith(rest, Close)
    ensures ParseList(FlatList([item]) + rest) == Some(ParsedList([item], rest))
    decreases item, 3
  {
    Enclosed(item, rest);
    LastItem(FlatList([item]) + rest, item, rest);
  }

  lemma {:induction false} LongerList(item: Expr, others: seq<Expr>, rest: seq<Token>)
    requires WellFormed(item) && others != []
    requires ParseList(FlatList(others) + rest) == Some(ParsedList(others, rest))
    ensures ParseList(FlatList([item] + others) + rest) == Some(ParsedList([item] + others, rest))
    decreases item, 3
  {
    var tail := FlatList(others) + rest;
    ListText(item, others, rest);
    Enclosed(item, [Comma] + tail);
    FirstItem(Flat(item) + ([Comma] + tail), item, others, [Comma] + tail, rest);
  }

  lemma ListText(item: Expr, others: seq<Expr>, rest: seq<Token>)
    requires others != []
    ensures FlatList([item] + others) + rest == Flat(item) + ([Comma] + (FlatList(others) + rest))
    ensures ([Comma] + (FlatList(others) + rest))[1..] == FlatList(others) + rest
  {
    assert ([item] + others)[1..] == others;
    Opening(Flat(item), [Comma], FlatList(others), rest);
  }

  lemma LastItem(ts: seq<Token>, item: Expr, rest: seq<Token>)
    requires ParseExpr(0, ts) == Some(Parsed(item, rest)) && !StartsWith(rest, Comma)
    ensures ParseList(ts) == Some(ParsedList([item], rest))
  {
  }

  lemma FirstItem(ts: seq<Token>, item: Expr, others: seq<Expr>, after: seq<Token>, rest: seq<Token>)
    requires ParseExpr(0, ts) == Some(Parsed(item, after)) && StartsWith(after, Comma)
    requires ParseList(after[1..]) == Some(ParsedList(others, rest))
    ensures ParseList(ts) == Some(ParsedList([item] + others, rest))
  {
  }

  /** The text of an expression is read as that expression, exactly when no parentheses are missing. */
  lemma ParseExact(e: Expr)
    ensures Parse(Flat(e)) == Some(e) <==> WellFormed(e)
  {
    if WellFormed(e) {
      ExprComplete(e, 0, []);
      assert Flat(e) + [] == Flat(e);
    }
    if Parse(Flat(e)) == Some(e) {
      ExprSound(0, Flat(e));
    }
  }

  /** Every text that is read has exactly one reading, and that reading has the text. */
  lemma ParseInverse(ts: seq<Token>)
    requires Parse(ts).Some?
    ensures WellFormed(Parse(ts).value) && Flat(Parse(ts).value) == ts
  {
    ExprSound(0, ts);
    assert Flat(Parse(ts).value) + [] == ts;
  }

  /* ---------- Chains of 'and' and 'or' ---------- */

  predicate IsLogical(op: Operator) {
    op == And || op == Or
  }

  /** Joins two expressions, taking a chain of the same operator on the right from its left end. */
  function Join(op: Operator, left: Expr, right: Expr): (e: Expr)
    decreases right
  {
    if right.Binary? && right.op == op then Binary(op, Join(op, left, right.left), right.right)
    else Binary(op, left, right)
  }

  /** Associates every chain of 'and' and of 'or' to the left, which is the only thing that it changes. */
  function LeftAssociated(e: Expr): (r: Expr) {
    match e
    case Binary(op, left, right) =>
      if IsLogical(op) then Join(op, LeftAssociated(left), LeftAssociated(right))
      else Binary(op, LeftAssociated(left), LeftAssociated(right))
    case Paren(inner) => Paren(LeftAssociated(inner))
    case ArrayOf(item) => ArrayOf(LeftAssociated(item))
    case CastAs(value, target) => CastAs(LeftAssociated(value), target)
    case Negation(operand) => Negation(LeftAssociated(operand))
    case IsTest(subject, negated, against) => IsTest(LeftAssociated(subject), negated, LeftAssociated(against))
    case InList(key, items) => InList(LeftAssociated(key), AllLeftAssociated(items))
    case _ => e
  }

  function AllLeftAssociated(items: seq<Expr>): (r: seq<Expr>)
    ensures |r| == |items|
    ensures forall i :: 0 <= i < |items| ==> r[i] == LeftAssociated(items[i])
  {
    if items == [] then [] else [LeftAssociated(items[0])] + AllLeftAssociated(items[1..])
  }

  lemma {:induction false} JoinText(op: Operator, left: Expr, right: Expr)
    ensures Flat(Join(op, left, right)) == Flat(left) + [Symbol(op)] + Flat(right)
    decreases right
  {
    if right.Binary? && right.op == op {
      JoinText(op, left, right.left);
      Regroup(Flat(left), [Symbol(op)], Flat(right.left), [Symbol(op)], Flat(right.right));
    }
  }

  lemma {:induction false} LeftAssociatedText(e: Expr)
    ensures Flat(LeftAssociated(e)) == Flat(e)
  {
    match e {
      case Binary(op, left, right) =>
        LeftAssociatedText(left);
        LeftAssociatedText(right);
        JoinText(op, LeftAssociated(left), LeftAssociated(right));
      case Paren(inner) => LeftAssociatedText(inner);
      case ArrayOf(item) => LeftAssociatedText(item);
      case CastAs(value, _) => LeftAssociatedText(value);
      case Negation(operand) => LeftAssociatedText(operand);
      case IsTest(subject, _, against) =>
        LeftAssociatedText(subject);
        LeftAssociatedText(against);
      case InList(key, items) =>
        LeftAssociatedText(key);
        AllLeftAssociatedText(items);
      case _ =>
    }
  }

  lemma {:induction false} AllLeftAssociatedText(items: seq<Expr>)
    ensures FlatList(AllLeftAssociated(items)) == FlatList(items)
  {
    if items != [] {
      LeftAssociatedText(items[0]);
      AllLeftAssociatedText(items[1..]);
      assert AllLeftAssociated(items)[1..] == AllLeftAssociated(items[1..]);
    }
  }

  lemma {:induction false} WellFormedIsLeftAssociated(e: Expr)
    requires WellFormed(e)
    ensures LeftAssociated(e) == e
  {
    match e {
      case Binary(op, left, right) =>
        WellFormedIsLeftAssociated(left);
        WellFormedIsLeftAssociated(right);
      case Paren(inner) => WellFormedIsLeftAssociated(inner);
      case ArrayOf(item) => WellFormedIsLeftAssociated(item);
      case CastAs(value, _) => WellFormedIsLeftAssociated(value);
      case Negation(operand) => WellFormedIsLeftAssociated(operand);
      case IsTest(subject, _, _) => WellFormedIsLeftAssociated(subject);
      case InList(key, items) =>
        WellFormedIsLeftAssociated(key);
        forall i | 0 <= i < |items| ensures LeftAssociated(items[i]) == items[i] {
          WellFormedIsLeftAssociated(items[i]);
        }
        assert AllLeftAssociated(items) == items;
      case _ =>
    }
  }

  /** Whether the text of an expression is read as that expression, up to the association of 'and' and 'or'. */
  predicate ReadsBack(e: Expr) {
    var r := Parse(Flat(e));
    r.Some? && LeftAssociated(r.value) == LeftAssociated(e)
  }

  lemma ReadsBackExactly(e: Expr)
    ensures ReadsBack(e) <==> WellFormed(LeftAssociated(e))
    ensures ReadsBack(e) ==> Parse(Flat(e)) == Some(LeftAssociated(e))
  {
    var n := LeftAssociated(e);
    LeftAssociatedText(e);
    ParseExact(n);
    if WellFormed(n) {
      WellFormedIsLeftAssociated(n);
    }
    if ReadsBack(e) {
      ParseInverse(Flat(e));
      WellFormedIsLeftAssociated(Parse(Flat(e)).value);
    }
  }
}
