/**
 The translator from CEL filter expressions to SQL. It writes as few parentheses as its own precedence table allows.
 The translation of an expression is modelled as the tree that was written, with the parentheses that were written;
 its text is 'Flat' of that tree.
 */
module FilterTranslator {
  import opened Wrappers
  import opened SqlGrammar
  import SqlText

  datatype BinaryOp =
    | AddOp | SubtractOp | MultiplyOp | DivideOp | ModuloOp
    | EqualsOp | NotEqualsOp | GreaterOp | GreaterEqualsOp | LessOp | LessEqualsOp
    | LogicalAndOp | LogicalOrOp

  /** Type checked CEL expressions. 'OtherLiteral' and 'OtherCall' are the ones that the translator rejects. */
  datatype Cel =
    | Ident(name: string)
    | NullLiteral | BoolLiteral(value: bool) | IntLiteral(number: int) | StringLiteral(text: string) | OtherLiteral
    | Select(operand: Cel, field: string, testOnly: bool)
    | BinaryCall(op: BinaryOp, left: Cel, right: Cel)
    | NotCall(negated: Cel)
    | InCall(key: Cel, container: Cel)
    | MatchCall(kind: SqlText.MatchKind, target: Cel, pattern: Cel)
    | List(elements: seq<Cel>)
    | OtherCall

  datatype FieldKind =
    | BoolField | Int32Field | Int64Field | FloatField | DoubleField | StringField
    | TimestampField | MessageField(message: string) | OtherField

  /** The fields of the message types, and the type of 'this'. */
  datatype Schema = Schema(root: string, messages: map<string, map<string, FieldKind>>)

  datatype Kind = NullKind | BooleanKind | NumericKind | TimeKind | StringKind | ThisKind | MdKind | JsonKind

  datatype Error =
    | UnsupportedExpression | UnknownIdentifier | UnsupportedLiteral | UnsupportedSelect | UnknownField
    | NotLiteral | NotStringLiteral | UnsupportedContainer

  datatype Translation = Translation(sql: Expr, precedence: int, kind: Kind, desc: string)

  const MAX_PRECEDENCE := 0x7FFF_FFFF_FFFF_FFFF
  const MULTIPLICATIVE_PRECEDENCE := 8
  const ADDITIVE_PRECEDENCE := 7
  const IS_PRECEDENCE := 6
  const IN_PRECEDENCE := 4
  const COMPARISON_PRECEDENCE := 3
  const NOT_PRECEDENCE := 2
  const AND_PRECEDENCE := 1
  const OR_PRECEDENCE := 0

  const EPOCH := "1970-01-01 00:00:00Z"

  /** Puts parentheses around an operand that is looser than the operator, in the table of the translator. */
  function Operand(tr: Translation, precedence: int): (e: Expr) {
    if tr.precedence < precedence then Paren(tr.sql) else tr.sql
  }

  function Translate(schema: Schema, e: Cel): (r: Result<Translation, Error>) {
    match e
    case Ident(name) => TranslateIdent(name)
    case NullLiteral | BoolLiteral(_) | IntLiteral(_) | StringLiteral(_) | OtherLiteral => TranslateLiteral(e)
    case Select(operand, field, testOnly) =>
      var operandTr :- Translate(schema, operand);
      TranslateSelect(schema, operandTr, field, testOnly)
    case BinaryCall(op, left, right) =>
      var leftTr :- Translate(schema, left);
      var rightTr :- Translate(schema, right);
      Ok(TranslateBinary(op, leftTr, rightTr))
    case NotCall(negated) =>
      var valueTr :- Translate(schema, negated);
      Ok(Translation(Negation(Operand(valueTr, NOT_PRECEDENCE)), NOT_PRECEDENCE, BooleanKind, ""))
    case InCall(key, List(elements)) =>
      var keyTr :- Translate(schema, key);
      var items :- TranslateItems(elements);
      Ok(Translation(InList(Operand(keyTr, IN_PRECEDENCE), items), IN_PRECEDENCE, NullKind, ""))
    case InCall(key, Select(operand, field, testOnly)) =>
      var keyTr :- Translate(schema, key);
      var operandTr :- Translate(schema, operand);
      var valueTr :- TranslateSelect(schema, operandTr, field, testOnly);
      Ok(Translation(Binary(ContainsAll, valueTr.sql, ArrayOf(keyTr.sql)), IN_PRECEDENCE, NullKind, ""))
    case InCall(_, _) => Err(UnsupportedContainer)
    case MatchCall(kind, target, pattern) =>
      var targetTr :- Translate(schema, target);
      if !pattern.StringLiteral? then Err(NotStringLiteral)
      else
        var text := Atom(Text(SqlText.PatternLiteral(kind, pattern.text)));
        Ok(Translation(Binary(Like, Operand(targetTr, IN_PRECEDENCE), text), IN_PRECEDENCE, BooleanKind, ""))
    case List(_) | OtherCall => Err(UnsupportedExpression)
  }

  function TranslateIdent(name: string): (r: Result<Translation, Error>) {
    if name == "this" then Ok(Translation(Missing, MAX_PRECEDENCE, ThisKind, ""))
    else if name == "now" then Ok(Translation(Atom(Name("now()")), MAX_PRECEDENCE, TimeKind, ""))
    else Err(UnknownIdentifier)
  }

  predicate IsLiteral(e: Cel) {
    e.NullLiteral? || e.BoolLiteral? || e.IntLiteral? || e.StringLiteral? || e.OtherLiteral?
  }

  function TranslateLiteral(e: Cel): (r: Result<Translation, Error>)
    requires IsLiteral(e)
  {
    match e
    case NullLiteral => Ok(Translation(Atom(Null), MAX_PRECEDENCE, NullKind, ""))
    case BoolLiteral(value) => Ok(Translation(Atom(Boolean(value)), MAX_PRECEDENCE, BooleanKind, ""))
    case IntLiteral(number) => Ok(Translation(Atom(Number(number)), MAX_PRECEDENCE, NumericKind, ""))
    case StringLiteral(text) => Ok(Translation(Atom(Text(SqlText.Literal(text))), MAX_PRECEDENCE, StringKind, ""))
    case OtherLiteral => Err(UnsupportedLiteral)
  }

  function TranslateItems(elements: seq<Cel>): (r: Result<seq<Expr>, Error>)
    ensures r.Ok? ==> |r.value| == |elements|
  {
    if elements == [] then Ok([])
    else if !IsLiteral(elements[0]) then Err(NotLiteral)
    else
      var first :- TranslateLiteral(elements[0]);
      var others :- TranslateItems(elements[1..]);
      Ok([first.sql] + others)
  }

  function SqlOperator(op: BinaryOp): (r: Operator) {
    match op
    case AddOp => Add
    case SubtractOp => Sub
    case MultiplyOp => Mul
    case DivideOp => Div
    case ModuloOp => Mod
    case EqualsOp => Eq
    case NotEqualsOp => NotEq
    case GreaterOp => Greater
    case GreaterEqualsOp => GreaterEq
    case LessOp => Less
    case LessEqualsOp => LessEq
    case LogicalAndOp => And
    case LogicalOrOp => Or
  }

  predicate IsArithmetic(op: BinaryOp) {
    op.AddOp? || op.SubtractOp? || op.MultiplyOp? || op.DivideOp? || op.ModuloOp?
  }

  function Precedence(op: BinaryOp): (precedence: int) {
    match op
    case AddOp | SubtractOp => ADDITIVE_PRECEDENCE
    case MultiplyOp | DivideOp | ModuloOp => MULTIPLICATIVE_PRECEDENCE
    case LogicalAndOp => AND_PRECEDENCE
    case LogicalOrOp => OR_PRECEDENCE
    case _ => COMPARISON_PRECEDENCE
  }

  /** An equality with an operand of null kind is a null test of the other operand. */
  function TranslateBinary(op: BinaryOp, left: Translation, right: Translation): (r: Translation) {
    if op.EqualsOp? || op.NotEqualsOp? then
      var (first, second) := if left.kind.NullKind? then (right, left) else (left, right);
      if second.kind.NullKind? then
        Translation(IsTest(Operand(first, IS_PRECEDENCE), op.NotEqualsOp?, Operand(second, IS_PRECEDENCE)),
                    IS_PRECEDENCE, BooleanKind, "")
      else
        TranslateOperator(op, first, second)
    else TranslateOperator(op, left, right)
  }

  function TranslateOperator(op: BinaryOp, left: Translation, right: Translation): (r: Translation) {
    Translation(Binary(SqlOperator(op), Operand(left, Precedence(op)), Operand(right, Precedence(op))),
                Precedence(op), if IsArithmetic(op) then left.kind else BooleanKind, "")
  }

  /** Selections get the highest precedence, whatever the operator that was written. */
  function TranslateSelect(schema: Schema, operand: Translation, field: string, testOnly: bool)
    : (r: Result<Translation, Error>)
  {
    match operand.kind
    case ThisKind => TranslateThisField(schema, field, testOnly)
    case MdKind => TranslateMdField(field, testOnly)
    case JsonKind => TranslateJsonField(schema, operand.sql, operand.desc, field, testOnly)
    case _ => Err(UnsupportedSelect)
  }

  function TranslateThisField(schema: Schema, field: string, testOnly: bool): (r: Result<Translation, Error>) {
    if (field == "id" || field == "metadata") && testOnly then
      Ok(Translation(Atom(Boolean(true)), MAX_PRECEDENCE, BooleanKind, ""))
    else if field == "id" then Ok(Translation(Atom(Name("id")), MAX_PRECEDENCE, StringKind, ""))
    else if field == "metadata" then Ok(Translation(Missing, MAX_PRECEDENCE, MdKind, ""))
    else TranslateJsonField(schema, Atom(Name("data")), schema.root, field, testOnly)
  }

  function TranslateMdField(field: string, testOnly: bool): (r: Result<Translation, Error>) {
    if field == "creation_timestamp" then
      if testOnly then Ok(Translation(Atom(Boolean(true)), MAX_PRECEDENCE, BooleanKind, ""))
      else Ok(Translation(Atom(Name(field)), MAX_PRECEDENCE, TimeKind, ""))
    else if field == "deletion_timestamp" then
      if testOnly then
        Ok(Translation(Binary(NotEq, Atom(Name(field)), Atom(Quoted(EPOCH))), MAX_PRECEDENCE, BooleanKind, ""))
      else Ok(Translation(NullIfEqual(field, EPOCH), MAX_PRECEDENCE, TimeKind, ""))
    else if field == "creators" || field == "tenants" then
      Ok(Translation(Atom(Name(field)), MAX_PRECEDENCE, StringKind, ""))
    else Err(UnknownField)
  }

  function FieldText(field: string): (e: Expr) {
    Atom(Quoted(field))
  }

  function TranslateJsonField(schema: Schema, operand: Expr, message: string, field: string, testOnly: bool)
    : (r: Result<Translation, Error>)
  {
    var name, text := FieldText(field), Binary(JsonText, operand, FieldText(field));
    if testOnly then Ok(Translation(Binary(HasKey, operand, name), MAX_PRECEDENCE, BooleanKind, ""))
    else if message !in schema.messages || field !in schema.messages[message] then Err(UnknownField)
    else match schema.messages[message][field]
      case BoolField => Ok(Translation(CastAs(text, "bool"), MAX_PRECEDENCE, BooleanKind, ""))
      case Int32Field => Ok(Translation(CastAs(text, "integer"), MAX_PRECEDENCE, NumericKind, ""))
      case Int64Field => Ok(Translation(CastAs(text, "bigint"), MAX_PRECEDENCE, NumericKind, ""))
      case FloatField => Ok(Translation(CastAs(text, "real"), MAX_PRECEDENCE, NumericKind, ""))
      case DoubleField => Ok(Translation(CastAs(text, "double precision"), MAX_PRECEDENCE, NumericKind, ""))
      case StringField => Ok(Translation(text, MAX_PRECEDENCE, StringKind, ""))
      case TimestampField =>
        Ok(Translation(CastAs(text, "timestamp with time zone"), MAX_PRECEDENCE, TimeKind, ""))
      case MessageField(inner) => Ok(Translation(Binary(JsonGet, operand, name), MAX_PRECEDENCE, JsonKind, inner))
      case OtherField => Err(UnsupportedSelect)
  }

  /** The text of a membership test, written by two loops around a buffer. */
  method TranslateInList(schema: Schema, key: Cel, elements: seq<Cel>) returns (r: Result<seq<Token>, Error>)
    ensures r.Ok? <==> Translate(schema, InCall(key, List(elements))).Ok?
    ensures r.Ok? ==> r.value == Flat(Translate(schema, InCall(key, List(elements))).value.sql)
  {
    var keyTr :- Translate(schema, key);
    var translated := TranslateLiterals(elements);
    var items :- translated;
    var buffer := if keyTr.precedence < IN_PRECEDENCE then [Open] + Flat(keyTr.sql) + [Close] else Flat(keyTr.sql);
    var list := WriteItems(items);
    r := Ok(buffer + [Token.In, Open] + list + [Close]);
    assert r.value == Flat(InList(Operand(keyTr, IN_PRECEDENCE), items));
  }

  method TranslateLiterals(elements: seq<Cel>) returns (r: Result<seq<Expr>, Error>)
    ensures r.Ok? <==> TranslateItems(elements).Ok?
    ensures r.Ok? ==> r == TranslateItems(elements)
  {
    var items: seq<Expr> := [];
    for i := 0 to |elements|
      invariant |items| == i
      invariant forall j :: 0 <= j < i ==> IsLiteral(elements[j]) && TranslateLiteral(elements[j]).Ok?
      invariant forall j :: 0 <= j < i ==> items[j] == TranslateLiteral(elements[j]).value.sql
    {
      if !IsLiteral(elements[i]) {
        ItemsFail(elements, i);
        return Err(NotLiteral);
      }
      var item := TranslateLiteral(elements[i]);
      if item.Err? {
        ItemsFail(elements, i);
        return Err(item.error);
      }
      items := items + [item.value.sql];
    }
    ItemsOf(elements, items);
    return Ok(items);
  }

  method WriteItems(items: seq<Expr>) returns (buffer: seq<Token>)
    ensures buffer == FlatList(items)
  {
    buffer := [];
    for i := 0 to |items|
      invariant buffer == FlatList(items[..i])
    {
      FlatListGrows(items[..i], items[i]);
      assert items[..i + 1] == items[..i] + [items[i]];
      if i > 0 {
        buffer := buffer + [Comma];
      }
      buffer := buffer + Flat(items[i]);
    }
    assert items[..|items|] == items;
  }

  lemma {:induction false} ItemsOf(elements: seq<Cel>, items: seq<Expr>)
    requires |items| == |elements|
    requires forall j :: 0 <= j < |elements| ==> IsLiteral(elements[j]) && TranslateLiteral(elements[j]).Ok?
    requires forall j :: 0 <= j < |elements| ==> items[j] == TranslateLiteral(elements[j]).value.sql
    ensures TranslateItems(elements) == Ok(items)
  {
    if elements != [] {
      ItemsOf(elements[1..], items[1..]);
      assert items == [items[0]] + items[1..];
    }
  }

  lemma {:induction false} ItemsFail(elements: seq<Cel>, i: nat)
    requires i < |elements| && (!IsLiteral(elements[i]) || TranslateLiteral(elements[i]).Err?)
    ensures TranslateItems(elements).Err?
  {
    if i > 0 {
      ItemsFail(elements[1..], i - 1);
    }
  }

  lemma {:induction false} FlatListGrows(items: seq<Expr>, item: Expr)
    ensures FlatList(items + [item]) == FlatList(items) + (if items == [] then [] else [Comma]) + Flat(item)
  {
    if |items| == 1 {
      assert (items + [item])[1..] == [item];
    } else if |items| > 1 {
      assert (items + [item])[1..] == items[1..] + [item];
      FlatListGrows(items[1..], item);
    }
  }
}
