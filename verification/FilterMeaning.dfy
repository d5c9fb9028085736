/**
 What a CEL filter means on a row, given directly on the CEL expression, and the proof that the text written by the
 translator, read the way PostgreSQL reads it, has that meaning.
 */
module FilterMeaning {
  import opened Wrappers
  import opened SqlGrammar
  import opened SqlMeaning
  import opened FilterAdequacy
  import opened FilterTranslator
  import SqlText

  /** A JSON document selected by a chain of message fields: its value and the type of the message. */
  datatype Document = Document(value: Value, message: string)

  function DocumentAt(row: Row, schema: Schema, e: Cel): (d: Option<Document>) {
    match e
    case Ident(name) => if name == "this" then Some(Document(row.column("data"), schema.root)) else None
    case Select(operand, field, false) =>
      if operand == Ident("this") && (field == "id" || field == "metadata") then None
      else
        var outer := DocumentAt(row, schema, operand);
        if outer.None? then None
        else
          var message := outer.value.message;
          if message in schema.messages && field in schema.messages[message]
             && schema.messages[message][field].MessageField?
          then
            Some(Document(row.apply(JsonGet, outer.value.value, FieldName(field)),
                          schema.messages[message][field].message))
          else None
    case _ => None
  }

  /** The deletion timestamp of an object that isn't deleted. */
  const NEVER := "1970-01-01 00:00:00Z"

  function FieldName(field: string): Value {
    Characters(field)
  }

  ghost function Denote(row: Row, schema: Schema, e: Cel): (v: Value) {
    match e
    case Ident(name) => if name == "now" then row.column("now()") else Failure
    case NullLiteral => NullValue
    case BoolLiteral(value) => Truth(value)
    case IntLiteral(number) => Datum(number)
    case StringLiteral(text) => Characters(text)
    case Select(operand, field, testOnly) => DenoteField(row, schema, operand, field, testOnly)
    case BinaryCall(op, left, right) =>
      var l, r := Denote(row, schema, left), Denote(row, schema, right);
      if left == NullLiteral && IsEquality(op) then NullComparison(op, r)
      else if right == NullLiteral && IsEquality(op) then NullComparison(op, l)
      else DenoteOperator(row, op, l, r)
    case NotCall(negated) => Complement(Denote(row, schema, negated))
    case InCall(key, container) =>
      var k := Denote(row, schema, key);
      if container.List? then DenoteAmong(row, k, DenoteAll(row, schema, container.elements))
      else row.apply(ContainsAll, Denote(row, schema, container), row.makeArray(k))
    case MatchCall(kind, target, pattern) =>
      DenoteMatch(kind, Denote(row, schema, target), Denote(row, schema, pattern))
    case _ => Failure
  }

  /** What each CEL operator means: logic has three values, and the row gives the rest. */
  function DenoteOperator(row: Row, op: BinaryOp, l: Value, r: Value): (v: Value) {
    match op
    case LogicalAndOp => Conjunction(l, r)
    case LogicalOrOp => Disjunction(l, r)
    case AddOp => row.apply(Add, l, r)
    case SubtractOp => row.apply(Sub, l, r)
    case MultiplyOp => row.apply(Mul, l, r)
    case DivideOp => row.apply(Div, l, r)
    case ModuloOp => row.apply(Mod, l, r)
    case EqualsOp => row.apply(Eq, l, r)
    case NotEqualsOp => row.apply(NotEq, l, r)
    case GreaterOp => row.apply(Greater, l, r)
    case GreaterEqualsOp => row.apply(GreaterEq, l, r)
    case LessOp => row.apply(Less, l, r)
    case LessEqualsOp => row.apply(LessEq, l, r)
  }

  predicate IsEquality(op: BinaryOp) {
    op.EqualsOp? || op.NotEqualsOp?
  }

  function NullComparison(op: BinaryOp, value: Value): (v: Value) {
    if op.EqualsOp? then NullTest(value) else Complement(NullTest(value))
  }

  ghost function DenoteMatch(kind: SqlText.MatchKind, subject: Value, pattern: Value): (v: Value) {
    if subject.Characters? && pattern.Characters? then Truth(SqlText.Holds(kind, subject.text, pattern.text))
    else if subject.NullValue? && pattern.Characters? then NullValue
    else Failure
  }

  /** Whether a value is equal to some of the values, as far as that is known. */
  ghost function DenoteAmong(row: Row, key: Value, values: seq<Value>): (v: Value) {
    if values == [] then Truth(false)
    else Disjunction(row.apply(Eq, key, values[0]), DenoteAmong(row, key, values[1..]))
  }

  lemma {:induction false} AmongMeaning(row: Row, key: Value, values: seq<Value>)
    ensures Among(row, key, values) == DenoteAmong(row, key, values)
  {
    if values != [] {
      AmongMeaning(row, key, values[1..]);
    }
  }

  ghost function DenoteAll(row: Row, schema: Schema, elements: seq<Cel>): (vs: seq<Value>)
    ensures |vs| == |elements|
  {
    if elements == [] then [] else [Denote(row, schema, elements[0])] + DenoteAll(row, schema, elements[1..])
  }

  /** A field of the object, or whether it is present. */
  ghost function DenoteField(row: Row, schema: Schema, operand: Cel, field: string, testOnly: bool): (v: Value) {
    var outer := DocumentAt(row, schema, operand);
    if operand == Ident("this") && (field == "id" || field == "metadata") then
      if testOnly then Truth(true) else if field == "id" then row.column("id") else Failure
    else if outer.Some? then
      if testOnly then row.apply(HasKey, outer.value.value, FieldName(field))
      else
        var message := outer.value.message;
        if message !in schema.messages || field !in schema.messages[message] then Failure
        else DenoteScalar(row, outer.value.value, field, schema.messages[message][field])
    else if field == "creation_timestamp" then
      if testOnly then Truth(true) else row.column(field)
    else if field == "deletion_timestamp" then
      if testOnly then row.apply(NotEq, row.column(field), Characters(NEVER))
      else if row.apply(Eq, row.column(field), Characters(NEVER)) == Truth(true) then NullValue else row.column(field)
    else
      if testOnly then row.apply(NotEq, row.column(field), Characters("{}")) else row.column(field)
  }

  function DenoteScalar(row: Row, document: Value, field: string, kind: FieldKind): (v: Value) {
    var text := row.apply(JsonText, document, FieldName(field));
    match kind
    case BoolField => row.cast(text, "bool")
    case Int32Field => row.cast(text, "integer")
    case Int64Field => row.cast(text, "bigint")
    case FloatField => row.cast(text, "real")
    case DoubleField => row.cast(text, "double precision")
    case StringField => text
    case TimestampField => row.cast(text, "timestamp with time zone")
    case MessageField(_) => row.apply(JsonGet, document, FieldName(field))
    case OtherField => Failure
  }

  /**
   The strings of the filter survive (see 'LiteralSafe' and 'PatternSafe' in SqlText); it has no presence test of
   'creators' or 'tenants', which is written as the bare column; and arithmetic is on plain values, which the CEL
   checker ensures.
   */
  predicate Safe(schema: Schema, e: Cel) {
    match e
    case StringLiteral(text) => SqlText.LiteralSafe(text)
    case Select(operand, field, testOnly) =>
      Safe(schema, operand) && !(testOnly && operand == METADATA && (field == "creators" || field == "tenants"))
    case BinaryCall(op, left, right) =>
      Safe(schema, left) && Safe(schema, right) && (IsArithmetic(op) ==> SourceOf(schema, left) == Some(Plain))
    case NotCall(negated) => Safe(schema, negated)
    case InCall(key, container) => Safe(schema, key) && Safe(schema, container)
    case MatchCall(_, target, pattern) =>
      Safe(schema, target) && (pattern.StringLiteral? ==> SqlText.PatternSafe(pattern.text))
    case List(elements) => forall i :: 0 <= i < |elements| ==> Safe(schema, elements[i])
    case _ => true
  }

  const METADATA := Select(Ident("this"), "metadata", false)

  /** No operand is missing, and every 'is' is followed by 'null'. */
  predicate Complete(e: Expr) {
    match e
    case Missing => false
    case Paren(inner) => Complete(inner)
    case ArrayOf(item) => Complete(item)
    case CastAs(value, _) => Complete(value)
    case Binary(_, left, right) => Complete(left) && Complete(right)
    case Negation(operand) => Complete(operand)
    case IsTest(subject, _, against) => Complete(subject) && against == Atom(Null)
    case InList(key, items) => Complete(key) && forall i :: 0 <= i < |items| ==> Complete(items[i])
    case _ => true
  }

  lemma {:induction false} WellFormedIsComplete(e: Expr)
    requires WellFormed(e)
    ensures Complete(e)
  {
    match e {
      case Paren(inner) => WellFormedIsComplete(inner);
      case ArrayOf(item) => WellFormedIsComplete(item);
      case CastAs(value, _) => WellFormedIsComplete(value);
      case Binary(_, left, right) =>
        WellFormedIsComplete(left);
        WellFormedIsComplete(right);
      case Negation(operand) => WellFormedIsComplete(operand);
      case IsTest(subject, _, _) => WellFormedIsComplete(subject);
      case InList(key, items) =>
        WellFormedIsComplete(key);
        forall i | 0 <= i < |items| ensures Complete(items[i]) { WellFormedIsComplete(items[i]); }
      case _ =>
    }
  }

  lemma CompleteBinary(op: Operator, left: Expr, right: Expr)
    ensures Complete(Binary(op, left, right)) <==> Complete(left) && Complete(right)
  {
  }

  lemma {:induction false} JoinComplete(op: Operator, left: Expr, right: Expr)
    ensures Complete(Join(op, left, right)) <==> Complete(left) && Complete(right)
    decreases right
  {
    if right.Binary? && right.op == op {
      var inner, last := right.left, right.right;
      assert right == Binary(op, inner, last);
      assert Join(op, left, right) == Binary(op, Join(op, left, inner), last);
      JoinComplete(op, left, inner);
      CompleteBinary(op, Join(op, left, inner), last);
      CompleteBinary(op, inner, last);
    } else {
      assert Join(op, left, right) == Binary(op, left, right);
      CompleteBinary(op, left, right);
    }
  }

  lemma {:induction false} LeftAssociatedComplete(e: Expr)
    ensures Complete(LeftAssociated(e)) <==> Complete(e)
  {
    match e {
      case Binary(op, left, right) =>
        LeftAssociatedComplete(left);
        LeftAssociatedComplete(right);
        JoinComplete(op, LeftAssociated(left), LeftAssociated(right));
      case Paren(inner) => LeftAssociatedComplete(inner);
      case ArrayOf(item) => LeftAssociatedComplete(item);
      case CastAs(value, _) => LeftAssociatedComplete(value);
      case Negation(operand) => LeftAssociatedComplete(operand);
      case IsTest(subject, _, against) =>
        LeftAssociatedComplete(subject);
        AgainstNull(against);
      case InList(key, items) =>
        LeftAssociatedComplete(key);
        forall i | 0 <= i < |items| ensures Complete(LeftAssociated(items[i])) <==> Complete(items[i]) {
          LeftAssociatedComplete(items[i]);
        }
      case _ =>
    }
  }

  /* ---------- The written tree has the meaning of the filter ---------- */

  /** A translation of JSON kind stands for a document, and any complete translation for a value. */
  ghost predicate Faithful(row: Row, schema: Schema, e: Cel, tr: Translation) {
    && (tr.kind.ThisKind? <==> e == Ident("this"))
    && (tr.kind.MdKind? <==> e == METADATA)
    && (if tr.kind.JsonKind?
        then DocumentAt(row, schema, e) == Some(Document(Eval(row, tr.sql), tr.desc))
        else tr.kind.ThisKind? || DocumentAt(row, schema, e).None?)
    && (e == NullLiteral ==> tr.kind.NullKind?)
    && (tr.sql == Atom(Null) ==> e == NullLiteral)
    && (Complete(tr.sql) ==> Eval(row, tr.sql) == Denote(row, schema, e))
  }

  lemma {:induction false} TranslateFaithful(row: Row, schema: Schema, e: Cel)
    requires Translate(schema, e).Ok? && Safe(schema, e)
    ensures Faithful(row, schema, e, Translate(schema, e).value)
    decreases e, 1
  {
    if IsLiteral(e) {
      LiteralFaithful(row, schema, e);
    } else if e.Select? {
      TranslateFaithful(row, schema, e.operand);
      SelectFaithful(row, schema, e.operand, Translate(schema, e.operand).value, e.field, e.testOnly);
    } else if e.BinaryCall? {
      TranslateFaithful(row, schema, e.left);
      TranslateFaithful(row, schema, e.right);
      Written(schema, e.left);
      BinaryFaithful(row, schema, e.op, e.left, e.right,
                     Translate(schema, e.left).value, Translate(schema, e.right).value);
    } else if e.NotCall? {
      TranslateFaithful(row, schema, e.negated);
      NotFaithful(row, schema, e.negated, Translate(schema, e.negated).value);
    } else if e.InCall? {
      InFaithful(row, schema, e.key, e.container);
    } else if e.MatchCall? {
      TranslateFaithful(row, schema, e.target);
      MatchFaithful(row, schema, e.kind, e.target, e.pattern.text);
    }
  }

  lemma NotFaithful(row: Row, schema: Schema, e: Cel, tr: Translation)
    requires Faithful(row, schema, e, tr)
    ensures Faithful(row, schema, NotCall(e),
                     Translation(Negation(Operand(tr, NOT_PRECEDENCE)), NOT_PRECEDENCE, BooleanKind, ""))
  {
    OperandFaithful(row, tr, NOT_PRECEDENCE);
  }

  lemma LiteralFaithful(row: Row, schema: Schema, e: Cel)
    requires IsLiteral(e) && TranslateLiteral(e).Ok? && Safe(schema, e)
    ensures Faithful(row, schema, e, TranslateLiteral(e).value)
  {
    if e.StringLiteral? {
      LiteralMeaning(e.text);
    }
  }

  lemma LiteralMeaning(text: string)
    requires SqlText.LiteralSafe(text)
    ensures Constant(SqlText.Literal(text)) == Characters(text)
  {
    SqlText.LiteralRoundTrip(text, "");
    assert SqlText.Literal(text) + "" == SqlText.Literal(text);
  }

  lemma SelectFaithful(row: Row, schema: Schema, operand: Cel, tr: Translation, field: string, testOnly: bool)
    requires Faithful(row, schema, operand, tr)
    requires Safe(schema, Select(operand, field, testOnly))
    requires TranslateSelect(schema, tr, field, testOnly).Ok?
    ensures Faithful(row, schema, Select(operand, field, testOnly),
                     TranslateSelect(schema, tr, field, testOnly).value)
  {
    if tr.kind.MdKind? {
      MdFieldFaithful(row, schema, field, testOnly);
    } else if tr.kind.JsonKind? {
      JsonFieldFaithful(row, schema, operand, Document(Eval(row, tr.sql), tr.desc), tr.sql, field, testOnly);
    } else if field == "id" || field == "metadata" {
      OwnFieldFaithful(row, schema, field, testOnly);
    } else {
      var data := Atom(Name("data"));
      JsonFieldFaithful(row, schema, operand, Document(Eval(row, data), schema.root), data, field, testOnly);
    }
  }

  lemma OwnFieldFaithful(row: Row, schema: Schema, field: string, testOnly: bool)
    requires field == "id" || field == "metadata"
    ensures TranslateThisField(schema, field, testOnly).Ok?
    ensures Faithful(row, schema, Select(Ident("this"), field, testOnly),
                     TranslateThisField(schema, field, testOnly).value)
  {
  }

  lemma MdFieldFaithful(row: Row, schema: Schema, field: string, testOnly: bool)
    requires TranslateMdField(field, testOnly).Ok?
    requires Safe(schema, Select(METADATA, field, testOnly))
    ensures Faithful(row, schema, Select(METADATA, field, testOnly), TranslateMdField(field, testOnly).value)
  {
    MdFieldIsNoDocument(row, schema, field, testOnly);
    MdFieldMeaning(row, schema, field, testOnly);
  }

  lemma MdFieldIsNoDocument(row: Row, schema: Schema, field: string, testOnly: bool)
    ensures DocumentAt(row, schema, METADATA).None? && DocumentAt(row, schema, Select(METADATA, field, testOnly)).None?
  {
  }

  lemma MdFieldMeaning(row: Row, schema: Schema, field: string, testOnly: bool)
    requires TranslateMdField(field, testOnly).Ok?
    requires testOnly ==> field != "creators" && field != "tenants"
    ensures Eval(row, TranslateMdField(field, testOnly).value.sql) == Denote(row, schema, Select(METADATA, field, testOnly))
  {
    MdFieldIsNoDocument(row, schema, field, testOnly);
    var e := Select(METADATA, field, testOnly);
    assert Denote(row, schema, e) == DenoteField(row, schema, METADATA, field, testOnly);
  }

  lemma JsonFieldFaithful(row: Row, schema: Schema, operand: Cel, d: Document, sql: Expr, field: string, testOnly: bool)
    requires DocumentAt(row, schema, operand) == Some(d) && Eval(row, sql) == d.value
    requires operand == Ident("this") ==> field != "id" && field != "metadata"
    requires TranslateJsonField(schema, sql, d.message, field, testOnly).Ok?
    ensures Faithful(row, schema, Select(operand, field, testOnly),
                     TranslateJsonField(schema, sql, d.message, field, testOnly).value)
  {
    JsonFieldDenotation(row, schema, operand, d, field, testOnly);
    JsonFieldTranslation(row, schema, sql, d.message, field, testOnly);
    assert operand != METADATA by { assert DocumentAt(row, schema, METADATA).None?; }
  }

  lemma JsonFieldTranslation(row: Row, schema: Schema, sql: Expr, message: string, field: string, testOnly: bool)
    requires TranslateJsonField(schema, sql, message, field, testOnly).Ok?
    ensures var tr := TranslateJsonField(schema, sql, message, field, testOnly).value;
      && !tr.kind.ThisKind? && !tr.kind.MdKind? && !tr.kind.NullKind? && tr.sql != Atom(Null)
      && (testOnly || (message in schema.messages && field in schema.messages[message]))
      && (tr.kind.JsonKind? <==> !testOnly && schema.messages[message][field] == MessageField(tr.desc))
      && Eval(row, tr.sql) == if testOnly then row.apply(HasKey, Eval(row, sql), FieldName(field))
           else DenoteScalar(row, Eval(row, sql), field, schema.messages[message][field])
  {
    if testOnly {
      OperatorMeaning(row, HasKey, sql, field);
    } else {
      OperatorMeaning(row, JsonGet, sql, field);
      OperatorMeaning(row, JsonText, sql, field);
      var tr := TranslateJsonField(schema, sql, message, field, testOnly).value;
      var text := Binary(JsonText, sql, FieldText(field));
      if tr.sql.CastAs? {
        assert Eval(row, tr.sql) == row.cast(Eval(row, text), tr.sql.target);
      }
    }
  }

  lemma OperatorMeaning(row: Row, op: Operator, sql: Expr, field: string)
    requires op == HasKey || op == JsonGet || op == JsonText
    ensures Eval(row, Binary(op, sql, FieldText(field))) == row.apply(op, Eval(row, sql), FieldName(field))
  {
  }

  lemma JsonFieldDenotation(row: Row, schema: Schema, operand: Cel, d: Document, field: string, testOnly: bool)
    requires DocumentAt(row, schema, operand) == Some(d)
    requires operand == Ident("this") ==> field != "id" && field != "metadata"
    requires testOnly || (d.message in schema.messages && field in schema.messages[d.message])
    ensures Denote(row, schema, Select(operand, field, testOnly))
         == if testOnly then row.apply(HasKey, d.value, FieldName(field))
            else DenoteScalar(row, d.value, field, schema.messages[d.message][field])
    ensures DocumentAt(row, schema, Select(operand, field, testOnly))
         == if !testOnly && schema.messages[d.message][field].MessageField?
            then Some(Document(row.apply(JsonGet, d.value, FieldName(field)), schema.messages[d.message][field].message))
            else None
  {
  }

  lemma BinaryFaithful(row: Row, schema: Schema, op: BinaryOp, left: Cel, right: Cel, l: Translation, r: Translation)
    requires Faithful(row, schema, left, l) && Faithful(row, schema, right, r)
    requires IsArithmetic(op) ==> SourceOfKind(l) == Plain
    ensures Faithful(row, schema, BinaryCall(op, left, right), TranslateBinary(op, l, r))
  {
    if IsEquality(op) && l.kind.NullKind? {
      NullTestFaithful(row, op, r, l);
    } else if IsEquality(op) && r.kind.NullKind? {
      NullTestFaithful(row, op, l, r);
    } else {
      OperatorFaithful(row, op, l, r);
    }
  }

  lemma OperandFaithful(row: Row, tr: Translation, precedence: int)
    ensures Complete(Operand(tr, precedence)) <==> Complete(tr.sql)
    ensures Eval(row, Operand(tr, precedence)) == Eval(row, tr.sql)
  {
  }

  lemma NullTestFaithful(row: Row, op: BinaryOp, first: Translation, second: Translation)
    requires IsEquality(op)
    ensures var e := IsTest(Operand(first, IS_PRECEDENCE), op.NotEqualsOp?, Operand(second, IS_PRECEDENCE));
      && (Complete(e) ==> Complete(first.sql) && second.sql == Atom(Null))
      && (Complete(e) ==> Eval(row, e) == NullComparison(op, Eval(row, first.sql)))
  {
    OperandFaithful(row, first, IS_PRECEDENCE);
  }

  lemma OperatorFaithful(row: Row, op: BinaryOp, l: Translation, r: Translation)
    ensures var tr := TranslateOperator(op, l, r);
      && (Complete(tr.sql) ==> Complete(l.sql) && Complete(r.sql))
      && Eval(row, tr.sql) == DenoteOperator(row, op, Eval(row, l.sql), Eval(row, r.sql))
      && tr.sql != Atom(Null)
  {
    OperandFaithful(row, l, Precedence(op));
    OperandFaithful(row, r, Precedence(op));
  }

  lemma {:induction false} InFaithful(row: Row, schema: Schema, key: Cel, container: Cel)
    requires Translate(schema, InCall(key, container)).Ok? && Safe(schema, InCall(key, container))
    ensures Faithful(row, schema, InCall(key, container), Translate(schema, InCall(key, container)).value)
    decreases InCall(key, container), 0
  {
    TranslateFaithful(row, schema, key);
    var k := Translate(schema, key).value;
    if container.List? {
      ItemsFaithful(row, schema, container.elements);
      InListFaithful(row, k, TranslateItems(container.elements).value);
      AmongMeaning(row, Denote(row, schema, key), DenoteAll(row, schema, container.elements));
    } else {
      InFieldTranslation(schema, key, container);
      TranslateFaithful(row, schema, container);
      InFieldFaithful(row, schema, key, container, k, Translate(schema, container).value);
    }
  }

  lemma InFieldFaithful(row: Row, schema: Schema, key: Cel, container: Cel, k: Translation, c: Translation)
    requires container.Select?
    requires Faithful(row, schema, key, k) && Faithful(row, schema, container, c)
    ensures Faithful(row, schema, InCall(key, container),
                     Translation(Binary(ContainsAll, c.sql, ArrayOf(k.sql)), IN_PRECEDENCE, NullKind, ""))
  {
    CompleteBinary(ContainsAll, c.sql, ArrayOf(k.sql));
  }

  lemma InListFaithful(row: Row, key: Translation, items: seq<Expr>)
    ensures var e := InList(Operand(key, IN_PRECEDENCE), items);
      && (Complete(e) ==> Complete(key.sql))
      && Eval(row, e) == Among(row, Eval(row, key.sql), EvalList(row, items))
  {
    OperandFaithful(row, key, IN_PRECEDENCE);
  }

  lemma {:induction false} ItemsFaithful(row: Row, schema: Schema, elements: seq<Cel>)
    requires TranslateItems(elements).Ok?
    requires forall i :: 0 <= i < |elements| ==> Safe(schema, elements[i])
    ensures EvalList(row, TranslateItems(elements).value) == DenoteAll(row, schema, elements)
  {
    if elements != [] {
      LiteralFaithful(row, schema, elements[0]);
      ItemsFaithful(row, schema, elements[1..]);
      assert TranslateItems(elements).value[1..] == TranslateItems(elements[1..]).value;
    }
  }

  lemma MatchFaithful(row: Row, schema: Schema, kind: SqlText.MatchKind, target: Cel, text: string)
    requires Translate(schema, target).Ok? && SqlText.PatternSafe(text)
    requires Faithful(row, schema, target, Translate(schema, target).value)
    ensures var e := MatchCall(kind, target, StringLiteral(text));
      Translate(schema, e).Ok? && Faithful(row, schema, e, Translate(schema, e).value)
  {
    var tr := Translate(schema, target).value;
    var sql := Binary(Like, Operand(tr, IN_PRECEDENCE), Atom(Text(SqlText.PatternLiteral(kind, text))));
    MatchTranslation(schema, kind, target, text);
    MatchDenotation(row, schema, kind, target, text);
    LikeFaithful(row, tr, SqlText.PatternLiteral(kind, text));
    PatternMeaning(kind, Eval(row, tr.sql), text);
  }

  lemma MatchTranslation(schema: Schema, kind: SqlText.MatchKind, target: Cel, text: string)
    requires Translate(schema, target).Ok?
    ensures Translate(schema, MatchCall(kind, target, StringLiteral(text)))
         == Ok(Translation(Binary(Like, Operand(Translate(schema, target).value, IN_PRECEDENCE),
                                  Atom(Text(SqlText.PatternLiteral(kind, text)))),
                           IN_PRECEDENCE, BooleanKind, ""))
  {
  }

  lemma MatchDenotation(row: Row, schema: Schema, kind: SqlText.MatchKind, target: Cel, text: string)
    ensures var e := MatchCall(kind, target, StringLiteral(text));
      && Denote(row, schema, e) == DenoteMatch(kind, Denote(row, schema, target), Characters(text))
      && DocumentAt(row, schema, e).None?
  {
  }

  lemma LikeFaithful(row: Row, tr: Translation, pattern: string)
    ensures var sql := Binary(Like, Operand(tr, IN_PRECEDENCE), Atom(Text(pattern)));
      && (Complete(sql) ==> Complete(tr.sql))
      && Eval(row, sql) == Matches(Eval(row, tr.sql), Constant(pattern))
  {
    OperandFaithful(row, tr, IN_PRECEDENCE);
    CompleteBinary(Like, Operand(tr, IN_PRECEDENCE), Atom(Text(pattern)));
  }

  lemma PatternMeaning(kind: SqlText.MatchKind, subject: Value, text: string)
    requires SqlText.PatternSafe(text)
    ensures Matches(subject, Constant(SqlText.PatternLiteral(kind, text)))
         == DenoteMatch(kind, subject, Characters(text))
  {
    SqlText.PatternExact(kind, text, "");
    var literal := SqlText.PatternLiteral(kind, text);
    assert literal + "" == literal;
    var characters := if subject.Characters? then subject.text else "";
    assert SqlText.PatternAgrees(kind, text, "", characters);
  }

  /* ---------- Main results ---------- */

  /** The text of a filter. */
  function FilterText(schema: Schema, e: Cel): (r: Result<seq<Token>, Error>) {
    var tr :- Translate(schema, e);
    Ok(Flat(tr.sql))
  }

  /**
   The text of a filter is read back as the tree that was written, up to the association of 'and' and 'or', exactly
   when the filter is adequate.
   */
  lemma TextReadsBack(schema: Schema, e: Cel)
    requires Translate(schema, e).Ok?
    ensures ReadsBack(Translate(schema, e).value.sql) <==> Adequate(schema, e)
  {
    ReadsBackExactly(Translate(schema, e).value.sql);
    AdequateExactly(schema, e);
  }

  /** The text of a filter means, on every row, what the filter means. */
  lemma TextMeansFilter(row: Row, schema: Schema, e: Cel)
    requires SourceOf(schema, e).Some? && Adequate(schema, e) && Safe(schema, e)
    ensures FilterText(schema, e).Ok?
    ensures TextMeaning(row, FilterText(schema, e).value) == Some(Denote(row, schema, e))
  {
    AdequateExactly(schema, e);
    var tr := Translate(schema, e).value;
    ReadsBackMeaning(row, tr.sql);
    WellFormedIsComplete(LeftAssociated(tr.sql));
    LeftAssociatedComplete(tr.sql);
    TranslateFaithful(row, schema, e);
  }
}
