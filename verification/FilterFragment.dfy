/**
 A readable class of filters that are adequate, and filters outside of it for which the translator does not write the
 parentheses that PostgreSQL needs.
 */
module FilterFragment {
  import opened Wrappers
  import opened SqlGrammar
  import opened SqlMeaning
  import opened FilterAdequacy
  import opened FilterTranslator
  import opened FilterMeaning
  import SqlText

  /** A chain of selections that starts at 'this'. */
  predicate IsPath(e: Cel) {
    e == Ident("this") || (e.Select? && !e.testOnly && IsPath(e.operand))
  }

  predicate IsField(schema: Schema, e: Cel) {
    e.Select? && IsPath(e.operand) && SourceOf(schema, e).Some? && SourceOf(schema, e) != Some(Meta)
  }

  /** An operand of arithmetic: a scalar that isn't written as a bare JSON operator. */
  predicate IsTerm(schema: Schema, e: Cel) {
    match e
    case BoolLiteral(_) | IntLiteral(_) | StringLiteral(_) => true
    case Ident(name) => name == "now"
    case Select(_, _, testOnly) => !testOnly && IsField(schema, e) && Left(schema, e) == ATOM_LEVEL
    case BinaryCall(op, left, right) =>
      && IsArithmetic(op)
      && IsTerm(schema, left)
      && IsTerm(schema, right)
      && (right.BinaryCall? ==> Precedence(right.op) != Precedence(op))
    case _ => false
  }

  /** A term or any field. */
  predicate IsValue(schema: Schema, e: Cel) {
    IsTerm(schema, e) || (IsField(schema, e) && !e.testOnly)
  }

  /** The conditions that can be compared: all but the ones that are comparisons, null tests or memberships. */
  predicate IsComparable(schema: Schema, e: Cel) {
    match e
    case BinaryCall(op, _, _) => op.LogicalAndOp? || op.LogicalOrOp?
    case Select(_, _, _) => Left(schema, e) > COMPARISON_LEVEL
    case InCall(_, _) => false
    case _ => true
  }

  /** The filters that combine presence, null, membership, pattern and comparison tests. */
  predicate IsCondition(schema: Schema, e: Cel) {
    match e
    case BoolLiteral(_) => true
    case Select(_, _, _) => IsField(schema, e)
    case NotCall(negated) => IsCondition(schema, negated)
    case BinaryCall(op, left, right) =>
      if op.LogicalAndOp? || op.LogicalOrOp? then IsCondition(schema, left) && IsCondition(schema, right)
      else if IsArithmetic(op) then false
      else
        || (IsEquality(op) && IsValue(schema, left) && right == NullLiteral)
        || (IsEquality(op) && left == NullLiteral && IsValue(schema, right))
        || (&& (IsValue(schema, left) || (IsCondition(schema, left) && IsComparable(schema, left)))
            && (IsValue(schema, right) || (IsCondition(schema, right) && IsComparable(schema, right))))
    case InCall(key, List(elements)) => IsValue(schema, key) && elements != [] && AreLiterals(elements)
    case InCall(key, container) => IsValue(schema, key) && IsField(schema, container) && !container.testOnly
    case MatchCall(_, target, pattern) => IsValue(schema, target) && pattern.StringLiteral?
    case _ => false
  }

  /** What the text of a filter shows at its ends. */
  ghost predicate Shows(schema: Schema, e: Cel, left: nat, right: int) {
    Adequate(schema, e) && left <= Left(schema, e) && right <= Right(schema, e)
  }

  lemma {:induction false} PathShows(schema: Schema, e: Cel)
    requires IsPath(e) && SourceOf(schema, e).Some?
    ensures SourceOf(schema, e) != Some(Nulls)
    ensures SourceOf(schema, e) != Some(Whole) && SourceOf(schema, e) != Some(Meta) ==>
              Shows(schema, e, JSON_LEVEL, JSON_LEVEL)
  {
    if e.Select? {
      PathShows(schema, e.operand);
    }
  }

  lemma FieldShows(schema: Schema, e: Cel)
    requires IsField(schema, e)
    ensures SourceOf(schema, e) != Some(Nulls) && Recorded(schema, e) == MAX_PRECEDENCE
    ensures Shows(schema, e, COMPARISON_LEVEL, COMPARISON_LEVEL - 1)
    ensures !e.testOnly || Left(schema, e) > COMPARISON_LEVEL ==> Shows(schema, e, JSON_LEVEL, JSON_LEVEL)
    ensures Left(schema, e) == ATOM_LEVEL ==> Shows(schema, e, ATOM_LEVEL, TOP_LEVEL)
  {
    PathShows(schema, e.operand);
  }

  lemma {:induction false} TermShows(schema: Schema, e: Cel)
    requires IsTerm(schema, e)
    ensures SourceOf(schema, e).Some? && SourceOf(schema, e) != Some(Nulls)
    ensures if e.BinaryCall? then Recorded(schema, e) == Precedence(e.op) && Shows(schema, e, Precedence(e.op), Precedence(e.op))
            else Recorded(schema, e) == MAX_PRECEDENCE && Shows(schema, e, ATOM_LEVEL, TOP_LEVEL)
  {
    if e.Select? {
      FieldShows(schema, e);
    } else if e.BinaryCall? {
      TermShows(schema, e.left);
      TermShows(schema, e.right);
      OperatorAdequacy(schema, e.op, e.left, e.right);
    }
  }

  lemma ValueShows(schema: Schema, e: Cel)
    requires IsValue(schema, e)
    ensures SourceOf(schema, e).Some? && SourceOf(schema, e) != Some(Nulls)
    ensures Recorded(schema, e) >= IS_PRECEDENCE && Shows(schema, e, JSON_LEVEL, JSON_LEVEL)
  {
    if IsTerm(schema, e) {
      TermShows(schema, e);
    } else {
      FieldShows(schema, e);
    }
  }

  /** What the text of a condition shows, by the precedence that is recorded for it. */
  ghost predicate ShowsCondition(schema: Schema, e: Cel) {
    var p := Recorded(schema, e);
    && SourceOf(schema, e).Some?
    && (p < NOT_PRECEDENCE ==> 0 <= p && Shows(schema, e, p, p))
    && (p == NOT_PRECEDENCE ==> Shows(schema, e, NOT_LEVEL, NOT_LEVEL - 1))
    && (p > NOT_PRECEDENCE ==> Shows(schema, e, IS_LEVEL, IS_LEVEL))
  }

  lemma {:induction false} ConditionShows(schema: Schema, e: Cel)
    requires IsCondition(schema, e)
    ensures ShowsCondition(schema, e)
  {
    match e {
      case BoolLiteral(_) =>
      case Select(_, _, _) => FieldShows(schema, e);
      case NotCall(negated) => ConditionShows(schema, negated);
      case BinaryCall(op, left, right) =>
        if op.LogicalAndOp? || op.LogicalOrOp? {
          ConditionShows(schema, left);
          ConditionShows(schema, right);
          LogicShows(schema, op, left, right);
        } else if IsEquality(op) && IsValue(schema, left) && right == NullLiteral {
          NullTestShows(schema, op, left);
        } else if IsEquality(op) && left == NullLiteral && IsValue(schema, right) {
          NullTestShows(schema, op, right);
        } else {
          if !IsValue(schema, left) { ConditionShows(schema, left); }
          if !IsValue(schema, right) { ConditionShows(schema, right); }
          OperandShows(schema, left);
          OperandShows(schema, right);
          ComparisonShows(schema, op, left, right);
        }
      case InCall(key, container) =>
        ValueShows(schema, key);
        if !container.List? {
          FieldShows(schema, container);
        }
      case MatchCall(_, target, _) => ValueShows(schema, target);
    }
  }

  lemma LogicShows(schema: Schema, op: BinaryOp, left: Cel, right: Cel)
    requires op.LogicalAndOp? || op.LogicalOrOp?
    requires ShowsCondition(schema, left) && ShowsCondition(schema, right)
    ensures ShowsCondition(schema, BinaryCall(op, left, right))
  {
    OperatorAdequacy(schema, op, left, right);
  }

  lemma NullTestShows(schema: Schema, op: BinaryOp, value: Cel)
    requires IsEquality(op) && IsValue(schema, value)
    ensures ShowsCondition(schema, BinaryCall(op, value, NullLiteral))
    ensures ShowsCondition(schema, BinaryCall(op, NullLiteral, value))
  {
    ValueShows(schema, value);
    NullTestAdequacy(schema, op, value, NullLiteral);
    NullTestAdequacy(schema, op, NullLiteral, value);
  }

  /** What an operand of a comparison shows, with the parentheses that it gets. */
  ghost predicate ShowsOperand(schema: Schema, e: Cel) {
    && SourceOf(schema, e).Some? && SourceOf(schema, e) != Some(Nulls) && Adequate(schema, e)
    && COMPARISON_LEVEL < OperandLeft(schema, e, COMPARISON_PRECEDENCE)
    && COMPARISON_LEVEL <= OperandRight(schema, e, COMPARISON_PRECEDENCE)
  }

  lemma OperandShows(schema: Schema, e: Cel)
    requires IsValue(schema, e) || (IsCondition(schema, e) && IsComparable(schema, e) && ShowsCondition(schema, e))
    ensures ShowsOperand(schema, e)
  {
    if IsValue(schema, e) {
      ValueShows(schema, e);
    } else if e.Select? {
      FieldShows(schema, e);
    } else if e.MatchCall? {
      ValueShows(schema, e.target);
      assert JSON_LEVEL <= OperandLeft(schema, e.target, IN_PRECEDENCE);
      assert Left(schema, e) == IN_LEVEL;
    } else if e.NotCall? || e.BinaryCall? {
      assert Recorded(schema, e) < COMPARISON_PRECEDENCE;
    }
  }

  lemma ComparisonShows(schema: Schema, op: BinaryOp, left: Cel, right: Cel)
    requires Precedence(op) == COMPARISON_PRECEDENCE
    requires ShowsOperand(schema, left) && ShowsOperand(schema, right)
    ensures ShowsCondition(schema, BinaryCall(op, left, right))
  {
    OperatorAdequacy(schema, op, left, right);
  }

  /** Conditions are translated and read back as they were written. */
  lemma ConditionReadsBack(schema: Schema, e: Cel)
    requires IsCondition(schema, e)
    ensures SourceOf(schema, e).Some? && Adequate(schema, e)
    ensures Translate(schema, e).Ok? && ReadsBack(Translate(schema, e).value.sql)
  {
    ConditionShows(schema, e);
    AdequateExactly(schema, e);
    TextReadsBack(schema, e);
  }

  /** Conditions whose strings survive mean on every row what the CEL expression means. */
  lemma ConditionMeaning(row: Row, schema: Schema, e: Cel)
    requires IsCondition(schema, e) && Safe(schema, e)
    ensures FilterText(schema, e).Ok?
    ensures TextMeaning(row, FilterText(schema, e).value) == Some(Denote(row, schema, e))
  {
    ConditionReadsBack(schema, e);
    TextMeansFilter(row, schema, e);
  }

  // Filters for which the property fails

  /** A row in which subtraction is subtraction of integers. */
  function Integers(): Row {
    Row(_ => NullValue, _ => NullValue,
        (op, a: Value, b: Value) => if op == Sub && a.Datum? && b.Datum? then Datum(a.code - b.code) else NullValue,
        (v, _) => v, v => v)
  }

  function Subtraction(x: int, y: int, z: int): (e: Cel) {
    BinaryCall(SubtractOp, IntLiteral(x), BinaryCall(SubtractOp, IntLiteral(y), IntLiteral(z)))
  }

  function SubtractionSql(x: int, y: int, z: int): (e: Expr) {
    Binary(Sub, Atom(Number(x)), Binary(Sub, Atom(Number(y)), Atom(Number(z))))
  }

  /** 'x - (y - z)' loses its parentheses and is read as '(x - y) - z': another value, unless 'z' is zero. */
  lemma SubtractionReassociates(schema: Schema, x: int, y: int, z: int)
    ensures FilterText(schema, Subtraction(x, y, z)).Ok? && !Adequate(schema, Subtraction(x, y, z))
    ensures Denote(Integers(), schema, Subtraction(x, y, z)) == Datum(x - (y - z))
    ensures TextMeaning(Integers(), FilterText(schema, Subtraction(x, y, z)).value) == Some(Datum(x - y - z))
  {
    SubtractionText(schema, x, y, z);
    SubtractionRead(x, y, z);
    SubtractionValue(schema, x, y, z);
    AdequateExactly(schema, Subtraction(x, y, z));
    TextOf(schema, Subtraction(x, y, z), SubtractionSql(x, y, z));
  }

  lemma TextOf(schema: Schema, e: Cel, sql: Expr)
    requires Translate(schema, e).Ok? && Translate(schema, e).value.sql == sql
    ensures FilterText(schema, e) == Ok(Flat(sql))
  {
  }

  lemma SubtractionValue(schema: Schema, x: int, y: int, z: int)
    ensures Denote(Integers(), schema, Subtraction(x, y, z)) == Datum(x - (y - z))
  {
    SubtractionDenotes(schema, IntLiteral(y), IntLiteral(z));
    SubtractionDenotes(schema, IntLiteral(x), Subtraction(x, y, z).right);
  }

  lemma SubtractionText(schema: Schema, x: int, y: int, z: int)
    ensures Translate(schema, Subtraction(x, y, z)).Ok?
    ensures Translate(schema, Subtraction(x, y, z)).value.sql == SubtractionSql(x, y, z)
  {
    BinaryTranslation(schema, SubtractOp, IntLiteral(y), IntLiteral(z));
    BinaryTranslation(schema, SubtractOp, IntLiteral(x), Subtraction(x, y, z).right);
  }

  lemma SubtractionRead(x: int, y: int, z: int)
    ensures !WellFormed(LeftAssociated(SubtractionSql(x, y, z)))
    ensures TextMeaning(Integers(), Flat(SubtractionSql(x, y, z))) == Some(Datum(x - y - z))
  {
    var a, b, c := Atom(Number(x)), Atom(Number(y)), Atom(Number(z));
    RotatedSubtraction(a, b, c);
    SubtractionEvaluates(a, b);
    SubtractionEvaluates(Binary(Sub, a, b), c);
  }

  lemma SubtractionDenotes(schema: Schema, a: Cel, b: Cel)
    requires Denote(Integers(), schema, a).Datum? && Denote(Integers(), schema, b).Datum?
    ensures Denote(Integers(), schema, BinaryCall(SubtractOp, a, b))
         == Datum(Denote(Integers(), schema, a).code - Denote(Integers(), schema, b).code)
  {
  }

  lemma SubtractionEvaluates(a: Expr, b: Expr)
    requires Eval(Integers(), a).Datum? && Eval(Integers(), b).Datum?
    ensures Eval(Integers(), Binary(Sub, a, b)) == Datum(Eval(Integers(), a).code - Eval(Integers(), b).code)
  {
  }

  lemma RotatedSubtraction(a: Expr, b: Expr, c: Expr)
    requires a.Atom? && b.Atom? && c.Atom? && WellFormed(a) && WellFormed(b) && WellFormed(c)
    ensures Parse(Flat(Binary(Sub, a, Binary(Sub, b, c)))) == Some(Binary(Sub, Binary(Sub, a, b), c))
    ensures !WellFormed(LeftAssociated(Binary(Sub, a, Binary(Sub, b, c))))
  {
    var read := Binary(Sub, Binary(Sub, a, b), c);
    assert Flat(read) == Flat(Binary(Sub, a, Binary(Sub, b, c)));
    assert LeftEdge(b) == LeftEdge(c) == ATOM_LEVEL;
    assert RightEdge(a) == TOP_LEVEL && Level(Sub) == 7 && RightEdge(Binary(Sub, a, b)) == 7;
    BinaryNode(Sub, a, b);
    BinaryNode(Sub, Binary(Sub, a, b), c);
    ParseExact(read);
  }

  const CREATION := Select(METADATA, "creation_timestamp", false)

  /** 'true == (this.metadata.creation_timestamp == null)' is read as a null test of a comparison. */
  lemma NullTestCaptures(schema: Schema)
    ensures var e := BinaryCall(EqualsOp, BoolLiteral(true), BinaryCall(EqualsOp, CREATION, NullLiteral));
      && !Adequate(schema, e)
      && FilterText(schema, e).Ok?
      && Parse(FilterText(schema, e).value)
         == Some(IsTest(Binary(Eq, Atom(Boolean(true)), Atom(Name("creation_timestamp"))), false, Atom(Null)))
  {
    var column, yes := Atom(Name("creation_timestamp")), Atom(Boolean(true));
    var inner := BinaryCall(EqualsOp, CREATION, NullLiteral);
    MetadataTranslation(schema, "creation_timestamp", false);
    BinaryTranslation(schema, EqualsOp, CREATION, NullLiteral);
    assert Translate(schema, inner).value.sql == IsTest(column, false, Atom(Null));
    BinaryTranslation(schema, EqualsOp, BoolLiteral(true), inner);
    var e := BinaryCall(EqualsOp, BoolLiteral(true), inner);
    var sql := Binary(Eq, yes, IsTest(column, false, Atom(Null)));
    assert Translate(schema, e).value.sql == sql;
    CapturedComparison(yes, column);
    AdequateExactly(schema, e);
    TextOf(schema, e, sql);
  }

  lemma MetadataTranslation(schema: Schema, field: string, testOnly: bool)
    ensures Translate(schema, Select(METADATA, field, testOnly)) == TranslateMdField(field, testOnly)
  {
    assert Translate(schema, Ident("this")).value.kind == ThisKind;
    assert Translate(schema, METADATA).value.kind == MdKind;
  }

  lemma CapturedComparison(a: Expr, b: Expr)
    requires a.Atom? && b.Atom? && WellFormed(a) && WellFormed(b)
    ensures Parse(Flat(Binary(Eq, a, IsTest(b, false, Atom(Null))))) == Some(IsTest(Binary(Eq, a, b), false, Atom(Null)))
    ensures !WellFormed(LeftAssociated(Binary(Eq, a, IsTest(b, false, Atom(Null)))))
  {
    var read := IsTest(Binary(Eq, a, b), false, Atom(Null));
    assert Flat(read) == Flat(Binary(Eq, a, IsTest(b, false, Atom(Null))));
    assert RightEdge(a) == TOP_LEVEL && LeftEdge(b) == ATOM_LEVEL && Level(Eq) == 4;
    BinaryNode(Eq, a, b);
    ParseExact(read);
  }

  function ComparedMembership(text: string): (e: Cel) {
    BinaryCall(EqualsOp, InCall(StringLiteral(text), Select(METADATA, "tenants", false)), BoolLiteral(true))
  }

  /** '("x" in this.metadata.tenants) == true' is written with the membership after 'is', which can't be read at all. */
  lemma ComparedMembershipIsUnreadable(schema: Schema, text: string)
    ensures FilterText(schema, ComparedMembership(text)).Ok? && !Adequate(schema, ComparedMembership(text))
    ensures Parse(FilterText(schema, ComparedMembership(text)).value).None?
  {
    var rest := MembershipText(schema, text);
    TestWithoutNull(rest);
    MembershipInadequate(schema, text);
  }

  lemma MembershipText(schema: Schema, text: string) returns (rest: seq<Token>)
    ensures FilterText(schema, ComparedMembership(text)) == Ok([Boolean(true), Is, Open] + rest)
  {
    var sql := MembershipTranslation(schema, text);
    var written := IsTest(Atom(Boolean(true)), false, Paren(sql));
    TextOf(schema, ComparedMembership(text), written);
    rest := Flat(sql) + [Close];
    assert Flat(written) == [Boolean(true), Is, Open] + rest;
  }

  lemma MembershipInadequate(schema: Schema, text: string)
    ensures !Adequate(schema, ComparedMembership(text))
  {
    var member := ComparedMembership(text).left;
    assert SourceOf(schema, Ident("this")) == Some(Whole) && SourceOf(schema, METADATA) == Some(Meta);
    assert SourceOf(schema, member) == Some(Nulls);
    NullTestAdequacy(schema, EqualsOp, member, BoolLiteral(true));
  }

  lemma MembershipTranslation(schema: Schema, text: string) returns (sql: Expr)
    ensures Translate(schema, ComparedMembership(text)).Ok?
    ensures Translate(schema, ComparedMembership(text)).value.sql == IsTest(Atom(Boolean(true)), false, Paren(sql))
  {
    var tenants := Select(METADATA, "tenants", false);
    var member := InCall(StringLiteral(text), tenants);
    MetadataTranslation(schema, "tenants", false);
    InFieldTranslation(schema, StringLiteral(text), tenants);
    BinaryTranslation(schema, EqualsOp, member, BoolLiteral(true));
    sql := Translate(schema, member).value.sql;
  }

  lemma TestWithoutNull(rest: seq<Token>)
    ensures Parse([Boolean(true), Is, Open] + rest).None?
  {
    var ts := [Boolean(true), Is, Open] + rest;
    assert ts[1..] == [Is, Open] + rest;
    assert ParsePrimary(ts) == Some(Parsed(Atom(Boolean(true)), ts[1..]));
    assert ParseIsTest(Atom(Boolean(true)), 0, ts[1..]).None?;
    assert RightEdge(Atom(Boolean(true))) == TOP_LEVEL && Next(ts[1..]) == IS_LEVEL;
    assert ParseMore(Atom(Boolean(true)), 0, ts[1..]).None?;
    assert ParseExpr(0, ts).None?;
  }

  /**
   'has(this.metadata.tenants)' is written as the column itself, which is no truth value, on every row in which the
   column is a text and '!=' compares it with the empty array.
   */
  lemma PresenceIsTheColumn(row: Row, schema: Schema, field: string)
    requires field == "creators" || field == "tenants"
    requires row.column(field).Characters? && row.apply(NotEq, row.column(field), Characters("{}")).Truth?
    ensures FilterText(schema, Select(METADATA, field, true)) == Ok([Name(field)])
    ensures TextMeaning(row, [Name(field)]) == Some(row.column(field))
    ensures Denote(row, schema, Select(METADATA, field, true)) == row.apply(NotEq, row.column(field), Characters("{}"))
    ensures TextMeaning(row, [Name(field)]) != Some(Denote(row, schema, Select(METADATA, field, true)))
  {
    PresenceText(schema, field);
    ColumnMeaning(row, field);
    PresenceDenotes(schema, field, row);
  }

  lemma PresenceText(schema: Schema, field: string)
    requires field == "creators" || field == "tenants"
    ensures FilterText(schema, Select(METADATA, field, true)) == Ok([Name(field)])
  {
    MetadataTranslation(schema, field, true);
    TextOf(schema, Select(METADATA, field, true), Atom(Name(field)));
  }

  lemma ColumnMeaning(row: Row, field: string)
    ensures TextMeaning(row, [Name(field)]) == Some(row.column(field))
  {
    var e := Atom(Name(field));
    assert Flat(e) == [Name(field)];
    ReadsBackMeaning(row, e);
  }

  lemma PresenceDenotes(schema: Schema, field: string, row: Row)
    requires field == "creators" || field == "tenants"
    ensures Denote(row, schema, Select(METADATA, field, true)) == row.apply(NotEq, row.column(field), Characters("{}"))
  {
    MdFieldIsNoDocument(row, schema, field, true);
  }
}
