/**
 The value of SQL expressions on one row. Logic, null tests, membership, pattern matching and string constants have
 their SQL meaning, with three-valued logic; columns, arithmetic, comparison, casts, JSON and array operators are given
 by the row and can be anything.
 */
module SqlMeaning {
  import opened Wrappers
  import opened SqlGrammar
  import SqlText

  /** 'Datum' stands for numbers, timestamps, documents and arrays; 'Failure' for an error of the statement. */
  datatype Value = NullValue | Truth(value: bool) | Characters(text: string) | Datum(code: int) | Failure

  datatype Row = Row(
    column: string -> Value,
    parameter: nat -> Value,
    apply: (Operator, Value, Value) -> Value,
    cast: (Value, string) -> Value,
    makeArray: Value -> Value)

  predicate Logical(v: Value) {
    v.NullValue? || v.Truth?
  }

  function Conjunction(a: Value, b: Value): (r: Value) {
    if !Logical(a) || !Logical(b) then Failure
    else if a == Truth(false) || b == Truth(false) then Truth(false)
    else if a.NullValue? || b.NullValue? then NullValue
    else Truth(true)
  }

  function Disjunction(a: Value, b: Value): (r: Value) {
    if !Logical(a) || !Logical(b) then Failure
    else if a == Truth(true) || b == Truth(true) then Truth(true)
    else if a.NullValue? || b.NullValue? then NullValue
    else Truth(false)
  }

  function Complement(a: Value): (r: Value) {
    if a.Truth? then Truth(!a.value) else if a.NullValue? then NullValue else Failure
  }

  function NullTest(a: Value): (r: Value) {
    if a.Failure? then Failure else Truth(a.NullValue?)
  }

  /** Membership is the disjunction of the equalities. */
  function Among(row: Row, key: Value, items: seq<Value>): (r: Value) {
    if items == [] then Truth(false)
    else Disjunction(row.apply(Eq, key, items[0]), Among(row, key, items[1..]))
  }

  function Matches(subject: Value, pattern: Value): (r: Value) {
    if subject.Characters? && pattern.Characters? then Truth(SqlText.LikeMatch(pattern.text, subject.text))
    else if subject.NullValue? && pattern.Characters? then NullValue
    else Failure
  }

  function Constant(text: string): (r: Value) {
    var scan := SqlText.ScanLiteral(text);
    if scan.Some? && scan.value.rest == "" then Characters(scan.value.value) else Failure
  }

  function AtomValue(row: Row, token: Token): (r: Value) {
    match token
    case Null => NullValue
    case Name(name) => row.column(name)
    case Number(number) => Datum(number)
    case Boolean(value) => Truth(value)
    case Text(text) => Constant(text)
    case Quoted(plain) => Characters(plain)
    case Parameter(index) => row.parameter(index)
    case _ => Failure
  }

  function Apply(row: Row, op: Operator, a: Value, b: Value): (r: Value) {
    match op
    case And => Conjunction(a, b)
    case Or => Disjunction(a, b)
    case Like => Matches(a, b)
    case _ => row.apply(op, a, b)
  }

  function Eval(row: Row, e: Expr): (r: Value) {
    match e
    case Missing => Failure
    case Atom(token) => AtomValue(row, token)
    case Paren(inner) => Eval(row, inner)
    case ArrayOf(item) => row.makeArray(Eval(row, item))
    case CastAs(value, target) => row.cast(Eval(row, value), target)
    case NullIfEqual(column, text) => NullWhenEqual(row, column, text)
    case Binary(op, left, right) => Apply(row, op, Eval(row, left), Eval(row, right))
    case Negation(operand) => Complement(Eval(row, operand))
    case IsTest(subject, negated, against) =>
      if against != Atom(Null) then Failure
      else if negated then Complement(NullTest(Eval(row, subject))) else NullTest(Eval(row, subject))
    case InList(key, items) => Among(row, Eval(row, key), EvalList(row, items))
  }

  function EvalList(row: Row, items: seq<Expr>): (r: seq<Value>)
    ensures |r| == |items|
  {
    if items == [] then [] else [Eval(row, items[0])] + EvalList(row, items[1..])
  }

  function NullWhenEqual(row: Row, column: string, text: string): (r: Value) {
    if row.apply(Eq, row.column(column), Characters(text)) == Truth(true) then NullValue else row.column(column)
  }

  /** The tables of three-valued logic: an unknown operand matters only where the other one doesn't decide. */
  lemma LogicTables(a: bool, b: bool)
    ensures Conjunction(Truth(a), Truth(b)) == Truth(a && b) && Disjunction(Truth(a), Truth(b)) == Truth(a || b)
    ensures Conjunction(Truth(a), NullValue) == Conjunction(NullValue, Truth(a)) == if a then NullValue else Truth(false)
    ensures Disjunction(Truth(a), NullValue) == Disjunction(NullValue, Truth(a)) == if a then Truth(true) else NullValue
    ensures Conjunction(NullValue, NullValue) == Disjunction(NullValue, NullValue) == Complement(NullValue) == NullValue
    ensures Complement(Truth(a)) == Truth(!a) && NullTest(Truth(a)) == Truth(false) && NullTest(NullValue) == Truth(true)
  {
  }

  lemma LogicAssociates(row: Row, op: Operator, a: Value, b: Value, c: Value)
    requires IsLogical(op)
    ensures Apply(row, op, Apply(row, op, a, b), c) == Apply(row, op, a, Apply(row, op, b, c))
  {
  }

  lemma {:induction false} JoinMeaning(row: Row, op: Operator, left: Expr, right: Expr)
    requires IsLogical(op)
    ensures Eval(row, Join(op, left, right)) == Apply(row, op, Eval(row, left), Eval(row, right))
    decreases right
  {
    if right.Binary? && right.op == op {
      JoinMeaning(row, op, left, right.left);
      LogicAssociates(row, op, Eval(row, left), Eval(row, right.left), Eval(row, right.right));
    }
  }

  /** The association of 'and' and 'or' doesn't matter. */
  lemma {:induction false} LeftAssociatedMeaning(row: Row, e: Expr)
    ensures Eval(row, LeftAssociated(e)) == Eval(row, e)
  {
    match e {
      case Binary(op, left, right) =>
        LeftAssociatedMeaning(row, left);
        LeftAssociatedMeaning(row, right);
        if IsLogical(op) {
          JoinMeaning(row, op, LeftAssociated(left), LeftAssociated(right));
        }
      case Paren(inner) => LeftAssociatedMeaning(row, inner);
      case ArrayOf(item) => LeftAssociatedMeaning(row, item);
      case CastAs(value, _) => LeftAssociatedMeaning(row, value);
      case Negation(operand) => LeftAssociatedMeaning(row, operand);
      case IsTest(subject, _, against) =>
        LeftAssociatedMeaning(row, subject);
        AgainstNull(against);
      case InList(key, items) =>
        LeftAssociatedMeaning(row, key);
        AllLeftAssociatedMeaning(row, items);
      case _ =>
    }
  }

  lemma AgainstNull(e: Expr)
    ensures LeftAssociated(e) == Atom(Null) <==> e == Atom(Null)
  {
  }

  lemma {:induction false} AllLeftAssociatedMeaning(row: Row, items: seq<Expr>)
    ensures EvalList(row, AllLeftAssociated(items)) == EvalList(row, items)
  {
    if items != [] {
      LeftAssociatedMeaning(row, items[0]);
      AllLeftAssociatedMeaning(row, items[1..]);
      assert AllLeftAssociated(items)[1..] == AllLeftAssociated(items[1..]);
    }
  }

  /** What a text means: the value of its only reading. */
  function TextMeaning(row: Row, ts: seq<Token>): (r: Option<Value>) {
    var e := Parse(ts);
    if e.Some? then Some(Eval(row, e.value)) else None
  }

  /** Text that lacks no parentheses means what the tree that was written means. */
  lemma ReadsBackMeaning(row: Row, e: Expr)
    requires WellFormed(LeftAssociated(e))
    ensures TextMeaning(row, Flat(e)) == Some(Eval(row, e))
  {
    ReadsBackExactly(e);
    LeftAssociatedMeaning(row, e);
  }
}
