/**
 Which filters get all the parentheses that PostgreSQL needs, said on the CEL expression: the kinds of the fields, the
 precedence that the translator records for each node, and the precedence in PostgreSQL of what stays visible at the
 two ends of its text.
 */
module FilterAdequacy {
  import opened Wrappers
  import opened SqlGrammar
  import opened FilterTranslator
  import SqlText

  /** What an expression stands for to the translator: something to select from, something null, or a plain value. */
  datatype Source = Whole | Meta | Json(message: string) | Nulls | Plain

  const JSON_LEVEL := 6
  const COMPARISON_LEVEL := 4

  // What is translated

  /** The source of an expression, or nothing when the translator rejects it. */
  function SourceOf(schema: Schema, e: Cel): (s: Option<Source>) {
    match e
    case Ident(name) => if name == "this" then Some(Whole) else if name == "now" then Some(Plain) else None
    case NullLiteral => Some(Nulls)
    case BoolLiteral(_) | IntLiteral(_) | StringLiteral(_) => Some(Plain)
    case OtherLiteral | List(_) | OtherCall => None
    case Select(operand, field, testOnly) => FieldSource(schema, SourceOf(schema, operand), field, testOnly)
    case BinaryCall(op, left, right) =>
      var l, r := SourceOf(schema, left), SourceOf(schema, right);
      if l.None? || r.None? then None
      else if !IsArithmetic(op) then Some(Plain)
      else if l.value.Json? then Some(Json("")) else l
    case NotCall(negated) => if SourceOf(schema, negated).Some? then Some(Plain) else None
    case InCall(key, container) =>
      if SourceOf(schema, key).None? then None
      else if container.List? then if AreLiterals(container.elements) then Some(Nulls) else None
      else if container.Select? && SourceOf(schema, container).Some? then Some(Nulls) else None
    case MatchCall(_, target, pattern) =>
      if SourceOf(schema, target).Some? && pattern.StringLiteral? then Some(Plain) else None
  }

  predicate AreLiterals(elements: seq<Cel>) {
    forall i :: 0 <= i < |elements| ==> IsLiteral(elements[i]) && !elements[i].OtherLiteral?
  }

  function FieldSource(schema: Schema, operand: Option<Source>, field: string, testOnly: bool): (s: Option<Source>) {
    match operand
    case Some(Whole) =>
      if field == "id" then Some(Plain)
      else if field == "metadata" then Some(if testOnly then Plain else Meta)
      else JsonSource(schema, schema.root, field, testOnly)
    case Some(Meta) =>
      if field in {"creation_timestamp", "deletion_timestamp", "creators", "tenants"} then Some(Plain) else None
    case Some(Json(message)) => JsonSource(schema, message, field, testOnly)
    case _ => None
  }

  function JsonSource(schema: Schema, message: string, field: string, testOnly: bool): (s: Option<Source>) {
    if testOnly then Some(Plain)
    else if message !in schema.messages || field !in schema.messages[message] then None
    else match schema.messages[message][field]
      case OtherField => None
      case MessageField(inner) => Some(Json(inner))
      case _ => Some(Plain)
  }

  // What stays visible at the ends of the text

  /** An equality that is written as a null test. */
  predicate IsNullTest(schema: Schema, e: Cel) {
    e.BinaryCall? && (e.op.EqualsOp? || e.op.NotEqualsOp?)
    && (SourceOf(schema, e.left) == Some(Nulls) || SourceOf(schema, e.right) == Some(Nulls))
  }

  /** The operand that is tested for null, and the one that is written after 'is'. */
  function Tested(schema: Schema, left: Cel, right: Cel): (operands: (Cel, Cel)) {
    if SourceOf(schema, left) == Some(Nulls) then (right, left) else (left, right)
  }

  /** The precedence that the translator records. */
  function Recorded(schema: Schema, e: Cel): (precedence: int) {
    match e
    case BinaryCall(op, _, _) => if IsNullTest(schema, e) then IS_PRECEDENCE else Precedence(op)
    case NotCall(_) => NOT_PRECEDENCE
    case InCall(_, _) | MatchCall(_, _, _) => IN_PRECEDENCE
    case _ => MAX_PRECEDENCE
  }

  /** Fields that are written as a bare JSON operator, without a cast around it. */
  predicate IsBare(schema: Schema, message: string, field: string, testOnly: bool) {
    testOnly
    || (message in schema.messages && field in schema.messages[message]
        && var kind := schema.messages[message][field]; kind.StringField? || kind.MessageField?)
  }

  /** The level of the loosest operator that is visible from the left. */
  function Left(schema: Schema, e: Cel): (level: nat)
    decreases e, 0
  {
    match e
    case Select(operand, field, testOnly) =>
      (match SourceOf(schema, operand)
       case Some(Whole) =>
         if field != "id" && field != "metadata" && IsBare(schema, schema.root, field, testOnly) then JSON_LEVEL
         else ATOM_LEVEL
       case Some(Meta) => if field == "deletion_timestamp" && testOnly then COMPARISON_LEVEL else ATOM_LEVEL
       case Some(Json(message)) =>
         if IsBare(schema, message, field, testOnly) then Min(JSON_LEVEL, Left(schema, operand)) else ATOM_LEVEL
       case _ => ATOM_LEVEL)
    case BinaryCall(op, left, right) =>
      if IsNullTest(schema, e) then
        Min(IS_LEVEL, if SourceOf(schema, left) == Some(Nulls) then OperandLeft(schema, right, IS_PRECEDENCE)
                      else OperandLeft(schema, left, IS_PRECEDENCE))
      else Min(Level(SqlOperator(op)), OperandLeft(schema, left, Precedence(op)))
    case NotCall(_) => NOT_LEVEL
    case InCall(key, container) =>
      if container.List? then Min(IN_LEVEL, OperandLeft(schema, key, IN_PRECEDENCE))
      else Min(JSON_LEVEL, Left(schema, container))
    case MatchCall(_, target, _) => Min(IN_LEVEL, OperandLeft(schema, target, IN_PRECEDENCE))
    case _ => ATOM_LEVEL
  }

  /** The same for an operand, which the translator encloses in parentheses when it is looser in its own table. */
  function OperandLeft(schema: Schema, e: Cel, precedence: int): (level: nat)
    decreases e, 1
  {
    if Recorded(schema, e) < precedence then ATOM_LEVEL else Left(schema, e)
  }

  /** The level of the tightest operator that can follow and take all of the text as its left operand. */
  function Right(schema: Schema, e: Cel): (level: int) {
    match e
    case Select(operand, field, testOnly) =>
      (match SourceOf(schema, operand)
       case Some(Whole) =>
         if field != "id" && field != "metadata" && IsBare(schema, schema.root, field, testOnly) then JSON_LEVEL
         else TOP_LEVEL
       case Some(Meta) => if field == "deletion_timestamp" && testOnly then COMPARISON_LEVEL - 1 else TOP_LEVEL
       case Some(Json(message)) => if IsBare(schema, message, field, testOnly) then JSON_LEVEL else TOP_LEVEL
       case _ => TOP_LEVEL)
    case BinaryCall(op, _, _) =>
      if IsNullTest(schema, e) then TOP_LEVEL
      else if Precedence(op) == COMPARISON_PRECEDENCE then COMPARISON_LEVEL - 1 else Level(SqlOperator(op))
    case NotCall(_) => NOT_LEVEL - 1
    case InCall(_, container) => if container.List? then TOP_LEVEL else JSON_LEVEL
    case MatchCall(_, _, _) => IN_LEVEL - 1
    case _ => TOP_LEVEL
  }

  function OperandRight(schema: Schema, e: Cel, precedence: int): (level: int) {
    if Recorded(schema, e) < precedence then TOP_LEVEL else Right(schema, e)
  }

  // Adequacy

  /**
   Every node of the filter has the parentheses that it needs. A right operand has to be tighter than its operator,
   except that chains of 'and' and of 'or' may go on; what is compared with null may not be a membership; and lists
   are not empty.
   */
  predicate Adequate(schema: Schema, e: Cel) {
    match e
    case Ident(name) => name != "this"
    case Select(operand, field, testOnly) =>
      (match SourceOf(schema, operand)
       case Some(Whole) => field != "metadata" || testOnly
       case Some(Json(_)) => Adequate(schema, operand) && JSON_LEVEL <= Right(schema, operand)
       case _ => true)
    case BinaryCall(op, left, right) =>
      Adequate(schema, left) && Adequate(schema, right)
      && if IsNullTest(schema, e) then
           var (subject, against) := Tested(schema, left, right);
           IS_LEVEL <= OperandRight(schema, subject, IS_PRECEDENCE) && against == NullLiteral
         else
           var (level, p) := (Level(SqlOperator(op)), Precedence(op));
           && level <= OperandRight(schema, left, p)
           && if IsLogical(SqlOperator(op)) then level <= OperandLeft(schema, right, p)
              else level < OperandLeft(schema, right, p)
    case NotCall(negated) => Adequate(schema, negated) && NOT_LEVEL <= OperandLeft(schema, negated, NOT_PRECEDENCE)
    case InCall(key, container) =>
      Adequate(schema, key)
      && if container.List? then IN_LEVEL <= OperandRight(schema, key, IN_PRECEDENCE) && container.elements != []
         else Adequate(schema, container) && JSON_LEVEL <= Right(schema, container)
    case MatchCall(_, target, _) => Adequate(schema, target) && IN_LEVEL <= OperandRight(schema, target, IN_PRECEDENCE)
    case _ => true
  }

  // The tree that is written

  /** What is known of a translation from the filter alone. */
  ghost predicate Described(schema: Schema, e: Cel, tr: Translation) {
    && SourceOf(schema, e) == Some(SourceOfKind(tr))
    && tr.precedence == Recorded(schema, e)
    && (tr.sql == Atom(Null) <==> e == NullLiteral)
    && Edges(tr.sql, Adequate(schema, e), Left(schema, e), Right(schema, e))
  }

  function SourceOfKind(tr: Translation): (s: Source) {
    match tr.kind
    case ThisKind => Whole
    case MdKind => Meta
    case JsonKind => Json(tr.desc)
    case NullKind => Nulls
    case _ => Plain
  }

  ghost predicate Edges(sql: Expr, adequate: bool, left: nat, right: int) {
    var e := LeftAssociated(sql);
    (WellFormed(e) <==> adequate) && LeftEdge(e) == left && RightEdge(e) == right
  }

  // Nodes of the tree

  lemma OperandEdges(schema: Schema, e: Cel, tr: Translation, precedence: int)
    requires Described(schema, e, tr)
    ensures Edges(Operand(tr, precedence), Adequate(schema, e), OperandLeft(schema, e, precedence),
                  OperandRight(schema, e, precedence))
  {
  }

  lemma OperatorEdges(op: Operator, l: Expr, r: Expr, la: bool, ll: nat, lr: int, ra: bool, rl: nat, rr: int)
    requires Edges(l, la, ll, lr) && Edges(r, ra, rl, rr)
    ensures Edges(Binary(op, l, r),
                  la && ra && Level(op) <= lr && (if IsLogical(op) then Level(op) <= rl else Level(op) < rl),
                  Min(Level(op), ll), if Associates(op) then Level(op) else Level(op) - 1)
  {
    if IsLogical(op) {
      JoinEdges(op, LeftAssociated(l), LeftAssociated(r));
    }
  }

  /** A left edge as loose as 'and' or 'or' is that operator at the top. */
  lemma {:induction false} LooseEdge(e: Expr)
    requires WellFormed(e) && LeftEdge(e) < NOT_LEVEL
    ensures e.Binary? && IsLogical(e.op) && Level(e.op) == LeftEdge(e)
  {
    match e {
      case Binary(op, left, _) =>
        if LeftEdge(left) < NOT_LEVEL { LooseEdge(left); }
      case IsTest(subject, _, _) =>
        if LeftEdge(subject) < NOT_LEVEL { LooseEdge(subject); }
      case InList(key, _) =>
        if LeftEdge(key) < NOT_LEVEL { LooseEdge(key); }
      case _ =>
    }
  }

  /** A chain of 'and' or of 'or' lacks no parentheses exactly when its two parts don't and fit the operator. */
  lemma {:induction false} JoinEdges(op: Operator, left: Expr, right: Expr)
    requires IsLogical(op)
    ensures WellFormed(Join(op, left, right)) <==>
            WellFormed(left) && WellFormed(right) && Level(op) <= RightEdge(left) && Level(op) <= LeftEdge(right)
    ensures LeftEdge(Join(op, left, right)) == Min(Level(op), LeftEdge(left))
    ensures RightEdge(Join(op, left, right)) == Level(op)
    decreases right
  {
    BinaryNode(op, left, right);
    if right.Binary? && right.op == op {
      JoinEdges(op, left, right.left);
      ChainNode(op, Join(op, left, right.left), right.left, right.right);
    } else if WellFormed(right) {
      ChainEnd(op, right);
    }
  }

  /** A chain that goes on, with the same last operand after another beginning. */
  lemma ChainNode(op: Operator, joined: Expr, before: Expr, last: Expr)
    requires IsLogical(op) && RightEdge(joined) == Level(op)
    requires WellFormed(joined) ==> WellFormed(before) && Level(op) <= LeftEdge(before)
    ensures WellFormed(Binary(op, joined, last)) <==>
            WellFormed(joined) && WellFormed(Binary(op, before, last)) && Level(op) <= LeftEdge(Binary(op, before, last))
    ensures LeftEdge(Binary(op, joined, last)) == Min(Level(op), LeftEdge(joined))
  {
    BinaryNode(op, joined, last);
    BinaryNode(op, before, last);
    if WellFormed(joined) {
      ChainLink(op, before);
    }
  }

  lemma BinaryNode(op: Operator, left: Expr, right: Expr)
    ensures WellFormed(Binary(op, left, right)) <==>
            WellFormed(left) && WellFormed(right) && Level(op) <= RightEdge(left) && Level(op) < LeftEdge(right)
    ensures LeftEdge(Binary(op, left, right)) == Min(Level(op), LeftEdge(left))
  {
  }

  lemma ChainEnd(op: Operator, right: Expr)
    requires IsLogical(op) && !(right.Binary? && right.op == op) && WellFormed(right)
    ensures Level(op) < LeftEdge(right) <==> Level(op) <= LeftEdge(right)
  {
    if Level(op) == LeftEdge(right) {
      LooseEdge(right);
    }
  }

  lemma ChainLink(op: Operator, e: Expr)
    requires IsLogical(op) && WellFormed(e)
    ensures Level(op) <= RightEdge(e) <==> Level(op) <= LeftEdge(e)
  {
    if Level(op) <= LeftEdge(e) {
      TightOnTheRight(op, e);
    } else if Level(op) <= RightEdge(e) {
      ChainStart(op, e);
    }
  }

  /** An operand that is tight enough on the left of a logical operator is so on its right as well. */
  lemma TightOnTheRight(op: Operator, e: Expr)
    requires IsLogical(op) && WellFormed(e) && Level(op) <= LeftEdge(e)
    ensures Level(op) <= RightEdge(e)
  {
  }

  lemma ChainStart(op: Operator, e: Expr)
    requires IsLogical(op) && WellFormed(e) && Level(op) <= RightEdge(e)
    ensures Level(op) <= LeftEdge(e)
  {
    if LeftEdge(e) < Level(op) {
      LooseEdge(e);
    }
  }

  // The translation of each kind of expression

  lemma {:induction false} Written(schema: Schema, e: Cel)
    ensures Translate(schema, e).Ok? <==> SourceOf(schema, e).Some?
    ensures Translate(schema, e).Ok? ==> Described(schema, e, Translate(schema, e).value)
    decreases e
  {
    match e {
      case Select(operand, field, testOnly) =>
        Written(schema, operand);
        WrittenSelect(schema, operand, field, testOnly);
      case BinaryCall(op, left, right) =>
        Written(schema, left);
        Written(schema, right);
        WrittenBinary(schema, op, left, right);
      case NotCall(negated) =>
        Written(schema, negated);
        WrittenNot(schema, negated);
      case InCall(key, container) =>
        Written(schema, key);
        Written(schema, container);
        WrittenIn(schema, key, container);
      case MatchCall(kind, target, pattern) =>
        Written(schema, target);
        WrittenMatch(schema, kind, target, pattern);
      case _ =>
    }
  }

  ghost predicate IsWritten(schema: Schema, e: Cel) {
    && (Translate(schema, e).Ok? <==> SourceOf(schema, e).Some?)
    && (Translate(schema, e).Ok? ==> Described(schema, e, Translate(schema, e).value))
  }

  lemma WrittenNot(schema: Schema, negated: Cel)
    requires IsWritten(schema, negated)
    ensures IsWritten(schema, NotCall(negated))
  {
    if Translate(schema, negated).Ok? {
      OperandEdges(schema, negated, Translate(schema, negated).value, NOT_PRECEDENCE);
    }
  }

  lemma WrittenMatch(schema: Schema, kind: SqlText.MatchKind, target: Cel, pattern: Cel)
    requires IsWritten(schema, target)
    ensures IsWritten(schema, MatchCall(kind, target, pattern))
  {
    if Translate(schema, target).Ok? && pattern.StringLiteral? {
      var tr := Translate(schema, target).value;
      var text := Atom(Text(SqlText.PatternLiteral(kind, pattern.text)));
      OperandEdges(schema, target, tr, IN_PRECEDENCE);
      OperatorEdges(Like, Operand(tr, IN_PRECEDENCE), text, Adequate(schema, target),
        OperandLeft(schema, target, IN_PRECEDENCE), OperandRight(schema, target, IN_PRECEDENCE),
        true, ATOM_LEVEL, TOP_LEVEL);
    }
  }

  lemma BinaryTranslation(schema: Schema, op: BinaryOp, left: Cel, right: Cel)
    ensures var (l, r) := (Translate(schema, left), Translate(schema, right));
      && (l.Ok? && r.Ok? ==> Translate(schema, BinaryCall(op, left, right)) == Ok(TranslateBinary(op, l.value, r.value)))
      && (l.Err? || r.Err? ==> Translate(schema, BinaryCall(op, left, right)).Err?)
  {
  }

  lemma WrittenBinary(schema: Schema, op: BinaryOp, left: Cel, right: Cel)
    requires IsWritten(schema, left) && IsWritten(schema, right)
    ensures IsWritten(schema, BinaryCall(op, left, right))
  {
    BinaryTranslation(schema, op, left, right);
    if Translate(schema, left).Ok? && Translate(schema, right).Ok? {
      var l, r := Translate(schema, left).value, Translate(schema, right).value;
      if IsNullTest(schema, BinaryCall(op, left, right)) {
        WrittenNullTest(schema, op, left, right, l, r);
      } else {
        WrittenOperator(schema, op, left, right, l, r);
      }
    }
  }

  lemma OperatorAdequacy(schema: Schema, op: BinaryOp, left: Cel, right: Cel)
    requires !IsNullTest(schema, BinaryCall(op, left, right))
    ensures var (e, o, p) := (BinaryCall(op, left, right), SqlOperator(op), Precedence(op));
      && Recorded(schema, e) == p
      && Left(schema, e) == Min(Level(o), OperandLeft(schema, left, p))
      && Right(schema, e) == (if Associates(o) then Level(o) else Level(o) - 1)
      && (Adequate(schema, e) <==>
            && Adequate(schema, left) && Adequate(schema, right)
            && Level(o) <= OperandRight(schema, left, p)
            && (if IsLogical(o) then Level(o) <= OperandLeft(schema, right, p)
                else Level(o) < OperandLeft(schema, right, p)))
  {
  }

  lemma OperatorTranslation(schema: Schema, op: BinaryOp, left: Cel, right: Cel, l: Translation, r: Translation)
    requires SourceOf(schema, left) == Some(SourceOfKind(l)) && SourceOf(schema, right) == Some(SourceOfKind(r))
    requires !IsNullTest(schema, BinaryCall(op, left, right))
    ensures TranslateBinary(op, l, r) == TranslateOperator(op, l, r)
    ensures SourceOf(schema, BinaryCall(op, left, right)) == Some(SourceOfKind(TranslateOperator(op, l, r)))
  {
  }

  lemma WrittenOperator(schema: Schema, op: BinaryOp, left: Cel, right: Cel, l: Translation, r: Translation)
    requires Described(schema, left, l) && Described(schema, right, r)
    requires !IsNullTest(schema, BinaryCall(op, left, right))
    ensures Described(schema, BinaryCall(op, left, right), TranslateBinary(op, l, r))
  {
    var p := Precedence(op);
    OperandEdges(schema, left, l, p);
    OperandEdges(schema, right, r, p);
    OperatorEdges(SqlOperator(op), Operand(l, p), Operand(r, p),
      Adequate(schema, left), OperandLeft(schema, left, p), OperandRight(schema, left, p),
      Adequate(schema, right), OperandLeft(schema, right, p), OperandRight(schema, right, p));
    OperatorTranslation(schema, op, left, right, l, r);
    OperatorAdequacy(schema, op, left, right);
  }

  lemma NullTestAdequacy(schema: Schema, op: BinaryOp, left: Cel, right: Cel)
    requires IsNullTest(schema, BinaryCall(op, left, right))
    ensures var (e, (subject, against)) := (BinaryCall(op, left, right), Tested(schema, left, right));
      && Recorded(schema, e) == IS_PRECEDENCE
      && Left(schema, e) == Min(IS_LEVEL, OperandLeft(schema, subject, IS_PRECEDENCE))
      && Right(schema, e) == TOP_LEVEL
      && (Adequate(schema, e) <==>
            Adequate(schema, subject) && IS_LEVEL <= OperandRight(schema, subject, IS_PRECEDENCE)
            && against == NullLiteral)
  {
  }

  lemma NullTestTranslation(schema: Schema, op: BinaryOp, left: Cel, right: Cel, l: Translation, r: Translation)
    requires SourceOf(schema, left) == Some(SourceOfKind(l)) && SourceOf(schema, right) == Some(SourceOfKind(r))
    requires IsNullTest(schema, BinaryCall(op, left, right))
    ensures var (first, second) := if SourceOf(schema, left) == Some(Nulls) then (r, l) else (l, r);
      TranslateBinary(op, l, r) ==
      Translation(IsTest(Operand(first, IS_PRECEDENCE), op.NotEqualsOp?, Operand(second, IS_PRECEDENCE)),
                  IS_PRECEDENCE, BooleanKind, "")
    ensures SourceOf(schema, BinaryCall(op, left, right)) == Some(Plain)
  {
  }

  lemma WrittenNullTest(schema: Schema, op: BinaryOp, left: Cel, right: Cel, l: Translation, r: Translation)
    requires Described(schema, left, l) && Described(schema, right, r)
    requires IsNullTest(schema, BinaryCall(op, left, right))
    ensures Described(schema, BinaryCall(op, left, right), TranslateBinary(op, l, r))
  {
    var (subject, against) := Tested(schema, left, right);
    var (first, second) := if SourceOf(schema, left) == Some(Nulls) then (r, l) else (l, r);
    OperandEdges(schema, subject, first, IS_PRECEDENCE);
    NullTestEdges(Operand(first, IS_PRECEDENCE), op.NotEqualsOp?, Operand(second, IS_PRECEDENCE),
      Adequate(schema, subject), OperandLeft(schema, subject, IS_PRECEDENCE), OperandRight(schema, subject, IS_PRECEDENCE));
    assert Operand(second, IS_PRECEDENCE) == Atom(Null) <==> against == NullLiteral;
    NullTestTranslation(schema, op, left, right, l, r);
    NullTestAdequacy(schema, op, left, right);
  }

  lemma NullTestEdges(subject: Expr, negated: bool, against: Expr, a: bool, left: nat, right: int)
    requires Edges(subject, a, left, right)
    ensures Edges(IsTest(subject, negated, against), a && IS_LEVEL <= right && against == Atom(Null),
                  Min(IS_LEVEL, left), TOP_LEVEL)
  {
    assert LeftAssociated(against) == Atom(Null) <==> against == Atom(Null);
  }

  lemma WrittenSelect(schema: Schema, operand: Cel, field: string, testOnly: bool)
    requires IsWritten(schema, operand)
    ensures IsWritten(schema, Select(operand, field, testOnly))
  {
    SelectTranslation(schema, operand, field, testOnly);
    if Translate(schema, operand).Ok? {
      var tr := Translate(schema, operand).value;
      if tr.kind.JsonKind? {
        DocumentField(schema, operand, tr, field, testOnly);
      } else if tr.kind.ThisKind? {
        WholeField(schema, operand, tr, field, testOnly);
      } else if tr.kind.MdKind? {
        MetadataField(schema, operand, tr, field, testOnly);
      }
    }
  }

  lemma SelectTranslation(schema: Schema, operand: Cel, field: string, testOnly: bool)
    ensures var (o, r) := (Translate(schema, operand), Translate(schema, Select(operand, field, testOnly)));
      if o.Ok? then r == TranslateSelect(schema, o.value, field, testOnly) else r.Err?
  {
  }

  /** What a selection from an operand has to satisfy. */
  ghost predicate SelectWritten(schema: Schema, operand: Cel, tr: Translation, field: string, testOnly: bool) {
    var (e, r) := (Select(operand, field, testOnly), TranslateSelect(schema, tr, field, testOnly));
    && (r.Ok? <==> SourceOf(schema, e).Some?)
    && (r.Ok? ==> Described(schema, e, r.value))
  }

  lemma DocumentField(schema: Schema, operand: Cel, tr: Translation, field: string, testOnly: bool)
    requires Described(schema, operand, tr) && tr.kind.JsonKind?
    ensures SelectWritten(schema, operand, tr, field, testOnly)
  {
    WrittenJson(schema, tr.sql, tr.desc, field, testOnly,
      Adequate(schema, operand), Left(schema, operand), Right(schema, operand));
  }

  lemma WholeField(schema: Schema, operand: Cel, tr: Translation, field: string, testOnly: bool)
    requires SourceOf(schema, operand) == Some(Whole) && tr.kind.ThisKind?
    ensures SelectWritten(schema, operand, tr, field, testOnly)
  {
    if field == "id" || field == "metadata" {
      OwnField(schema, operand, tr, field, testOnly);
    } else {
      WrittenJson(schema, Atom(Name("data")), schema.root, field, testOnly, true, ATOM_LEVEL, TOP_LEVEL);
    }
  }

  lemma OwnField(schema: Schema, operand: Cel, tr: Translation, field: string, testOnly: bool)
    requires SourceOf(schema, operand) == Some(Whole) && tr.kind.ThisKind? && (field == "id" || field == "metadata")
    ensures SelectWritten(schema, operand, tr, field, testOnly)
  {
  }

  lemma MetadataField(schema: Schema, operand: Cel, tr: Translation, field: string, testOnly: bool)
    requires SourceOf(schema, operand) == Some(Meta) && tr.kind.MdKind?
    ensures SelectWritten(schema, operand, tr, field, testOnly)
  {
    MetadataEdges(field, testOnly);
  }

  lemma MetadataEdges(field: string, testOnly: bool)
    ensures var r := TranslateMdField(field, testOnly);
      && (r.Ok? <==> field in {"creation_timestamp", "deletion_timestamp", "creators", "tenants"})
      && (r.Ok? ==>
            && SourceOfKind(r.value) == Plain && r.value.precedence == MAX_PRECEDENCE && r.value.sql != Atom(Null)
            && var loose := field == "deletion_timestamp" && testOnly;
              Edges(r.value.sql, true, if loose then COMPARISON_LEVEL else ATOM_LEVEL,
                    if loose then COMPARISON_LEVEL - 1 else TOP_LEVEL))
  {
  }

  lemma WrittenJson(schema: Schema, operand: Expr, message: string, field: string, testOnly: bool,
                    a: bool, left: nat, right: int)
    requires Edges(operand, a, left, right) && left <= ATOM_LEVEL
    ensures var r := TranslateJsonField(schema, operand, message, field, testOnly);
      && (r.Ok? <==> JsonSource(schema, message, field, testOnly).Some?)
      && (r.Ok? ==>
            && JsonSource(schema, message, field, testOnly) == Some(SourceOfKind(r.value))
            && r.value.precedence == MAX_PRECEDENCE && r.value.sql != Atom(Null)
            && var bare := IsBare(schema, message, field, testOnly);
              Edges(r.value.sql, a && JSON_LEVEL <= right,
                    if bare then Min(JSON_LEVEL, left) else ATOM_LEVEL, if bare then JSON_LEVEL else TOP_LEVEL))
  {
    JsonTranslation(schema, operand, message, field, testOnly);
    JsonEdges(JsonText, operand, field, a, left, right);
    JsonEdges(JsonGet, operand, field, a, left, right);
    JsonEdges(HasKey, operand, field, a, left, right);
    if JsonSource(schema, message, field, testOnly).Some? && !IsBare(schema, message, field, testOnly) {
      CastEdges(TranslateJsonField(schema, operand, message, field, testOnly).value.sql,
        a && JSON_LEVEL <= right, Min(JSON_LEVEL, left), JSON_LEVEL);
    }
  }

  lemma JsonTranslation(schema: Schema, operand: Expr, message: string, field: string, testOnly: bool)
    ensures var (r, s) := (TranslateJsonField(schema, operand, message, field, testOnly),
                           JsonSource(schema, message, field, testOnly));
      && (r.Ok? <==> s.Some?)
      && (r.Ok? ==>
            && s == Some(SourceOfKind(r.value)) && r.value.precedence == MAX_PRECEDENCE
            && if IsBare(schema, message, field, testOnly) then
                 exists op :: op in {JsonText, JsonGet, HasKey} && r.value.sql == Binary(op, operand, FieldText(field))
               else r.value.sql.CastAs? && r.value.sql.value == Binary(JsonText, operand, FieldText(field)))
  {
  }

  lemma CastEdges(cast: Expr, a: bool, left: nat, right: int)
    requires cast.CastAs? && Edges(cast.value, a, left, right)
    ensures Edges(cast, a, ATOM_LEVEL, TOP_LEVEL)
  {
  }

  lemma JsonEdges(op: Operator, operand: Expr, field: string, a: bool, left: nat, right: int)
    requires op == JsonText || op == JsonGet || op == HasKey
    requires Edges(operand, a, left, right)
    ensures Edges(Binary(op, operand, FieldText(field)), a && JSON_LEVEL <= right, Min(JSON_LEVEL, left), JSON_LEVEL)
  {
    OperatorEdges(op, operand, FieldText(field), a, left, right, true, ATOM_LEVEL, TOP_LEVEL);
  }

  lemma WrittenIn(schema: Schema, key: Cel, container: Cel)
    requires IsWritten(schema, key) && IsWritten(schema, container)
    ensures IsWritten(schema, InCall(key, container))
  {
    if Translate(schema, key).Ok? {
      if container.List? {
        WrittenInList(schema, key, container.elements);
      } else if container.Select? {
        InFieldTranslation(schema, key, container);
        if Translate(schema, container).Ok? {
          WrittenInField(schema, key, container, Translate(schema, key).value, Translate(schema, container).value);
        }
      }
    }
  }

  lemma WrittenInList(schema: Schema, key: Cel, elements: seq<Cel>)
    requires IsWritten(schema, key) && Translate(schema, key).Ok?
    ensures IsWritten(schema, InCall(key, List(elements)))
  {
    ItemsWritten(elements);
    InListTranslation(schema, key, elements);
    if TranslateItems(elements).Ok? {
      DescribedInList(schema, key, elements, Translate(schema, key).value, TranslateItems(elements).value);
    }
  }

  lemma InListTranslation(schema: Schema, key: Cel, elements: seq<Cel>)
    requires Translate(schema, key).Ok?
    ensures var (k, items, r) := (Translate(schema, key).value, TranslateItems(elements),
                                  Translate(schema, InCall(key, List(elements))));
      && (r.Ok? <==> items.Ok?)
      && (items.Ok? ==>
            r == Ok(Translation(InList(Operand(k, IN_PRECEDENCE), items.value), IN_PRECEDENCE, NullKind, "")))
  {
  }

  lemma DescribedInList(schema: Schema, key: Cel, elements: seq<Cel>, k: Translation, items: seq<Expr>)
    requires Described(schema, key, k) && AreLiterals(elements) && |items| == |elements|
    requires forall i :: 0 <= i < |items| ==> items[i].Atom? && WellFormed(items[i])
    ensures Described(schema, InCall(key, List(elements)),
                      Translation(InList(Operand(k, IN_PRECEDENCE), items), IN_PRECEDENCE, NullKind, ""))
  {
    OperandEdges(schema, key, k, IN_PRECEDENCE);
    InListEdges(Operand(k, IN_PRECEDENCE), items, Adequate(schema, key),
      OperandLeft(schema, key, IN_PRECEDENCE), OperandRight(schema, key, IN_PRECEDENCE));
  }

  lemma WrittenInField(schema: Schema, key: Cel, container: Cel, k: Translation, c: Translation)
    requires container.Select? && Described(schema, key, k) && Described(schema, container, c)
    ensures Described(schema, InCall(key, container),
                      Translation(Binary(ContainsAll, c.sql, ArrayOf(k.sql)), IN_PRECEDENCE, NullKind, ""))
  {
    OperatorEdges(ContainsAll, c.sql, ArrayOf(k.sql), Adequate(schema, container),
      Left(schema, container), Right(schema, container), Adequate(schema, key), ATOM_LEVEL, TOP_LEVEL);
  }

  lemma InFieldTranslation(schema: Schema, key: Cel, container: Cel)
    requires container.Select? && Translate(schema, key).Ok?
    ensures Translate(schema, InCall(key, container)).Ok? <==> Translate(schema, container).Ok?
    ensures Translate(schema, container).Ok? ==> Translate(schema, InCall(key, container)) == Ok(Translation(
      Binary(ContainsAll, Translate(schema, container).value.sql, ArrayOf(Translate(schema, key).value.sql)),
      IN_PRECEDENCE, NullKind, ""))
  {
  }

  lemma {:induction false} ItemsWritten(elements: seq<Cel>)
    ensures TranslateItems(elements).Ok? <==> AreLiterals(elements)
    ensures TranslateItems(elements).Ok? ==>
              forall i :: 0 <= i < |elements| ==>
                TranslateItems(elements).value[i].Atom? && WellFormed(TranslateItems(elements).value[i])
  {
    if elements != [] {
      ItemsWritten(elements[1..]);
      assert elements == [elements[0]] + elements[1..];
    }
  }

  lemma InListEdges(key: Expr, items: seq<Expr>, a: bool, left: nat, right: int)
    requires Edges(key, a, left, right)
    requires forall i :: 0 <= i < |items| ==> items[i].Atom? && WellFormed(items[i])
    ensures Edges(InList(key, items), a && IN_LEVEL <= right && items != [], Min(IN_LEVEL, left), TOP_LEVEL)
  {
    assert AllLeftAssociated(items) == items;
  }

  // Main result

  /** The text that is written lacks no parentheses exactly when the filter is adequate. */
  lemma AdequateExactly(schema: Schema, e: Cel)
    ensures Translate(schema, e).Ok? <==> SourceOf(schema, e).Some?
    ensures Translate(schema, e).Ok? ==>
              (WellFormed(LeftAssociated(Translate(schema, e).value.sql)) <==> Adequate(schema, e))
  {
    Written(schema, e);
  }
}
