/** The clause that restricts a statement to the rows of the visible tenants. */
module TenancyFilter {
  import opened Wrappers
  import opened SqlGrammar
  import opened SqlMeaning
  import StoreAnswers
  import ObjectStore
  import Names

  datatype Argument = TextArgument(text: string) | NamesArgument(names: seq<string>) | NumberArgument(number: int)

  /** The condition on the tenants of a row, for the parameter with the given number. */
  function Overlap(parameter: nat): (e: Expr) {
    Binary(Overlaps, Atom(Name("tenants")), Atom(Parameter(parameter)))
  }

  /** The new text means the overlap alone, or the conjunction of the overlap with what the old text means. */
  ghost predicate RestrictedMeaning(row: Row, before: seq<Token>, parameter: nat, after: seq<Token>) {
    var overlap := row.apply(Overlaps, row.column("tenants"), row.parameter(parameter));
    && (before == [] ==> TextMeaning(row, after) == Some(overlap))
    && (TextMeaning(row, before).Some? ==>
          TextMeaning(row, after) == Some(Conjunction(TextMeaning(row, before).value, overlap)))
  }

  /** The where clause under construction: its text and the parameters of the statement. */
  class WhereClause {
    var text: seq<Token>
    var arguments: seq<Argument>

    constructor (text: seq<Token>, arguments: seq<Argument>)
      ensures this.text == text && this.arguments == arguments
    {
      this.text, this.arguments := text, arguments;
    }

    /**
     Adds the restriction. On every row the new text means that the previous condition holds and that the tenants
     overlap, whatever the operators of the previous condition are.
     */
    method AddTenancyFilter(visible: seq<string>)
      modifies this
      ensures visible == [] ==> text == old(text) && arguments == old(arguments)
      ensures visible != [] ==> arguments == old(arguments) + [NamesArgument(visible)]
      ensures visible != [] ==> forall row :: RestrictedMeaning(row, old(text), |arguments|, text)
    {
      if visible == [] {
        return;
      }
      arguments := arguments + [NamesArgument(visible)];
      var filter := OverlapText(|arguments|);
      ghost var before := text;
      if text == [] {
        text := filter;
      } else {
        text := [Open] + text + [Close] + [Symbol(And)] + filter;
      }
      forall row ensures RestrictedMeaning(row, before, |arguments|, text) {
        RestrictionMeans(row, before, |arguments|);
      }
    }
  }

  function OverlapText(parameter: nat): (ts: seq<Token>) {
    [Name("tenants"), Symbol(Overlaps), Parameter(parameter)]
  }

  lemma RestrictionMeans(row: Row, before: seq<Token>, parameter: nat)
    ensures RestrictedMeaning(row, before, parameter, if before == [] then OverlapText(parameter)
      else [Open] + before + [Close] + [Symbol(And)] + OverlapText(parameter))
  {
    OverlapAlone(parameter);
    assert Eval(row, Overlap(parameter)) == row.apply(Overlaps, row.column("tenants"), row.parameter(parameter));
    if Parse(before).Some? {
      Restricts(before, parameter);
      var condition := Parse(before).value;
      assert Eval(row, Binary(And, Paren(condition), Overlap(parameter)))
          == Conjunction(Eval(row, Paren(condition)), Eval(row, Overlap(parameter)));
      assert Eval(row, Paren(condition)) == Eval(row, condition);
    }
  }

  lemma OverlapAlone(parameter: nat)
    ensures Parse(OverlapText(parameter)) == Some(Overlap(parameter))
    ensures Parse([]).None?
  {
    var e := Overlap(parameter);
    assert Flat(e) == OverlapText(parameter);
    OverlapWellFormed(parameter);
    ParseExact(e);
  }

  lemma OverlapWellFormed(parameter: nat)
    ensures WellFormed(Overlap(parameter)) && LeftEdge(Overlap(parameter)) == 6
  {
    var left, right := Atom(Name("tenants")), Atom(Parameter(parameter));
    assert WellFormed(left) && WellFormed(right) && LeftEdge(left) == LeftEdge(right) == ATOM_LEVEL;
  }

  /** The whole previous condition is one operand of the conjunction, even when its top operator is 'or'. */
  lemma Restricts(before: seq<Token>, parameter: nat)
    requires Parse(before).Some?
    ensures before != []
    ensures Parse([Open] + before + [Close] + [Symbol(And)] + OverlapText(parameter))
         == Some(Binary(And, Paren(Parse(before).value), Overlap(parameter)))
  {
    ParseInverse(before);
    var condition := Paren(Parse(before).value);
    var e := Binary(And, condition, Overlap(parameter));
    assert Flat(Overlap(parameter)) == OverlapText(parameter);
    assert Flat(e)
        == [Open] + before + [Close] + [Symbol(And)] + OverlapText(parameter);
    OverlapWellFormed(parameter);
    assert WellFormed(condition) && RightEdge(condition) == TOP_LEVEL && Level(And) == 1;
    assert WellFormed(e);
    ParseExact(e);
  }

  /** On a row whose overlap is that of its tenants with the visible ones, the clause selects what the store restricts to. */
  lemma ClauseSelectsOwned(row: Row, r: ObjectStore.Row, visible: seq<string>, before: seq<Token>, parameter: nat,
                           after: seq<Token>)
    requires visible != [] && RestrictedMeaning(row, before, parameter, after)
    requires row.apply(Overlaps, row.column("tenants"), row.parameter(parameter))
          == Truth(!(Names.Elements(r.tenants) !! Names.Elements(visible)))
    requires before == [] || (TextMeaning(row, before).Some? && TextMeaning(row, before).value.Truth?)
    ensures TextMeaning(row, after)
         == Some(Truth((before != [] ==> TextMeaning(row, before).value.value) && StoreAnswers.Owned(r, visible)))
  {
    if before != [] {
      LogicTables(TextMeaning(row, before).value.value, StoreAnswers.Owned(r, visible));
    }
  }
}
