/**
 Validation of a cluster against its template, and the transformation that fills in what the cluster leaves open.
 */
module Templates {
  import opened Wrappers
  import opened Clusters

  datatype Error =
    | TemplateMandatory
    | TemplateUnavailable
    | TemplateMissing
    | TemplateDeleted
    | UnknownNodeSet(key: string)
    | WrongHostClass(key: string)
    | WrongSize(key: string)
    | UnknownParameters(names: set<string>)
    | MandatoryParameter(name: string)
    | WrongType(name: string, expected: string)
    | DuplicatedCondition(kind: Kind)

  datatype Unit = Unit

  type Values = map<string, Packed>

  // Parameters

  predicate Defined(definitions: seq<Definition>, name: string) {
    exists i :: 0 <= i < |definitions| && definitions[i].name == name
  }

  function Unknown(definitions: seq<Definition>, provided: Values): (s: set<string>) {
    set name | name in provided && !Defined(definitions, name)
  }

  ghost predicate Missing(definitions: seq<Definition>, provided: Values, i: int) {
    0 <= i < |definitions| && definitions[i].required && definitions[i].name !in provided
  }

  ghost predicate Mismatch(definitions: seq<Definition>, provided: Values, name: string, i: int) {
    && 0 <= i < |definitions| && definitions[i].name == name && name in provided
    && provided[name].typeUrl != definitions[i].kind
  }

  /** What the documentation of the validation promises. */
  ghost predicate Suitable(definitions: seq<Definition>, provided: Values) {
    && Unknown(definitions, provided) == {}
    && (forall i :: !Missing(definitions, provided, i))
    && (forall name, i :: !Mismatch(definitions, provided, name, i))
  }

  /** The error names a fault that is there, and no fault of an earlier check is. */
  ghost predicate Explains(definitions: seq<Definition>, provided: Values, e: Error) {
    match e
    case UnknownParameters(names) => names == Unknown(definitions, provided) != {}
    case MandatoryParameter(name) =>
      && Unknown(definitions, provided) == {}
      && (exists i :: Missing(definitions, provided, i) && definitions[i].name == name
                      && forall j :: 0 <= j < i ==> !Missing(definitions, provided, j))
    case WrongType(name, expected) =>
      && Unknown(definitions, provided) == {}
      && (forall i :: !Missing(definitions, provided, i))
      && (exists i :: Mismatch(definitions, provided, name, i) && definitions[i].kind == expected)
    case _ => false
  }

  method ValidateTemplateParameters(definitions: seq<Definition>, provided: Values) returns (r: Result<Unit, Error>)
    ensures r.Ok? <==> Suitable(definitions, provided)
    ensures r.Err? ==> Explains(definitions, provided, r.error)
  {
    var invalid := CollectUnknown(definitions, provided);
    if invalid != {} {
      return Err(UnknownParameters(invalid));
    }
    for i := 0 to |definitions|
      invariant forall j :: 0 <= j < i ==> !Missing(definitions, provided, j)
    {
      if !definitions[i].required {
        continue;
      }
      if definitions[i].name !in provided {
        assert Missing(definitions, provided, i);
        return Err(MandatoryParameter(definitions[i].name));
      }
    }
    var rest := provided.Keys;
    while rest != {}
      invariant rest <= provided.Keys
      invariant forall name, i :: name in provided.Keys - rest ==> !Mismatch(definitions, provided, name, i)
      decreases |rest|
    {
      var name :| name in rest;
      for i := 0 to |definitions|
        invariant forall j :: 0 <= j < i ==> !Mismatch(definitions, provided, name, j)
      {
        if name != definitions[i].name {
          continue;
        }
        if provided[name].typeUrl != definitions[i].kind {
          assert Mismatch(definitions, provided, name, i);
          return Err(WrongType(name, definitions[i].kind));
        }
      }
      rest := rest - {name};
    }
    return Ok(Unit);
  }

  method CollectUnknown(definitions: seq<Definition>, provided: Values) returns (invalid: set<string>)
    ensures invalid == Unknown(definitions, provided)
  {
    invalid := {};
    var rest := provided.Keys;
    while rest != {}
      invariant rest <= provided.Keys
      invariant forall name :: name in invalid <==> name in provided.Keys - rest && !Defined(definitions, name)
      decreases |rest|
    {
      var name :| name in rest;
      var valid := false;
      for i := 0 to |definitions|
        invariant !valid
        invariant forall j :: 0 <= j < i ==> definitions[j].name != name
      {
        if definitions[i].name == name {
          valid := true;
          break;
        }
      }
      assert valid <==> Defined(definitions, name);
      if !valid {
        invalid := invalid + {name};
      }
      rest := rest - {name};
    }
  }

  /** The default of a name: that of its last definition that has one. */
  function Default(definitions: seq<Definition>, name: string): (d: Option<Packed>)
    ensures d.Some? <==> exists i :: 0 <= i < |definitions| && definitions[i].name == name && definitions[i].default.Some?
    decreases |definitions|
  {
    if definitions == [] then None
    else
      var last := definitions[|definitions| - 1];
      if last.name == name && last.default.Some? then
        assert definitions[|definitions| - 1].name == name;
        last.default
      else
        Default(definitions[..|definitions| - 1], name)
  }

  /** The value of a parameter after the defaults are set. */
  function Value(definitions: seq<Definition>, provided: Values, name: string): (v: Option<Packed>) {
    if !Defined(definitions, name) then None
    else if name in provided then Some(provided[name])
    else Default(definitions, name)
  }

  /** A parameter is filled when its value is the one above; a name without value is absent. */
  ghost predicate Filled(definitions: seq<Definition>, provided: Values, values: Values) {
    forall name :: Value(definitions, provided, name) == if name in values then Some(values[name]) else None
  }

  method ProcessTemplateParametersWithDefaults(definitions: seq<Definition>, provided: Values)
    returns (values: Values)
    ensures Filled(definitions, provided, values)
  {
    values := map[];
    for i := 0 to |definitions|
      invariant Filled(definitions[..i], provided, values)
    {
      ghost var before := values;
      var name := definitions[i].name;
      if name in provided {
        values := values[name := provided[name]];
      } else if definitions[i].default.Some? {
        values := values[name := definitions[i].default.value];
      }
      forall other ensures Value(definitions[..i + 1], provided, other) ==
                           if other in values then Some(values[other]) else None
      {
        ValueOfNext(definitions, provided, i, other);
      }
    }
    assert definitions[..|definitions|] == definitions;
  }

  lemma ValueOfNext(definitions: seq<Definition>, provided: Values, i: nat, name: string)
    requires i < |definitions|
    ensures Value(definitions[..i + 1], provided, name) ==
            if definitions[i].name != name then Value(definitions[..i], provided, name)
            else if name in provided then Some(provided[name])
            else if definitions[i].default.Some? then definitions[i].default
            else Value(definitions[..i], provided, name)
  {
    var longer := definitions[..i + 1];
    assert longer[..|longer| - 1] == definitions[..i];
    if definitions[i].name == name {
      assert longer[i].name == name;
    }
    if Defined(definitions[..i], name) {
      var j :| 0 <= j < i && definitions[..i][j].name == name;
      assert longer[j].name == name;
    }
  }

  // Node sets

  type NodeSets = map<string, NodeSet>

  ghost predicate KeysKnown(template: NodeSets, given: NodeSets) {
    forall key :: key in given ==> key in template
  }

  ghost predicate HostClassesAgree(template: NodeSets, given: NodeSets) {
    forall key :: key in given && key in template ==>
      given[key].hostClass == "" || given[key].hostClass == template[key].hostClass
  }

  ghost predicate SizesPositive(given: NodeSets) {
    forall key :: key in given ==> given[key].size > 0
  }

  /** The template's node sets, with the sizes of the cluster where it gives them. */
  function Actual(template: NodeSets, given: NodeSets): (r: NodeSets) {
    map key | key in template ::
      NodeSet(template[key].hostClass, if key in given then given[key].size else template[key].size)
  }

  method CheckKeys(template: NodeSets, given: NodeSets) returns (r: Result<Unit, Error>)
    ensures r.Ok? <==> KeysKnown(template, given)
    ensures r.Err? ==> exists key :: key in given && key !in template && r.error == UnknownNodeSet(key)
  {
    var rest := given.Keys;
    while rest != {}
      invariant rest <= given.Keys
      invariant forall key :: key in given && key !in rest ==> key in template
      decreases |rest|
    {
      var key :| key in rest;
      if key !in template {
        return Err(UnknownNodeSet(key));
      }
      rest := rest - {key};
    }
    return Ok(Unit);
  }

  method CheckHostClasses(template: NodeSets, given: NodeSets) returns (r: Result<Unit, Error>)
    requires KeysKnown(template, given)
    ensures r.Ok? <==> HostClassesAgree(template, given)
    ensures r.Err? ==> exists key :: key in given && given[key].hostClass !in {"", template[key].hostClass}
                                     && r.error == WrongHostClass(key)
  {
    var rest := given.Keys;
    while rest != {}
      invariant rest <= given.Keys
      invariant forall key :: key in given && key !in rest ==>
        given[key].hostClass == "" || given[key].hostClass == template[key].hostClass
      decreases |rest|
    {
      var key :| key in rest;
      rest := rest - {key};
      if given[key].hostClass == "" {
        continue;
      }
      if given[key].hostClass != template[key].hostClass {
        return Err(WrongHostClass(key));
      }
    }
    return Ok(Unit);
  }

  method CheckSizes(given: NodeSets) returns (r: Result<Unit, Error>)
    ensures r.Ok? <==> SizesPositive(given)
    ensures r.Err? ==> exists key :: key in given && given[key].size <= 0 && r.error == WrongSize(key)
  {
    var rest := given.Keys;
    while rest != {}
      invariant rest <= given.Keys
      invariant forall key :: key in given && key !in rest ==> given[key].size > 0
      decreases |rest|
    {
      var key :| key in rest;
      if given[key].size <= 0 {
        return Err(WrongSize(key));
      }
      rest := rest - {key};
    }
    return Ok(Unit);
  }

  method ReplaceNodeSets(template: NodeSets, given: NodeSets) returns (nodeSets: NodeSets)
    ensures nodeSets == Actual(template, given)
  {
    nodeSets := map[];
    var rest := template.Keys;
    while rest != {}
      invariant rest <= template.Keys
      invariant nodeSets.Keys == template.Keys - rest
      invariant forall key :: key in nodeSets ==> nodeSets[key] == Actual(template, given)[key]
      decreases |rest|
    {
      var key :| key in rest;
      var size := template[key].size;
      if key in given {
        size := given[key].size;
      }
      nodeSets := nodeSets[key := NodeSet(template[key].hostClass, size)];
      rest := rest - {key};
    }
  }

  // Clusters

  /** The cluster passes every check against the template. */
  ghost predicate Acceptable(template: Template, spec: Spec) {
    && KeysKnown(template.nodeSets, spec.nodeSets)
    && HostClassesAgree(template.nodeSets, spec.nodeSets)
    && SizesPositive(spec.nodeSets)
    && Suitable(template.parameters, spec.parameters)
  }

  /** What a successful transformation makes of a specification. */
  ghost predicate Transformed(template: Template, before: Spec, after: Spec) {
    && after.template == before.template
    && after.nodeSets == Actual(template.nodeSets, before.nodeSets)
    && Filled(template.parameters, before.parameters, after.parameters)
  }

  /** What the data access object of the templates answers. */
  datatype Templates = Templates(available: bool, rows: map<string, Template>)

  predicate Usable(templates: Templates, id: string) {
    id != "" && templates.available && id in templates.rows && !templates.rows[id].deleted
  }

  /** The error is that of the first check that fails. */
  ghost predicate Refuses(templates: Templates, spec: Spec, e: Error) {
    if spec.template == "" then e == TemplateMandatory
    else if !templates.available then e == TemplateUnavailable
    else if spec.template !in templates.rows then e == TemplateMissing
    else
      var (found, given) := (templates.rows[spec.template], spec.nodeSets);
      if found.deleted then e == TemplateDeleted
      else if !KeysKnown(found.nodeSets, given) then
        exists key :: key in given && key !in found.nodeSets && e == UnknownNodeSet(key)
      else if !HostClassesAgree(found.nodeSets, given) then
        exists key :: key in given && given[key].hostClass !in {"", found.nodeSets[key].hostClass}
                      && e == WrongHostClass(key)
      else if !SizesPositive(given) then exists key :: key in given && given[key].size <= 0 && e == WrongSize(key)
      else Explains(found.parameters, spec.parameters, e)
  }

  /** The specification inside the cluster object of a request, which the server updates in place. */
  class ClusterSpec {
    var template: string
    var nodeSets: NodeSets
    var parameters: Values

    ghost function Value(): (s: Spec)
      reads this
    {
      Spec(template, parameters, nodeSets)
    }

    method ValidateAndTransform(templates: Templates) returns (r: Result<Unit, Error>)
      modifies this
      ensures r.Ok? <==> Usable(templates, old(template)) && Acceptable(templates.rows[old(template)], old(Value()))
      ensures r.Ok? ==> Transformed(templates.rows[old(template)], old(Value()), Value())
      ensures r.Err? ==> Refuses(templates, old(Value()), r.error)
      ensures r.Err? ==> template == old(template) && parameters == old(parameters)
      ensures r.Err? && nodeSets != old(nodeSets) ==>
                && Usable(templates, template)
                && nodeSets == Actual(templates.rows[template].nodeSets, old(nodeSets))
                && Explains(templates.rows[template].parameters, parameters, r.error)
    {
      if template == "" {
        return Err(TemplateMandatory);
      }
      if !templates.available {
        return Err(TemplateUnavailable);
      }
      if template !in templates.rows {
        return Err(TemplateMissing);
      }
      var found := templates.rows[template];
      if found.deleted {
        return Err(TemplateDeleted);
      }
      var _ :- CheckKeys(found.nodeSets, nodeSets);
      var _ :- CheckHostClasses(found.nodeSets, nodeSets);
      var _ :- CheckSizes(nodeSets);
      nodeSets := ReplaceNodeSets(found.nodeSets, nodeSets);
      var _ :- ValidateTemplateParameters(found.parameters, parameters);
      parameters := ProcessTemplateParametersWithDefaults(found.parameters, parameters);
      return Ok(Unit);
    }
  }

  // Conditions

  method ValidateNoDuplicateConditions(conditions: seq<Condition>) returns (r: Result<Unit, Error>)
    ensures r.Ok? <==> Unique(conditions)
    ensures r.Err? ==> exists i :: 0 <= i < |conditions| && Unique(conditions[..i]) && !Unique(conditions[..i + 1])
                                   && r.error == DuplicatedCondition(conditions[i].kind)
  {
    var seen: set<Kind> := {};
    for i := 0 to |conditions|
      invariant Unique(conditions[..i])
      invariant forall kind: Kind :: kind in seen <==> Has(conditions[..i], kind)
    {
      var kind := conditions[i].kind;
      UniqueNext(conditions, i);
      if kind in seen {
        return Err(DuplicatedCondition(kind));
      }
      forall other: Kind ensures Has(conditions[..i + 1], other) <==> other == kind || Has(conditions[..i], other) {
        HasNext(conditions, i, other);
      }
      seen := seen + {kind};
    }
    assert conditions[..|conditions|] == conditions;
    return Ok(Unit);
  }

  lemma HasNext(conditions: seq<Condition>, i: nat, kind: Kind)
    requires i < |conditions|
    ensures Has(conditions[..i + 1], kind) <==> kind == conditions[i].kind || Has(conditions[..i], kind)
  {
    var longer := conditions[..i + 1];
    assert longer[i] == conditions[i];
    if Has(conditions[..i], kind) {
      var j :| 0 <= j < i && conditions[..i][j].kind == kind;
      assert longer[j].kind == kind;
    }
    if Has(longer, kind) && kind != conditions[i].kind {
      var j :| 0 <= j < |longer| && longer[j].kind == kind;
      assert conditions[..i][j].kind == kind;
    }
  }

  /** One more condition keeps the types distinct if and only if its own is new. */
  lemma UniqueNext(conditions: seq<Condition>, i: nat)
    requires i < |conditions|
    ensures Unique(conditions[..i + 1]) <==> Unique(conditions[..i]) && !Has(conditions[..i], conditions[i].kind)
    ensures Unique(conditions) ==> Unique(conditions[..i + 1])
  {
    var longer, shorter := conditions[..i + 1], conditions[..i];
    assert longer[i] == conditions[i];
    assert forall j :: 0 <= j < i ==> longer[j] == shorter[j] == conditions[j];
    if Has(shorter, conditions[i].kind) {
      var j :| 0 <= j < i && shorter[j].kind == conditions[i].kind;
      assert longer[j].kind == longer[i].kind;
    }
  }

  // Validating and transforming again

  /** A transformation of a transformed cluster changes nothing. */
  lemma TransformIsFixed(template: Template, first: Spec, second: Spec, third: Spec)
    requires Acceptable(template, first)
    requires Transformed(template, first, second) && Transformed(template, second, third)
    ensures third == second
  {
    assert Actual(template.nodeSets, second.nodeSets) == second.nodeSets;
    forall name
      ensures name in third.parameters <==> name in second.parameters
      ensures name in third.parameters ==> third.parameters[name] == second.parameters[name]
    {
      assert Value(template.parameters, first.parameters, name) ==
             if name in second.parameters then Some(second.parameters[name]) else None;
      assert Value(template.parameters, second.parameters, name) ==
             if name in third.parameters then Some(third.parameters[name]) else None;
    }
    assert third.parameters == second.parameters;
  }

  /** What the transformation promises of its result, said without its own definition. */
  lemma TransformedMeans(template: Template, before: Spec, after: Spec)
    requires Acceptable(template, before) && Transformed(template, before, after)
    ensures after.nodeSets.Keys == template.nodeSets.Keys
    ensures forall key :: key in after.nodeSets ==> after.nodeSets[key].hostClass == template.nodeSets[key].hostClass
    ensures forall key :: key in before.nodeSets ==>
              key in after.nodeSets && after.nodeSets[key].size == before.nodeSets[key].size
    ensures forall key :: key in after.nodeSets && key !in before.nodeSets ==>
              after.nodeSets[key] == template.nodeSets[key]
    ensures forall name :: name in before.parameters ==>
              name in after.parameters && after.parameters[name] == before.parameters[name]
    ensures forall name :: name in after.parameters && name !in before.parameters ==>
              exists i :: LastDefault(template.parameters, name, i)
    ensures forall name, i :: LastDefault(template.parameters, name, i) && name !in before.parameters ==>
              name in after.parameters && after.parameters[name] == template.parameters[i].default.value
  {
    forall name
      ensures name in before.parameters ==>
                name in after.parameters && after.parameters[name] == before.parameters[name]
      ensures name in after.parameters && name !in before.parameters ==>
                Default(template.parameters, name) == Some(after.parameters[name])
    {
      assert name in before.parameters ==> name !in Unknown(template.parameters, before.parameters);
      assert Value(template.parameters, before.parameters, name) ==
             if name in after.parameters then Some(after.parameters[name]) else None;
    }
    forall name, i | LastDefault(template.parameters, name, i) && name !in before.parameters
      ensures name in after.parameters && after.parameters[name] == template.parameters[i].default.value
    {
      DefaultIsLast(template.parameters, name, i);
      assert Value(template.parameters, before.parameters, name) == template.parameters[i].default;
    }
    forall name | name in after.parameters && name !in before.parameters
      ensures exists i :: LastDefault(template.parameters, name, i)
    {
      LastDefaultExists(template.parameters, name);
    }
  }

  /** The definition is the last one of the name that has a default. */
  ghost predicate LastDefault(definitions: seq<Definition>, name: string, i: int) {
    && 0 <= i < |definitions| && definitions[i].name == name && definitions[i].default.Some?
    && forall j :: i < j < |definitions| && definitions[j].name == name ==> definitions[j].default.None?
  }

  lemma {:induction false} DefaultIsLast(definitions: seq<Definition>, name: string, i: int)
    requires LastDefault(definitions, name, i)
    ensures Default(definitions, name) == definitions[i].default
    decreases |definitions|
  {
    var last := |definitions| - 1;
    if i < last {
      assert definitions[last].name == name ==> definitions[last].default.None?;
      DefaultIsLast(definitions[..last], name, i);
    }
  }

  lemma {:induction false} LastDefaultExists(definitions: seq<Definition>, name: string)
    requires Default(definitions, name).Some?
    ensures exists i :: LastDefault(definitions, name, i)
    decreases |definitions|
  {
    var last := |definitions| - 1;
    if definitions[last].name == name && definitions[last].default.Some? {
      assert LastDefault(definitions, name, last);
    } else {
      LastDefaultExists(definitions[..last], name);
      var i :| LastDefault(definitions[..last], name, i);
      assert definitions[..last][i] == definitions[i];
      assert LastDefault(definitions, name, i);
    }
  }

  /** A default that the cluster needs has another type than a definition of its name. */
  ghost predicate MismatchedDefault(definitions: seq<Definition>, provided: Values, name: string, i: int) {
    && name !in provided && 0 <= i < |definitions| && definitions[i].name == name && Default(definitions, name).Some?
    && Default(definitions, name).value.typeUrl != definitions[i].kind
  }

  ghost predicate DefaultsAgree(definitions: seq<Definition>, provided: Values) {
    forall name, i :: !MismatchedDefault(definitions, provided, name, i)
  }

  ghost predicate FillingSizesPositive(template: NodeSets, given: NodeSets) {
    forall key :: key in template && key !in given ==> template[key].size > 0
  }

  /** A transformed cluster validates again exactly when what the template filled in is valid itself. */
  lemma RevalidatesIff(template: Template, before: Spec, after: Spec)
    requires Acceptable(template, before) && Transformed(template, before, after)
    ensures Acceptable(template, after) <==>
            && FillingSizesPositive(template.nodeSets, before.nodeSets)
            && DefaultsAgree(template.parameters, before.parameters)
  {
    NodeSetsRevalidate(template.nodeSets, before.nodeSets);
    ParametersRevalidate(template.parameters, before.parameters, after.parameters);
  }

  lemma NodeSetsRevalidate(template: NodeSets, given: NodeSets)
    requires KeysKnown(template, given) && HostClassesAgree(template, given) && SizesPositive(given)
    ensures KeysKnown(template, Actual(template, given)) && HostClassesAgree(template, Actual(template, given))
    ensures SizesPositive(Actual(template, given)) <==> FillingSizesPositive(template, given)
  {
    var actual := Actual(template, given);
    if SizesPositive(actual) {
      forall key | key in template && key !in given ensures template[key].size > 0 {
        assert actual[key].size > 0;
      }
    }
  }

  lemma ParametersRevalidate(definitions: seq<Definition>, provided: Values, values: Values)
    requires Suitable(definitions, provided) && Filled(definitions, provided, values)
    ensures Suitable(definitions, values) <==> DefaultsAgree(definitions, provided)
  {
    forall name ensures name in values ==> Defined(definitions, name) {
      assert Value(definitions, provided, name) == if name in values then Some(values[name]) else None;
    }
    assert Unknown(definitions, values) == {};
    forall i ensures !Missing(definitions, values, i) {
      RequiredStays(definitions, provided, values, i);
    }
    forall name, i ensures Mismatch(definitions, values, name, i) <==> MismatchedDefault(definitions, provided, name, i) {
      MismatchIsDefault(definitions, provided, values, name, i);
    }
    if Suitable(definitions, values) {
      forall name, i ensures !MismatchedDefault(definitions, provided, name, i) {
        assert !Mismatch(definitions, values, name, i);
      }
    }
  }

  lemma RequiredStays(definitions: seq<Definition>, provided: Values, values: Values, i: int)
    requires Suitable(definitions, provided) && Filled(definitions, provided, values)
    ensures !Missing(definitions, values, i)
  {
    if 0 <= i < |definitions| && definitions[i].required {
      var name := definitions[i].name;
      assert !Missing(definitions, provided, i);
      assert Value(definitions, provided, name) == if name in values then Some(values[name]) else None;
    }
  }

  lemma MismatchIsDefault(definitions: seq<Definition>, provided: Values, values: Values, name: string, i: int)
    requires Suitable(definitions, provided) && Filled(definitions, provided, values)
    ensures Mismatch(definitions, values, name, i) <==> MismatchedDefault(definitions, provided, name, i)
  {
    assert !Mismatch(definitions, provided, name, i);
    assert Value(definitions, provided, name) == if name in values then Some(values[name]) else None;
  }

  /** A template whose own node set is empty, or whose default has another type, makes clusters that do not validate. */
  lemma TransformedMayBeInvalid()
    ensures exists template: Template, before: Spec, after: Spec ::
              Acceptable(template, before) && Transformed(template, before, after) && !Acceptable(template, after)
  {
    var definition := Definition("version", false, "string", Some(Packed("int", [])));
    var template := Template("t", false, map["workers" := NodeSet("large", 0)], [definition]);
    var before := Spec("t", map[], map[]);
    var after := Spec("t", map["version" := Packed("int", [])], map["workers" := NodeSet("large", 0)]);
    assert Acceptable(template, before);
    assert Actual(template.nodeSets, before.nodeSets) == after.nodeSets;
    forall name ensures Value(template.parameters, before.parameters, name) ==
                        if name in after.parameters then Some(after.parameters[name]) else None
    {
      assert template.parameters[0].name == "version";
      assert template.parameters[..0] == [];
    }
    assert Transformed(template, before, after);
    assert after.nodeSets["workers"].size == 0;
  }
}
