/**
 What copying and merging leave in each field of a destination that already has content. A field is taken when both types
 have it and neither ignores it, by its name or by its name in that type.
 */
module MapperFields {
  import opened Wrappers
  import opened Messages
  import opened Mapper
  import opened MapperLaws

  /** Both types have the field and it is ignored in neither. */
  ghost predicate Taken(c: Config, a: string, b: string, f: string) {
    && a in c.schema && f in c.schema[a] && b in c.schema && f in c.schema[b]
    && f !in c.ignoredNames && (a, f) !in c.ignoredFullNames && (b, f) !in c.ignoredFullNames
  }

  lemma TakenExactly(c: Config, a: string, b: string, f: string)
    ensures Taken(c, a, b, f) <==> Maps(c, a, b, f)
  {
  }

  /** The message type of the values of a field in the destination. */
  ghost function Inner(c: Config, b: string, f: string): (desc: string) {
    if b in c.schema && f in c.schema[b] && c.schema[b][f].element.MessageElement? then c.schema[b][f].element.desc else ""
  }

  /** A list item or a map value that is new in the destination: a scalar as it is, a message without what isn't shared. */
  ghost predicate IsFresh(c: Config, e: Element, b: string, v: Value, r: Value) {
    if e.ScalarElement? then r == v
    else v.MessageValue? && r == MessageValue(Shared(c, e.desc, b, v.message))
  }

  /** The list has the kept items followed by the fresh ones. */
  ghost predicate Lines(c: Config, e: Element, b: string, items: seq<Value>, kept: seq<Value>, r: Option<Value>) {
    && r.Some? && r.value.ListValue? && |r.value.items| == |kept| + |items|
    && r.value.items[..|kept|] == kept
    && forall i :: 0 <= i < |items| ==> IsFresh(c, e, b, items[i], r.value.items[|kept| + i])
  }

  /** A field that isn't taken, or one that the source lacks when it is merged, is as it was. */
  lemma NotTakenStays(c: Config, a: string, b: string, from: Message, to: Message, f: string)
    ensures !Taken(c, a, b, f) ==> FieldOf(Copied(c, a, b, from, to), f) == FieldOf(to, f)
    ensures !Taken(c, a, b, f) || f !in from.fields ==> FieldOf(Merged(c, a, b, from, to), f) == FieldOf(to, f)
    ensures Taken(c, a, b, f) && f !in from.fields ==> FieldOf(Copied(c, a, b, from, to), f) == None
  {
    TakenExactly(c, a, b, f);
    CopiedField(c, a, b, from, to, f);
    MergedField(c, a, b, from, to, f);
  }

  /** A scalar of the source is what the destination has. */
  lemma ScalarWins(c: Config, a: string, b: string, from: Message, to: Message, f: string)
    requires Taken(c, a, b, f) && f in from.fields && c.schema[a][f].Single? && c.schema[a][f].element.ScalarElement?
    ensures FieldOf(Copied(c, a, b, from, to), f) == Some(from.fields[f])
    ensures FieldOf(Merged(c, a, b, from, to), f) == Some(from.fields[f])
  {
    TakenExactly(c, a, b, f);
    CopiedField(c, a, b, from, to, f);
    MergedField(c, a, b, from, to, f);
  }

  /** A message of the source goes into the one that the destination has, or into a new one. */
  lemma MessageGoesInside(c: Config, a: string, b: string, from: Message, to: Message, f: string)
    requires Taken(c, a, b, f) && f in from.fields && from.fields[f].MessageValue?
    requires c.schema[a][f].Single? && c.schema[a][f].element.MessageElement?
    ensures var (e, inner, kept) := (c.schema[a][f].element.desc, Inner(c, b, f), MessageIn(FieldOf(to, f)));
      && FieldOf(Copied(c, a, b, from, to), f) == Some(MessageValue(Copied(c, e, inner, from.fields[f].message, kept)))
      && FieldOf(Merged(c, a, b, from, to), f) == Some(MessageValue(Merged(c, e, inner, from.fields[f].message, kept)))
  {
    TakenExactly(c, a, b, f);
    CopiedField(c, a, b, from, to, f);
    MergedField(c, a, b, from, to, f);
  }

  /** A copied list replaces the one of the destination, and a merged one is appended to it. */
  lemma ListsReplaceOrAppend(c: Config, a: string, b: string, from: Message, to: Message, f: string)
    requires Conforms(c.schema, a, from) && Taken(c, a, b, f) && f in from.fields && c.schema[a][f].Repeated?
    ensures from.fields[f].ListValue?
    ensures var (e, inner, items) := (c.schema[a][f].element, Inner(c, b, f), from.fields[f].items);
      && Lines(c, e, inner, items, [], FieldOf(Copied(c, a, b, from, to), f))
      && Lines(c, e, inner, items, ItemsIn(FieldOf(to, f)), FieldOf(Merged(c, a, b, from, to), f))
  {
    TakenExactly(c, a, b, f);
    CopiedField(c, a, b, from, to, f);
    MergedField(c, a, b, from, to, f);
    assert HasType(c.schema, c.schema[a][f], from.fields[f]);
    FreshItems(c, c.schema[a][f].element, Inner(c, b, f), from.fields[f].items);
  }

  lemma {:induction false} FreshItems(c: Config, e: Element, b: string, items: seq<Value>)
    requires forall i :: 0 <= i < |items| ==> IsElement(c.schema, e, items[i])
    ensures |CopiedItems(c, e, b, items)| == |items|
    ensures forall i :: 0 <= i < |items| ==> IsFresh(c, e, b, items[i], CopiedItems(c, e, b, items)[i])
    decreases items
  {
    if items != [] {
      FreshElement(c, e, b, items[0]);
      FreshItems(c, e, b, items[1..]);
    }
  }

  lemma FreshElement(c: Config, e: Element, b: string, v: Value)
    requires IsElement(c.schema, e, v)
    ensures IsFresh(c, e, b, v, CopiedElement(c, e, b, v))
  {
    if e.MessageElement? {
      CopyIsShared(c, e.desc, b, v.message);
    }
  }

  /** Copied entries replace those of the same keys, and the other keys of the destination stay. */
  lemma CopiedEntries(c: Config, a: string, b: string, from: Message, to: Message, f: string)
    requires Conforms(c.schema, a, from) && Taken(c, a, b, f) && f in from.fields && c.schema[a][f].Keyed?
    ensures from.fields[f].MapValue?
    ensures var (e, inner) := (c.schema[a][f].element, Inner(c, b, f));
      var (given, kept) := (from.fields[f].entries, EntriesIn(FieldOf(to, f)));
      var r := FieldOf(Copied(c, a, b, from, to), f);
      && r.Some? && r.value.MapValue? && r.value.entries.Keys == given.Keys + kept.Keys
      && (forall k :: k in given ==> IsFresh(c, e, inner, given[k], r.value.entries[k]))
      && (forall k :: k in kept && k !in given ==> r.value.entries[k] == kept[k])
  {
    TakenExactly(c, a, b, f);
    CopiedField(c, a, b, from, to, f);
    var e := c.schema[a][f].element;
    assert HasType(c.schema, c.schema[a][f], from.fields[f]);
    forall k | k in from.fields[f].entries
      ensures IsFresh(c, e, Inner(c, b, f), from.fields[f].entries[k],
                      CopiedElement(c, e, Inner(c, b, f), from.fields[f].entries[k]))
    {
      FreshElement(c, e, Inner(c, b, f), from.fields[f].entries[k]);
    }
  }

  /** Merged entries go into the messages of the same keys; scalars and new keys are as in a copy; the others stay. */
  lemma MergedEntries(c: Config, a: string, b: string, from: Message, to: Message, f: string)
    requires Conforms(c.schema, a, from) && Taken(c, a, b, f) && f in from.fields && c.schema[a][f].Keyed?
    ensures from.fields[f].MapValue?
    ensures var (e, inner) := (c.schema[a][f].element, Inner(c, b, f));
      var (given, kept) := (from.fields[f].entries, EntriesIn(FieldOf(to, f)));
      var r := FieldOf(Merged(c, a, b, from, to), f);
      && r.Some? && r.value.MapValue? && r.value.entries.Keys == given.Keys + kept.Keys
      && (forall k :: k in given && (e.ScalarElement? || k !in kept) ==> IsFresh(c, e, inner, given[k], r.value.entries[k]))
      && (forall k :: k in given && k in kept && e.MessageElement? ==>
            && given[k].MessageValue?
            && r.value.entries[k] == MessageValue(Merged(c, e.desc, inner, given[k].message, MessageIn(Some(kept[k])))))
      && (forall k :: k in kept && k !in given ==> r.value.entries[k] == kept[k])
  {
    TakenExactly(c, a, b, f);
    MergedField(c, a, b, from, to, f);
    var e := c.schema[a][f].element;
    assert HasType(c.schema, c.schema[a][f], from.fields[f]);
    forall k | k in from.fields[f].entries
      ensures IsFresh(c, e, Inner(c, b, f), from.fields[f].entries[k],
                      CopiedElement(c, e, Inner(c, b, f), from.fields[f].entries[k]))
    {
      FreshElement(c, e, Inner(c, b, f), from.fields[f].entries[k]);
    }
  }
}
