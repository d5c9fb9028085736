/**
 Copies and merges messages between two types by the names of their fields. Fields that the destination type lacks are
 skipped: the builder never hands over the flag that would make that an error.
 */
module Mapper {
  import opened Wrappers
  import opened Messages

  /** Whether the mapper takes the field from one type to the other. */
  predicate Maps(c: Config, from: string, to: string, f: string) {
    && f in Fields(c.schema, from) && !ShouldIgnore(c, from, f)
    && f in Fields(c.schema, to) && !ShouldIgnore(c, to, f)
  }

  /** The type of the message inside a field of the destination, where the source has a message. */
  function Target(c: Config, to: string, f: string): (desc: string) {
    if f in Fields(c.schema, to) && Fields(c.schema, to)[f].element.MessageElement?
    then Fields(c.schema, to)[f].element.desc else ""
  }

  /* ---------- Copy ---------- */

  /** What is in the destination after copying a message into it. */
  function Copied(c: Config, a: string, b: string, from: Message, to: Message): (r: Message)
    decreases from
  {
    Message(map f | f in from.fields.Keys + to.fields.Keys
                    && (if Maps(c, a, b, f) then f in from.fields else f in to.fields) ::
      if Maps(c, a, b, f) then
        CopiedValue(c, Fields(c.schema, a)[f], Target(c, b, f), from.fields[f], FieldOf(to, f))
      else to.fields[f])
  }

  function CopiedValue(c: Config, t: FieldType, b: string, v: Value, kept: Option<Value>): (r: Value)
    decreases v
  {
    match t
    case Repeated(e) => ListValue(if v.ListValue? then CopiedItems(c, e, b, v.items) else [])
    case Keyed(e) =>
      MapValue(EntriesIn(kept) +
               if v.MapValue? then map k | k in v.entries :: CopiedElement(c, e, b, v.entries[k]) else map[])
    case Single(MessageElement(a)) =>
      MessageValue(if v.MessageValue? then Copied(c, a, b, v.message, MessageIn(kept)) else MessageIn(kept))
    case Single(ScalarElement(_)) => v
  }

  /** A new element of a list or of a map. */
  function CopiedElement(c: Config, e: Element, b: string, v: Value): (r: Value)
    decreases v
  {
    match e
    case ScalarElement(_) => v
    case MessageElement(a) => if v.MessageValue? then MessageValue(Copied(c, a, b, v.message, EMPTY)) else MessageValue(EMPTY)
  }

  function CopiedItems(c: Config, e: Element, b: string, items: seq<Value>): (r: seq<Value>)
    decreases items
  {
    if items == [] then [] else [CopiedElement(c, e, b, items[0])] + CopiedItems(c, e, b, items[1..])
  }

  /* ---------- Merge ---------- */

  /** What is in the destination after merging a message into it. */
  function Merged(c: Config, a: string, b: string, from: Message, to: Message): (r: Message)
    decreases from
  {
    Message(map f | f in from.fields.Keys + to.fields.Keys
                    && (f in to.fields || (f in from.fields && Maps(c, a, b, f))) ::
      if f in from.fields && Maps(c, a, b, f) then
        MergedValue(c, Fields(c.schema, a)[f], Target(c, b, f), from.fields[f], FieldOf(to, f))
      else to.fields[f])
  }

  function MergedValue(c: Config, t: FieldType, b: string, v: Value, kept: Option<Value>): (r: Value)
    decreases v
  {
    match t
    case Repeated(e) => ListValue(ItemsIn(kept) + if v.ListValue? then CopiedItems(c, e, b, v.items) else [])
    case Keyed(e) =>
      var before := EntriesIn(kept);
      MapValue(before +
               if v.MapValue? then
                 map k | k in v.entries :: MergedElement(c, e, b, v.entries[k], if k in before then Some(before[k]) else None)
               else map[])
    case Single(MessageElement(a)) =>
      MessageValue(if v.MessageValue? then Merged(c, a, b, v.message, MessageIn(kept)) else MessageIn(kept))
    case Single(ScalarElement(_)) => v
  }

  /** The value of a key: merged into the message of the same key, or a new one. */
  function MergedElement(c: Config, e: Element, b: string, v: Value, kept: Option<Value>): (r: Value)
    decreases v
  {
    match e
    case ScalarElement(_) => v
    case MessageElement(a) =>
      if kept.Some? then MessageValue(if v.MessageValue? then Merged(c, a, b, v.message, MessageIn(kept)) else MessageIn(kept))
      else CopiedElement(c, e, b, v)
  }

  /* ---------- One field at a time ---------- */

  lemma CopiedField(c: Config, a: string, b: string, from: Message, to: Message, f: string)
    ensures FieldOf(Copied(c, a, b, from, to), f)
         == if !Maps(c, a, b, f) then FieldOf(to, f)
            else if f !in from.fields then None
            else Some(CopiedValue(c, Fields(c.schema, a)[f], Target(c, b, f), from.fields[f], FieldOf(to, f)))
  {
  }

  lemma MergedField(c: Config, a: string, b: string, from: Message, to: Message, f: string)
    ensures FieldOf(Merged(c, a, b, from, to), f)
         == if f in from.fields && Maps(c, a, b, f)
            then Some(MergedValue(c, Fields(c.schema, a)[f], Target(c, b, f), from.fields[f], FieldOf(to, f)))
            else FieldOf(to, f)
  {
  }

  /* ---------- The loops of the mapper ---------- */

  /** Goes through the fields of the source type, in any order, updating the destination. */
  method CopyMessage(c: Config, a: string, b: string, from: Message, to: Message) returns (r: Message)
    ensures r == Copied(c, a, b, from, to)
    decreases from
  {
    r := to;
    var todo := Fields(c.schema, a).Keys;
    forall f ensures f !in todo ==> FieldOf(to, f) == FieldOf(Copied(c, a, b, from, to), f) {
      CopiedField(c, a, b, from, to, f);
    }
    while todo != {}
      invariant todo <= Fields(c.schema, a).Keys
      invariant forall f :: FieldOf(r, f) == FieldOf(if f in todo then to else Copied(c, a, b, from, to), f)
      decreases todo
    {
      var f :| f in todo;
      todo := todo - {f};
      CopiedField(c, a, b, from, to, f);
      if ShouldIgnore(c, a, f) {
        continue;
      }
      if f !in Fields(c.schema, b) || ShouldIgnore(c, b, f) {
        continue;
      }
      if f !in from.fields {
        r := Message(r.fields - {f});
        continue;
      }
      var v := CopyValue(c, Fields(c.schema, a)[f], Target(c, b, f), from.fields[f], FieldOf(r, f));
      r := Message(r.fields[f := v]);
    }
    SameFields(r, Copied(c, a, b, from, to));
  }

  method CopyValue(c: Config, t: FieldType, b: string, v: Value, kept: Option<Value>) returns (r: Value)
    ensures r == CopiedValue(c, t, b, v, kept)
    decreases v
  {
    match t {
      case Repeated(e) =>
        var items := [];
        if v.ListValue? {
          items := CopyList(c, e, b, v.items);
        }
        r := ListValue(items);
      case Keyed(e) =>
        r := MapValue(EntriesIn(kept));
        if v.MapValue? {
          var entries := CopyMap(c, e, b, v, EntriesIn(kept));
          r := MapValue(entries);
        }
      case Single(MessageElement(a)) =>
        var inner := MessageIn(kept);
        if v.MessageValue? {
          inner := CopyMessage(c, a, b, v.message, inner);
        }
        r := MessageValue(inner);
      case Single(ScalarElement(_)) => r := v;
    }
  }

  method CopyElement(c: Config, e: Element, b: string, v: Value) returns (r: Value)
    ensures r == CopiedElement(c, e, b, v)
    decreases v
  {
    if e.ScalarElement? {
      return v;
    }
    var inner := EMPTY;
    if v.MessageValue? {
      inner := CopyMessage(c, e.desc, b, v.message, inner);
    }
    r := MessageValue(inner);
  }

  method CopyList(c: Config, e: Element, b: string, from: seq<Value>) returns (to: seq<Value>)
    ensures to == CopiedItems(c, e, b, from)
    decreases from
  {
    to := [];
    for i := 0 to |from|
      invariant to + CopiedItems(c, e, b, from[i..]) == CopiedItems(c, e, b, from)
    {
      var item := CopyElement(c, e, b, from[i]);
      assert from[i..][0] == from[i] && from[i..][1..] == from[i + 1..];
      to := to + [item];
    }
  }

  method CopyMap(c: Config, e: Element, b: string, from: Value, before: map<string, Value>)
    returns (to: map<string, Value>)
    requires from.MapValue?
    ensures to == before + map k | k in from.entries :: CopiedElement(c, e, b, from.entries[k])
    decreases from, 0
  {
    to := before;
    var todo := from.entries.Keys;
    while todo != {}
      invariant todo <= from.entries.Keys
      invariant to == before + map k | k in from.entries && k !in todo :: CopiedElement(c, e, b, from.entries[k])
      decreases todo
    {
      var k :| k in todo;
      var value := CopyElement(c, e, b, from.entries[k]);
      to := to[k := value];
      todo := todo - {k};
    }
  }

  method MergeMessage(c: Config, a: string, b: string, from: Message, to: Message) returns (r: Message)
    ensures r == Merged(c, a, b, from, to)
    decreases from
  {
    r := to;
    var todo := Fields(c.schema, a).Keys;
    forall f ensures f !in todo ==> FieldOf(to, f) == FieldOf(Merged(c, a, b, from, to), f) {
      MergedField(c, a, b, from, to, f);
    }
    while todo != {}
      invariant todo <= Fields(c.schema, a).Keys
      invariant forall f :: FieldOf(r, f) == FieldOf(if f in todo then to else Merged(c, a, b, from, to), f)
      decreases todo
    {
      var f :| f in todo;
      todo := todo - {f};
      MergedField(c, a, b, from, to, f);
      if ShouldIgnore(c, a, f) {
        continue;
      }
      if f !in Fields(c.schema, b) || ShouldIgnore(c, b, f) {
        continue;
      }
      if f !in from.fields {
        continue;
      }
      var v := MergeValue(c, Fields(c.schema, a)[f], Target(c, b, f), from.fields[f], FieldOf(r, f));
      r := Message(r.fields[f := v]);
    }
    SameFields(r, Merged(c, a, b, from, to));
  }

  method MergeValue(c: Config, t: FieldType, b: string, v: Value, kept: Option<Value>) returns (r: Value)
    ensures r == MergedValue(c, t, b, v, kept)
    decreases v
  {
    match t {
      case Repeated(e) =>
        var items := [];
        if v.ListValue? {
          items := CopyList(c, e, b, v.items);
        }
        r := ListValue(ItemsIn(kept) + items);
      case Keyed(e) =>
        r := MapValue(EntriesIn(kept));
        if v.MapValue? {
          var entries := MergeMap(c, e, b, v, EntriesIn(kept));
          r := MapValue(entries);
        }
      case Single(MessageElement(a)) =>
        var inner := MessageIn(kept);
        if v.MessageValue? {
          inner := MergeMessage(c, a, b, v.message, inner);
        }
        r := MessageValue(inner);
      case Single(ScalarElement(_)) => r := v;
    }
  }

  method MergeElement(c: Config, e: Element, b: string, v: Value, kept: Option<Value>) returns (r: Value)
    ensures r == MergedElement(c, e, b, v, kept)
    decreases v
  {
    if e.MessageElement? && kept.Some? {
      var inner := MessageIn(kept);
      if v.MessageValue? {
        inner := MergeMessage(c, e.desc, b, v.message, inner);
      }
      r := MessageValue(inner);
    } else {
      r := CopyElement(c, e, b, v);
    }
  }

  method MergeMap(c: Config, e: Element, b: string, from: Value, before: map<string, Value>)
    returns (to: map<string, Value>)
    requires from.MapValue?
    ensures to == before + map k | k in from.entries ::
      MergedElement(c, e, b, from.entries[k], if k in before then Some(before[k]) else None)
    decreases from, 0
  {
    to := before;
    var todo := from.entries.Keys;
    while todo != {}
      invariant todo <= from.entries.Keys
      invariant to == before + map k | k in from.entries && k !in todo ::
        MergedElement(c, e, b, from.entries[k], if k in before then Some(before[k]) else None)
      decreases todo
    {
      var k :| k in todo;
      var value := MergeElement(c, e, b, from.entries[k], if k in to then Some(to[k]) else None);
      to := to[k := value];
      todo := todo - {k};
    }
  }
}
