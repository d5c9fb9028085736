/**
 Field mask paths: reading, writing and clearing the value at the end of a path, and the masked update of a stored
 object. Paths are made of field steps; the last step can select a key of a map.
 */
module Masks {
  import opened Wrappers
  import opened Messages

  datatype Step = FieldStep(field: string) | KeyStep(field: string, key: string)

  type Path = seq<Step>

  /** The paths of a message type: message fields, and at the end any field, or a key of a map. */
  predicate IsPath(schema: Schema, desc: string, p: Path)
    decreases |p|
  {
    && p != []
    && p[0].field in Fields(schema, desc)
    && var t := Fields(schema, desc)[p[0].field];
      if |p| == 1 then p[0].KeyStep? ==> t.Keyed?
      else p[0].FieldStep? && t.Single? && t.element.MessageElement? && IsPath(schema, t.element.desc, p[1..])
  }

  function GetAt(m: Message, p: Path): (v: Option<Value>)
    requires p != []
    decreases |p|
  {
    var v := FieldOf(m, p[0].field);
    if |p| > 1 then if v.None? then None else GetAt(MessageIn(v), p[1..])
    else if p[0].FieldStep? then v
    else if p[0].key in EntriesIn(v) then Some(EntriesIn(v)[p[0].key]) else None
  }

  function SetAt(m: Message, p: Path, value: Value): (r: Message)
    requires p != []
    decreases |p|
  {
    var f := p[0].field;
    if |p| > 1 then WithField(m, f, MessageValue(SetAt(MessageIn(FieldOf(m, f)), p[1..], value)))
    else if p[0].FieldStep? then WithField(m, f, value)
    else WithEntries(m, f, EntriesIn(FieldOf(m, f))[p[0].key := value])
  }

  function ClearAt(m: Message, p: Path): (r: Message)
    requires p != []
    decreases |p|
  {
    var f := p[0].field;
    if f !in m.fields then m
    else if |p| > 1 then WithField(m, f, MessageValue(ClearAt(MessageIn(FieldOf(m, f)), p[1..])))
    else if p[0].FieldStep? then Without(m, f)
    else WithEntries(m, f, EntriesIn(FieldOf(m, f)) - {p[0].key})
  }

  function WithField(m: Message, f: string, v: Value): (r: Message) {
    Message(m.fields[f := v])
  }

  function Without(m: Message, f: string): (r: Message) {
    Message(m.fields - {f})
  }

  /** A map field without entries is an absent field. */
  function WithEntries(m: Message, f: string, entries: map<string, Value>): (r: Message) {
    if entries == map[] then Without(m, f) else WithField(m, f, MapValue(entries))
  }

  /** One iteration of the masked update. */
  function Apply(input: Message, m: Message, p: Path): (r: Message)
    requires p != []
  {
    var v := GetAt(input, p);
    if v.Some? then SetAt(m, p, v.value) else ClearAt(m, p)
  }

  /** No path of the mask is empty. */
  predicate Steps(mask: seq<Path>) {
    forall i :: 0 <= i < |mask| ==> mask[i] != []
  }

  function ApplyAll(input: Message, m: Message, mask: seq<Path>): (r: Message)
    requires Steps(mask)
    decreases |mask|
  {
    if mask == [] then m else ApplyAll(input, Apply(input, m, mask[0]), mask[1..])
  }

  /* ---------- Following a path step by step ---------- */

  /** Follows the path from message to message. */
  method Get(m: Message, p: Path) returns (v: Option<Value>)
    requires p != []
    ensures v == GetAt(m, p)
  {
    var current := m;
    v := None;
    for i := 0 to |p|
      invariant i < |p| ==> GetAt(current, p[i..]) == GetAt(m, p)
      invariant i == |p| ==> v == GetAt(m, p)
    {
      var step := p[i];
      assert p[i..][0] == step && p[i..][1..] == p[i + 1..];
      if step.field !in current.fields {
        return None;
      }
      v := Some(current.fields[step.field]);
      if step.KeyStep? && i == |p| - 1 {
        var entries := EntriesIn(v);
        if step.key !in entries {
          return None;
        }
        v := Some(entries[step.key]);
      }
      current := MessageIn(v);
    }
  }

  /** A message on the way and the field through which the path continues. */
  datatype Frame = Frame(message: Message, field: string)

  /** Puts a changed message back into the messages on the way to it, the innermost first. */
  function Rebuild(trail: seq<Frame>, m: Message): (r: Message) {
    if trail == [] then m
    else
      var last := trail[|trail| - 1];
      Rebuild(trail[..|trail| - 1], WithField(last.message, last.field, MessageValue(m)))
  }

  method PutBack(trail: seq<Frame>, m: Message) returns (r: Message)
    ensures r == Rebuild(trail, m)
  {
    r := m;
    var n := |trail|;
    assert trail[..n] == trail;
    while n > 0
      invariant 0 <= n <= |trail|
      invariant Rebuild(trail[..n], r) == Rebuild(trail, m)
    {
      n := n - 1;
      assert trail[..n + 1][..n] == trail[..n];
      r := WithField(trail[n].message, trail[n].field, MessageValue(r));
    }
  }

  /** Descends to the last message of the path, creating the missing ones, and writes the value there. */
  method Set(m: Message, p: Path, value: Value) returns (r: Message)
    requires p != []
    ensures r == SetAt(m, p, value)
  {
    var current, trail := m, [];
    for i := 0 to |p| - 1
      invariant Rebuild(trail, SetAt(current, p[i..], value)) == SetAt(m, p, value)
    {
      var f := p[i].field;
      assert p[i..][0] == p[i] && p[i..][1..] == p[i + 1..];
      var frame := Frame(current, f);
      assert (trail + [frame])[..|trail|] == trail;
      current := if f in current.fields then MessageIn(Some(current.fields[f])) else EMPTY;
      trail := trail + [frame];
    }
    var last := p[|p| - 1];
    assert p[|p| - 1..] == [last];
    if last.FieldStep? {
      current := WithField(current, last.field, value);
    } else {
      var entries := EntriesIn(FieldOf(current, last.field));
      assert last.key in entries[last.key := value];
      current := WithField(current, last.field, MapValue(entries[last.key := value]));
    }
    r := PutBack(trail, current);
  }

  /** Descends to the last message of the path, stopping at the first missing one, and clears the value there. */
  method Clear(m: Message, p: Path) returns (r: Message)
    requires p != []
    ensures r == ClearAt(m, p)
  {
    var current, trail := m, [];
    for i := 0 to |p| - 1
      invariant Rebuild(trail, ClearAt(current, p[i..])) == ClearAt(m, p)
    {
      var f := p[i].field;
      assert p[i..][0] == p[i] && p[i..][1..] == p[i + 1..];
      if f !in current.fields {
        r := PutBack(trail, current);
        return;
      }
      var frame := Frame(current, f);
      assert (trail + [frame])[..|trail|] == trail;
      current := MessageIn(Some(current.fields[f]));
      trail := trail + [frame];
    }
    var last := p[|p| - 1];
    assert p[|p| - 1..] == [last];
    if last.field in current.fields {
      if last.FieldStep? {
        current := Without(current, last.field);
      } else {
        var entries := EntriesIn(FieldOf(current, last.field)) - {last.key};
        current := WithEntries(current, last.field, entries);
      }
    }
    r := PutBack(trail, current);
  }

  /** The object fetched by the update of the generic server. */
  class StoredObject {
    var content: Message

    constructor (content: Message)
      ensures this.content == content
    {
      this.content := content;
    }

    /** The loop of the update over the paths of the mask. */
    method UpdateMasked(input: Message, mask: seq<Path>)
      requires Steps(mask)
      modifies this
      ensures content == ApplyAll(input, old(content), mask)
    {
      for i := 0 to |mask|
        invariant ApplyAll(input, content, mask[i..]) == ApplyAll(input, old(content), mask)
      {
        var path := mask[i];
        assert mask[i..][0] == path && mask[i..][1..] == mask[i + 1..];
        var value := Get(input, path);
        if value.Some? {
          content := Set(content, path, value.value);
        } else {
          content := Clear(content, path);
        }
      }
    }
  }
}
