/**
 Writes messages as JSON token by token, leaving out the ignored fields. The fields of a message and the entries of a
 map come in any order.
 */
module JsonEncoder {
  import opened Wrappers
  import opened Messages
  import opened Json

  /** The names of the values of each enumeration are distinct. */
  ghost predicate WellNamed(schema: Schema) {
    forall desc, f :: desc in schema && f in schema[desc] ==> IsNamed(schema[desc][f].element)
  }

  ghost predicate IsNamed(e: Element) {
    e.ScalarElement? && e.kind.EnumKind? ==> Distinct(e.kind.names)
  }

  ghost predicate Distinct(names: map<int, string>) {
    forall i, j :: i in names && j in names && names[i] == names[j] ==> i == j
  }

  // Reading, the way the JSON mapping of protocol buffers does it

  /** The number of a name. */
  ghost function NumberOf(names: map<int, string>, name: string): (n: Option<int>) {
    if n :| n in names && names[n] == name then Some(n) else None
  }

  ghost function Read(schema: Schema, desc: string, d: Doc): (r: Option<Message>)
    decreases d, 0
  {
    if !d.Object? then None
    else
      var fields := ReadFields(schema, desc, d.members);
      if fields.None? then None else Some(Message(fields.value))
  }

  predicate HasName(members: seq<Member>, name: string) {
    exists i :: 0 <= i < |members| && members[i].name == name
  }

  /** The fields of an object: no name may occur twice, and a null leaves the field out. */
  ghost function ReadFields(schema: Schema, desc: string, members: seq<Member>): (r: Option<map<string, Value>>)
    decreases members
  {
    if members == [] then Some(map[])
    else
      var m := members[|members| - 1];
      var before := ReadFields(schema, desc, members[..|members| - 1]);
      if before.None? || HasName(members[..|members| - 1], m.name) || m.name !in Fields(schema, desc) then None
      else if m.value.Null? then before
      else
        var v := ReadValue(schema, Fields(schema, desc)[m.name], m.value);
        if v.None? then None else Some(before.value[m.name := v.value])
  }

  ghost function ReadValue(schema: Schema, t: FieldType, d: Doc): (r: Option<Value>)
    decreases d, 2
  {
    match t
    case Single(e) => ReadElement(schema, e, d)
    case Repeated(e) =>
      if !d.Array? then None
      else
        var items := ReadItems(schema, e, d.items);
        if items.None? then None else Some(ListValue(items.value))
    case Keyed(e) =>
      if !d.Object? then None
      else
        var entries := ReadEntries(schema, e, d.members);
        if entries.None? then None else Some(MapValue(entries.value))
  }

  ghost function ReadItems(schema: Schema, e: Element, items: seq<Doc>): (r: Option<seq<Value>>)
    decreases items
  {
    if items == [] then Some([])
    else
      var before := ReadItems(schema, e, items[..|items| - 1]);
      var v := ReadElement(schema, e, items[|items| - 1]);
      if before.None? || v.None? then None else Some(before.value + [v.value])
  }

  ghost function ReadEntries(schema: Schema, e: Element, members: seq<Member>): (r: Option<map<string, Value>>)
    decreases members
  {
    if members == [] then Some(map[])
    else
      var m := members[|members| - 1];
      var before := ReadEntries(schema, e, members[..|members| - 1]);
      var v := ReadElement(schema, e, m.value);
      if before.None? || HasName(members[..|members| - 1], m.name) || v.None? then None
      else Some(before.value[m.name := v.value])
  }

  /** An item of a list, a value of a map, or the value of a field. None of them may be null. */
  ghost function ReadElement(schema: Schema, e: Element, d: Doc): (r: Option<Value>)
    decreases d, 1
  {
    match e
    case ScalarElement(kind) =>
      var s := ReadScalar(kind, d);
      if s.None? then None else Some(ScalarValue(s.value))
    case MessageElement(desc) =>
      var m := Read(schema, desc, d);
      if m.None? then None else Some(MessageValue(m.value))
  }

  ghost function ReadScalar(kind: Kind, d: Doc): (s: Option<Scalar>) {
    match kind
    case BoolKind => if d.Bool? then Some(BoolScalar(d.flag)) else None
    case StringKind => if d.Text? then Some(StringScalar(d.text)) else None
    case IntKind => if d.Number? && d.number.Floor as real == d.number then Some(IntScalar(d.number.Floor)) else None
    case LongKind => if d.Text? then Some(LongScalar(d.text)) else None
    case FloatKind => if d.Number? then Some(FloatScalar(d.number)) else None
    case BytesKind => if d.Text? then Some(BytesScalar(d.text)) else None
    case EnumKind(names) =>
      if d.Text? && NumberOf(names, d.text).Some? then Some(EnumScalar(NumberOf(names, d.text).value)) else None
  }

  // What is left of a message without its ignored fields

  function Pruned(c: Config, desc: string, m: Message): (r: Message)
    decreases m
  {
    Message(map f | f in m.fields && !ShouldIgnore(c, desc, f) :: PrunedField(c, desc, f, m.fields[f]))
  }

  function PrunedField(c: Config, desc: string, f: string, v: Value): (r: Value)
    decreases v, 1
  {
    if f in Fields(c.schema, desc) then PrunedValue(c, Fields(c.schema, desc)[f].element, v) else v
  }

  function PrunedValue(c: Config, e: Element, v: Value): (r: Value)
    decreases v, 0
  {
    if e.ScalarElement? then v
    else match v
      case ScalarValue(_) => v
      case MessageValue(m) => MessageValue(Pruned(c, e.desc, m))
      case ListValue(items) => ListValue(PrunedItems(c, e, items))
      case MapValue(entries) => MapValue(map k | k in entries :: PrunedValue(c, e, entries[k]))
  }

  function PrunedItems(c: Config, e: Element, items: seq<Value>): (r: seq<Value>)
    ensures |r| == |items|
    decreases items
  {
    if items == [] then []
    else PrunedItems(c, e, items[..|items| - 1]) + [PrunedValue(c, e, items[|items| - 1])]
  }

  // What comes back

  /** The number zero of an enumeration, which is written as null. */
  predicate IsZero(v: Value) {
    v.ScalarValue? && v.scalar == EnumScalar(0)
  }

  /** A message as it comes back: without fields that are zero, and not at all when an item or an entry is. */
  ghost function Recovered(m: Message): (r: Option<Message>)
    decreases m
  {
    if forall f :: f in m.fields && !IsZero(m.fields[f]) ==> RecoveredValue(m.fields[f]).Some?
    then Some(Message(map f | f in m.fields && !IsZero(m.fields[f]) :: RecoveredValue(m.fields[f]).value))
    else None
  }

  ghost function RecoveredValue(v: Value): (r: Option<Value>)
    decreases v
  {
    match v
    case ScalarValue(_) => if IsZero(v) then None else Some(v)
    case MessageValue(m) =>
      var r := Recovered(m);
      if r.None? then None else Some(MessageValue(r.value))
    case ListValue(items) =>
      var r := RecoveredItems(items);
      if r.None? then None else Some(ListValue(r.value))
    case MapValue(entries) =>
      if forall k :: k in entries ==> RecoveredValue(entries[k]).Some?
      then Some(MapValue(map k | k in entries :: RecoveredValue(entries[k]).value))
      else None
  }

  ghost function RecoveredItems(items: seq<Value>): (r: Option<seq<Value>>)
    decreases items
  {
    if items == [] then Some([])
    else
      var before, v := RecoveredItems(items[..|items| - 1]), RecoveredValue(items[|items| - 1]);
      if before.None? || v.None? then None else Some(before.value + [v.value])
  }

  ghost function RecoveredFields(fields: map<string, Value>): (r: Option<map<string, Value>>) {
    if forall f :: f in fields && !IsZero(fields[f]) ==> RecoveredValue(fields[f]).Some?
    then Some(map f | f in fields && !IsZero(fields[f]) :: RecoveredValue(fields[f]).value)
    else None
  }

  // Writing

  class Stream {
    var tokens: seq<Token>

    constructor ()
      ensures tokens == []
    {
      tokens := [];
    }

    method Write(token: Token)
      modifies this
      ensures tokens == old(tokens) + [token]
    {
      tokens := tokens + [token];
    }

    method WriteObjectField(name: string)
      modifies this
      ensures tokens == old(tokens) + [StringToken(name), Colon]
    {
      tokens := tokens + [StringToken(name), Colon];
    }
  }

  class Encoder {
    const config: Config

    constructor (config: Config)
      ensures this.config == config
    {
      this.config := config;
    }

    /**
     The output is one JSON text. Reading it gives what can be recovered of the message without its ignored fields, and
     exactly that message when no enumeration in it is zero, and only then.
     */
    method Marshal(desc: string, message: Option<Message>) returns (tokens: seq<Token>)
      requires WellNamed(config.schema)
      requires message.Some? ==> Conforms(config.schema, desc, message.value)
      ensures ParseText(tokens).Some?
      ensures message.Some? ==>
                var pruned := Pruned(config, desc, message.value);
                var r := Read(config.schema, desc, ParseText(tokens).value);
                r == Recovered(pruned) && (r == Some(pruned) <==> IsZeroFree(MessageValue(pruned)))
      ensures message.None? ==> Read(config.schema, desc, ParseText(tokens).value) == Some(EMPTY)
    {
      if message.None? {
        tokens := [ObjectStart, ObjectEnd];
        ParseExact(tokens, Object([]));
        return;
      }
      var stream := new Stream();
      ghost var d := MarshalMessage(stream, desc, message.value);
      tokens := stream.tokens;
      ParseExact(tokens, d);
      RecoveredExactly(MessageValue(Pruned(config, desc, message.value)));
    }

    method StartMember(stream: Stream, name: string, first: bool)
      modifies stream
      ensures stream.tokens == old(stream.tokens) + (if first then [] else [Comma]) + [StringToken(name), Colon]
    {
      if !first {
        stream.Write(Comma);
      }
      stream.WriteObjectField(name);
    }

    method MarshalMessage(stream: Stream, desc: string, message: Message) returns (ghost d: Doc)
      requires WellNamed(config.schema) && Conforms(config.schema, desc, message)
      modifies stream
      ensures stream.tokens == old(stream.tokens) + Flat(d) && d.Object?
      ensures Read(config.schema, desc, d) == Recovered(Pruned(config, desc, message))
      decreases message
    {
      stream.Write(ObjectStart);
      var first := true;
      ghost var members := [];
      ghost var start := stream.tokens;
      var rest := message.fields.Keys;
      AllFields(config, desc, message);
      while rest != {}
        invariant rest <= message.fields.Keys
        invariant first <==> members == []
        invariant stream.tokens == start + FlatMembers(members)
        invariant ReadSoFar(config, desc, message, rest, members)
        decreases |rest|
      {
        var f :| f in rest;
        if ShouldIgnore(config, desc, f) {
          SkipField(config, desc, message, rest, members, f);
        } else {
          StartMember(stream, f, first);
          ghost var value := MarshalValue(stream, Fields(config.schema, desc)[f], message.fields[f]);
          MemberWritten(start, members, Member(f, value));
          NextField(config, desc, message, rest, members, Member(f, value));
          members := members + [Member(f, value)];
          first := false;
        }
        rest := rest - {f};
      }
      stream.Write(ObjectEnd);
      d := Object(members);
      ObjectWritten(start, members);
    }

    method MarshalValue(stream: Stream, t: FieldType, value: Value) returns (ghost d: Doc)
      requires WellNamed(config.schema) && IsNamed(t.element) && HasType(config.schema, t, value)
      modifies stream
      ensures stream.tokens == old(stream.tokens) + Flat(d)
      ensures ReadValue(config.schema, t, d) == RecoveredValue(PrunedValue(config, t.element, value))
      ensures d.Null? <==> IsZero(value)
      decreases value, 2
    {
      match t
      case Repeated(e) => d := MarshalList(stream, e, value);
      case Keyed(e) => d := MarshalMap(stream, e, value);
      case Single(e) => d := MarshalSingle(stream, e, value);
    }

    method MarshalSingle(stream: Stream, e: Element, value: Value) returns (ghost d: Doc)
      requires WellNamed(config.schema) && IsNamed(e) && IsElement(config.schema, e, value)
      modifies stream
      ensures stream.tokens == old(stream.tokens) + Flat(d)
      ensures ReadElement(config.schema, e, d) == RecoveredValue(PrunedValue(config, e, value))
      ensures d.Null? <==> IsZero(value)
      decreases value, 0
    {
      match e
      case ScalarElement(kind) =>
        d := MarshalScalar(stream, kind, value.scalar);
      case MessageElement(desc) =>
        d := MarshalMessage(stream, desc, value.message);
    }

    method MarshalScalar(stream: Stream, kind: Kind, s: Scalar) returns (ghost d: Doc)
      requires HasKind(kind, s) && (kind.EnumKind? ==> Distinct(kind.names))
      modifies stream
      ensures stream.tokens == old(stream.tokens) + Flat(d)
      ensures ReadScalar(kind, d) == if s == EnumScalar(0) then None else Some(s)
      ensures d.Null? <==> s == EnumScalar(0)
    {
      match kind
      case BoolKind =>
        stream.Write(BoolToken(s.flag));
        d := Bool(s.flag);
      case StringKind =>
        stream.Write(StringToken(s.text));
        d := Text(s.text);
      case IntKind =>
        stream.Write(NumberToken(s.int32 as real));
        d := Number(s.int32 as real);
      case LongKind =>
        stream.Write(StringToken(s.decimal));
        d := Text(s.decimal);
      case FloatKind =>
        stream.Write(NumberToken(s.float));
        d := Number(s.float);
      case BytesKind =>
        stream.Write(StringToken(s.base64));
        d := Text(s.base64);
      case EnumKind(names) =>
        if s.number == 0 {
          stream.Write(NullToken);
          d := Null;
        } else {
          stream.Write(StringToken(names[s.number]));
          d := Text(names[s.number]);
          NumberOfName(names, s.number);
        }
    }

    method MarshalList(stream: Stream, e: Element, value: Value) returns (ghost d: Doc)
      requires WellNamed(config.schema) && IsNamed(e) && HasType(config.schema, Repeated(e), value)
      modifies stream
      ensures stream.tokens == old(stream.tokens) + Flat(d) && d.Array?
      ensures ReadValue(config.schema, Repeated(e), d) == RecoveredValue(PrunedValue(config, e, value))
      decreases value, 1
    {
      stream.Write(ArrayStart);
      ghost var start := stream.tokens;
      ghost var docs := [];
      for i := 0 to |value.items|
        invariant |docs| == i
        invariant stream.tokens == start + FlatItems(docs)
        invariant ItemsSoFar(config, e, value.items[..i], docs)
      {
        if i > 0 {
          stream.Write(Comma);
        }
        ghost var item := MarshalSingle(stream, e, value.items[i]);
        ItemWritten(start, docs, item);
        NextItemRead(config, e, value.items, i, docs, item);
        docs := docs + [item];
      }
      stream.Write(ArrayEnd);
      d := Array(docs);
      AllItems(config, e, value, docs);
      ListWritten(start, docs);
    }

    method MarshalMap(stream: Stream, e: Element, value: Value) returns (ghost d: Doc)
      requires WellNamed(config.schema) && IsNamed(e) && HasType(config.schema, Keyed(e), value)
      modifies stream
      ensures stream.tokens == old(stream.tokens) + Flat(d) && d.Object?
      ensures ReadValue(config.schema, Keyed(e), d) == RecoveredValue(PrunedValue(config, e, value))
      decreases value, 1
    {
      stream.Write(ObjectStart);
      var first := true;
      ghost var members := [];
      ghost var start := stream.tokens;
      var rest := value.entries.Keys;
      NoEntries(config, e, value);
      while rest != {}
        invariant rest <= value.entries.Keys
        invariant first <==> members == []
        invariant stream.tokens == start + FlatMembers(members)
        invariant EntriesSoFar(config, e, value, rest, members)
        decreases |rest|
      {
        var key :| key in rest;
        StartMember(stream, key, first);
        ghost var doc := MarshalSingle(stream, e, value.entries[key]);
        MemberWritten(start, members, Member(key, doc));
        NextEntry(config, e, value, rest, members, Member(key, doc));
        members := members + [Member(key, doc)];
        rest := rest - {key};
        first := false;
      }
      stream.Write(ObjectEnd);
      d := Object(members);
      AllEntries(config, e, value, members);
      ObjectWritten(start, members);
    }
  }

  // The loops

  /** The pruned fields outside of a set. */
  ghost function PrunedSome(c: Config, desc: string, m: Message, rest: set<string>): (r: map<string, Value>) {
    map f | f in m.fields && f !in rest && !ShouldIgnore(c, desc, f) :: PrunedField(c, desc, f, m.fields[f])
  }

  /** The members that are written read as what is recovered of the fields that were visited. */
  ghost predicate ReadSoFar(c: Config, desc: string, m: Message, rest: set<string>, members: seq<Member>) {
    && ReadFields(c.schema, desc, members) == RecoveredFields(PrunedSome(c, desc, m, rest))
    && forall i :: 0 <= i < |members| ==> members[i].name !in rest
  }

  ghost function Added(before: Option<map<string, Value>>, name: string, v: Option<Value>): (r: Option<map<string, Value>>) {
    if before.None? || v.None? then None else Some(before.value[name := v.value])
  }

  lemma RecoveredInsert(fields: map<string, Value>, f: string, v: Value)
    requires f !in fields
    ensures RecoveredFields(fields[f := v]) ==
            if IsZero(v) then RecoveredFields(fields) else Added(RecoveredFields(fields), f, RecoveredValue(v))
  {
    var more := fields[f := v];
    assert forall k :: k in more <==> k == f || k in fields;
    assert forall k :: k in fields ==> more[k] == fields[k];
    if RecoveredFields(fields).Some? && (IsZero(v) || RecoveredValue(v).Some?) {
      assert RecoveredFields(more).value ==
             if IsZero(v) then RecoveredFields(fields).value else RecoveredFields(fields).value[f := RecoveredValue(v).value];
    } else if RecoveredFields(fields).None? {
      var k :| k in fields && !IsZero(fields[k]) && RecoveredValue(fields[k]).None?;
      assert k in more && more[k] == fields[k];
    } else {
      assert f in more && more[f] == v;
    }
  }

  lemma AllFields(c: Config, desc: string, m: Message)
    ensures ReadSoFar(c, desc, m, m.fields.Keys, [])
    ensures Message(PrunedSome(c, desc, m, {})) == Pruned(c, desc, m)
    ensures var r := RecoveredFields(Pruned(c, desc, m).fields);
      Recovered(Pruned(c, desc, m)) == if r.None? then None else Some(Message(r.value))
  {
    assert PrunedSome(c, desc, m, m.fields.Keys) == map[];
    assert RecoveredFields(map[]) == Some(map[]);
  }

  lemma SkipField(c: Config, desc: string, m: Message, rest: set<string>, members: seq<Member>, f: string)
    requires f in rest && ShouldIgnore(c, desc, f) && ReadSoFar(c, desc, m, rest, members)
    ensures ReadSoFar(c, desc, m, rest - {f}, members)
  {
    assert PrunedSome(c, desc, m, rest - {f}) == PrunedSome(c, desc, m, rest);
  }

  lemma NextField(c: Config, desc: string, m: Message, rest: set<string>, members: seq<Member>, added: Member)
    requires ReadSoFar(c, desc, m, rest, members)
    requires added.name in m.fields && added.name in rest && !ShouldIgnore(c, desc, added.name)
    requires added.name in Fields(c.schema, desc)
    requires var (t, v) := (Fields(c.schema, desc)[added.name], m.fields[added.name]);
      && ReadValue(c.schema, t, added.value) == RecoveredValue(PrunedValue(c, t.element, v))
      && (added.value.Null? <==> IsZero(v))
    ensures ReadSoFar(c, desc, m, rest - {added.name}, members + [added])
  {
    var f := added.name;
    var v := PrunedField(c, desc, f, m.fields[f]);
    NewName(members, rest, added);
    ReadAppended(c.schema, desc, members, added);
    SomeMore(c, desc, m, rest, f);
    RecoveredInsert(PrunedSome(c, desc, m, rest), f, v);
    ZeroStays(c, Fields(c.schema, desc)[f].element, m.fields[f]);
  }

  lemma NewName(members: seq<Member>, rest: set<string>, added: Member)
    requires added.name in rest && forall i :: 0 <= i < |members| ==> members[i].name !in rest
    ensures !HasName(members, added.name)
    ensures forall i :: 0 <= i < |members + [added]| ==> (members + [added])[i].name !in rest - {added.name}
  {
  }

  lemma ReadAppended(schema: Schema, desc: string, members: seq<Member>, m: Member)
    requires !HasName(members, m.name) && m.name in Fields(schema, desc)
    ensures var before := ReadFields(schema, desc, members);
      ReadFields(schema, desc, members + [m]) ==
      if m.value.Null? then before
      else Added(before, m.name, ReadValue(schema, Fields(schema, desc)[m.name], m.value))
  {
    assert (members + [m])[..|members|] == members;
  }

  lemma SomeMore(c: Config, desc: string, m: Message, rest: set<string>, f: string)
    requires f in m.fields && f in rest && !ShouldIgnore(c, desc, f)
    ensures f !in PrunedSome(c, desc, m, rest)
    ensures PrunedSome(c, desc, m, rest - {f}) == PrunedSome(c, desc, m, rest)[f := PrunedField(c, desc, f, m.fields[f])]
  {
  }

  lemma ZeroStays(c: Config, e: Element, v: Value)
    ensures IsZero(PrunedValue(c, e, v)) <==> IsZero(v)
  {
  }

  ghost predicate ItemsSoFar(c: Config, e: Element, items: seq<Value>, docs: seq<Doc>) {
    ReadItems(c.schema, e, docs) == RecoveredItems(PrunedItems(c, e, items))
  }

  lemma NextItemRead(c: Config, e: Element, items: seq<Value>, i: nat, docs: seq<Doc>, added: Doc)
    requires i < |items| && ItemsSoFar(c, e, items[..i], docs)
    requires ReadElement(c.schema, e, added) == RecoveredValue(PrunedValue(c, e, items[i]))
    ensures ItemsSoFar(c, e, items[..i + 1], docs + [added])
  {
    assert (docs + [added])[..|docs|] == docs;
    assert items[..i + 1][..i] == items[..i];
    var pruned := PrunedItems(c, e, items[..i + 1]);
    assert pruned[..i] == PrunedItems(c, e, items[..i]) && pruned[i] == PrunedValue(c, e, items[i]);
  }

  lemma AllItems(c: Config, e: Element, v: Value, docs: seq<Doc>)
    requires v.ListValue? && ItemsSoFar(c, e, v.items[..|v.items|], docs)
    requires e.ScalarElement? ==> forall i :: 0 <= i < |v.items| ==> v.items[i].ScalarValue?
    ensures ReadValue(c.schema, Repeated(e), Array(docs)) == RecoveredValue(PrunedValue(c, e, v))
  {
    assert v.items[..|v.items|] == v.items;
    if e.ScalarElement? {
      ScalarItems(c, e, v.items);
    }
  }

  lemma {:induction false} ScalarItems(c: Config, e: Element, items: seq<Value>)
    requires e.ScalarElement?
    ensures PrunedItems(c, e, items) == items
    decreases |items|
  {
    if items != [] {
      ScalarItems(c, e, items[..|items| - 1]);
    }
  }

  /** The pruned entries outside of a set. */
  ghost function PrunedEntries(c: Config, e: Element, v: Value, rest: set<string>): (r: map<string, Value>)
    requires v.MapValue?
  {
    map k | k in v.entries && k !in rest :: PrunedValue(c, e, v.entries[k])
  }

  ghost function RecoveredEntries(entries: map<string, Value>): (r: Option<map<string, Value>>) {
    if forall k :: k in entries ==> RecoveredValue(entries[k]).Some?
    then Some(map k | k in entries :: RecoveredValue(entries[k]).value)
    else None
  }

  ghost predicate EntriesSoFar(c: Config, e: Element, v: Value, rest: set<string>, members: seq<Member>) {
    && v.MapValue?
    && ReadEntries(c.schema, e, members) == RecoveredEntries(PrunedEntries(c, e, v, rest))
    && forall i :: 0 <= i < |members| ==> members[i].name !in rest
  }

  lemma EntryInsert(entries: map<string, Value>, k: string, v: Value)
    requires k !in entries
    ensures RecoveredEntries(entries[k := v]) == Added(RecoveredEntries(entries), k, RecoveredValue(v))
  {
    var more := entries[k := v];
    assert forall j :: j in more <==> j == k || j in entries;
    assert forall j :: j in entries ==> more[j] == entries[j];
    if RecoveredEntries(entries).Some? && RecoveredValue(v).Some? {
      assert RecoveredEntries(more).value == RecoveredEntries(entries).value[k := RecoveredValue(v).value];
    } else if RecoveredEntries(entries).None? {
      var j :| j in entries && RecoveredValue(entries[j]).None?;
      assert j in more && more[j] == entries[j];
    } else {
      assert k in more && more[k] == v;
    }
  }

  lemma NoEntries(c: Config, e: Element, v: Value)
    requires v.MapValue?
    ensures EntriesSoFar(c, e, v, v.entries.Keys, [])
  {
    assert PrunedEntries(c, e, v, v.entries.Keys) == map[];
    assert RecoveredEntries(map[]) == Some(map[]);
  }

  lemma NextEntry(c: Config, e: Element, v: Value, rest: set<string>, members: seq<Member>, added: Member)
    requires EntriesSoFar(c, e, v, rest, members) && added.name in v.entries && added.name in rest
    requires ReadElement(c.schema, e, added.value) == RecoveredValue(PrunedValue(c, e, v.entries[added.name]))
    ensures EntriesSoFar(c, e, v, rest - {added.name}, members + [added])
  {
    var k := added.name;
    NewName(members, rest, added);
    assert (members + [added])[..|members|] == members;
    assert PrunedEntries(c, e, v, rest - {k}) == PrunedEntries(c, e, v, rest)[k := PrunedValue(c, e, v.entries[k])];
    EntryInsert(PrunedEntries(c, e, v, rest), k, PrunedValue(c, e, v.entries[k]));
  }

  lemma AllEntries(c: Config, e: Element, v: Value, members: seq<Member>)
    requires EntriesSoFar(c, e, v, {}, members)
    ensures ReadValue(c.schema, Keyed(e), Object(members)) == RecoveredValue(PrunedValue(c, e, v))
  {
    var entries := PrunedEntries(c, e, v, {});
    if e.ScalarElement? {
      assert entries == v.entries;
    }
    assert PrunedValue(c, e, v) == MapValue(entries);
  }

  // The tokens

  lemma MemberWritten(start: seq<Token>, members: seq<Member>, m: Member)
    ensures start + FlatMembers(members) + (if members == [] then [] else [Comma]) + [StringToken(m.name), Colon] +
            Flat(m.value) == start + FlatMembers(members + [m])
  {
    FlatMembersAppend(members, m);
    Regrouped(start, FlatMembers(members), if members == [] then [] else [Comma], [StringToken(m.name), Colon],
      Flat(m.value));
  }

  lemma ItemWritten(start: seq<Token>, items: seq<Doc>, item: Doc)
    ensures start + FlatItems(items) + (if items == [] then [] else [Comma]) + Flat(item) ==
            start + FlatItems(items + [item])
  {
    FlatItemsAppend(items, item);
    Regrouped(start, FlatItems(items), if items == [] then [] else [Comma], [], Flat(item));
  }

  lemma ObjectWritten(start: seq<Token>, members: seq<Member>)
    requires start != [] && start[|start| - 1] == ObjectStart
    ensures start + FlatMembers(members) + [ObjectEnd] == start[..|start| - 1] + Flat(Object(members))
  {
    Enclosing(start, FlatMembers(members), ObjectEnd);
  }

  lemma ListWritten(start: seq<Token>, items: seq<Doc>)
    requires start != [] && start[|start| - 1] == ArrayStart
    ensures start + FlatItems(items) + [ArrayEnd] == start[..|start| - 1] + Flat(Array(items))
  {
    Enclosing(start, FlatItems(items), ArrayEnd);
  }

  lemma Enclosing(start: seq<Token>, body: seq<Token>, end: Token)
    requires start != []
    ensures start + body + [end] == start[..|start| - 1] + ([start[|start| - 1]] + body + [end])
  {
  }

  lemma Regrouped(a: seq<Token>, b: seq<Token>, c: seq<Token>, d: seq<Token>, e: seq<Token>)
    ensures a + b + c + d + e == a + (b + c + (d + e))
    ensures a + b + c + e == a + (b + c + e)
  {
  }

  lemma NumberOfName(names: map<int, string>, number: int)
    requires Distinct(names) && number in names
    ensures NumberOf(names, names[number]) == Some(number)
  {
  }

  // Nothing is lost

  /** No enumeration at any depth is zero. */
  ghost predicate IsZeroFree(v: Value)
    decreases v
  {
    match v
    case ScalarValue(_) => !IsZero(v)
    case MessageValue(m) => forall f :: f in m.fields ==> IsZeroFree(m.fields[f])
    case ListValue(items) => forall i :: 0 <= i < |items| ==> IsZeroFree(items[i])
    case MapValue(entries) => forall k :: k in entries ==> IsZeroFree(entries[k])
  }

  /** What comes back is the value itself exactly when no enumeration in it is zero. */
  lemma {:induction false} RecoveredExactly(v: Value)
    ensures RecoveredValue(v) == Some(v) <==> IsZeroFree(v)
    ensures v.MessageValue? ==> (Recovered(v.message) == Some(v.message) <==> IsZeroFree(v))
    decreases v
  {
    match v
    case ScalarValue(_) =>
    case MessageValue(m) =>
      forall f | f in m.fields ensures RecoveredValue(m.fields[f]) == Some(m.fields[f]) <==> IsZeroFree(m.fields[f]) {
        RecoveredExactly(m.fields[f]);
      }
      FieldsExactly(m);
    case ListValue(items) => ItemsExactly(items);
    case MapValue(entries) =>
      forall k | k in entries ensures RecoveredValue(entries[k]) == Some(entries[k]) <==> IsZeroFree(entries[k]) {
        RecoveredExactly(entries[k]);
      }
      EntriesExactly(entries);
  }

  lemma FieldsExactly(m: Message)
    requires forall f :: f in m.fields ==> (RecoveredValue(m.fields[f]) == Some(m.fields[f]) <==> IsZeroFree(m.fields[f]))
    ensures Recovered(m) == Some(m) <==> forall f :: f in m.fields ==> IsZeroFree(m.fields[f])
  {
    if forall f :: f in m.fields ==> IsZeroFree(m.fields[f]) {
      assert forall f :: f in m.fields ==> !IsZero(m.fields[f]);
      assert Recovered(m).value.fields == m.fields;
    }
  }

  lemma EntriesExactly(entries: map<string, Value>)
    requires forall k :: k in entries ==> (RecoveredValue(entries[k]) == Some(entries[k]) <==> IsZeroFree(entries[k]))
    ensures RecoveredValue(MapValue(entries)) == Some(MapValue(entries)) <==>
            forall k :: k in entries ==> IsZeroFree(entries[k])
  {
    var r := RecoveredValue(MapValue(entries));
    if forall k :: k in entries ==> IsZeroFree(entries[k]) {
      assert r.value.entries == entries;
    }
  }

  lemma {:induction false} ItemsExactly(items: seq<Value>)
    ensures RecoveredItems(items) == Some(items) <==> forall i :: 0 <= i < |items| ==> IsZeroFree(items[i])
    ensures RecoveredItems(items).Some? ==> |RecoveredItems(items).value| == |items|
    decreases items
  {
    if items != [] {
      var before, last := items[..|items| - 1], items[|items| - 1];
      ItemsExactly(before);
      RecoveredExactly(last);
      assert items == before + [last];
      var r := RecoveredItems(items);
      if r.Some? {
        assert r.value[..|before|] == RecoveredItems(before).value && r.value[|before|] == RecoveredValue(last).value;
      }
    }
  }

  /** A zero in a field is lost, and a zero in a list makes the whole message unreadable. */
  lemma ZeroIsLost(field: string)
    ensures var zero := ScalarValue(EnumScalar(0));
      && Recovered(Message(map[field := zero])) == Some(EMPTY)
      && Recovered(Message(map[field := ListValue([zero])])) == None
  {
    var zero := ScalarValue(EnumScalar(0));
    var listed := Message(map[field := ListValue([zero])]);
    assert [zero][..0] == [] && RecoveredItems([zero]).None?;
    assert field in listed.fields && RecoveredValue(listed.fields[field]).None?;
  }

  // Pruning

  /** No ignored field at any depth. */
  ghost predicate IsClean(c: Config, desc: string, m: Message)
    decreases m
  {
    forall f :: f in m.fields ==> !ShouldIgnore(c, desc, f) && IsCleanField(c, desc, f, m.fields[f])
  }

  ghost predicate IsCleanField(c: Config, desc: string, f: string, v: Value)
    decreases v, 1
  {
    f in Fields(c.schema, desc) ==> IsCleanValue(c, Fields(c.schema, desc)[f].element, v)
  }

  ghost predicate IsCleanValue(c: Config, e: Element, v: Value)
    decreases v, 0
  {
    e.MessageElement? ==>
      match v
      case ScalarValue(_) => true
      case MessageValue(m) => IsClean(c, e.desc, m)
      case ListValue(items) => forall i :: 0 <= i < |items| ==> IsCleanValue(c, e, items[i])
      case MapValue(entries) => forall k :: k in entries ==> IsCleanValue(c, e, entries[k])
  }

  /** Pruning removes every ignored field, and changes a message exactly when it has one. */
  lemma {:induction false} PrunedMeans(c: Config, desc: string, m: Message)
    ensures IsClean(c, desc, Pruned(c, desc, m))
    ensures Pruned(c, desc, m) == m <==> IsClean(c, desc, m)
    decreases m
  {
    forall f | f in m.fields
      ensures IsCleanField(c, desc, f, PrunedField(c, desc, f, m.fields[f]))
      ensures PrunedField(c, desc, f, m.fields[f]) == m.fields[f] <==> IsCleanField(c, desc, f, m.fields[f])
    {
      if f in Fields(c.schema, desc) {
        PrunedValueMeans(c, Fields(c.schema, desc)[f].element, m.fields[f]);
      }
    }
    var r := Pruned(c, desc, m);
    if IsClean(c, desc, m) {
      assert r.fields == m.fields;
    }
  }

  lemma {:induction false} PrunedValueMeans(c: Config, e: Element, v: Value)
    ensures IsCleanValue(c, e, PrunedValue(c, e, v))
    ensures PrunedValue(c, e, v) == v <==> IsCleanValue(c, e, v)
    decreases v
  {
    if e.MessageElement? {
      match v
      case ScalarValue(_) =>
      case MessageValue(m) => PrunedMeans(c, e.desc, m);
      case ListValue(items) => PrunedItemsMean(c, e, items);
      case MapValue(entries) =>
        forall k | k in entries
          ensures IsCleanValue(c, e, PrunedValue(c, e, entries[k]))
          ensures PrunedValue(c, e, entries[k]) == entries[k] <==> IsCleanValue(c, e, entries[k])
        {
          PrunedValueMeans(c, e, entries[k]);
        }
        PrunedEntriesMean(c, e, entries);
    }
  }

  lemma PrunedEntriesMean(c: Config, e: Element, entries: map<string, Value>)
    requires e.MessageElement?
    requires forall k :: k in entries ==>
      && IsCleanValue(c, e, PrunedValue(c, e, entries[k]))
      && (PrunedValue(c, e, entries[k]) == entries[k] <==> IsCleanValue(c, e, entries[k]))
    ensures IsCleanValue(c, e, PrunedValue(c, e, MapValue(entries)))
    ensures PrunedValue(c, e, MapValue(entries)) == MapValue(entries) <==> IsCleanValue(c, e, MapValue(entries))
  {
    var r := PrunedValue(c, e, MapValue(entries)).entries;
    if forall k :: k in entries ==> IsCleanValue(c, e, entries[k]) {
      assert r == entries;
    }
  }

  lemma {:induction false} PrunedItemsMean(c: Config, e: Element, items: seq<Value>)
    ensures forall i :: 0 <= i < |items| ==> IsCleanValue(c, e, PrunedItems(c, e, items)[i])
    ensures PrunedItems(c, e, items) == items <==> forall i :: 0 <= i < |items| ==> IsCleanValue(c, e, items[i])
    decreases items
  {
    if items != [] {
      var before, last := items[..|items| - 1], items[|items| - 1];
      PrunedItemsMean(c, e, before);
      PrunedValueMeans(c, e, last);
      assert items == before + [last];
      if PrunedItems(c, e, items) == items {
        assert PrunedItems(c, e, items)[..|before|] == before;
        assert PrunedItems(c, e, items)[|before|] == last;
      }
    }
  }

  /** The field is left out by its name, or by its name in the type. */
  ghost predicate LeftOut(c: Config, desc: string, f: string) {
    f in c.ignoredNames || (desc, f) in c.ignoredFullNames
  }

  /** A value after pruning: scalars as they are, messages pruned, lists and maps element by element. */
  ghost predicate IsPruned(c: Config, e: Element, v: Value, r: Value) {
    if e.ScalarElement? || v.ScalarValue? then r == v
    else if v.MessageValue? then r == MessageValue(Pruned(c, e.desc, v.message))
    else if v.ListValue? then
      && r.ListValue? && |r.items| == |v.items|
      && forall i :: 0 <= i < |v.items| && v.items[i].MessageValue? ==>
           r.items[i] == MessageValue(Pruned(c, e.desc, v.items[i].message))
    else
      && r.MapValue? && r.entries.Keys == v.entries.Keys
      && forall k :: k in v.entries && v.entries[k].MessageValue? ==>
           r.entries[k] == MessageValue(Pruned(c, e.desc, v.entries[k].message))
  }

  /** Pruning drops the fields that are left out and keeps all the others, and so on inside of the messages in them. */
  lemma PrunedKeeps(c: Config, desc: string, m: Message, f: string)
    requires Conforms(c.schema, desc, m)
    ensures FieldOf(Pruned(c, desc, m), f).Some? <==> f in m.fields && !LeftOut(c, desc, f)
    ensures f in m.fields && !LeftOut(c, desc, f) ==>
              IsPruned(c, c.schema[desc][f].element, m.fields[f], Pruned(c, desc, m).fields[f])
  {
    if f in m.fields && !LeftOut(c, desc, f) {
      assert f in Fields(c.schema, desc);
      var e := c.schema[desc][f].element;
      assert Pruned(c, desc, m).fields[f] == PrunedField(c, desc, f, m.fields[f]) == PrunedValue(c, e, m.fields[f]);
      PrunedValueKeeps(c, e, m.fields[f]);
    }
  }

  lemma PrunedValueKeeps(c: Config, e: Element, v: Value)
    ensures IsPruned(c, e, v, PrunedValue(c, e, v))
  {
    if e.MessageElement? && v.ListValue? {
      forall i | 0 <= i < |v.items| && v.items[i].MessageValue?
        ensures PrunedItems(c, e, v.items)[i] == MessageValue(Pruned(c, e.desc, v.items[i].message))
      {
        PrunedItem(c, e, v.items, i);
      }
    } else if e.MessageElement? && v.MapValue? {
      forall k | k in v.entries && v.entries[k].MessageValue?
        ensures PrunedValue(c, e, v.entries[k]) == MessageValue(Pruned(c, e.desc, v.entries[k].message))
      {
      }
    }
  }

  lemma {:induction false} PrunedItem(c: Config, e: Element, items: seq<Value>, i: nat)
    requires i < |items|
    ensures PrunedItems(c, e, items)[i] == PrunedValue(c, e, items[i])
    decreases |items|
  {
    if i < |items| - 1 {
      PrunedItem(c, e, items[..|items| - 1], i);
    }
  }
}
