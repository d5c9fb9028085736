/** Protocol buffers messages as trees of named fields, and the types of the fields. */
module Messages {
  import opened Wrappers

  /**
   Any value that isn't a message, a list or a map. Integers of 64 bits and bytes are given by the decimal and base 64
   texts that JSON uses for them.
   */
  datatype Scalar =
    | BoolScalar(flag: bool)
    | StringScalar(text: string)
    | IntScalar(int32: int)
    | LongScalar(decimal: string)
    | FloatScalar(float: real)
    | BytesScalar(base64: string)
    | EnumScalar(number: int)

  /**
   The fields of a message are the ones for which 'Has' is true. In particular a list or a map that is present isn't
   empty.
   */
  datatype Message = Message(fields: map<string, Value>)

  datatype Value =
    | ScalarValue(scalar: Scalar)
    | MessageValue(message: Message)
    | ListValue(items: seq<Value>)
    | MapValue(entries: map<string, Value>)

  const EMPTY := Message(map[])

  datatype Kind = BoolKind | StringKind | IntKind | LongKind | FloatKind | BytesKind | EnumKind(names: map<int, string>)

  datatype Element = ScalarElement(kind: Kind) | MessageElement(desc: string)

  datatype FieldType = Single(element: Element) | Repeated(element: Element) | Keyed(element: Element)

  type Schema = map<string, map<string, FieldType>>

  function Fields(schema: Schema, desc: string): (fields: map<string, FieldType>) {
    if desc in schema then schema[desc] else map[]
  }

  /** The message types, and the fields that are left out: by name, or by type and name. */
  datatype Config = Config(schema: Schema, ignoredNames: set<string>, ignoredFullNames: set<(string, string)>)

  predicate ShouldIgnore(c: Config, desc: string, f: string) {
    f in c.ignoredNames || (desc, f) in c.ignoredFullNames
  }

  function FieldOf(m: Message, f: string): (v: Option<Value>) {
    if f in m.fields then Some(m.fields[f]) else None
  }

  /* What the accessors for messages, lists and maps return, with the empty value for an absent field. */

  function MessageIn(v: Option<Value>): (m: Message) {
    if v.Some? && v.value.MessageValue? then v.value.message else EMPTY
  }

  function ItemsIn(v: Option<Value>): (items: seq<Value>) {
    if v.Some? && v.value.ListValue? then v.value.items else []
  }

  function EntriesIn(v: Option<Value>): (entries: map<string, Value>) {
    if v.Some? && v.value.MapValue? then v.value.entries else map[]
  }

  /** A message has only fields of its type, with values of their types. */
  ghost predicate Conforms(schema: Schema, desc: string, m: Message)
    decreases m
  {
    forall f :: f in m.fields ==> f in Fields(schema, desc) && HasType(schema, Fields(schema, desc)[f], m.fields[f])
  }

  ghost predicate HasType(schema: Schema, t: FieldType, v: Value)
    decreases v, 1
  {
    match t
    case Single(element) => IsElement(schema, element, v)
    case Repeated(element) =>
      v.ListValue? && v.items != [] && forall i :: 0 <= i < |v.items| ==> IsElement(schema, element, v.items[i])
    case Keyed(element) =>
      v.MapValue? && v.entries != map[] && forall k :: k in v.entries ==> IsElement(schema, element, v.entries[k])
  }

  ghost predicate IsElement(schema: Schema, element: Element, v: Value)
    decreases v, 0
  {
    match element
    case ScalarElement(kind) => v.ScalarValue? && HasKind(kind, v.scalar)
    case MessageElement(desc) => v.MessageValue? && Conforms(schema, desc, v.message)
  }

  predicate HasKind(kind: Kind, s: Scalar) {
    match kind
    case BoolKind => s.BoolScalar?
    case StringKind => s.StringScalar?
    case IntKind => s.IntScalar?
    case LongKind => s.LongScalar?
    case FloatKind => s.FloatScalar?
    case BytesKind => s.BytesScalar?
    case EnumKind(names) => s.EnumScalar? && s.number in names
  }

  lemma SameFields(m: Message, n: Message)
    requires forall f :: FieldOf(m, f) == FieldOf(n, f)
    ensures m == n
  {
    assert forall f :: f in m.fields <==> FieldOf(m, f).Some?;
    assert forall f :: f in n.fields <==> FieldOf(n, f).Some?;
    assert m.fields.Keys == n.fields.Keys;
    assert forall f :: f in m.fields ==> FieldOf(m, f) == Some(m.fields[f]) && FieldOf(n, f) == Some(n.fields[f]);
    assert m.fields == n.fields;
  }
}
