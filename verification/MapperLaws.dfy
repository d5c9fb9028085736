/** Laws of copying and merging. */
module MapperLaws {
  import opened Wrappers
  import opened Messages
  import opened Mapper

  /* ---------- Merging into an empty message is copying into it ---------- */

  lemma {:induction false} MergeIntoEmpty(c: Config, a: string, b: string, m: Message)
    ensures Merged(c, a, b, m, EMPTY) == Copied(c, a, b, m, EMPTY)
    decreases m
  {
    forall f | f in m.fields && Maps(c, a, b, f)
      ensures MergedValue(c, Fields(c.schema, a)[f], Target(c, b, f), m.fields[f], None)
           == CopiedValue(c, Fields(c.schema, a)[f], Target(c, b, f), m.fields[f], None)
    {
      MergeValueIntoNothing(c, Fields(c.schema, a)[f], Target(c, b, f), m.fields[f]);
    }
  }

  lemma {:induction false} MergeValueIntoNothing(c: Config, t: FieldType, b: string, v: Value)
    ensures MergedValue(c, t, b, v, None) == CopiedValue(c, t, b, v, None)
    decreases v
  {
    if t.Single? && t.element.MessageElement? && v.MessageValue? {
      MergeIntoEmpty(c, t.element.desc, b, v.message);
    }
  }

  /* ---------- Copying twice ---------- */

  /** Copying onto the result of a copy changes nothing. */
  lemma {:induction false} CopyIdempotent(c: Config, a: string, b: string, from: Message, to: Message)
    ensures Copied(c, a, b, from, Copied(c, a, b, from, to)) == Copied(c, a, b, from, to)
    decreases from
  {
    var once := Copied(c, a, b, from, to);
    forall f | f in from.fields && Maps(c, a, b, f)
      ensures CopiedValue(c, Fields(c.schema, a)[f], Target(c, b, f), from.fields[f], Some(once.fields[f]))
           == once.fields[f]
    {
      var t, v := Fields(c.schema, a)[f], from.fields[f];
      if t.Single? && t.element.MessageElement? && v.MessageValue? {
        CopyIdempotent(c, t.element.desc, Target(c, b, f), v.message, MessageIn(FieldOf(to, f)));
      }
    }
  }

  /** A path of singular message fields that the mapper takes and that are present in the source. */
  ghost predicate Reaches(c: Config, a: string, b: string, from: Message, path: seq<string>)
    decreases |path|
  {
    path == [] ||
    (&& Maps(c, a, b, path[0])
     && path[0] in from.fields
     && Fields(c.schema, a)[path[0]].Single?
     && Fields(c.schema, a)[path[0]].element.MessageElement?
     && from.fields[path[0]].MessageValue?
     && Reaches(c, Fields(c.schema, a)[path[0]].element.desc, Target(c, b, path[0]), from.fields[path[0]].message, path[1..]))
  }

  function Inside(m: Message, path: seq<string>): (inner: Message)
    decreases |path|
  {
    if path == [] then m else Inside(MessageIn(FieldOf(m, path[0])), path[1..])
  }

  /** The types of the messages at the end of a path. */
  function Types(c: Config, a: string, b: string, path: seq<string>): (types: (string, string))
    decreases |path|
  {
    if path == [] then (a, b) else Types(c, Target(c, a, path[0]), Target(c, b, path[0]), path[1..])
  }

  /** A field that only the destination has, or that is ignored, keeps its value at any depth. */
  lemma {:induction false} CopyFrame(c: Config, a: string, b: string, from: Message, to: Message,
                                     path: seq<string>, f: string)
    requires Reaches(c, a, b, from, path)
    requires var (a', b') := Types(c, a, b, path); !Maps(c, a', b', f)
    ensures FieldOf(Inside(Copied(c, a, b, from, to), path), f) == FieldOf(Inside(to, path), f)
    decreases |path|
  {
    if path != [] {
      CopyFrame(c, Target(c, a, path[0]), Target(c, b, path[0]), from.fields[path[0]].message,
                MessageIn(FieldOf(to, path[0])), path[1..], f);
    }
  }

  /* ---------- There and back ---------- */

  /** The part of a message that both types have and that isn't ignored, at every depth. */
  function Shared(c: Config, a: string, b: string, m: Message): (r: Message)
    decreases m
  {
    Message(map f | f in m.fields && Maps(c, a, b, f) ::
      SharedValue(c, Fields(c.schema, a)[f].element, Target(c, b, f), m.fields[f]))
  }

  function SharedValue(c: Config, e: Element, b: string, v: Value): (r: Value)
    decreases v
  {
    match e
    case ScalarElement(_) => v
    case MessageElement(a) =>
      match v
      case ScalarValue(_) => v
      case MessageValue(m) => MessageValue(Shared(c, a, b, m))
      case ListValue(items) => ListValue(SharedItems(c, e, b, items))
      case MapValue(entries) => MapValue(map k | k in entries :: SharedValue(c, e, b, entries[k]))
  }

  function SharedItems(c: Config, e: Element, b: string, items: seq<Value>): (r: seq<Value>)
    ensures |r| == |items|
    ensures forall i :: 0 <= i < |items| ==> r[i] == SharedValue(c, e, b, items[i])
    decreases items
  {
    if items == [] then [] else [SharedValue(c, e, b, items[0])] + SharedItems(c, e, b, items[1..])
  }

  /** Types that agree on the kind of the fields that they share, at every depth. */
  ghost predicate Compatible(schema: Schema, pairs: set<(string, string)>) {
    forall p, f :: p in pairs && f in Fields(schema, p.0) && f in Fields(schema, p.1) ==>
      SameKind(Fields(schema, p.0)[f], Fields(schema, p.1)[f], pairs)
  }

  ghost predicate SameKind(t: FieldType, u: FieldType, pairs: set<(string, string)>) {
    && (t.Single? <==> u.Single?)
    && (t.Repeated? <==> u.Repeated?)
    && (t.element.MessageElement? <==> u.element.MessageElement?)
    && (t.element.MessageElement? ==> (t.element.desc, u.element.desc) in pairs)
    && (t.element.ScalarElement? && u.element.ScalarElement? ==> Accepts(u.element.kind, t.element.kind))
  }

  /** A field of the one kind can hold every value of the other. */
  predicate Accepts(to: Kind, from: Kind) {
    to == from || (to.EnumKind? && from.EnumKind? && from.names.Keys <= to.names.Keys)
  }

  /** A copy into an empty message is the shared part. */
  lemma {:induction false} CopyIsShared(c: Config, a: string, b: string, m: Message)
    requires Conforms(c.schema, a, m)
    ensures Copied(c, a, b, m, EMPTY) == Shared(c, a, b, m)
    decreases m
  {
    forall f | f in m.fields && Maps(c, a, b, f)
      ensures CopiedValue(c, Fields(c.schema, a)[f], Target(c, b, f), m.fields[f], None)
           == SharedValue(c, Fields(c.schema, a)[f].element, Target(c, b, f), m.fields[f])
    {
      CopyValueIsShared(c, Fields(c.schema, a)[f], Target(c, b, f), m.fields[f]);
    }
  }

  lemma {:induction false} CopyValueIsShared(c: Config, t: FieldType, b: string, v: Value)
    requires HasType(c.schema, t, v)
    ensures CopiedValue(c, t, b, v, None) == SharedValue(c, t.element, b, v)
    decreases v, 1
  {
    match t {
      case Single(e) =>
        if e.MessageElement? { CopyIsShared(c, e.desc, b, v.message); }
      case Repeated(e) =>
        CopyItemsAreShared(c, e, b, v.items);
      case Keyed(e) =>
        forall k | k in v.entries ensures CopiedElement(c, e, b, v.entries[k]) == SharedValue(c, e, b, v.entries[k]) {
          CopyElementIsShared(c, e, b, v.entries[k]);
        }
        var copies := map k | k in v.entries :: CopiedElement(c, e, b, v.entries[k]);
        assert map[] + copies == copies;
        assert e.ScalarElement? ==> copies == v.entries;
        assert e.MessageElement? ==> copies == map k | k in v.entries :: SharedValue(c, e, b, v.entries[k]);
    }
  }

  lemma {:induction false} CopyItemsAreShared(c: Config, e: Element, b: string, items: seq<Value>)
    requires forall i :: 0 <= i < |items| ==> IsElement(c.schema, e, items[i])
    ensures CopiedItems(c, e, b, items) == if e.MessageElement? then SharedItems(c, e, b, items) else items
    decreases items
  {
    if items != [] {
      CopyElementIsShared(c, e, b, items[0]);
      CopyItemsAreShared(c, e, b, items[1..]);
      assert items == [items[0]] + items[1..];
    }
  }

  lemma {:induction false} CopyElementIsShared(c: Config, e: Element, b: string, v: Value)
    requires IsElement(c.schema, e, v)
    ensures CopiedElement(c, e, b, v) == SharedValue(c, e, b, v)
    decreases v, 0
  {
    if e.MessageElement? { CopyIsShared(c, e.desc, b, v.message); }
  }

  /** The shared part belongs to the other type. */
  lemma {:induction false} SharedConforms(c: Config, a: string, b: string, m: Message, pairs: set<(string, string)>)
    requires Compatible(c.schema, pairs) && (a, b) in pairs && Conforms(c.schema, a, m)
    ensures Conforms(c.schema, b, Shared(c, a, b, m))
    decreases m
  {
    forall f | f in m.fields && Maps(c, a, b, f)
      ensures HasType(c.schema, Fields(c.schema, b)[f],
                      SharedValue(c, Fields(c.schema, a)[f].element, Target(c, b, f), m.fields[f]))
    {
      var p := (a, b);
      assert SameKind(Fields(c.schema, p.0)[f], Fields(c.schema, p.1)[f], pairs);
      SharedHasType(c, Fields(c.schema, a)[f], Fields(c.schema, b)[f], m.fields[f], pairs);
    }
  }

  lemma {:induction false} SharedHasType(c: Config, t: FieldType, u: FieldType, v: Value, pairs: set<(string, string)>)
    requires Compatible(c.schema, pairs) && SameKind(t, u, pairs) && HasType(c.schema, t, v)
    ensures HasType(c.schema, u, SharedValue(c, t.element, if u.element.MessageElement? then u.element.desc else "", v))
    decreases v, 1
  {
    var b := if u.element.MessageElement? then u.element.desc else "";
    if t.element.MessageElement? {
      if v.MessageValue? {
        SharedElementConforms(c, t.element, u.element, v, pairs);
      } else if v.ListValue? {
        forall i | 0 <= i < |v.items| ensures IsElement(c.schema, u.element, SharedValue(c, t.element, b, v.items[i])) {
          SharedElementConforms(c, t.element, u.element, v.items[i], pairs);
        }
      } else {
        forall k | k in v.entries ensures IsElement(c.schema, u.element, SharedValue(c, t.element, b, v.entries[k])) {
          SharedElementConforms(c, t.element, u.element, v.entries[k], pairs);
        }
        var k :| k in v.entries;
        assert k in SharedValue(c, t.element, b, v).entries;
      }
    } else {
      ScalarsHaveType(c.schema, t, u, v);
    }
  }

  lemma ScalarsHaveType(schema: Schema, t: FieldType, u: FieldType, v: Value)
    requires (t.Single? <==> u.Single?) && (t.Repeated? <==> u.Repeated?) && HasType(schema, t, v)
    requires t.element.ScalarElement? && u.element.ScalarElement? && Accepts(u.element.kind, t.element.kind)
    ensures HasType(schema, u, v)
  {
    forall w | IsElement(schema, t.element, w) ensures IsElement(schema, u.element, w) {
      assert HasKind(u.element.kind, w.scalar);
    }
  }

  lemma {:induction false} SharedElementConforms(c: Config, e: Element, g: Element, v: Value, pairs: set<(string, string)>)
    requires Compatible(c.schema, pairs) && e.MessageElement? && g.MessageElement? && (e.desc, g.desc) in pairs
    requires IsElement(c.schema, e, v)
    ensures IsElement(c.schema, g, SharedValue(c, e, g.desc, v))
    decreases v, 0
  {
    SharedConforms(c, e.desc, g.desc, v.message, pairs);
  }

  /** The shared part is the same from both sides. */
  lemma {:induction false} SharedBack(c: Config, a: string, b: string, m: Message, pairs: set<(string, string)>)
    requires Compatible(c.schema, pairs) && (a, b) in pairs && Conforms(c.schema, a, m)
    ensures Shared(c, b, a, Shared(c, a, b, m)) == Shared(c, a, b, m)
    decreases m
  {
    var s := Shared(c, a, b, m);
    forall f | f in m.fields && Maps(c, a, b, f)
      ensures SharedValue(c, Fields(c.schema, b)[f].element, Target(c, a, f), s.fields[f]) == s.fields[f]
    {
      var p := (a, b);
      assert SameKind(Fields(c.schema, p.0)[f], Fields(c.schema, p.1)[f], pairs);
      TypedElements(c.schema, Fields(c.schema, a)[f], m.fields[f]);
      SharedValueBack(c, Fields(c.schema, a)[f].element, Fields(c.schema, b)[f].element, m.fields[f], pairs);
    }
  }

  lemma {:induction false} SharedValueBack(c: Config, e: Element, g: Element, v: Value, pairs: set<(string, string)>)
    requires Compatible(c.schema, pairs)
    requires e.MessageElement? <==> g.MessageElement?
    requires e.MessageElement? ==> (e.desc, g.desc) in pairs
    requires HasElements(c.schema, e, v)
    ensures e.MessageElement? ==> SharedValue(c, g, e.desc, SharedValue(c, e, g.desc, v)) == SharedValue(c, e, g.desc, v)
    decreases v
  {
    if e.MessageElement? {
      match v {
        case MessageValue(m) => SharedBack(c, e.desc, g.desc, m, pairs);
        case ListValue(items) =>
          forall i | 0 <= i < |items|
            ensures SharedValue(c, g, e.desc, SharedValue(c, e, g.desc, items[i])) == SharedValue(c, e, g.desc, items[i])
          {
            SharedValueBack(c, e, g, items[i], pairs);
          }
          var shared := SharedItems(c, e, g.desc, items);
          assert SharedItems(c, g, e.desc, shared) == shared;
        case MapValue(entries) =>
          forall k | k in entries
            ensures SharedValue(c, g, e.desc, SharedValue(c, e, g.desc, entries[k])) == SharedValue(c, e, g.desc, entries[k])
          {
            SharedValueBack(c, e, g, entries[k], pairs);
          }
        case _ =>
      }
    }
  }

  /** An element, or a list or a map of elements. */
  ghost predicate HasElements(schema: Schema, e: Element, v: Value) {
    match v
    case ListValue(items) => forall i :: 0 <= i < |items| ==> IsElement(schema, e, items[i])
    case MapValue(entries) => forall k :: k in entries ==> IsElement(schema, e, entries[k])
    case _ => IsElement(schema, e, v)
  }

  lemma TypedElements(schema: Schema, t: FieldType, v: Value)
    requires HasType(schema, t, v)
    ensures HasElements(schema, t.element, v)
  {
  }

  /** Copying to an empty message of the other type and back to an empty message gives the shared part. */
  lemma CopyRoundTrip(c: Config, a: string, b: string, m: Message, pairs: set<(string, string)>)
    requires Compatible(c.schema, pairs) && (a, b) in pairs && Conforms(c.schema, a, m)
    ensures Copied(c, b, a, Copied(c, a, b, m, EMPTY), EMPTY) == Shared(c, a, b, m)
  {
    CopyIsShared(c, a, b, m);
    SharedConforms(c, a, b, m, pairs);
    CopyIsShared(c, b, a, Shared(c, a, b, m));
    SharedBack(c, a, b, m, pairs);
  }

  /** Whether every field of the message, at every depth, is taken to the other type. */
  ghost predicate OnlyShared(c: Config, a: string, b: string, m: Message)
    decreases m
  {
    forall f :: f in m.fields ==>
      Maps(c, a, b, f) && OnlySharedValue(c, Fields(c.schema, a)[f].element, Target(c, b, f), m.fields[f])
  }

  ghost predicate OnlySharedValue(c: Config, e: Element, b: string, v: Value)
    decreases v
  {
    e.MessageElement? ==>
      match v
      case ScalarValue(_) => true
      case MessageValue(m) => OnlyShared(c, e.desc, b, m)
      case ListValue(items) => forall i :: 0 <= i < |items| ==> OnlySharedValue(c, e, b, items[i])
      case MapValue(entries) => forall k :: k in entries ==> OnlySharedValue(c, e, b, entries[k])
  }

  lemma {:induction false} SharedIdentity(c: Config, a: string, b: string, m: Message)
    ensures Shared(c, a, b, m) == m <==> OnlyShared(c, a, b, m)
    decreases m
  {
    forall f | f in m.fields && Maps(c, a, b, f)
      ensures SharedValue(c, Fields(c.schema, a)[f].element, Target(c, b, f), m.fields[f]) == m.fields[f]
         <==> OnlySharedValue(c, Fields(c.schema, a)[f].element, Target(c, b, f), m.fields[f])
    {
      SharedValueIdentity(c, Fields(c.schema, a)[f].element, Target(c, b, f), m.fields[f]);
    }
    var s := Shared(c, a, b, m);
    if s == m {
      assert forall f :: f in m.fields ==> f in s.fields && s.fields[f] == m.fields[f];
    }
    if OnlyShared(c, a, b, m) {
      assert s.fields == m.fields;
    }
  }

  lemma {:induction false} SharedValueIdentity(c: Config, e: Element, b: string, v: Value)
    ensures SharedValue(c, e, b, v) == v <==> OnlySharedValue(c, e, b, v)
    decreases v
  {
    if e.MessageElement? {
      match v {
        case ScalarValue(_) =>
        case MessageValue(m) => SharedIdentity(c, e.desc, b, m);
        case ListValue(items) =>
          forall i | 0 <= i < |items|
            ensures SharedValue(c, e, b, items[i]) == items[i] <==> OnlySharedValue(c, e, b, items[i])
          {
            SharedValueIdentity(c, e, b, items[i]);
          }
          assert SharedItems(c, e, b, items) == items <==> forall i :: 0 <= i < |items| ==> SharedValue(c, e, b, items[i]) == items[i];
        case MapValue(entries) =>
          forall k | k in entries
            ensures SharedValue(c, e, b, entries[k]) == entries[k] <==> OnlySharedValue(c, e, b, entries[k])
          {
            SharedValueIdentity(c, e, b, entries[k]);
          }
          var shared := map k | k in entries :: SharedValue(c, e, b, entries[k]);
          assert shared == entries <==> forall k :: k in entries ==> shared[k] == entries[k];
      }
    }
  }

  /** The round trip returns the original exactly when no field of it is dropped on the way. */
  lemma RoundTripIdentity(c: Config, a: string, b: string, m: Message, pairs: set<(string, string)>)
    requires Compatible(c.schema, pairs) && (a, b) in pairs && Conforms(c.schema, a, m)
    ensures Copied(c, b, a, Copied(c, a, b, m, EMPTY), EMPTY) == m <==> OnlyShared(c, a, b, m)
  {
    CopyRoundTrip(c, a, b, m, pairs);
    SharedIdentity(c, a, b, m);
  }

  /** Types of which the second has every field of the first and ignores no more of them. */
  ghost predicate Covers(c: Config, pairs: set<(string, string)>) {
    forall p, f :: p in pairs && f in Fields(c.schema, p.0) ==>
      f in Fields(c.schema, p.1) && (ShouldIgnore(c, p.1, f) ==> ShouldIgnore(c, p.0, f))
  }

  /** When the private type has every public field, only the ignored fields are dropped. */
  lemma {:induction false} SharedPrunesIgnored(c: Config, a: string, b: string, m: Message, pairs: set<(string, string)>)
    requires Compatible(c.schema, pairs) && Covers(c, pairs) && (a, b) in pairs && Conforms(c.schema, a, m)
    ensures Shared(c, a, b, m) == Shared(c, a, a, m)
    decreases m
  {
    forall f | f in m.fields
      ensures Maps(c, a, b, f) <==> Maps(c, a, a, f)
      ensures Maps(c, a, b, f) ==>
        SharedValue(c, Fields(c.schema, a)[f].element, Target(c, b, f), m.fields[f])
        == SharedValue(c, Fields(c.schema, a)[f].element, Target(c, a, f), m.fields[f])
    {
      var p := (a, b);
      assert f in Fields(c.schema, p.0);
      assert SameKind(Fields(c.schema, p.0)[f], Fields(c.schema, p.1)[f], pairs);
      TypedElements(c.schema, Fields(c.schema, a)[f], m.fields[f]);
      SharedValuePrunes(c, Fields(c.schema, a)[f].element, Fields(c.schema, b)[f].element, m.fields[f], pairs);
    }
  }

  lemma {:induction false} SharedValuePrunes(c: Config, e: Element, g: Element, v: Value, pairs: set<(string, string)>)
    requires Compatible(c.schema, pairs) && Covers(c, pairs)
    requires e.MessageElement? <==> g.MessageElement?
    requires e.MessageElement? ==> (e.desc, g.desc) in pairs
    requires HasElements(c.schema, e, v)
    ensures e.MessageElement? ==> SharedValue(c, e, g.desc, v) == SharedValue(c, e, e.desc, v)
    decreases v
  {
    if e.MessageElement? {
      match v {
        case MessageValue(m) => SharedPrunesIgnored(c, e.desc, g.desc, m, pairs);
        case ListValue(items) =>
          forall i | 0 <= i < |items| ensures SharedValue(c, e, g.desc, items[i]) == SharedValue(c, e, e.desc, items[i]) {
            SharedValuePrunes(c, e, g, items[i], pairs);
          }
          assert SharedItems(c, e, g.desc, items) == SharedItems(c, e, e.desc, items);
        case MapValue(entries) =>
          forall k | k in entries
            ensures SharedValue(c, e, g.desc, entries[k]) == SharedValue(c, e, e.desc, entries[k])
          {
            SharedValuePrunes(c, e, g, entries[k], pairs);
          }
        case _ =>
      }
    }
  }

  /** Public to private and back to public gives the original with the ignored fields pruned. */
  lemma PublicRoundTrip(c: Config, public: string, private: string, m: Message, pairs: set<(string, string)>)
    requires Compatible(c.schema, pairs) && Covers(c, pairs) && (public, private) in pairs
    requires Conforms(c.schema, public, m)
    ensures Copied(c, private, public, Copied(c, public, private, m, EMPTY), EMPTY) == Shared(c, public, public, m)
  {
    CopyRoundTrip(c, public, private, m, pairs);
    SharedPrunesIgnored(c, public, private, m, pairs);
  }
}
