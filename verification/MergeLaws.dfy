/** Merging messages of one type is associative. */
module MergeLaws {
  import opened Wrappers
  import opened Messages
  import opened Mapper
  import opened MapperLaws

  /** Merging an empty message changes nothing. */
  lemma MergeNothing(c: Config, a: string, b: string, m: Message)
    ensures Merged(c, a, b, EMPTY, m) == m
  {
    assert Merged(c, a, b, EMPTY, m).fields == m.fields;
  }

  /* ---------- Copies can be copied and merged in place of the originals ---------- */

  lemma {:induction false} CopyTwice(c: Config, a: string, m: Message)
    ensures Copied(c, a, a, Copied(c, a, a, m, EMPTY), EMPTY) == Copied(c, a, a, m, EMPTY)
    decreases m
  {
    var once := Copied(c, a, a, m, EMPTY);
    forall f | f in m.fields && Maps(c, a, a, f)
      ensures CopiedValue(c, Fields(c.schema, a)[f], Target(c, a, f), once.fields[f], None) == once.fields[f]
    {
      CopyValueTwice(c, Fields(c.schema, a)[f], m.fields[f]);
    }
    assert Copied(c, a, a, once, EMPTY).fields == once.fields;
  }

  function Own(t: FieldType): (desc: string) {
    if t.element.MessageElement? then t.element.desc else ""
  }

  lemma {:induction false} CopyValueTwice(c: Config, t: FieldType, v: Value)
    ensures CopiedValue(c, t, Own(t), CopiedValue(c, t, Own(t), v, None), None) == CopiedValue(c, t, Own(t), v, None)
    decreases v, 1
  {
    var e, b := t.element, Own(t);
    match t {
      case Single(_) =>
        if e.MessageElement? && v.MessageValue? { CopyTwice(c, b, v.message); }
        if e.MessageElement? && !v.MessageValue? { CopyNothing(c, b, b); }
      case Repeated(_) =>
        if v.ListValue? {
          CopyItemsTwice(c, e, b, v.items);
        }
      case Keyed(_) =>
        if v.MapValue? {
          forall k | k in v.entries
            ensures CopiedElement(c, e, b, CopiedElement(c, e, b, v.entries[k])) == CopiedElement(c, e, b, v.entries[k])
          {
            CopyElementTwice(c, e, b, v.entries[k]);
          }
          var copies := map k | k in v.entries :: CopiedElement(c, e, b, v.entries[k]);
          assert map[] + copies == copies;
          assert copies == map k | k in copies :: CopiedElement(c, e, b, copies[k]);
        }
    }
  }

  lemma CopyNothing(c: Config, a: string, b: string)
    ensures Copied(c, a, b, EMPTY, EMPTY) == EMPTY
  {
  }

  lemma {:induction false} CopyItemsTwice(c: Config, e: Element, b: string, items: seq<Value>)
    requires e.MessageElement? ==> b == e.desc
    ensures CopiedItems(c, e, b, CopiedItems(c, e, b, items)) == CopiedItems(c, e, b, items)
    decreases items
  {
    if items != [] {
      CopyElementTwice(c, e, b, items[0]);
      CopyItemsTwice(c, e, b, items[1..]);
      assert CopiedItems(c, e, b, items)[1..] == CopiedItems(c, e, b, items[1..]);
    }
  }

  lemma {:induction false} CopyElementTwice(c: Config, e: Element, b: string, v: Value)
    requires e.MessageElement? ==> b == e.desc
    ensures CopiedElement(c, e, b, CopiedElement(c, e, b, v)) == CopiedElement(c, e, b, v)
    decreases v, 0
  {
    if e.MessageElement? {
      if v.MessageValue? { CopyTwice(c, b, v.message); } else { CopyNothing(c, b, b); }
    }
  }

  lemma {:induction false} MergeCopy(c: Config, a: string, x: Message, z: Message)
    ensures Merged(c, a, a, Copied(c, a, a, x, EMPTY), z) == Merged(c, a, a, x, z)
    decreases x
  {
    forall f | f in x.fields && Maps(c, a, a, f)
      ensures var (t, b) := (Fields(c.schema, a)[f], Target(c, a, f));
        MergedValue(c, t, b, CopiedValue(c, t, b, x.fields[f], None), FieldOf(z, f))
        == MergedValue(c, t, b, x.fields[f], FieldOf(z, f))
    {
      MergeCopyValue(c, Fields(c.schema, a)[f], x.fields[f], FieldOf(z, f));
    }
    assert Merged(c, a, a, Copied(c, a, a, x, EMPTY), z).fields == Merged(c, a, a, x, z).fields;
  }

  lemma {:induction false} MergeCopyValue(c: Config, t: FieldType, x: Value, z: Option<Value>)
    ensures MergedValue(c, t, Own(t), CopiedValue(c, t, Own(t), x, None), z) == MergedValue(c, t, Own(t), x, z)
    decreases x, 1
  {
    match t {
      case Single(e) => MergeCopySingle(c, e, Own(t), x, z);
      case Repeated(e) => MergeCopyItems(c, e, Own(t), x, z);
      case Keyed(e) => MergeCopyMap(c, e, Own(t), x, z);
    }
  }

  lemma {:induction false} MergeCopySingle(c: Config, e: Element, b: string, x: Value, z: Option<Value>)
    requires e.MessageElement? ==> b == e.desc
    ensures MergedValue(c, Single(e), b, CopiedValue(c, Single(e), b, x, None), z) == MergedValue(c, Single(e), b, x, z)
    decreases x, 0
  {
    if e.MessageElement? {
      if x.MessageValue? {
        MergeCopy(c, b, x.message, MessageIn(z));
      } else {
        MergeNothing(c, b, b, MessageIn(z));
      }
    }
  }

  lemma MergeCopyItems(c: Config, e: Element, b: string, x: Value, z: Option<Value>)
    requires e.MessageElement? ==> b == e.desc
    ensures MergedValue(c, Repeated(e), b, CopiedValue(c, Repeated(e), b, x, None), z)
         == MergedValue(c, Repeated(e), b, x, z)
  {
    ItemsMerge(c, e, b, x, z);
    ItemsMerge(c, e, b, CopiedValue(c, Repeated(e), b, x, None), z);
    CopyItemsTwice(c, e, b, ItemsIn(Some(x)));
  }

  lemma {:induction false} MergeCopyMap(c: Config, e: Element, b: string, x: Value, z: Option<Value>)
    requires e.MessageElement? ==> b == e.desc
    ensures MergedValue(c, Keyed(e), b, CopiedValue(c, Keyed(e), b, x, None), z) == MergedValue(c, Keyed(e), b, x, z)
    decreases x, 1, 0
  {
    if x.MapValue? {
      EntriesMerge(c, e, b, x, z);
      EntriesMerge(c, e, b, CopiedValue(c, Keyed(e), b, x, None), z);
      MergeCopyEntries(c, e, b, x, EntriesIn(z));
    }
  }

  /** What merging the entries of a map writes. */
  function Written(c: Config, e: Element, b: string, x: Value, before: map<string, Value>): (entries: map<string, Value>)
    requires x.MapValue?
  {
    map k | k in x.entries :: MergedElement(c, e, b, x.entries[k], Entry(before, k))
  }

  function Entry(entries: map<string, Value>, k: string): (v: Option<Value>) {
    if k in entries then Some(entries[k]) else None
  }

  lemma {:induction false} MergeCopyEntries(c: Config, e: Element, b: string, x: Value, before: map<string, Value>)
    requires x.MapValue? && (e.MessageElement? ==> b == e.desc)
    ensures Written(c, e, b, CopiedValue(c, Keyed(e), b, x, None), before) == Written(c, e, b, x, before)
    decreases x, 0
  {
    forall k | k in x.entries
      ensures MergedElement(c, e, b, CopiedElement(c, e, b, x.entries[k]), Entry(before, k))
           == MergedElement(c, e, b, x.entries[k], Entry(before, k))
    {
      MergeCopyElement(c, e, b, x.entries[k], Entry(before, k));
    }
    var copies := map k | k in x.entries :: CopiedElement(c, e, b, x.entries[k]);
    assert map[] + copies == copies;
  }

  lemma {:induction false} MergeCopyElement(c: Config, e: Element, b: string, x: Value, z: Option<Value>)
    requires e.MessageElement? ==> b == e.desc
    ensures MergedElement(c, e, b, CopiedElement(c, e, b, x), z) == MergedElement(c, e, b, x, z)
    decreases x, 0
  {
    if e.MessageElement? {
      if z.None? { CopyElementTwice(c, e, b, x); }
      else if x.MessageValue? { MergeCopy(c, b, x.message, MessageIn(z)); }
      else { MergeNothing(c, b, b, MessageIn(z)); }
    }
  }

  /* ---------- Associativity ---------- */

  /** Merging 'y' and then 'x' is merging what 'x' makes of 'y'. */
  lemma {:induction false} MergeAssociative(c: Config, a: string, x: Message, y: Message, z: Message)
    ensures Merged(c, a, a, x, Merged(c, a, a, y, z)) == Merged(c, a, a, Merged(c, a, a, x, y), z)
    decreases x
  {
    var left, right := Merged(c, a, a, x, Merged(c, a, a, y, z)), Merged(c, a, a, Merged(c, a, a, x, y), z);
    forall f ensures FieldOf(left, f) == FieldOf(right, f) {
      MergedField(c, a, a, y, z, f);
      MergedField(c, a, a, x, Merged(c, a, a, y, z), f);
      MergedField(c, a, a, x, y, f);
      MergedField(c, a, a, Merged(c, a, a, x, y), z, f);
      if f in x.fields && Maps(c, a, a, f) {
        AssociativeField(c, Fields(c.schema, a)[f], x.fields[f], FieldOf(y, f), FieldOf(z, f));
      }
    }
    SameFields(left, right);
  }

  lemma {:induction false} AssociativeField(c: Config, t: FieldType, x: Value, y: Option<Value>, z: Option<Value>)
    ensures MergedValue(c, t, Own(t), x, if y.Some? then Some(MergedValue(c, t, Own(t), y.value, z)) else z)
         == MergedValue(c, t, Own(t), MergedValue(c, t, Own(t), x, y), z)
    decreases x, 2
  {
    if y.Some? {
      AssociativeValue(c, t, x, y.value, z);
    } else {
      MergeValueIntoNothing(c, t, Own(t), x);
      MergeCopyValue(c, t, x, z);
    }
  }

  lemma {:induction false} AssociativeValue(c: Config, t: FieldType, x: Value, y: Value, z: Option<Value>)
    ensures MergedValue(c, t, Own(t), x, Some(MergedValue(c, t, Own(t), y, z)))
         == MergedValue(c, t, Own(t), MergedValue(c, t, Own(t), x, Some(y)), z)
    decreases x, 1
  {
    var e, b := t.element, Own(t);
    match t {
      case Single(_) =>
        if e.MessageElement? {
          MessageMerges(c, b, y, z);
          MessageMerges(c, b, MergedValue(c, t, b, x, Some(y)), z);
          AssociativeMessage(c, b, x, y, MessageIn(z));
        }
      case Repeated(_) => AssociativeItems(c, e, b, x, y, z);
      case Keyed(_) => AssociativeMap(c, e, b, x, y, z);
    }
  }

  lemma {:induction false} AssociativeMap(c: Config, e: Element, b: string, x: Value, y: Value, z: Option<Value>)
    requires e.MessageElement? ==> b == e.desc
    ensures MergedValue(c, Keyed(e), b, x, Some(MergedValue(c, Keyed(e), b, y, z)))
         == MergedValue(c, Keyed(e), b, MergedValue(c, Keyed(e), b, x, Some(y)), z)
    decreases x, 0, 1
  {
    var ys, zs := EntriesIn(Some(y)), EntriesIn(z);
    var below := MergedValue(c, Keyed(e), b, y, z);
    EntriesMerge(c, e, b, y, z);
    EntriesMerge(c, e, b, x, Some(below));
    EntriesMerge(c, e, b, x, Some(y));
    EntriesMerge(c, e, b, MergedValue(c, Keyed(e), b, x, Some(y)), z);
    if x.MapValue? {
      AssociativeEntries(c, e, b, x, ys, zs);
    } else {
      assert forall m: map<string, Value> :: m + map[] == m;
    }
  }

  lemma MessageMerges(c: Config, a: string, y: Value, z: Option<Value>)
    ensures MergedValue(c, Single(MessageElement(a)), a, y, z)
         == MessageValue(Merged(c, a, a, MessageIn(Some(y)), MessageIn(z)))
  {
    MergeNothing(c, a, a, MessageIn(z));
  }

  lemma EntriesMerge(c: Config, e: Element, b: string, y: Value, z: Option<Value>)
    ensures MergedValue(c, Keyed(e), b, y, z)
         == MapValue(EntriesIn(z) + Written(c, e, b, MapValue(EntriesIn(Some(y))), EntriesIn(z)))
  {
    var before := EntriesIn(z);
    if y.MapValue? {
      assert Written(c, e, b, y, before)
          == map k | k in y.entries :: MergedElement(c, e, b, y.entries[k], if k in before then Some(before[k]) else None);
    } else {
      assert before + Written(c, e, b, MapValue(map[]), before) == before;
    }
  }

  lemma {:induction false} AssociativeMessage(c: Config, a: string, x: Value, y: Value, z: Message)
    ensures var (t, inner) := (Single(MessageElement(a)), MessageIn(Some(y)));
      MergedValue(c, t, a, x, Some(MessageValue(Merged(c, a, a, inner, z))))
      == MergedValue(c, t, a, MergedValue(c, t, a, x, Some(y)), Some(MessageValue(z)))
    decreases x, 0
  {
    var inner := MessageIn(Some(y));
    if x.MessageValue? {
      MergeAssociative(c, a, x.message, inner, z);
    }
  }

  lemma {:induction false} CopyItemsAppend(c: Config, e: Element, b: string, s: seq<Value>, t: seq<Value>)
    ensures CopiedItems(c, e, b, s + t) == CopiedItems(c, e, b, s) + CopiedItems(c, e, b, t)
  {
    if s == [] {
      assert s + t == t;
    } else {
      assert (s + t)[1..] == s[1..] + t;
      CopyItemsAppend(c, e, b, s[1..], t);
    }
  }

  lemma ItemsMerge(c: Config, e: Element, b: string, y: Value, z: Option<Value>)
    ensures MergedValue(c, Repeated(e), b, y, z)
         == ListValue(ItemsIn(z) + CopiedItems(c, e, b, ItemsIn(Some(y))))
  {
  }

  lemma AssociativeItems(c: Config, e: Element, b: string, x: Value, y: Value, z: Option<Value>)
    requires e.MessageElement? ==> b == e.desc
    ensures MergedValue(c, Repeated(e), b, x, Some(MergedValue(c, Repeated(e), b, y, z)))
         == MergedValue(c, Repeated(e), b, MergedValue(c, Repeated(e), b, x, Some(y)), z)
  {
    var xs, ys, zs := ItemsIn(Some(x)), ItemsIn(Some(y)), ItemsIn(z);
    var copies := CopiedItems(c, e, b, xs);
    ItemsMerge(c, e, b, y, z);
    var below := zs + CopiedItems(c, e, b, ys);
    ItemsMerge(c, e, b, x, Some(ListValue(below)));
    ItemsMerge(c, e, b, x, Some(y));
    ItemsMerge(c, e, b, ListValue(ys + copies), z);
    ItemsTwice(c, e, b, xs, ys, zs);
  }

  lemma ItemsTwice(c: Config, e: Element, b: string, xs: seq<Value>, ys: seq<Value>, zs: seq<Value>)
    requires e.MessageElement? ==> b == e.desc
    ensures zs + CopiedItems(c, e, b, ys) + CopiedItems(c, e, b, xs)
         == zs + CopiedItems(c, e, b, ys + CopiedItems(c, e, b, xs))
  {
    CopyItemsAppend(c, e, b, ys, CopiedItems(c, e, b, xs));
    CopyItemsTwice(c, e, b, xs);
    Regroup(zs, CopiedItems(c, e, b, ys), CopiedItems(c, e, b, xs));
  }

  lemma Regroup(a: seq<Value>, b: seq<Value>, c: seq<Value>)
    ensures a + b + c == a + (b + c)
  {
  }

  lemma {:induction false} AssociativeEntries(c: Config, e: Element, b: string, x: Value, ys: map<string, Value>,
                                              zs: map<string, Value>)
    requires x.MapValue? && (e.MessageElement? ==> b == e.desc)
    ensures var below := zs + Written(c, e, b, MapValue(ys), zs);
      below + Written(c, e, b, x, below)
      == zs + Written(c, e, b, MapValue(ys + Written(c, e, b, x, ys)), zs)
    decreases x, 0, 0
  {
    var below := zs + Written(c, e, b, MapValue(ys), zs);
    var above := ys + Written(c, e, b, x, ys);
    var left := below + Written(c, e, b, x, below);
    var right := zs + Written(c, e, b, MapValue(above), zs);
    forall k ensures Entry(left, k) == Entry(right, k) {
      WrittenEntry(c, e, b, ys, zs, k);
      WrittenEntry(c, e, b, x.entries, below, k);
      WrittenEntry(c, e, b, x.entries, ys, k);
      WrittenEntry(c, e, b, above, zs, k);
      assert MapValue(x.entries) == x;
      if k in x.entries {
        if k in ys {
          AssociativeElement(c, e, b, x.entries[k], ys[k], Entry(zs, k));
        } else {
          MergeCopyElement(c, e, b, x.entries[k], Entry(zs, k));
        }
      }
    }
    SameEntries(left, right);
  }

  lemma WrittenEntry(c: Config, e: Element, b: string, xs: map<string, Value>, before: map<string, Value>, k: string)
    ensures Entry(before + Written(c, e, b, MapValue(xs), before), k)
         == if k in xs then Some(MergedElement(c, e, b, xs[k], Entry(before, k))) else Entry(before, k)
  {
  }

  lemma SameEntries(m: map<string, Value>, n: map<string, Value>)
    requires forall k :: Entry(m, k) == Entry(n, k)
    ensures m == n
  {
    assert forall k :: k in m <==> Entry(m, k).Some?;
    assert forall k :: k in n <==> Entry(n, k).Some?;
    assert m.Keys == n.Keys;
    assert forall k :: k in m ==> Entry(m, k) == Some(m[k]) && Entry(n, k) == Some(n[k]);
  }

  lemma {:induction false} AssociativeElement(c: Config, e: Element, b: string, x: Value, y: Value, z: Option<Value>)
    requires e.MessageElement? ==> b == e.desc
    ensures MergedElement(c, e, b, x, Some(MergedElement(c, e, b, y, z)))
         == MergedElement(c, e, b, MergedElement(c, e, b, x, Some(y)), z)
    decreases x, 0
  {
    if e.MessageElement? {
      var inner, below := MessageIn(Some(y)), MessageIn(z);
      ElementMerges(c, b, y, z);
      ElementMerges(c, b, MergedElement(c, e, b, x, Some(y)), z);
      if x.MessageValue? {
        MergeAssociative(c, b, x.message, inner, below);
      }
    }
  }

  /** With or without a message of the same key, the value of a key is merged into what is there. */
  lemma ElementMerges(c: Config, a: string, y: Value, z: Option<Value>)
    ensures MergedElement(c, MessageElement(a), a, y, z)
         == MessageValue(Merged(c, a, a, MessageIn(Some(y)), MessageIn(z)))
  {
    MergeNothing(c, a, a, MessageIn(z));
    if y.MessageValue? {
      MergeIntoEmpty(c, a, a, y.message);
    }
  }
}
