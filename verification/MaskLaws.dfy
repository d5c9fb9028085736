/** The masked update is exact, touches nothing else and doesn't depend on the order of the mask. */
module MaskLaws {
  import opened Wrappers
  import opened Messages
  import opened Masks

  /* ---------- Messages stay messages of their type ---------- */

  /** The message in a message field, or the empty message that is created for an absent one. */
  lemma InnerTyped(schema: Schema, desc: string, m: Message, p: Path)
    requires Conforms(schema, desc, m) && IsPath(schema, desc, p) && |p| > 1
    ensures var t := Fields(schema, desc)[p[0].field];
      IsPath(schema, t.element.desc, p[1..]) && Conforms(schema, t.element.desc, MessageIn(FieldOf(m, p[0].field)))
  {
    if p[0].field in m.fields {
      assert HasType(schema, Fields(schema, desc)[p[0].field], m.fields[p[0].field]);
    }
  }

  lemma {:induction false} GetTyped(schema: Schema, desc: string, m: Message, p: Path)
    requires Conforms(schema, desc, m) && IsPath(schema, desc, p)
    ensures GetAt(m, p).Some? ==> FitsAt(schema, desc, p, GetAt(m, p).value)
    decreases |p|
  {
    if |p| > 1 && p[0].field in m.fields {
      InnerTyped(schema, desc, m, p);
      GetTyped(schema, Fields(schema, desc)[p[0].field].element.desc, MessageIn(FieldOf(m, p[0].field)), p[1..]);
    }
  }

  /** Whether a value has the type of what is at the end of the path. */
  ghost predicate FitsAt(schema: Schema, desc: string, p: Path, v: Value)
    requires IsPath(schema, desc, p)
    decreases |p|
  {
    var t := Fields(schema, desc)[p[0].field];
    if |p| > 1 then FitsAt(schema, t.element.desc, p[1..], v)
    else if p[0].FieldStep? then HasType(schema, t, v) else IsElement(schema, t.element, v)
  }

  lemma {:induction false} SetTyped(schema: Schema, desc: string, m: Message, p: Path, v: Value)
    requires Conforms(schema, desc, m) && IsPath(schema, desc, p) && FitsAt(schema, desc, p, v)
    ensures Conforms(schema, desc, SetAt(m, p, v))
    decreases |p|
  {
    var f := p[0].field;
    if |p| > 1 {
      InnerTyped(schema, desc, m, p);
      SetTyped(schema, Fields(schema, desc)[f].element.desc, MessageIn(FieldOf(m, f)), p[1..], v);
    }
  }

  lemma {:induction false} ClearTyped(schema: Schema, desc: string, m: Message, p: Path)
    requires Conforms(schema, desc, m) && IsPath(schema, desc, p)
    ensures Conforms(schema, desc, ClearAt(m, p))
    decreases |p|
  {
    var f := p[0].field;
    if |p| > 1 && f in m.fields {
      InnerTyped(schema, desc, m, p);
      ClearTyped(schema, Fields(schema, desc)[f].element.desc, MessageIn(FieldOf(m, f)), p[1..]);
    }
  }

  lemma ApplyTyped(schema: Schema, desc: string, input: Message, m: Message, p: Path)
    requires Conforms(schema, desc, input) && Conforms(schema, desc, m) && IsPath(schema, desc, p)
    ensures Conforms(schema, desc, Apply(input, m, p))
  {
    GetTyped(schema, desc, input, p);
    if GetAt(input, p).Some? {
      SetTyped(schema, desc, m, p, GetAt(input, p).value);
    } else {
      ClearTyped(schema, desc, m, p);
    }
  }

  /* ---------- One path ---------- */

  lemma {:induction false} GetAfterSet(m: Message, p: Path, v: Value)
    requires p != []
    ensures GetAt(SetAt(m, p, v), p) == Some(v)
    decreases |p|
  {
    if |p| > 1 { GetAfterSet(MessageIn(FieldOf(m, p[0].field)), p[1..], v); }
  }

  lemma {:induction false} GetAfterClear(m: Message, p: Path)
    requires p != []
    ensures GetAt(ClearAt(m, p), p) == None
    decreases |p|
  {
    if |p| > 1 { GetAfterClear(MessageIn(FieldOf(m, p[0].field)), p[1..]); }
  }

  /** After one iteration the object has at the path what the input has there. */
  lemma ApplyExact(input: Message, m: Message, p: Path)
    requires p != []
    ensures GetAt(Apply(input, m, p), p) == GetAt(input, p)
  {
    GetAfterClear(m, p);
    if GetAt(input, p).Some? { GetAfterSet(m, p, GetAt(input, p).value); }
  }

  /** Whether one of the paths leads into the value of the other, or to the same value. */
  predicate Related(p: Path, q: Path)
    requires p != [] && q != []
    decreases |p|
  {
    && p[0].field == q[0].field
    && (|p| == 1 && |q| == 1 && p[0].KeyStep? && q[0].KeyStep? ==> p[0].key == q[0].key)
    && (|p| > 1 && |q| > 1 ==> Related(p[1..], q[1..]))
  }

  /** A value at an unrelated path doesn't change. */
  lemma {:induction false} ApplyFrame(schema: Schema, desc: string, input: Message, m: Message, p: Path, q: Path)
    requires Conforms(schema, desc, input) && Conforms(schema, desc, m)
    requires IsPath(schema, desc, p) && IsPath(schema, desc, q)
    requires !Related(p, q)
    ensures GetAt(Apply(input, m, p), q) == GetAt(m, q)
    decreases |p|
  {
    var f := p[0].field;
    if q[0].field == f && |p| > 1 && |q| > 1 {
      var inner := Fields(schema, desc)[f].element.desc;
      InnerTyped(schema, desc, input, p);
      InnerTyped(schema, desc, m, p);
      InnerTyped(schema, desc, m, q);
      ApplyFrame(schema, inner, MessageIn(FieldOf(input, f)), MessageIn(FieldOf(m, f)), p[1..], q[1..]);
      FrameInside(input, m, p, q);
    } else if q[0].field != f {
      ApplyEffect(input, m, p, q[0].field);
    } else {
      FrameOtherKey(input, m, p, q);
    }
  }

  lemma FrameInside(input: Message, m: Message, p: Path, q: Path)
    requires |p| > 1 && |q| > 1 && p[0].field == q[0].field
    requires var f := p[0].field;
      GetAt(Apply(MessageIn(FieldOf(input, f)), MessageIn(FieldOf(m, f)), p[1..]), q[1..])
      == GetAt(MessageIn(FieldOf(m, f)), q[1..])
    ensures GetAt(Apply(input, m, p), q) == GetAt(m, q)
  {
    ApplyEffect(input, m, p, p[0].field);
    EmptyHasNothing(q[1..]);
  }

  lemma FrameOtherKey(input: Message, m: Message, p: Path, q: Path)
    requires p != [] && q != [] && p[0].field == q[0].field && (|p| == 1 || |q| == 1) && !Related(p, q)
    requires |p| > 1 ==> p[0].FieldStep?
    requires |q| > 1 ==> q[0].FieldStep?
    ensures GetAt(Apply(input, m, p), q) == GetAt(m, q)
  {
  }

  /* ---------- Two paths ---------- */

  /** What one iteration leaves in the field through which its path starts. */
  function Effect(input: Option<Value>, current: Option<Value>, p: Path): (r: Option<Value>)
    requires p != []
  {
    if |p| > 1 then
      if current.None? && GetAt(MessageIn(input), p[1..]).None? then None
      else Some(MessageValue(Apply(MessageIn(input), MessageIn(current), p[1..])))
    else if p[0].FieldStep? then input
    else
      var k, entries := p[0].key, EntriesIn(current);
      var changed := if k in EntriesIn(input) then entries[k := EntriesIn(input)[k]] else entries - {k};
      if changed == map[] then None else Some(MapValue(changed))
  }

  lemma {:induction false} EmptyHasNothing(p: Path)
    requires p != []
    ensures GetAt(EMPTY, p).None? && ClearAt(EMPTY, p) == EMPTY
  {
  }

  lemma ApplyEffect(input: Message, m: Message, p: Path, f: string)
    requires p != []
    ensures FieldOf(Apply(input, m, p), f)
         == if f == p[0].field then Effect(FieldOf(input, f), FieldOf(m, f), p) else FieldOf(m, f)
  {
    if |p| > 1 {
      EmptyHasNothing(p[1..]);
    }
  }

  /** What is already equal to the input doesn't change. */
  lemma {:induction false} ApplySelf(schema: Schema, desc: string, input: Message, p: Path)
    requires Conforms(schema, desc, input) && IsPath(schema, desc, p)
    ensures Apply(input, input, p) == input
    decreases |p|
  {
    forall f ensures FieldOf(Apply(input, input, p), f) == FieldOf(input, f) {
      ApplyEffect(input, input, p, f);
      if f == p[0].field {
        EffectSelf(schema, desc, input, p);
      }
    }
    SameFields(Apply(input, input, p), input);
  }

  lemma {:induction false} EffectSelf(schema: Schema, desc: string, input: Message, p: Path)
    requires Conforms(schema, desc, input) && IsPath(schema, desc, p)
    ensures var v := FieldOf(input, p[0].field); Effect(v, v, p) == v
    decreases |p|, 0
  {
    var v := FieldOf(input, p[0].field);
    if v.Some? {
      assert HasType(schema, Fields(schema, desc)[p[0].field], v.value);
    }
    if |p| > 1 {
      InnerTyped(schema, desc, input, p);
      ApplySelf(schema, Fields(schema, desc)[p[0].field].element.desc, MessageIn(v), p[1..]);
      EmptyHasNothing(p[1..]);
    } else if p[0].KeyStep? && v.Some? {
      var entries, k := EntriesIn(v), p[0].key;
      assert k in entries ==> entries[k := entries[k]] == entries;
      assert k !in entries ==> entries - {k} == entries;
    }
  }

  /** Two iterations can be exchanged, even when one path leads into the value of the other. */
  lemma {:induction false} ApplyCommutes(schema: Schema, desc: string, input: Message, m: Message, p: Path, q: Path)
    requires Conforms(schema, desc, input) && Conforms(schema, desc, m)
    requires IsPath(schema, desc, p) && IsPath(schema, desc, q)
    ensures Apply(input, Apply(input, m, p), q) == Apply(input, Apply(input, m, q), p)
    decreases |p| + |q|, 1
  {
    var pq, qp := Apply(input, Apply(input, m, p), q), Apply(input, Apply(input, m, q), p);
    forall f ensures FieldOf(pq, f) == FieldOf(qp, f) {
      ApplyEffect(input, m, p, f);
      ApplyEffect(input, m, q, f);
      ApplyEffect(input, Apply(input, m, p), q, f);
      ApplyEffect(input, Apply(input, m, q), p, f);
      if f == p[0].field == q[0].field {
        EffectsCommute(schema, desc, input, m, p, q);
      }
    }
    SameFields(pq, qp);
  }

  lemma {:induction false} EffectsCommute(schema: Schema, desc: string, input: Message, m: Message, p: Path, q: Path)
    requires Conforms(schema, desc, input) && Conforms(schema, desc, m)
    requires IsPath(schema, desc, p) && IsPath(schema, desc, q) && p[0].field == q[0].field
    ensures var (v, w) := (FieldOf(input, p[0].field), FieldOf(m, p[0].field));
      Effect(v, Effect(v, w, p), q) == Effect(v, Effect(v, w, q), p)
    decreases |p| + |q|, 0
  {
    var v, w := FieldOf(input, p[0].field), FieldOf(m, p[0].field);
    if |p| == 1 && p[0].FieldStep? {
      EffectSelf(schema, desc, input, q);
    } else if |q| == 1 && q[0].FieldStep? {
      EffectSelf(schema, desc, input, p);
    } else if |p| > 1 {
      var inner := Fields(schema, desc)[p[0].field].element.desc;
      InnerTyped(schema, desc, input, p);
      InnerTyped(schema, desc, m, p);
      InnerTyped(schema, desc, m, q);
      ApplyCommutes(schema, inner, MessageIn(v), MessageIn(w), p[1..], q[1..]);
      EmptyHasNothing(p[1..]);
      EmptyHasNothing(q[1..]);
    } else {
      KeysCommute(v, w, p[0], q[0]);
    }
  }

  lemma KeysCommute(v: Option<Value>, w: Option<Value>, p: Step, q: Step)
    requires p.KeyStep? && q.KeyStep?
    ensures Effect(v, Effect(v, w, [p]), [q]) == Effect(v, Effect(v, w, [q]), [p])
  {
    var given, entries := EntriesIn(v), EntriesIn(w);
    KeyEffect(v, w, p);
    KeyEffect(v, w, q);
    KeyEffect(v, Effect(v, w, [p]), q);
    KeyEffect(v, Effect(v, w, [q]), p);
    var pq := Changed(given, Changed(given, entries, p.key), q.key);
    var qp := Changed(given, Changed(given, entries, q.key), p.key);
    assert pq.Keys == qp.Keys;
    assert pq == qp;
  }

  function Changed(given: map<string, Value>, entries: map<string, Value>, k: string): (r: map<string, Value>) {
    if k in given then entries[k := given[k]] else entries - {k}
  }

  lemma KeyEffect(v: Option<Value>, w: Option<Value>, p: Step)
    requires p.KeyStep?
    ensures var changed := Changed(EntriesIn(v), EntriesIn(w), p.key);
      && Effect(v, w, [p]) == (if changed == map[] then None else Some(MapValue(changed)))
      && EntriesIn(Effect(v, w, [p])) == changed
  {
  }

  /* ---------- Whole masks ---------- */

  predicate IsMask(schema: Schema, desc: string, mask: seq<Path>) {
    forall i :: 0 <= i < |mask| ==> IsPath(schema, desc, mask[i])
  }

  lemma {:induction false} ApplyAllTyped(schema: Schema, desc: string, input: Message, m: Message, mask: seq<Path>)
    requires Conforms(schema, desc, input) && Conforms(schema, desc, m) && IsMask(schema, desc, mask)
    ensures Steps(mask) && Conforms(schema, desc, ApplyAll(input, m, mask))
    decreases |mask|
  {
    if mask != [] {
      ApplyTyped(schema, desc, input, m, mask[0]);
      ApplyAllTyped(schema, desc, input, Apply(input, m, mask[0]), mask[1..]);
    }
  }

  function Removed(mask: seq<Path>, i: nat): (r: seq<Path>)
    requires i < |mask|
  {
    mask[..i] + mask[i + 1..]
  }

  lemma RemovedMultiset(mask: seq<Path>, i: nat)
    requires i < |mask|
    ensures multiset(mask) == multiset(Removed(mask, i)) + multiset{mask[i]}
  {
    assert mask == mask[..i] + ([mask[i]] + mask[i + 1..]);
    assert multiset(mask) == multiset(mask[..i]) + multiset([mask[i]] + mask[i + 1..]);
  }

  lemma RemoveSame(mask: seq<Path>, other: seq<Path>, i: nat)
    requires mask != [] && i < |other| && other[i] == mask[0]
    requires multiset(mask) == multiset(other)
    ensures multiset(mask[1..]) == multiset(Removed(other, i))
  {
    RemovedMultiset(mask, 0);
    RemovedMultiset(other, i);
    assert Removed(mask, 0) == mask[1..];
    var first := multiset{mask[0]};
    assert multiset(mask[1..]) == multiset(mask) - first;
    assert multiset(Removed(other, i)) == multiset(other) - first;
  }

  /** Any path of the mask can be moved to the front. */
  lemma {:induction false} MoveToFront(schema: Schema, desc: string, input: Message, m: Message, mask: seq<Path>, i: nat)
    requires Conforms(schema, desc, input) && Conforms(schema, desc, m) && IsMask(schema, desc, mask) && i < |mask|
    ensures IsMask(schema, desc, Removed(mask, i))
    ensures ApplyAll(input, m, mask) == ApplyAll(input, Apply(input, m, mask[i]), Removed(mask, i))
    decreases i
  {
    if i == 0 {
      assert Removed(mask, 0) == mask[1..];
    } else {
      var first := mask[0];
      ApplyTyped(schema, desc, input, m, first);
      ApplyTyped(schema, desc, input, m, mask[i]);
      MoveToFront(schema, desc, input, Apply(input, m, first), mask[1..], i - 1);
      ApplyCommutes(schema, desc, input, m, first, mask[i]);
      assert Removed(mask, i)[0] == first && Removed(mask, i)[1..] == Removed(mask[1..], i - 1);
    }
  }

  /** Any permutation of the mask gives the same object. */
  lemma {:induction false} MaskOrderIrrelevant(schema: Schema, desc: string, input: Message, m: Message,
                                               mask: seq<Path>, other: seq<Path>)
    requires Conforms(schema, desc, input) && Conforms(schema, desc, m)
    requires IsMask(schema, desc, mask) && IsMask(schema, desc, other)
    requires multiset(mask) == multiset(other)
    ensures ApplyAll(input, m, mask) == ApplyAll(input, m, other)
    decreases |mask|
  {
    if mask == [] {
      assert |multiset(other)| == 0;
    } else {
      assert mask[0] in multiset(mask);
      assert mask[0] in multiset(other);
      var i :| 0 <= i < |other| && other[i] == mask[0];
      MoveToFront(schema, desc, input, m, other, i);
      ApplyTyped(schema, desc, input, m, mask[0]);
      RemoveSame(mask, other, i);
      MaskOrderIrrelevant(schema, desc, input, Apply(input, m, mask[0]), mask[1..], Removed(other, i));
    }
  }

  lemma {:induction false} ApplyLast(input: Message, m: Message, mask: seq<Path>, p: Path)
    requires Steps(mask) && p != []
    ensures Steps(mask + [p]) && ApplyAll(input, m, mask + [p]) == Apply(input, ApplyAll(input, m, mask), p)
    decreases |mask|
  {
    if mask == [] {
      assert mask + [p] == [p];
    } else {
      assert (mask + [p])[1..] == mask[1..] + [p];
      ApplyLast(input, Apply(input, m, mask[0]), mask[1..], p);
    }
  }

  /** On every path of the mask the object ends up equal to the input. */
  lemma MaskedPathsExact(schema: Schema, desc: string, input: Message, m: Message, mask: seq<Path>, i: nat)
    requires Conforms(schema, desc, input) && Conforms(schema, desc, m) && IsMask(schema, desc, mask) && i < |mask|
    ensures GetAt(ApplyAll(input, m, mask), mask[i]) == GetAt(input, mask[i])
  {
    var others := Removed(mask, i);
    var last := others + [mask[i]];
    RemovedMultiset(mask, i);
    MaskOrderIrrelevant(schema, desc, input, m, mask, last);
    ApplyLast(input, m, others, mask[i]);
    ApplyExact(input, ApplyAll(input, m, others), mask[i]);
  }

  /** On every path that isn't related to a path of the mask the object doesn't change. */
  lemma {:induction false} OtherPathsUnchanged(schema: Schema, desc: string, input: Message, m: Message,
                                               mask: seq<Path>, q: Path)
    requires Conforms(schema, desc, input) && Conforms(schema, desc, m)
    requires IsMask(schema, desc, mask) && IsPath(schema, desc, q)
    requires forall i :: 0 <= i < |mask| ==> !Related(mask[i], q)
    ensures GetAt(ApplyAll(input, m, mask), q) == GetAt(m, q)
    decreases |mask|
  {
    if mask != [] {
      ApplyFrame(schema, desc, input, m, mask[0], q);
      ApplyTyped(schema, desc, input, m, mask[0]);
      OtherPathsUnchanged(schema, desc, input, Apply(input, m, mask[0]), mask[1..], q);
    }
  }

  /* ---------- The update as a whole ---------- */

  /** Writing back what is at a path, or clearing nothing, changes nothing. */
  lemma {:induction false} WriteBack(schema: Schema, desc: string, m: Message, p: Path)
    requires Conforms(schema, desc, m) && IsPath(schema, desc, p)
    ensures GetAt(m, p).Some? ==> SetAt(m, p, GetAt(m, p).value) == m
    ensures GetAt(m, p).None? ==> ClearAt(m, p) == m
    decreases |p|
  {
    var f := p[0].field;
    if f in m.fields {
      var v, t := m.fields[f], Fields(schema, desc)[f];
      assert HasType(schema, t, v);
      assert m.fields[f := v] == m.fields;
      if |p| > 1 {
        InnerTyped(schema, desc, m, p);
        WriteBack(schema, t.element.desc, v.message, p[1..]);
      } else if p[0].KeyStep? {
        var entries := v.entries;
        assert p[0].key !in entries ==> entries - {p[0].key} == entries;
        assert p[0].key in entries ==> entries[p[0].key := entries[p[0].key]] == entries;
      }
    }
  }

  /** A mask on whose paths the object agrees with the input changes nothing. */
  lemma {:induction false} UpdateAgreed(schema: Schema, desc: string, input: Message, m: Message, mask: seq<Path>)
    requires Conforms(schema, desc, m) && IsMask(schema, desc, mask) && Steps(mask)
    requires forall i :: 0 <= i < |mask| ==> GetAt(input, mask[i]) == GetAt(m, mask[i])
    ensures ApplyAll(input, m, mask) == m
    decreases |mask|
  {
    if mask != [] {
      WriteBack(schema, desc, m, mask[0]);
      assert Apply(input, m, mask[0]) == m;
      UpdateAgreed(schema, desc, input, m, mask[1..]);
    }
  }

  /** The same update again changes nothing. */
  lemma {:induction false} UpdateTwice(schema: Schema, desc: string, input: Message, m: Message, mask: seq<Path>)
    requires Conforms(schema, desc, input) && Conforms(schema, desc, m) && IsMask(schema, desc, mask)
    ensures Steps(mask) && ApplyAll(input, ApplyAll(input, m, mask), mask) == ApplyAll(input, m, mask)
  {
    ApplyAllTyped(schema, desc, input, m, mask);
    forall i | 0 <= i < |mask| ensures GetAt(input, mask[i]) == GetAt(ApplyAll(input, m, mask), mask[i]) {
      MaskedPathsExact(schema, desc, input, m, mask, i);
    }
    UpdateAgreed(schema, desc, input, ApplyAll(input, m, mask), mask);
  }
}
