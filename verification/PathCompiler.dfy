/** From the text of a field mask path to its steps. */
module PathCompiler {
  import opened Wrappers
  import opened Messages
  import Masks

  datatype Step = Field(field: string) | Key(field: string, key: string) | Index(field: string, index: int)

  datatype Error = FieldNotFound(field: string) | InvalidIndex(text: string)

  datatype Compiled = Compiled(text: string, steps: seq<Step>)

  // Text

  /** White space of Unicode, as the trimming function of the standard library sees it. */
  predicate Blank(c: char) {
    || '\U{0009}' <= c <= '\U{000d}' || c == ' ' || c == '\U{0085}' || c == '\U{00a0}' || c == '\U{1680}'
    || '\U{2000}' <= c <= '\U{200a}' || c == '\U{2028}' || c == '\U{2029}' || c == '\U{202f}' || c == '\U{205f}'
    || c == '\U{3000}'
  }

  function Trim(s: string): (r: string) {
    TrimRight(TrimLeft(s))
  }

  function TrimLeft(s: string): (r: string) {
    if s != [] && Blank(s[0]) then TrimLeft(s[1..]) else s
  }

  function TrimRight(s: string): (r: string) {
    if s != [] && Blank(s[|s| - 1]) then TrimRight(s[..|s| - 1]) else s
  }

  /** The chunks between the dots, at least one. */
  function Chunks(s: string): (chunks: seq<string>)
    ensures chunks != []
  {
    if s == [] then [[]]
    else
      var rest := Chunks(s[1..]);
      if s[0] == '.' then [[]] + rest else [[s[0]] + rest[0]] + rest[1..]
  }

  function Trimmed(chunks: seq<string>): (r: seq<string>) {
    seq(|chunks|, i requires 0 <= i < |chunks| => Trim(chunks[i]))
  }

  function NonEmpty(chunks: seq<string>): (r: seq<string>)
    decreases |chunks|
  {
    if chunks == [] then []
    else
      var before := NonEmpty(chunks[..|chunks| - 1]);
      if chunks[|chunks| - 1] == "" then before else before + [chunks[|chunks| - 1]]
  }

  function Segments(path: string): (segments: seq<string>) {
    NonEmpty(Trimmed(Chunks(path)))
  }

  method Split(path: string) returns (segments: seq<string>)
    ensures segments == Segments(path)
  {
    var chunks := Chunks(path);
    ghost var original := chunks;
    for i := 0 to |chunks|
      invariant |chunks| == |original|
      invariant forall j :: 0 <= j < i ==> chunks[j] == Trim(original[j])
      invariant forall j :: i <= j < |chunks| ==> chunks[j] == original[j]
    {
      chunks := chunks[i := Trim(chunks[i])];
    }
    assert chunks == Trimmed(original);
    segments := [];
    for i := 0 to |chunks|
      invariant segments == NonEmpty(chunks[..i])
    {
      assert chunks[..i + 1][..i] == chunks[..i];
      if chunks[i] != "" {
        segments := segments + [chunks[i]];
      }
    }
    assert chunks[..|chunks|] == chunks;
  }

  // Numbers

  const MIN_INT := -0x8000_0000_0000_0000
  const MAX_INT := 0x7fff_ffff_ffff_ffff

  function Digits(s: string): (n: Option<nat>) {
    if s == [] then Some(0)
    else
      var before := Digits(s[..|s| - 1]);
      var c := s[|s| - 1];
      if before.None? || !('0' <= c <= '9') then None
      else Some(10 * before.value + (c as int - '0' as int))
  }

  function ParseInt(s: string): (n: Option<int>) {
    var signed := s != [] && s[0] in {'+', '-'};
    var digits := if signed then s[1..] else s;
    if digits == "" || Digits(digits).None? then None
    else
      var n := if signed && s[0] == '-' then 0 - Digits(digits).value else Digits(digits).value;
      if MIN_INT <= n <= MAX_INT then Some(n) else None
  }

  // Steps

  /** The type in which the rest of the path is looked up: a field without messages does not change it. */
  function Below(desc: string, t: FieldType): (d: string) {
    if t.element.MessageElement? then t.element.desc else desc
  }

  function Steps(schema: Schema, desc: string, segments: seq<string>): (r: Result<seq<Step>, Error>)
    decreases |segments|
  {
    if segments == [] then Ok([])
    else if segments[0] !in Fields(schema, desc) then Err(FieldNotFound(segments[0]))
    else
      var f := segments[0];
      var t := Fields(schema, desc)[f];
      if |segments| == 1 || t.Single? then Then(Field(f), Steps(schema, Below(desc, t), segments[1..]))
      else if t.Keyed? then Then(Key(f, segments[1]), Steps(schema, Below(desc, t), segments[2..]))
      else if ParseInt(segments[1]).None? then Err(InvalidIndex(segments[1]))
      else Then(Index(f, ParseInt(segments[1]).value), Steps(schema, Below(desc, t), segments[2..]))
  }

  function Then(step: Step, rest: Result<seq<Step>, Error>): (r: Result<seq<Step>, Error>) {
    if rest.Ok? then Ok([step] + rest.value) else rest
  }

  /** The loop drops the segments as it goes, so that the normalized text, made of what is left, is always empty. */
  method Compile(schema: Schema, desc: string, path: string) returns (r: Result<Compiled, Error>)
    ensures r == match Steps(schema, desc, Segments(path))
                 case Ok(steps) => Ok(Compiled("", steps))
                 case Err(e) => Err(e)
  {
    var segments := Split(path);
    var steps: seq<Step> := [];
    var current := desc;
    PrependedNone(Steps(schema, desc, segments));
    while |segments| > 0
      invariant Steps(schema, desc, Segments(path)) == Prepended(steps, Steps(schema, current, segments))
      decreases |segments|
    {
      var f := segments[0];
      if f !in Fields(schema, current) {
        return Err(FieldNotFound(f));
      }
      var t := Fields(schema, current)[f];
      var step := Field(f);
      ghost var before, from := segments, current;
      match t {
        case Repeated(element) =>
          if |segments| > 1 {
            var index := ParseInt(segments[1]);
            if index.None? {
              return Err(InvalidIndex(segments[1]));
            }
            step := Index(f, index.value);
            segments := segments[2..];
          } else {
            segments := segments[1..];
          }
          if element.MessageElement? {
            current := element.desc;
          }
        case Keyed(element) =>
          if |segments| > 1 {
            step := Key(f, segments[1]);
            segments := segments[2..];
          } else {
            segments := segments[1..];
          }
          if element.MessageElement? {
            current := element.desc;
          }
        case Single(element) =>
          segments := segments[1..];
          if element.MessageElement? {
            current := element.desc;
          }
      }
      assert Steps(schema, from, before) == Then(step, Steps(schema, current, segments));
      PrependedThen(steps, step, Steps(schema, current, segments));
      steps := steps + [step];
    }
    assert steps + [] == steps;
    var text := Join(segments);
    return Ok(Compiled(text, steps));
  }

  function Prepended(steps: seq<Step>, rest: Result<seq<Step>, Error>): (r: Result<seq<Step>, Error>) {
    if rest.Ok? then Ok(steps + rest.value) else rest
  }

  lemma PrependedNone(rest: Result<seq<Step>, Error>)
    ensures Prepended([], rest) == rest
  {
    if rest.Ok? {
      assert [] + rest.value == rest.value;
    }
  }

  lemma PrependedThen(steps: seq<Step>, step: Step, rest: Result<seq<Step>, Error>)
    ensures Prepended(steps, Then(step, rest)) == Prepended(steps + [step], rest)
  {
    if rest.Ok? {
      assert steps + ([step] + rest.value) == (steps + [step]) + rest.value;
    }
  }

  function Join(segments: seq<string>): (text: string) {
    if segments == [] then ""
    else if |segments| == 1 then segments[0]
    else segments[0] + "." + Join(segments[1..])
  }

  // Segments and their text

  predicate Proper(segment: string) {
    segment != "" && '.' !in segment && !Blank(segment[0]) && !Blank(segment[|segment| - 1])
  }

  ghost predicate AllProper(segments: seq<string>) {
    forall i :: 0 <= i < |segments| ==> Proper(segments[i])
  }

  lemma {:induction false} TrimLeftMeans(s: string)
    ensures TrimLeft(s) != "" ==> !Blank(TrimLeft(s)[0])
    ensures forall c :: c in TrimLeft(s) ==> c in s
  {
    if s != [] && Blank(s[0]) {
      TrimLeftMeans(s[1..]);
    }
  }

  lemma {:induction false} TrimRightMeans(s: string)
    ensures TrimRight(s) <= s
    ensures TrimRight(s) != "" ==> !Blank(TrimRight(s)[|TrimRight(s)| - 1])
    decreases |s|
  {
    if s != [] && Blank(s[|s| - 1]) {
      TrimRightMeans(s[..|s| - 1]);
    }
  }

  lemma TrimIsProper(s: string)
    requires '.' !in s
    ensures Trim(s) != "" ==> Proper(Trim(s))
  {
    TrimLeftMeans(s);
    TrimRightMeans(TrimLeft(s));
    var left, r := TrimLeft(s), Trim(s);
    assert forall c :: c in r ==> c in left by {
      assert r == left[..|r|];
    }
  }

  lemma {:induction false} ChunksAreDotless(s: string)
    ensures forall i :: 0 <= i < |Chunks(s)| ==> '.' !in Chunks(s)[i]
  {
    if s != [] {
      ChunksAreDotless(s[1..]);
    }
  }

  lemma {:induction false} NonEmptyKeeps(chunks: seq<string>)
    requires forall i :: 0 <= i < |chunks| ==> chunks[i] != "" ==> Proper(chunks[i])
    ensures AllProper(NonEmpty(chunks))
    ensures (forall i :: 0 <= i < |chunks| ==> chunks[i] != "") ==> NonEmpty(chunks) == chunks
    decreases |chunks|
  {
    if chunks != [] {
      NonEmptyKeeps(chunks[..|chunks| - 1]);
      assert chunks == chunks[..|chunks| - 1] + [chunks[|chunks| - 1]];
    }
  }

  /** Whatever the text, the segments have no dots, no blanks around them and are not empty. */
  lemma SegmentsAreProper(path: string)
    ensures AllProper(Segments(path))
  {
    var chunks := Chunks(path);
    ChunksAreDotless(path);
    forall i | 0 <= i < |chunks| ensures Trim(chunks[i]) != "" ==> Proper(Trim(chunks[i])) {
      TrimIsProper(chunks[i]);
    }
    NonEmptyKeeps(Trimmed(chunks));
  }

  lemma {:induction false} ChunksOfFirst(first: string, rest: string)
    requires '.' !in first
    ensures Chunks(first) == [first]
    ensures Chunks(first + "." + rest) == [first] + Chunks(rest)
    decreases |first|
  {
    var text := first + "." + rest;
    if first == "" {
      assert text[1..] == rest;
    } else {
      ChunksOfFirst(first[1..], rest);
      assert text[1..] == first[1..] + "." + rest;
      assert [first[0]] + first[1..] == first;
    }
  }

  lemma {:induction false} ChunksOfJoin(segments: seq<string>)
    requires segments != [] && AllProper(segments)
    ensures Chunks(Join(segments)) == segments
    decreases |segments|
  {
    if |segments| == 1 {
      ChunksOfFirst(segments[0], "");
    } else {
      ChunksOfFirst(segments[0], Join(segments[1..]));
      ChunksOfJoin(segments[1..]);
    }
  }

  /** Joining proper segments with dots and splitting them gives them back. */
  lemma SegmentsOfJoin(segments: seq<string>)
    requires AllProper(segments)
    ensures Segments(Join(segments)) == segments
  {
    if segments == [] {
      assert Trimmed([""]) == [""];
      assert [""][..0] == [];
    } else {
      ChunksOfJoin(segments);
      assert Trimmed(segments) == segments;
      NonEmptyKeeps(segments);
    }
  }

  // Paths and their text

  function Names(p: Masks.Path): (segments: seq<string>) {
    if p == [] then []
    else (if p[0].FieldStep? then [p[0].field] else [p[0].field, p[0].key]) + Names(p[1..])
  }

  function Lifted(p: Masks.Path): (steps: seq<Step>) {
    seq(|p|, i requires 0 <= i < |p| => if p[i].FieldStep? then Field(p[i].field) else Key(p[i].field, p[i].key))
  }

  /** Every path of a type is what the compiler makes of its names. */
  lemma {:induction false} PathsCompile(schema: Schema, desc: string, p: Masks.Path)
    requires Masks.IsPath(schema, desc, p)
    ensures Steps(schema, desc, Names(p)) == Ok(Lifted(p))
    decreases |p|
  {
    if |p| == 1 {
      var segments, t := Names(p), Fields(schema, desc)[p[0].field];
      assert Names(p[1..]) == [];
      if p[0].KeyStep? {
        assert segments == [p[0].field, p[0].key] && segments[2..] == [];
        assert Lifted(p) == [Key(p[0].field, p[0].key)] + [];
        assert Steps(schema, Below(desc, t), segments[2..]) == Ok([]);
      } else {
        assert segments == [p[0].field] && segments[1..] == [];
        assert Lifted(p) == [Field(p[0].field)] + [];
        assert Steps(schema, Below(desc, t), segments[1..]) == Ok([]);
      }
    } else {
      PathsCompile(schema, Fields(schema, desc)[p[0].field].element.desc, p[1..]);
      assert Names(p) == [p[0].field] + Names(p[1..]);
      assert Names(p)[1..] == Names(p[1..]);
      assert Names(p[1..]) != [];
      assert Lifted(p) == [Field(p[0].field)] + Lifted(p[1..]);
    }
  }

  /** So the text of a path compiles to it, when its names can stand in a text. */
  lemma TextCompiles(schema: Schema, desc: string, p: Masks.Path)
    requires Masks.IsPath(schema, desc, p) && AllProper(Names(p))
    ensures Steps(schema, desc, Segments(Join(Names(p)))) == Ok(Lifted(p))
  {
    SegmentsOfJoin(Names(p));
    PathsCompile(schema, desc, p);
  }

  /** Only message fields are followed by more segments, except for the key at the end of the path. */
  predicate Straight(schema: Schema, desc: string, segments: seq<string>)
    decreases |segments|
  {
    |segments| <= 1 || (
      && segments[0] in Fields(schema, desc)
      && var t := Fields(schema, desc)[segments[0]];
        if t.Single? then t.element.MessageElement? && Straight(schema, t.element.desc, segments[1..])
        else t.Keyed? && |segments| == 2)
  }

  /** What the compiler accepts is a path of the type exactly when the segments are straight. */
  lemma {:induction false} CompiledIsPathIff(schema: Schema, desc: string, segments: seq<string>)
    requires Steps(schema, desc, segments).Ok?
    ensures (exists p :: Masks.IsPath(schema, desc, p) && Lifted(p) == Steps(schema, desc, segments).value) <==>
            segments != [] && Straight(schema, desc, segments)
  {
    var steps := Steps(schema, desc, segments).value;
    if segments != [] && Straight(schema, desc, segments) {
      StraightIsPath(schema, desc, segments);
    }
    forall p | Masks.IsPath(schema, desc, p) && Lifted(p) == steps
      ensures segments != [] && Straight(schema, desc, segments)
    {
      PathIsStraight(schema, desc, segments, p);
    }
  }

  function PathOf(steps: seq<Step>): (p: Masks.Path)
    requires forall i :: 0 <= i < |steps| ==> !steps[i].Index?
  {
    seq(|steps|, i requires 0 <= i < |steps| =>
      if steps[i].Field? then Masks.FieldStep(steps[i].field) else Masks.KeyStep(steps[i].field, steps[i].key))
  }

  lemma {:induction false} StraightIsPath(schema: Schema, desc: string, segments: seq<string>)
    requires Steps(schema, desc, segments).Ok? && segments != [] && Straight(schema, desc, segments)
    ensures var steps := Steps(schema, desc, segments).value;
            && (forall i :: 0 <= i < |steps| ==> !steps[i].Index?)
            && Masks.IsPath(schema, desc, PathOf(steps)) && Lifted(PathOf(steps)) == steps
    decreases |segments|
  {
    var steps := Steps(schema, desc, segments).value;
    var t := Fields(schema, desc)[segments[0]];
    if |segments| > 1 && t.Single? {
      StraightIsPath(schema, t.element.desc, segments[1..]);
      var rest := Steps(schema, t.element.desc, segments[1..]).value;
      assert steps == [Field(segments[0])] + rest;
      assert PathOf(steps)[1..] == PathOf(rest);
    } else if |segments| > 1 {
      assert segments[2..] == [];
      assert steps == [Key(segments[0], segments[1])];
    } else {
      assert segments[1..] == [];
      assert steps == [Field(segments[0])];
    }
  }

  lemma {:induction false} PathIsStraight(schema: Schema, desc: string, segments: seq<string>, p: Masks.Path)
    requires Steps(schema, desc, segments) == Ok(Lifted(p)) && Masks.IsPath(schema, desc, p)
    ensures segments != [] && Straight(schema, desc, segments)
    decreases |segments|
  {
    var t := Fields(schema, desc)[segments[0]];
    assert Lifted(p)[0].field == p[0].field;
    if |segments| > 1 && t.Single? {
      var rest := Steps(schema, Below(desc, t), segments[1..]).value;
      assert Lifted(p) == [Field(segments[0])] + rest;
      assert rest == Lifted(p)[1..] == Lifted(p[1..]);
      PathIsStraight(schema, t.element.desc, segments[1..], p[1..]);
    }
  }

  /** A field without messages is transparent: what follows it is looked up next to it. */
  lemma SiblingOfScalarCompiles()
    ensures exists schema: Schema, steps: seq<Step> ::
              && Steps(schema, "Cluster", Segments("id.spec")) == Ok(steps)
              && !exists p :: Masks.IsPath(schema, "Cluster", p) && Lifted(p) == steps
  {
    var fields: map<string, FieldType> :=
      map["id" := Single(ScalarElement(StringKind)), "spec" := Single(MessageElement("Spec"))];
    var schema: Schema := map["Cluster" := fields];
    var segments := ["id", "spec"];
    assert Join(segments) == "id.spec" by {
      assert segments[1..] == ["spec"];
    }
    SegmentsOfJoin(segments);
    assert segments[1..] == ["spec"] && segments[1..][1..] == [];
    assert Steps(schema, "Cluster", segments).Ok?;
    CompiledIsPathIff(schema, "Cluster", segments);
  }

  // Blanks and numbers

  /** The code points with the property White_Space of Unicode. */
  const WHITE_SPACE := {
    0x09, 0x0a, 0x0b, 0x0c, 0x0d, 0x20, 0x85, 0xa0, 0x1680, 0x2000, 0x2001, 0x2002, 0x2003, 0x2004, 0x2005, 0x2006,
    0x2007, 0x2008, 0x2009, 0x200a, 0x2028, 0x2029, 0x202f, 0x205f, 0x3000}

  ghost predicate AllBlank(s: string) {
    forall i :: 0 <= i < |s| ==> s[i] as int in WHITE_SPACE
  }

  lemma BlankExactly(c: char)
    ensures Blank(c) <==> c as int in WHITE_SPACE
  {
    var n := c as int;
    assert Blank(c) <==>
      0x09 <= n <= 0x0d || n == 0x20 || n == 0x85 || n == 0xa0 || n == 0x1680 || 0x2000 <= n <= 0x200a
      || n == 0x2028 || n == 0x2029 || n == 0x202f || n == 0x205f || n == 0x3000;
  }

  /** Blanks around a proper segment are removed, and nothing of the segment is. */
  lemma {:induction false} TrimPadded(before: string, segment: string, after: string)
    requires AllBlank(before) && AllBlank(after) && Proper(segment)
    ensures Trim(before + segment + after) == segment
  {
    if before != "" {
      BlankExactly(before[0]);
      assert (before + segment + after)[1..] == before[1..] + segment + after;
      TrimPadded(before[1..], segment, after);
    } else {
      assert before + segment + after == segment + after;
      assert TrimLeft(segment + after) == segment + after;
      TrimRightPadded(segment, after);
    }
  }

  lemma {:induction false} TrimRightPadded(segment: string, after: string)
    requires AllBlank(after) && Proper(segment)
    ensures TrimRight(segment + after) == segment
    decreases |after|
  {
    if after == "" {
      assert segment + after == segment;
    } else {
      BlankExactly(after[|after| - 1]);
      assert (segment + after)[..|segment + after| - 1] == segment + after[..|after| - 1];
      TrimRightPadded(segment, after[..|after| - 1]);
    }
  }

  function Digit(d: nat): (c: char)
    requires d < 10
    ensures c as int == '0' as int + d
  {
    (48 + d) as char
  }

  /** The decimal digits of a number. */
  function Decimal(n: nat): (text: string)
    ensures text != ""
  {
    if n < 10 then [Digit(n)] else Decimal(n / 10) + [Digit(n % 10)]
  }

  lemma DigitsAppend(text: string, before: nat, d: nat)
    requires Digits(text) == Some(before) && d < 10
    ensures Digits(text + [Digit(d)]) == Some(10 * before + d)
  {
    assert (text + [Digit(d)])[..|text|] == text;
  }

  lemma {:induction false} DecimalDigits(n: nat)
    ensures Digits(Decimal(n)) == Some(n)
    ensures '0' <= Decimal(n)[0] <= '9'
    decreases n
  {
    if n < 10 {
      DigitsAppend("", 0, n);
      assert "" + [Digit(n)] == [Digit(n)];
    } else {
      DecimalDigits(n / 10);
      DigitsAppend(Decimal(n / 10), n / 10, n % 10);
    }
  }

  /** The index of a list is the number that its decimal text says, with or without a sign, if it fits in 64 bits. */
  lemma IndexOfText(n: nat)
    ensures ParseInt(Decimal(n)) == ParseInt("+" + Decimal(n)) == if n <= 0x7fff_ffff_ffff_ffff then Some(n) else None
    ensures ParseInt("-" + Decimal(n)) == if n <= 0x8000_0000_0000_0000 then Some(0 - n) else None
  {
    DecimalDigits(n);
    assert ("+" + Decimal(n))[1..] == Decimal(n) && ("-" + Decimal(n))[1..] == Decimal(n);
  }
}
