/** The grammar of JSON texts over tokens, sections 2 to 5 of RFC 8259, and a parser for it. */
module Json {
  import opened Wrappers

  datatype Token =
    | ObjectStart
    | ObjectEnd
    | ArrayStart
    | ArrayEnd
    | Colon
    | Comma
    | NullToken
    | BoolToken(flag: bool)
    | NumberToken(number: real)
    | StringToken(text: string)

  /** A text as it is written: the members of an object keep their order. */
  datatype Doc =
    | Null
    | Bool(flag: bool)
    | Number(number: real)
    | Text(text: string)
    | Array(items: seq<Doc>)
    | Object(members: seq<Member>)

  datatype Member = Member(name: string, value: Doc)

  // Printing

  function Flat(d: Doc): (tokens: seq<Token>)
    ensures tokens != [] && tokens[0] != ArrayEnd && tokens[0] != ObjectEnd
    decreases d
  {
    match d
    case Null => [NullToken]
    case Bool(flag) => [BoolToken(flag)]
    case Number(number) => [NumberToken(number)]
    case Text(text) => [StringToken(text)]
    case Array(items) => [ArrayStart] + FlatItems(items) + [ArrayEnd]
    case Object(members) => [ObjectStart] + FlatMembers(members) + [ObjectEnd]
  }

  function FlatItems(items: seq<Doc>): (tokens: seq<Token>)
    decreases items
  {
    if items == [] then []
    else if |items| == 1 then Flat(items[0])
    else Flat(items[0]) + [Comma] + FlatItems(items[1..])
  }

  function FlatMember(m: Member): (tokens: seq<Token>)
    decreases m
  {
    [StringToken(m.name), Colon] + Flat(m.value)
  }

  function FlatMembers(members: seq<Member>): (tokens: seq<Token>)
    decreases members
  {
    if members == [] then []
    else if |members| == 1 then FlatMember(members[0])
    else FlatMember(members[0]) + [Comma] + FlatMembers(members[1..])
  }

  // Parsing

  type Parsed<T> = Option<(T, seq<Token>)>

  /** Reads one value from the front, and returns it with what follows. */
  function Parse(tokens: seq<Token>): (r: Parsed<Doc>)
    ensures r.Some? ==> |r.value.1| < |tokens|
    decreases |tokens|, 0
  {
    if tokens == [] then None
    else
      var rest := tokens[1..];
      match tokens[0]
      case NullToken => Some((Null, rest))
      case BoolToken(flag) => Some((Bool(flag), rest))
      case NumberToken(number) => Some((Number(number), rest))
      case StringToken(text) => Some((Text(text), rest))
      case ArrayStart =>
        if rest != [] && rest[0] == ArrayEnd then Some((Array([]), rest[1..]))
        else
          var items := ParseItems(rest);
          if items.None? then None else Some((Array(items.value.0), items.value.1))
      case ObjectStart =>
        if rest != [] && rest[0] == ObjectEnd then Some((Object([]), rest[1..]))
        else
          var members := ParseMembers(rest);
          if members.None? then None else Some((Object(members.value.0), members.value.1))
      case ObjectEnd => None
      case ArrayEnd => None
      case Colon => None
      case Comma => None
  }

  /** One or more items separated by commas, up to the end of the array. */
  function ParseItems(tokens: seq<Token>): (r: Parsed<seq<Doc>>)
    ensures r.Some? ==> |r.value.1| < |tokens| && r.value.0 != []
    decreases |tokens|, 1
  {
    var item := Parse(tokens);
    if item.None? || item.value.1 == [] then None
    else
      var (value, rest) := item.value;
      if rest[0] == ArrayEnd then Some(([value], rest[1..]))
      else if rest[0] != Comma then None
      else
        var more := ParseItems(rest[1..]);
        if more.None? then None else Some(([value] + more.value.0, more.value.1))
  }

  function ParseMember(tokens: seq<Token>): (r: Parsed<Member>)
    ensures r.Some? ==> |r.value.1| < |tokens|
    decreases |tokens|, 1
  {
    if |tokens| < 2 || !tokens[0].StringToken? || tokens[1] != Colon then None
    else
      var value := Parse(tokens[2..]);
      if value.None? then None else Some((Member(tokens[0].text, value.value.0), value.value.1))
  }

  function ParseMembers(tokens: seq<Token>): (r: Parsed<seq<Member>>)
    ensures r.Some? ==> |r.value.1| < |tokens| && r.value.0 != []
    decreases |tokens|, 2
  {
    var member := ParseMember(tokens);
    if member.None? || member.value.1 == [] then None
    else
      var (value, rest) := member.value;
      if rest[0] == ObjectEnd then Some(([value], rest[1..]))
      else if rest[0] != Comma then None
      else
        var more := ParseMembers(rest[1..]);
        if more.None? then None else Some(([value] + more.value.0, more.value.1))
  }

  /** A whole text is one value. */
  function ParseText(tokens: seq<Token>): (r: Option<Doc>) {
    var r := Parse(tokens);
    if r.Some? && r.value.1 == [] then Some(r.value.0) else None
  }

  // The parser reads exactly what is printed

  lemma ParseArray(body: seq<Token>, items: seq<Doc>, rest: seq<Token>)
    requires body != [] && body[0] != ArrayEnd && ParseItems(body) == Some((items, rest))
    ensures Parse([ArrayStart] + body) == Some((Array(items), rest))
  {
    assert ([ArrayStart] + body)[1..] == body;
  }

  lemma ParseObject(body: seq<Token>, members: seq<Member>, rest: seq<Token>)
    requires body != [] && body[0] != ObjectEnd && ParseMembers(body) == Some((members, rest))
    ensures Parse([ObjectStart] + body) == Some((Object(members), rest))
  {
    assert ([ObjectStart] + body)[1..] == body;
  }

  lemma ParseEmpty(rest: seq<Token>)
    ensures Parse([ArrayStart, ArrayEnd] + rest) == Some((Array([]), rest))
    ensures Parse([ObjectStart, ObjectEnd] + rest) == Some((Object([]), rest))
  {
    assert ([ArrayStart, ArrayEnd] + rest)[1..] == [ArrayEnd] + rest;
    assert ([ObjectStart, ObjectEnd] + rest)[1..] == [ObjectEnd] + rest;
    assert ([ArrayEnd] + rest)[1..] == rest && ([ObjectEnd] + rest)[1..] == rest;
  }

  lemma LastItem(tokens: seq<Token>, item: Doc, rest: seq<Token>)
    requires Parse(tokens) == Some((item, [ArrayEnd] + rest))
    ensures ParseItems(tokens) == Some(([item], rest))
  {
    assert ([ArrayEnd] + rest)[1..] == rest;
  }

  lemma NextItem(tokens: seq<Token>, item: Doc, more: seq<Token>, items: seq<Doc>, rest: seq<Token>)
    requires Parse(tokens) == Some((item, [Comma] + more)) && ParseItems(more) == Some((items, rest))
    ensures ParseItems(tokens) == Some(([item] + items, rest))
  {
    assert ([Comma] + more)[1..] == more;
  }

  lemma LastMember(tokens: seq<Token>, member: Member, rest: seq<Token>)
    requires ParseMember(tokens) == Some((member, [ObjectEnd] + rest))
    ensures ParseMembers(tokens) == Some(([member], rest))
  {
    assert ([ObjectEnd] + rest)[1..] == rest;
  }

  lemma NextMember(tokens: seq<Token>, member: Member, more: seq<Token>, members: seq<Member>, rest: seq<Token>)
    requires ParseMember(tokens) == Some((member, [Comma] + more)) && ParseMembers(more) == Some((members, rest))
    ensures ParseMembers(tokens) == Some(([member] + members, rest))
  {
    assert ([Comma] + more)[1..] == more;
  }

  lemma Enclosed(start: Token, body: seq<Token>, end: Token, rest: seq<Token>)
    ensures [start] + body + [end] + rest == [start] + (body + [end] + rest)
    ensures [start] + [] + [end] + rest == [start, end] + rest
  {
  }

  lemma {:induction false} ParseComplete(d: Doc, rest: seq<Token>)
    ensures Parse(Flat(d) + rest) == Some((d, rest))
    decreases d
  {
    if d.Array? {
      Enclosed(ArrayStart, FlatItems(d.items), ArrayEnd, rest);
      if d.items == [] {
        ParseEmpty(rest);
      } else {
        ItemsComplete(d.items, rest);
        Starts(d.items, []);
        ParseArray(FlatItems(d.items) + [ArrayEnd] + rest, d.items, rest);
      }
    } else if d.Object? {
      Enclosed(ObjectStart, FlatMembers(d.members), ObjectEnd, rest);
      if d.members == [] {
        ParseEmpty(rest);
      } else {
        MembersComplete(d.members, rest);
        Starts([], d.members);
        ParseObject(FlatMembers(d.members) + [ObjectEnd] + rest, d.members, rest);
      }
    } else {
      assert (Flat(d) + rest)[1..] == rest;
    }
  }

  lemma Starts(items: seq<Doc>, members: seq<Member>)
    ensures items != [] ==> FlatItems(items) != [] && FlatItems(items)[0] != ArrayEnd
    ensures members != [] ==> FlatMembers(members) != [] && FlatMembers(members)[0] != ObjectEnd
  {
  }

  lemma Regroup(first: seq<Token>, more: seq<Token>, end: Token, rest: seq<Token>)
    ensures first + [end] + rest == first + ([end] + rest)
    ensures (first + [Comma] + more) + [end] + rest == first + ([Comma] + (more + [end] + rest))
  {
  }

  lemma Split<T>(s: seq<T>)
    requires s != []
    ensures s == [s[0]] + s[1..] && (|s| == 1 ==> s == [s[0]])
  {
  }

  lemma {:induction false} ItemsComplete(items: seq<Doc>, rest: seq<Token>)
    requires items != []
    ensures ParseItems(FlatItems(items) + [ArrayEnd] + rest) == Some((items, rest))
    decreases items
  {
    Split(items);
    Regroup(Flat(items[0]), FlatItems(items[1..]), ArrayEnd, rest);
    if |items| == 1 {
      ParseComplete(items[0], [ArrayEnd] + rest);
      LastItem(FlatItems(items) + [ArrayEnd] + rest, items[0], rest);
    } else {
      var more := FlatItems(items[1..]) + [ArrayEnd] + rest;
      ParseComplete(items[0], [Comma] + more);
      ItemsComplete(items[1..], rest);
      NextItem(FlatItems(items) + [ArrayEnd] + rest, items[0], more, items[1..], rest);
    }
  }

  lemma {:induction false} MemberComplete(m: Member, rest: seq<Token>)
    ensures ParseMember(FlatMember(m) + rest) == Some((m, rest))
    decreases m
  {
    ParseComplete(m.value, rest);
    assert (FlatMember(m) + rest)[2..] == Flat(m.value) + rest;
  }

  lemma {:induction false} MembersComplete(members: seq<Member>, rest: seq<Token>)
    requires members != []
    ensures ParseMembers(FlatMembers(members) + [ObjectEnd] + rest) == Some((members, rest))
    decreases members
  {
    Split(members);
    Regroup(FlatMember(members[0]), FlatMembers(members[1..]), ObjectEnd, rest);
    if |members| == 1 {
      MemberComplete(members[0], [ObjectEnd] + rest);
      LastMember(FlatMembers(members) + [ObjectEnd] + rest, members[0], rest);
    } else {
      var more := FlatMembers(members[1..]) + [ObjectEnd] + rest;
      MemberComplete(members[0], [Comma] + more);
      MembersComplete(members[1..], rest);
      NextMember(FlatMembers(members) + [ObjectEnd] + rest, members[0], more, members[1..], rest);
    }
  }

  lemma {:induction false} ParseSound(tokens: seq<Token>)
    requires Parse(tokens).Some?
    ensures tokens == Flat(Parse(tokens).value.0) + Parse(tokens).value.1
    decreases |tokens|, 0
  {
    var rest := tokens[1..];
    assert tokens == [tokens[0]] + rest;
    if tokens[0] == ArrayStart {
      if rest != [] && rest[0] == ArrayEnd {
        assert rest == [ArrayEnd] + rest[1..];
      } else {
        ItemsSound(rest);
      }
    } else if tokens[0] == ObjectStart {
      if rest != [] && rest[0] == ObjectEnd {
        assert rest == [ObjectEnd] + rest[1..];
      } else {
        MembersSound(rest);
      }
    }
  }

  lemma {:induction false} ItemsSound(tokens: seq<Token>)
    requires ParseItems(tokens).Some?
    ensures tokens == FlatItems(ParseItems(tokens).value.0) + [ArrayEnd] + ParseItems(tokens).value.1
    decreases |tokens|, 1
  {
    ParseSound(tokens);
    var (value, rest) := Parse(tokens).value;
    assert rest == [rest[0]] + rest[1..];
    if rest[0] == Comma {
      ItemsSound(rest[1..]);
      var (more, after) := ParseItems(rest[1..]).value;
      Regroup(Flat(value), FlatItems(more), ArrayEnd, after);
      assert ([value] + more)[1..] == more;
    }
  }

  lemma {:induction false} MemberSound(tokens: seq<Token>)
    requires ParseMember(tokens).Some?
    ensures tokens == FlatMember(ParseMember(tokens).value.0) + ParseMember(tokens).value.1
    decreases |tokens|, 1
  {
    ParseSound(tokens[2..]);
    assert tokens == [tokens[0], tokens[1]] + tokens[2..];
  }

  lemma {:induction false} MembersSound(tokens: seq<Token>)
    requires ParseMembers(tokens).Some?
    ensures tokens == FlatMembers(ParseMembers(tokens).value.0) + [ObjectEnd] + ParseMembers(tokens).value.1
    decreases |tokens|, 2
  {
    MemberSound(tokens);
    var (value, rest) := ParseMember(tokens).value;
    assert rest == [rest[0]] + rest[1..];
    if rest[0] == Comma {
      MembersSound(rest[1..]);
      var (more, after) := ParseMembers(rest[1..]).value;
      Regroup(FlatMember(value), FlatMembers(more), ObjectEnd, after);
      assert ([value] + more)[1..] == more;
    }
  }

  /** A token stream is a text exactly when it is the print of what it parses to. */
  lemma ParseExact(tokens: seq<Token>, d: Doc)
    ensures ParseText(tokens) == Some(d) <==> tokens == Flat(d)
  {
    if ParseText(tokens) == Some(d) {
      ParseSound(tokens);
    }
    if tokens == Flat(d) {
      ParseComplete(d, []);
      assert Flat(d) + [] == tokens;
    }
  }

  // Printing one more

  lemma {:induction false} FlatItemsAppend(items: seq<Doc>, item: Doc)
    ensures FlatItems(items + [item]) == FlatItems(items) + (if items == [] then [] else [Comma]) + Flat(item)
    decreases items
  {
    if |items| > 1 {
      FlatItemsAppend(items[1..], item);
      assert (items + [item])[1..] == items[1..] + [item];
    } else if |items| == 1 {
      assert (items + [item])[1..] == [item];
    }
  }

  lemma {:induction false} FlatMembersAppend(members: seq<Member>, m: Member)
    ensures FlatMembers(members + [m]) ==
            FlatMembers(members) + (if members == [] then [] else [Comma]) + FlatMember(m)
    decreases members
  {
    if |members| > 1 {
      FlatMembersAppend(members[1..], m);
      assert (members + [m])[1..] == members[1..] + [m];
    } else if |members| == 1 {
      assert (members + [m])[1..] == [m];
    }
  }
}
