/** Lists of names in ascending order without duplicates, as they are kept in the database and returned by it. */
module Names {

  /** Lexicographic order of strings. */
  predicate Before(a: string, b: string) {
    b != "" && (a == "" || a[0] < b[0] || (a[0] == b[0] && Before(a[1..], b[1..])))
  }

  lemma {:induction false} BeforeTransitive(a: string, b: string, c: string)
    requires Before(a, b) && Before(b, c)
    ensures Before(a, c)
  {
    if a != "" && a[0] == b[0] == c[0] {
      BeforeTransitive(a[1..], b[1..], c[1..]);
    }
  }

  lemma {:induction false} BeforeTotal(a: string, b: string)
    ensures Before(a, b) || a == b || Before(b, a)
    ensures !(Before(a, b) && Before(b, a)) && !Before(a, a)
  {
    if a != "" && b != "" {
      BeforeTotal(a[1..], b[1..]);
      assert a == [a[0]] + a[1..] && b == [b[0]] + b[1..];
      BeforeTotal(a[1..], a[1..]);
    } else if a != "" {
      BeforeTotal(a[1..], a[1..]);
    }
  }

  /** A string is before another when it is the beginning of it, or smaller at the first place where they differ. */
  lemma {:induction false} BeforeExactly(a: string, b: string)
    ensures Before(a, b) <==> a < b || exists i :: DiffersAt(a, b, i) && a[i] < b[i]
  {
    if a != "" && b != "" {
      BeforeExactly(a[1..], b[1..]);
      assert a == [a[0]] + a[1..] && b == [b[0]] + b[1..];
      if a[0] < b[0] {
        assert DiffersAt(a, b, 0);
      } else if a[0] == b[0] {
        assert a < b <==> a[1..] < b[1..];
        forall i: int | DiffersAt(a[1..], b[1..], i) ensures DiffersAt(a, b, i + 1) {
        }
        forall i: int | DiffersAt(a, b, i) ensures i > 0 && DiffersAt(a[1..], b[1..], i - 1) {
          assert a[..i][1..] == a[1..][..i - 1] && b[..i][1..] == b[1..][..i - 1];
        }
      } else {
        forall i: int | DiffersAt(a, b, i) ensures i == 0 {
          SameStart(a, b, i);
        }
      }
    }
  }

  lemma SameStart(a: string, b: string, i: int)
    requires DiffersAt(a, b, i)
    ensures i == 0 || a[0] == b[0]
  {
    if i > 0 {
      assert a[..i][0] == a[0] && b[..i][0] == b[0];
    }
  }

  predicate DiffersAt(a: string, b: string, i: int) {
    0 <= i < |a| && i < |b| && a[..i] == b[..i] && a[i] != b[i]
  }

  predicate Ascending(s: seq<string>) {
    forall i, j :: 0 <= i < j < |s| ==> Before(s[i], s[j])
  }

  ghost predicate Lists(s: seq<string>, names: set<string>) {
    Ascending(s) && (forall x :: x in s <==> x in names)
  }

  /** Adds a name at its place. */
  function Insert(x: string, s: seq<string>): (r: seq<string>) {
    if s == [] then [x]
    else if x == s[0] then s
    else if Before(x, s[0]) then [x] + s
    else [s[0]] + Insert(x, s[1..])
  }

  lemma {:induction false} InsertLists(x: string, s: seq<string>)
    requires Ascending(s)
    ensures Ascending(Insert(x, s))
    ensures forall y :: y in Insert(x, s) <==> y == x || y in s
  {
    if s != [] {
      BeforeTotal(x, s[0]);
      assert s == [s[0]] + s[1..];
      if Before(x, s[0]) {
        forall j | 0 <= j < |s| ensures Before(x, s[j]) {
          if j > 0 { BeforeTransitive(x, s[0], s[j]); }
        }
      } else if x != s[0] {
        InsertLists(x, s[1..]);
        var r := Insert(x, s[1..]);
        forall j | 0 <= j < |r| ensures Before(s[0], r[j]) {
          assert r[j] in r;
          if r[j] != x {
            var k :| 0 <= k < |s[1..]| && s[1..][k] == r[j];
            assert r[j] == s[k + 1];
          }
        }
      }
    }
  }

  /** The names of a list in ascending order, each once. */
  function Canonical(list: seq<string>): (r: seq<string>) {
    if list == [] then [] else Insert(list[0], Canonical(list[1..]))
  }

  function Elements(list: seq<string>): (names: set<string>) {
    set x | x in list
  }

  lemma {:induction false} CanonicalLists(list: seq<string>)
    ensures Lists(Canonical(list), Elements(list))
  {
    if list != [] {
      CanonicalLists(list[1..]);
      InsertLists(list[0], Canonical(list[1..]));
      assert list == [list[0]] + list[1..];
    }
  }

  /** There is only one ascending list of a set of names. */
  lemma {:induction false} ListsUnique(a: seq<string>, b: seq<string>, names: set<string>)
    requires Lists(a, names) && Lists(b, names)
    ensures a == b
  {
    assert b == [] || b[0] in names;
    assert a == [] || a[0] in names;
    if a != [] {
      FirstIsLeast(a, b[0]);
      FirstIsLeast(b, a[0]);
      BeforeTotal(a[0], b[0]);
      assert a[0] == b[0];
      TailLists(a, names);
      TailLists(b, names);
      ListsUnique(a[1..], b[1..], names - {a[0]});
      assert a == [a[0]] + a[1..] && b == [b[0]] + b[1..];
    }
  }

  lemma FirstIsLeast(s: seq<string>, x: string)
    requires Ascending(s) && x in s
    ensures x == s[0] || Before(s[0], x)
  {
  }

  lemma TailLists(s: seq<string>, names: set<string>)
    requires Lists(s, names) && s != []
    ensures Lists(s[1..], names - {s[0]})
  {
    forall x ensures x in s[1..] <==> x in names - {s[0]} {
      if x in s[1..] {
        var k :| 0 <= k < |s| - 1 && s[1..][k] == x;
        assert x == s[k + 1];
        BeforeTotal(s[0], x);
      }
      if x in names - {s[0]} {
        var k :| 0 <= k < |s| && s[k] == x;
        assert x == s[1..][k - 1];
      }
    }
  }

  lemma CanonicalFixed(list: seq<string>)
    requires Ascending(list)
    ensures Canonical(list) == list
  {
    CanonicalLists(list);
    ListsUnique(Canonical(list), list, Elements(list));
  }

  /**
   The finalizers of an object: put in a set to remove the duplicates, taken out in any order, and sorted. Whatever
   the order, the result is the canonical list.
   */
  method GetFinalizers(list: seq<string>) returns (result: seq<string>)
    ensures result == Canonical(list)
  {
    var distinct: set<string> := {};
    for i := 0 to |list|
      invariant distinct == Elements(list[..i])
    {
      distinct := distinct + {list[i]};
    }
    assert list[..|list|] == list;
    var names: seq<string> := [];
    var left := distinct;
    while left != {}
      invariant left <= distinct
      invariant Elements(names) == distinct - left
      decreases left
    {
      var item :| item in left;
      assert Elements(names + [item]) == Elements(names) + {item};
      names := names + [item];
      left := left - {item};
    }
    result := Sort(names);
    CanonicalLists(list);
    ListsUnique(result, Canonical(list), distinct);
  }

  method Sort(names: seq<string>) returns (sorted: seq<string>)
    ensures Lists(sorted, Elements(names))
  {
    sorted := [];
    for i := 0 to |names|
      invariant Lists(sorted, Elements(names[..i]))
    {
      InsertLists(names[i], sorted);
      sorted := Insert(names[i], sorted);
    }
    assert names[..|names|] == names;
  }

  /** The ascending list of a set of names. */
  ghost function Listing(names: set<string>): (s: seq<string>)
    decreases names
  {
    if names == {} then []
    else
      var x :| x in names;
      Insert(x, Listing(names - {x}))
  }

  lemma {:induction false} ListingLists(names: set<string>)
    ensures Lists(Listing(names), names)
    decreases names
  {
    if names != {} {
      var x :| x in names && Listing(names) == Insert(x, Listing(names - {x}));
      ListingLists(names - {x});
      InsertLists(x, Listing(names - {x}));
    }
  }

  lemma {:induction false} ListsLength(s: seq<string>, names: set<string>)
    requires Lists(s, names)
    ensures |s| == |names|
  {
    if s != [] {
      TailLists(s, names);
      ListsLength(s[1..], names - {s[0]});
    }
  }
}
