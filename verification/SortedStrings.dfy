/** The order in which `sort` arranges strings, and sorting a set of them. */
module SortedStrings {
  /**
   * Orders characters as their UTF-16 code units compare: characters above the basic plane start
   * with a surrogate and so come between U+D7FF and U+E000.
   */
  function CharRank(c: char): int {
    var n := c as int;
    if n < 0xE000 then n else if n < 0x10000 then n + 0x100000 else n - 0x2000
  }

  predicate Less(a: string, b: string) {
    b != "" && (a == "" || CharRank(a[0]) < CharRank(b[0]) || (a[0] == b[0] && Less(a[1..], b[1..])))
  }

  ghost predicate StrictlySorted(s: seq<string>) {
    forall i, j :: 0 <= i < j < |s| ==> Less(s[i], s[j])
  }

  lemma CharRankInjective(c: char, d: char)
    requires CharRank(c) == CharRank(d)
    ensures c == d
  {
  }

  lemma {:induction false} LessTotal(a: string, b: string)
    ensures Less(a, b) || a == b || Less(b, a)
  {
    if a != "" && b != "" {
      if CharRank(a[0]) == CharRank(b[0]) {
        CharRankInjective(a[0], b[0]);
        LessTotal(a[1..], b[1..]);
        assert a == [a[0]] + a[1..] && b == [b[0]] + b[1..];
      }
    }
  }

  lemma {:induction false} LessTransitive(a: string, b: string, c: string)
    requires Less(a, b) && Less(b, c)
    ensures Less(a, c)
  {
    if a != "" && a[0] == b[0] == c[0] {
      LessTransitive(a[1..], b[1..], c[1..]);
    }
  }

  lemma {:induction false} LessIrreflexive(a: string)
    ensures !Less(a, a)
  {
    if a != "" {
      LessIrreflexive(a[1..]);
    }
  }

  lemma InsertSorted(s: seq<string>, x: string, k: nat)
    requires StrictlySorted(s) && k <= |s|
    requires forall i :: 0 <= i < k ==> Less(s[i], x)
    requires k < |s| ==> Less(x, s[k])
    ensures StrictlySorted(s[..k] + [x] + s[k..])
  {
    forall j | k < j < |s|
      ensures Less(x, s[j])
    {
      LessTransitive(x, s[k], s[j]);
    }
  }

  method Insert(s: seq<string>, x: string) returns (r: seq<string>)
    requires StrictlySorted(s) && x !in s
    ensures StrictlySorted(r) && forall y :: y in r <==> y in s || y == x
  {
    var k := 0;
    while k < |s| && Less(s[k], x)
      invariant 0 <= k <= |s|
      invariant forall i :: 0 <= i < k ==> Less(s[i], x)
    {
      k := k + 1;
    }
    if k < |s| {
      LessTotal(s[k], x);
    }
    InsertSorted(s, x, k);
    r := s[..k] + [x] + s[k..];
    assert s == s[..k] + s[k..];
  }

  /** The elements of a set as a sorted list. */
  method SortSet(ids: set<string>) returns (sorted: seq<string>)
    ensures StrictlySorted(sorted)
    ensures forall s :: s in sorted <==> s in ids
  {
    sorted := [];
    var rest := ids;
    while rest != {}
      invariant rest <= ids
      invariant StrictlySorted(sorted)
      invariant forall s :: s in sorted <==> s in ids - rest
      decreases rest
    {
      var x :| x in rest;
      sorted := Insert(sorted, x);
      rest := rest - {x};
    }
  }

  lemma SortedHead(a: seq<string>, x: string)
    requires StrictlySorted(a) && x in a
    ensures x == a[0] || Less(a[0], x)
  {
  }

  lemma SortedTail(a: seq<string>)
    requires StrictlySorted(a) && a != []
    ensures StrictlySorted(a[1..])
    ensures forall x :: x in a[1..] <==> x in a && x != a[0]
  {
    LessIrreflexive(a[0]);
    assert a == [a[0]] + a[1..];
  }

  /** A set has only one sorted listing. */
  lemma {:induction false} SortedUnique(a: seq<string>, b: seq<string>)
    requires StrictlySorted(a) && StrictlySorted(b)
    requires forall s :: s in a <==> s in b
    ensures a == b
  {
    if b != [] {
      assert b[0] in a;
    }
    if a != [] {
      assert a[0] in b;
      SortedHead(b, a[0]);
      assert b[0] in b;
      SortedHead(a, b[0]);
      if a[0] != b[0] {
        LessTransitive(a[0], b[0], a[0]);
        LessIrreflexive(a[0]);
        assert false;
      }
      SortedTail(a);
      SortedTail(b);
      SortedUnique(a[1..], b[1..]);
      assert a == [a[0]] + a[1..] && b == [b[0]] + b[1..];
    }
  }

  // ----- Lists with repetitions -----

  predicate AtMost(a: string, b: string) {
    a == b || Less(a, b)
  }

  /** In order, as `sort` leaves a list. */
  ghost predicate Sorted(s: seq<string>) {
    forall i, j :: 0 <= i < j < |s| ==> AtMost(s[i], s[j])
  }

  lemma AtMostTransitive(a: string, b: string, c: string)
    requires AtMost(a, b) && AtMost(b, c)
    ensures AtMost(a, c)
  {
    if a != b && b != c {
      LessTransitive(a, b, c);
    }
  }

  lemma InsertInOrder(s: seq<string>, x: string, k: nat)
    requires Sorted(s) && k <= |s|
    requires forall i :: 0 <= i < k ==> AtMost(s[i], x)
    requires k < |s| ==> AtMost(x, s[k])
    ensures Sorted(s[..k] + [x] + s[k..])
  {
    forall j | k <= j < |s|
      ensures AtMost(x, s[j])
    {
      if j > k {
        AtMostTransitive(x, s[k], s[j]);
      }
    }
    var front, back := s[..k], s[k..];
    assert forall i :: 0 <= i < |back| ==> AtMost(x, back[i]);
    assert forall i, j :: 0 <= i < |front| && 0 <= j < |back| ==> AtMost(front[i], back[j]);
    JoinSorted(front, x, back);
  }

  lemma JoinSorted(front: seq<string>, x: string, back: seq<string>)
    requires Sorted(front) && Sorted(back)
    requires forall i :: 0 <= i < |front| ==> AtMost(front[i], x)
    requires forall i :: 0 <= i < |back| ==> AtMost(x, back[i])
    requires forall i, j :: 0 <= i < |front| && 0 <= j < |back| ==> AtMost(front[i], back[j])
    ensures Sorted(front + [x] + back)
  {
  }

  method InsertAgain(s: seq<string>, x: string) returns (r: seq<string>)
    requires Sorted(s)
    ensures Sorted(r) && multiset(r) == multiset(s) + multiset{x}
  {
    var k := 0;
    while k < |s| && Less(s[k], x)
      invariant 0 <= k <= |s|
      invariant forall i :: 0 <= i < k ==> AtMost(s[i], x)
    {
      k := k + 1;
    }
    if k < |s| {
      LessTotal(s[k], x);
    }
    InsertInOrder(s, x, k);
    r := s[..k] + [x] + s[k..];
    assert s == s[..k] + s[k..];
  }

  /** `sort` on a list of strings. */
  method Sort(s: seq<string>) returns (r: seq<string>)
    ensures Sorted(r) && multiset(r) == multiset(s)
  {
    r := [];
    for i := 0 to |s|
      invariant Sorted(r) && multiset(r) == multiset(s[..i])
    {
      r := InsertAgain(r, s[i]);
      assert s[..i + 1] == s[..i] + [s[i]];
    }
    assert s[..|s|] == s;
  }

  lemma HeadIsLeast(s: seq<string>)
    requires Sorted(s) && s != []
    ensures forall x :: x in s ==> AtMost(s[0], x)
  {
  }


  // ----- The order is that of UTF-16 code units -----

  /** The code units of a character: one, or a surrogate pair above the basic plane. */
  function CharUnits(c: char): seq<int> {
    var n := c as int;
    if n < 0x10000 then [n] else [0xD800 + (n - 0x10000) / 0x400, 0xDC00 + (n - 0x10000) % 0x400]
  }

  function Units(s: string): seq<int> {
    if s == "" then [] else CharUnits(s[0]) + Units(s[1..])
  }

  /** The first list of numbers is a proper prefix of the second or smaller where they first differ. */
  ghost predicate UnitsLess(a: seq<int>, b: seq<int>) {
    exists k :: 0 <= k <= |a| && k <= |b| && a[..k] == b[..k] && k < |b| && (k == |a| || a[k] < b[k])
  }

  lemma UnitsLessBehind(front: seq<int>, a: seq<int>, b: seq<int>)
    ensures UnitsLess(front + a, front + b) <==> UnitsLess(a, b)
  {
    var x, y, n := front + a, front + b, |front|;
    if k :| 0 <= k <= |a| && k <= |b| && a[..k] == b[..k] && k < |b| && (k == |a| || a[k] < b[k]) {
      assert x[..n + k] == front + a[..k] && y[..n + k] == front + b[..k];
      assert x[..n + k] == y[..n + k];
    }
    if k :| 0 <= k <= |x| && k <= |y| && x[..k] == y[..k] && k < |y| && (k == |x| || x[k] < y[k]) {
      assert k >= n;
      assert a[..k - n] == x[..k][n..] && b[..k - n] == y[..k][n..];
      assert a[..k - n] == b[..k - n];
    }
  }

  /** Where the first units differ they decide. */
  lemma UnitsDiffer(a: seq<int>, b: seq<int>)
    requires a != [] && b != [] && a[0] != b[0]
    ensures UnitsLess(a, b) <==> a[0] < b[0]
  {
    if a[0] < b[0] {
      assert a[..0] == b[..0];
    }
    if k :| 0 <= k <= |a| && k <= |b| && a[..k] == b[..k] && k < |b| && (k == |a| || a[k] < b[k]) {
      if k > 0 {
        assert a[..k][0] == b[..k][0];
      }
    }
  }

  lemma CharsDiffer(c: char, d: char, x: seq<int>, y: seq<int>)
    requires c != d
    ensures UnitsLess(CharUnits(c) + x, CharUnits(d) + y) <==> CharRank(c) < CharRank(d)
  {
    var a, b := CharUnits(c) + x, CharUnits(d) + y;
    if a[0] != b[0] {
      UnitsDiffer(a, b);
    } else {
      var front := [a[0]];
      assert a == front + ([CharUnits(c)[1]] + x) && b == front + ([CharUnits(d)[1]] + y);
      UnitsLessBehind(front, [CharUnits(c)[1]] + x, [CharUnits(d)[1]] + y);
      UnitsDiffer([CharUnits(c)[1]] + x, [CharUnits(d)[1]] + y);
    }
  }

  /** Strings compare as their UTF-16 code units do, first difference first. */
  lemma {:induction false} LessIsUnitsLess(a: string, b: string)
    ensures Less(a, b) <==> UnitsLess(Units(a), Units(b))
  {
    if b == "" {
      assert !UnitsLess(Units(a), []);
    } else if a == "" {
      assert Units(a)[..0] == Units(b)[..0];
    } else if a[0] == b[0] {
      LessIsUnitsLess(a[1..], b[1..]);
      UnitsLessBehind(CharUnits(a[0]), Units(a[1..]), Units(b[1..]));
    } else {
      CharsDiffer(a[0], b[0], Units(a[1..]), Units(b[1..]));
      if CharRank(a[0]) == CharRank(b[0]) {
        CharRankInjective(a[0], b[0]);
        assert false;
      }
    }
  }
}
