/** Shared vocabulary: optional values and the sequence tests the repository's code uses. */
module Prelude {

  datatype Option<+T> = None | Some(value: T)

  /** The `??` operator: `o` when it holds a value, `other` when it is null or undefined. */
  function OrElse<T>(o: Option<T>, other: T): T {
    if o.Some? then o.value else other
  }

  /** No element occurs twice. */
  ghost predicate Distinct<T>(s: seq<T>) {
    forall i, j :: 0 <= i < j < |s| ==> s[i] != s[j]
  }

  function Elements<T>(s: seq<T>): set<T> {
    set x | x in s
  }

  lemma {:induction false} ElementCount<T>(s: seq<T>)
    requires Distinct(s)
    ensures |Elements(s)| == |s|
  {
    if s != [] {
      var rest, last := s[..|s| - 1], s[|s| - 1];
      ElementCount(rest);
      assert Elements(s) == Elements(rest) + {last};
      assert last !in Elements(rest);
    }
  }

  lemma {:induction false} SubsetSize<T>(a: set<T>, b: set<T>)
    requires a <= b
    ensures |a| <= |b|
    ensures |a| == |b| ==> a == b
  {
    if x :| x in a {
      SubsetSize(a - {x}, b - {x});
      assert a == (a - {x}) + {x} && b == (b - {x}) + {x};
    }
  }

  lemma {:induction false} Inductively(holds: nat -> bool, n: nat)
    requires holds(0) && forall i: nat :: i < n && holds(i) ==> holds(i + 1)
    ensures holds(n)
  {
    if n > 0 {
      Inductively(holds, n - 1);
      assert holds(n - 1 + 1);
    }
  }

  // ----- Lists picked from lists -----

  /** `chosen` is what the elements of `all` give, in order and each once, without those that give nothing. */
  ghost predicate Picks<S, T(!new)>(all: seq<S>, chosen: seq<T>, gives: (S, T) -> bool) {
    if all == [] then chosen == []
    else
      var rest, last := all[..|all| - 1], all[|all| - 1];
      if exists t :: gives(last, t) then
        chosen != [] && gives(last, chosen[|chosen| - 1]) && Picks(rest, chosen[..|chosen| - 1], gives)
      else Picks(rest, chosen, gives)
  }

  lemma PicksNothing<S, T(!new)>(gives: (S, T) -> bool)
    ensures Picks([], [], gives)
  {
  }

  /** The last element gives the one element of `more`, or nothing when `more` is empty. */
  lemma PicksLast<S, T(!new)>(all: seq<S>, last: S, chosen: seq<T>, gives: (S, T) -> bool, more: seq<T>)
    requires all != [] && all[|all| - 1] == last && Picks(all[..|all| - 1], chosen, gives)
    requires |more| <= 1 && forall t :: gives(last, t) <==> t in more
    ensures Picks(all, chosen + more, gives)
  {
    if more != [] {
      assert gives(last, more[0]);
      assert (chosen + more)[..|chosen|] == chosen;
    } else {
      assert chosen + more == chosen;
    }
  }

  lemma {:induction false} PicksConcat<S, T(!new)>(a: seq<S>, x: seq<T>, b: seq<S>, y: seq<T>, gives: (S, T) -> bool)
    requires Picks(a, x, gives) && Picks(b, y, gives)
    ensures Picks(a + b, x + y, gives)
    decreases |b|
  {
    if b == [] {
      assert a + b == a && x + y == x;
    } else {
      var n := |b| - 1;
      assert (a + b)[..|a + b| - 1] == a + b[..n] && (a + b)[|a + b| - 1] == b[n];
      if exists t :: gives(b[n], t) {
        assert (x + y)[..|x + y| - 1] == x + y[..|y| - 1] && (x + y)[|x + y| - 1] == y[|y| - 1];
        PicksConcat(a, x, b[..n], y[..|y| - 1], gives);
      } else {
        PicksConcat(a, x, b[..n], y, gives);
      }
    }
  }

  /** An element gives itself when it is kept. */
  ghost function Keeping<T(!new)>(keeps: T -> bool): (T, T) -> bool {
    (t: T, u: T) => keeps(t) && u == t
  }

  /** Keeping some of what is picked is picking less. */
  lemma {:induction false} PicksFewer<S, T(!new)>(all: seq<S>, chosen: seq<T>, gives: (S, T) -> bool, kept: seq<T>,
                                                  keeps: T -> bool, fewer: (S, T) -> bool)
    requires Picks(all, chosen, gives) && Picks(chosen, kept, Keeping(keeps))
    requires forall s, t :: fewer(s, t) <==> gives(s, t) && keeps(t)
    requires forall s, t, u :: gives(s, t) && gives(s, u) ==> t == u
    ensures Picks(all, kept, fewer)
  {
    if all != [] {
      var rest, last := all[..|all| - 1], all[|all| - 1];
      if t :| gives(last, t) {
        var front, end := chosen[..|chosen| - 1], chosen[|chosen| - 1];
        assert end == t && (Keeping(keeps)(end, end) <==> keeps(end)) && (fewer(last, end) <==> keeps(end));
        if keeps(end) {
          PicksFewer(rest, front, gives, kept[..|kept| - 1], keeps, fewer);
        } else {
          PicksFewer(rest, front, gives, kept, keeps, fewer);
        }
      } else {
        PicksFewer(rest, chosen, gives, kept, keeps, fewer);
      }
    }
  }

  /** Where an element gives at most one thing, only one list is picked. */
  lemma {:induction false} PicksUnique<S, T(!new)>(all: seq<S>, x: seq<T>, y: seq<T>, gives: (S, T) -> bool)
    requires Picks(all, x, gives) && Picks(all, y, gives)
    requires forall i, t, u :: 0 <= i < |all| && gives(all[i], t) && gives(all[i], u) ==> t == u
    ensures x == y
  {
    if all != [] {
      var rest, last := all[..|all| - 1], all[|all| - 1];
      if exists t :: gives(last, t) {
        PicksUnique(rest, x[..|x| - 1], y[..|y| - 1], gives);
        assert x == x[..|x| - 1] + [x[|x| - 1]] && y == y[..|y| - 1] + [y[|y| - 1]];
      } else {
        PicksUnique(rest, x, y, gives);
      }
    }
  }

  /** Where an element gives at most one thing, exactly what is given is picked. */
  lemma {:induction false} PicksExactly<S, T(!new)>(all: seq<S>, chosen: seq<T>, gives: (S, T) -> bool, t: T)
    requires Picks(all, chosen, gives) && forall s, u, v :: gives(s, u) && gives(s, v) ==> u == v
    ensures t in chosen <==> exists i :: 0 <= i < |all| && gives(all[i], t)
  {
    if all != [] {
      var rest, last := all[..|all| - 1], all[|all| - 1];
      if exists u :: gives(last, u) {
        var front, end := chosen[..|chosen| - 1], chosen[|chosen| - 1];
        PicksExactly(rest, front, gives, t);
        assert chosen == front + [end] && all == rest + [last];
      } else {
        PicksExactly(rest, chosen, gives, t);
        assert all == rest + [last];
      }
    }
  }

  // ----- Maps built from lists -----

  /** Every key with its last element, as a JavaScript Map filled from a list holds them. */
  function ByKey<T>(s: seq<T>, key: T -> string): map<string, T> {
    if s == [] then map[] else ByKey(s[..|s| - 1], key)[key(s[|s| - 1]) := s[|s| - 1]]
  }

  /** `x` is the last element of `s` with the key `k`. */
  ghost predicate LastWith<T>(s: seq<T>, key: T -> string, k: string, x: T) {
    exists i :: 0 <= i < |s| && s[i] == x && key(x) == k && forall j :: i < j < |s| ==> key(s[j]) != k
  }

  lemma LastBefore<T>(s: seq<T>, key: T -> string, k: string, x: T)
    requires s != [] && key(s[|s| - 1]) != k
    ensures LastWith(s, key, k, x) <==> LastWith(s[..|s| - 1], key, k, x)
  {
    var before := s[..|s| - 1];
    if LastWith(s, key, k, x) {
      var i :| 0 <= i < |s| && s[i] == x && key(x) == k && forall j :: i < j < |s| ==> key(s[j]) != k;
      assert before[i] == x;
    }
    if LastWith(before, key, k, x) {
      var i :| 0 <= i < |before| && before[i] == x && key(x) == k &&
               forall j :: i < j < |before| ==> key(before[j]) != k;
      assert s[i] == x;
    }
  }

  lemma {:induction false} ByKeyIsLast<T>(s: seq<T>, key: T -> string, k: string, x: T)
    ensures LastWith(s, key, k, x) <==> k in ByKey(s, key) && ByKey(s, key)[k] == x
  {
    if s != [] {
      if key(s[|s| - 1]) == k {
        assert LastWith(s, key, k, s[|s| - 1]);
      } else {
        ByKeyIsLast(s[..|s| - 1], key, k, x);
        LastBefore(s, key, k, x);
      }
    }
  }
}
