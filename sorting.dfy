/**
 * Python's `sorted`/`list.sort` with a key: a stable sort. Modelled by stable
 * insertion over a comparison `le` that is a total preorder (`le(a, b)` holds
 * when `key(a) <= key(b)`). The result is sorted, is a permutation of the
 * input, and keeps the input order among elements with equal keys.
 */
module Sorting {
  import opened Wrappers

  ghost predicate Total<T(!new)>(le: (T, T) -> bool) { forall a, b :: le(a, b) || le(b, a) }

  ghost predicate Transitive<T(!new)>(le: (T, T) -> bool) { forall a, b, c :: le(a, b) && le(b, c) ==> le(a, c) }

  ghost predicate TotalPreorder<T(!new)>(le: (T, T) -> bool) { Total(le) && Transitive(le) }

  predicate Sorted<T>(s: seq<T>, le: (T, T) -> bool)
  {
    forall i, j :: 0 <= i < j < |s| ==> le(s[i], s[j])
  }

  /** Inserts `x` after every element that is not greater than it. */
  function Insert<T>(x: T, t: seq<T>, le: (T, T) -> bool): (r: seq<T>)
    ensures multiset(r) == multiset(t) + multiset{x}
  {
    if t == [] || !le(t[0], x) then [x] + t
    else
      assert t == [t[0]] + t[1..];
      [t[0]] + Insert(x, t[1..], le)
  }

  /** `sorted(s, key=...)` */
  function SortBy<T>(s: seq<T>, le: (T, T) -> bool): (r: seq<T>)
    ensures multiset(r) == multiset(s)
  {
    if s == [] then []
    else
      assert s == s[..|s| - 1] + [s[|s| - 1]];
      Insert(s[|s| - 1], SortBy(s[..|s| - 1], le), le)
  }

  /** Where `x` lands: after the prefix of elements not greater than it. */
  lemma {:induction false} InsertSplit<T(!new)>(x: T, t: seq<T>, le: (T, T) -> bool) returns (i: nat)
    requires TotalPreorder(le) && Sorted(t, le)
    ensures i <= |t| && Insert(x, t, le) == t[..i] + [x] + t[i..]
    ensures forall k :: 0 <= k < i ==> le(t[k], x)
    ensures forall k :: i <= k < |t| ==> !le(t[k], x)
  {
    if t == [] || !le(t[0], x) {
      i := 0;
      if t != [] {
        NoneBelow(x, t, le);
      }
    } else {
      SortedTail(t, le);
      var j := InsertSplit(x, t[1..], le);
      i := j + 1;
      assert Insert(x, t, le) == [t[0]] + Insert(x, t[1..], le);
      ShiftSplit(x, t, j, Insert(x, t[1..], le));
      ShiftBelow(x, t, j, le);
      ShiftAbove(x, t, j, le);
    }
  }

  /** In a sorted sequence whose first element exceeds `x`, every element does. */
  lemma NoneBelow<T(!new)>(x: T, t: seq<T>, le: (T, T) -> bool)
    requires Transitive(le) && Sorted(t, le) && t != [] && !le(t[0], x)
    ensures forall k :: 0 <= k < |t| ==> !le(t[k], x)
  {
    forall k | 0 <= k < |t| ensures !le(t[k], x) {
      if k > 0 {
        assert le(t[0], t[k]);
      }
    }
  }

  lemma SortedTail<T>(t: seq<T>, le: (T, T) -> bool)
    requires Sorted(t, le) && t != []
    ensures Sorted(t[1..], le)
  {
    forall a, b | 0 <= a < b < |t[1..]| ensures le(t[1..][a], t[1..][b]) {
      assert t[1..][a] == t[a + 1] && t[1..][b] == t[b + 1];
    }
  }

  /** Putting `t[0]` in front of a split of `t[1..]` splits `t` one place further on. */
  lemma ShiftSplit<T>(x: T, t: seq<T>, j: nat, r: seq<T>)
    requires t != [] && j <= |t| - 1
    requires r == t[1..][..j] + [x] + t[1..][j..]
    ensures [t[0]] + r == t[..j + 1] + [x] + t[j + 1..]
  {
    var u := t[1..];
    var p, q := u[..j], u[j..];
    assert t[..j + 1] == [t[0]] + p;
    assert t[j + 1..] == q;
    assert [t[0]] + (p + [x] + q) == ([t[0]] + p) + [x] + q;
  }

  lemma ShiftBelow<T>(x: T, t: seq<T>, j: nat, le: (T, T) -> bool)
    requires t != [] && le(t[0], x) && j <= |t| - 1
    requires forall k :: 0 <= k < j ==> le(t[1..][k], x)
    ensures forall k :: 0 <= k < j + 1 ==> le(t[k], x)
  {
    forall k | 0 < k < j + 1 ensures le(t[k], x) {
      assert t[k] == t[1..][k - 1];
    }
  }

  lemma ShiftAbove<T>(x: T, t: seq<T>, j: nat, le: (T, T) -> bool)
    requires t != [] && j <= |t| - 1
    requires forall k :: j <= k < |t| - 1 ==> !le(t[1..][k], x)
    ensures forall k :: j + 1 <= k < |t| ==> !le(t[k], x)
  {
    forall k | j + 1 <= k < |t| ensures !le(t[k], x) {
      assert t[k] == t[1..][k - 1];
    }
  }

  lemma InsertSorted<T(!new)>(x: T, t: seq<T>, le: (T, T) -> bool)
    requires TotalPreorder(le) && Sorted(t, le)
    ensures Sorted(Insert(x, t, le), le)
  {
    var i := InsertSplit(x, t, le);
    var r := Insert(x, t, le);
    forall a, b | 0 <= a < b < |r| ensures le(r[a], r[b]) {
      if a < i && b == i {
      } else if a == i && b > i {
        assert !le(t[b - 1], x);
      } else if a < i && b > i {
        assert le(t[a], t[b - 1]);
      } else if b < i {
        assert le(t[a], t[b]);
      } else {
        assert le(t[a - 1], t[b - 1]);
      }
    }
  }

  /** The result is in key order. */
  lemma {:induction false} SortBySorted<T(!new)>(s: seq<T>, le: (T, T) -> bool)
    requires TotalPreorder(le)
    ensures Sorted(SortBy(s, le), le)
  {
    if s != [] {
      SortBySorted(s[..|s| - 1], le);
      InsertSorted(s[|s| - 1], SortBy(s[..|s| - 1], le), le);
    }
  }

  // ---------- stability ----------

  predicate Equiv<T>(le: (T, T) -> bool, a: T, b: T) { le(a, b) && le(b, a) }

  /** The elements with the same key as `c`, in order. */
  function SameKey<T>(s: seq<T>, le: (T, T) -> bool, c: T): seq<T>
  {
    if s == [] then []
    else SameKey(s[..|s| - 1], le, c) + (if Equiv(le, s[|s| - 1], c) then [s[|s| - 1]] else [])
  }

  lemma {:induction false} SameKeyConcat<T(!new)>(a: seq<T>, b: seq<T>, le: (T, T) -> bool, c: T)
    ensures SameKey(a + b, le, c) == SameKey(a, le, c) + SameKey(b, le, c)
    decreases |b|
  {
    if b == [] {
      assert a + b == a;
    } else {
      assert (a + b)[..|a + b| - 1] == a + b[..|b| - 1];
      SameKeyConcat(a, b[..|b| - 1], le, c);
    }
  }

  lemma {:induction false} SameKeyNone<T(!new)>(s: seq<T>, le: (T, T) -> bool, c: T)
    requires forall k :: 0 <= k < |s| ==> !Equiv(le, s[k], c)
    ensures SameKey(s, le, c) == []
  {
    if s != [] {
      SameKeyNone(s[..|s| - 1], le, c);
    }
  }

  lemma SameKeyThree<T(!new)>(a: seq<T>, x: T, b: seq<T>, le: (T, T) -> bool, c: T)
    ensures SameKey(a + [x] + b, le, c) == SameKey(a, le, c) + (if Equiv(le, x, c) then [x] else []) + SameKey(b, le, c)
  {
    SameKeyConcat(a + [x], b, le, c);
    SameKeyConcat(a, [x], le, c);
    assert [x][..0] == [];
  }

  /** Past the insertion point of an `x` equivalent to `c`, nothing shares `c`'s key. */
  lemma NotEquivAfter<T(!new)>(x: T, t: seq<T>, i: nat, le: (T, T) -> bool, c: T)
    requires Transitive(le) && Equiv(le, x, c) && i <= |t|
    requires forall k :: i <= k < |t| ==> !le(t[k], x)
    ensures forall k :: i <= k < |t| ==> !Equiv(le, t[k], c)
  {
    forall k | i <= k < |t| ensures !Equiv(le, t[k], c) {
      assert !le(t[k], x);
    }
  }

  lemma SameKeyAfterInsert<T(!new)>(t: seq<T>, i: nat, le: (T, T) -> bool, c: T)
    requires i <= |t|
    requires forall k :: i <= k < |t| ==> !Equiv(le, t[k], c)
    ensures SameKey(t[i..], le, c) == []
  {
    forall k | 0 <= k < |t[i..]| ensures !Equiv(le, t[i..][k], c) {
      assert t[i..][k] == t[i + k];
    }
    SameKeyNone(t[i..], le, c);
  }

  lemma InsertSameKey<T(!new)>(x: T, t: seq<T>, le: (T, T) -> bool, c: T)
    requires TotalPreorder(le) && Sorted(t, le)
    ensures SameKey(Insert(x, t, le), le, c) == SameKey(t, le, c) + (if Equiv(le, x, c) then [x] else [])
  {
    var i := InsertSplit(x, t, le);
    if Equiv(le, x, c) {
      NotEquivAfter(x, t, i, le, c);
      InsertSameKeyEquiv(x, t, le, c, i);
    } else {
      InsertSameKeyOther(x, t, le, c, i);
    }
  }

  /** An `x` with `c`'s key lands after every element with that key. */
  lemma InsertSameKeyEquiv<T(!new)>(x: T, t: seq<T>, le: (T, T) -> bool, c: T, i: nat)
    requires Equiv(le, x, c) && i <= |t|
    requires forall k :: i <= k < |t| ==> !Equiv(le, t[k], c)
    ensures SameKey(t[..i] + [x] + t[i..], le, c) == SameKey(t, le, c) + [x]
  {
    var a, b := t[..i], t[i..];
    SameKeyAfterInsert(t, i, le, c);
    EquivBeforeNone(a, x, b, le, c);
    assert a + b == t;
  }

  lemma EquivBeforeNone<T(!new)>(a: seq<T>, x: T, b: seq<T>, le: (T, T) -> bool, c: T)
    requires Equiv(le, x, c) && SameKey(b, le, c) == []
    ensures SameKey(a + [x] + b, le, c) == SameKey(a + b, le, c) + [x]
  {
    SameKeyThree(a, x, b, le, c);
    SameKeyConcat(a, b, le, c);
    var sa := SameKey(a, le, c);
    assert sa + [x] + [] == (sa + []) + [x];
  }

  /** When `x` does not share `c`'s key, the run of `c`'s key is undisturbed by where `x` lands. */
  lemma InsertSameKeyOther<T(!new)>(x: T, t: seq<T>, le: (T, T) -> bool, c: T, i: nat)
    requires !Equiv(le, x, c) && i <= |t|
    ensures SameKey(t[..i] + [x] + t[i..], le, c) == SameKey(t, le, c)
  {
    var a, b := t[..i], t[i..];
    OtherAnywhere(a, x, b, le, c);
    assert a + b == t;
  }

  lemma OtherAnywhere<T(!new)>(a: seq<T>, x: T, b: seq<T>, le: (T, T) -> bool, c: T)
    requires !Equiv(le, x, c)
    ensures SameKey(a + [x] + b, le, c) == SameKey(a + b, le, c)
  {
    SameKeyThree(a, x, b, le, c);
    SameKeyConcat(a, b, le, c);
  }

  /** Stability: elements with equal keys keep their input order. */
  lemma {:induction false} SortByStable<T(!new)>(s: seq<T>, le: (T, T) -> bool, c: T)
    requires TotalPreorder(le)
    ensures SameKey(SortBy(s, le), le, c) == SameKey(s, le, c)
  {
    if s != [] {
      var init := s[..|s| - 1];
      SortByStable(init, le, c);
      SortBySorted(init, le);
      InsertSameKey(s[|s| - 1], SortBy(init, le), le, c);
    }
  }

  lemma LastIsLargest<T(!new)>(init: seq<T>, x: T, le: (T, T) -> bool)
    requires Sorted(init + [x], le)
    ensures forall k :: 0 <= k < |init| ==> le(init[k], x)
  {
    forall k | 0 <= k < |init| ensures le(init[k], x) {
      assert (init + [x])[k] == init[k] && (init + [x])[|init|] == x;
    }
  }

  /** Sorting a sorted list changes nothing. */
  lemma {:induction false} SortBySortedInput<T(!new)>(s: seq<T>, le: (T, T) -> bool)
    requires TotalPreorder(le) && Sorted(s, le)
    ensures SortBy(s, le) == s
  {
    if s != [] {
      var init := s[..|s| - 1];
      var x := s[|s| - 1];
      assert s == init + [x];
      LastIsLargest(init, x, le);
      assert Sorted(init, le) by {
        forall a, b | 0 <= a < b < |init| ensures le(init[a], init[b]) {
          assert init[a] == s[a] && init[b] == s[b];
        }
      }
      SortBySortedInput(init, le);
      var i := InsertSplit(x, init, le);
      assert i == |init|;
      calc {
        SortBy(s, le);
        Insert(x, SortBy(init, le), le);
        Insert(x, init, le);
        init[..i] + [x] + init[i..];
        { assert init[..i] == init && init[i..] == []; }
        s;
      }
    }
  }

  /** Keeping some elements of a sorted sequence leaves it sorted. */
  lemma {:induction false} FilterSorted<T>(s: seq<T>, keep: T -> bool, le: (T, T) -> bool)
    requires Sorted(s, le)
    ensures Sorted(Filter(s, keep), le)
  {
    if s != [] {
      var init := s[..|s| - 1];
      var last := s[|s| - 1];
      assert Sorted(init, le);
      FilterSorted(init, keep, le);
      var f := Filter(init, keep);
      forall i | 0 <= i < |f|
        ensures le(f[i], last)
      {
        FilterMembers(init, keep, f[i]);
        var j :| 0 <= j < |init| && init[j] == f[i];
      }
    }
  }
}
