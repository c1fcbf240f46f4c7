/**
 * Draining `as_completed`: the submitted futures finish in some order, a
 * permutation of their indices. The drain loops of the docking and parsing
 * scripts count and gather per-future results; what they count, and the
 * multiset of what they gather, does not depend on that order.
 */
module Completion {

  /** `as_completed` order: each of the `n` submitted indices exactly once. */
  predicate IsOrdering(order: seq<nat>, n: nat)
  {
    && |order| == n
    && (forall k :: 0 <= k < n ==> order[k] < n)
    && (forall a, b :: 0 <= a < b < n ==> order[a] != order[b])
  }

  /** `[0, 1, ..., n - 1]`, the submission order. */
  function Indices(n: nat): (r: seq<nat>)
    ensures |r| == n && forall k :: 0 <= k < n ==> r[k] == k
  {
    seq(n, k => k)
  }

  function IndexSet(s: seq<nat>): set<nat>
  {
    set x | x in s
  }

  /** The indices among `ks` whose flag is set. */
  function Among(flags: seq<bool>, ks: seq<nat>): set<nat>
  {
    set i | i in ks && i < |flags| && flags[i]
  }

  /** All indices whose flag is set. */
  function Marked(flags: seq<bool>): set<nat>
  {
    Among(flags, Indices(|flags|))
  }

  lemma CardSnoc(a: set<nat>, x: nat)
    requires x !in a
    ensures |a + {x}| == |a| + 1
  {
    assert a + {x} - {x} == a;
  }

  lemma {:induction false} DistinctCard(s: seq<nat>)
    requires forall a, b :: 0 <= a < b < |s| ==> s[a] != s[b]
    ensures |IndexSet(s)| == |s|
  {
    if s != [] {
      var init, last := s[..|s| - 1], s[|s| - 1];
      DistinctInit(s);
      DistinctCard(init);
      CardSnoc(IndexSet(init), last);
    }
  }

  /** Dropping the last of distinct indices leaves distinct indices without it. */
  lemma DistinctInit(s: seq<nat>)
    requires s != [] && forall a, b :: 0 <= a < b < |s| ==> s[a] != s[b]
    ensures var init := s[..|s| - 1];
      (forall a, b :: 0 <= a < b < |init| ==> init[a] != init[b]) &&
      s[|s| - 1] !in IndexSet(init) && IndexSet(s) == IndexSet(init) + {s[|s| - 1]}
  {
    var init, last := s[..|s| - 1], s[|s| - 1];
    forall a, b | 0 <= a < b < |init| ensures init[a] != init[b] {
      assert init[a] == s[a] && init[b] == s[b];
    }
    assert s == init + [last];
    forall k | 0 <= k < |init| ensures init[k] != last {
      assert init[k] == s[k];
    }
  }

  /** Pigeonhole: an ordering of `n` futures visits every one of them. */
  lemma OrderingCovers(order: seq<nat>, n: nat)
    requires IsOrdering(order, n)
    ensures forall i :: i in Indices(n) <==> i in order
  {
    var e := IndexSet(order);
    var all := IndexSet(Indices(n));
    DistinctCard(order);
    DistinctCard(Indices(n));
    forall x | x in e ensures x in all {
      var k :| 0 <= k < |order| && order[k] == x;
      assert Indices(n)[x] == x;
    }
    var rest := all - e;
    assert all == e + rest && e * rest == {};
    assert |all| == |e| + |rest|;
    assert rest == {};
    assert e == all;
    forall i ensures i in Indices(n) <==> i in order {
      assert i in Indices(n) <==> i in all;
      assert i in order <==> i in e;
    }
  }

  lemma AmongSnoc(flags: seq<bool>, ks: seq<nat>, x: nat)
    requires x !in ks && x < |flags|
    ensures |Among(flags, ks + [x])| == |Among(flags, ks)| + (if flags[x] then 1 else 0)
  {
    if flags[x] {
      assert Among(flags, ks + [x]) == Among(flags, ks) + {x};
      CardSnoc(Among(flags, ks), x);
    } else {
      assert Among(flags, ks + [x]) == Among(flags, ks);
    }
  }

  /** One more completed future adds one to the count exactly when its flag is set. */
  lemma AmongStep(flags: seq<bool>, order: seq<nat>, i: nat)
    requires IsOrdering(order, |flags|) && i < |order|
    ensures |Among(flags, order[..i + 1])| == |Among(flags, order[..i])| + (if flags[order[i]] then 1 else 0)
  {
    assert order[i] !in order[..i] by {
      forall k | 0 <= k < i ensures order[..i][k] != order[i] {
        assert order[k] != order[i];
      }
    }
    AmongSnoc(flags, order[..i], order[i]);
    assert order[..i + 1] == order[..i] + [order[i]];
  }

  /** Whatever the completion order, the flagged futures seen are all of them. */
  lemma AmongAll(flags: seq<bool>, order: seq<nat>)
    requires IsOrdering(order, |flags|)
    ensures Among(flags, order) == Marked(flags)
  {
    OrderingCovers(order, |flags|);
  }

  // ---------- what each worker returns ----------

  /** The rows each submitted target's worker returns, by submission index. */
  function RowsOf<T, R>(targets: seq<T>, work: T -> (seq<R>, bool)): (r: seq<seq<R>>)
    ensures |r| == |targets| && forall i :: 0 <= i < |targets| ==> r[i] == work(targets[i]).0
  {
    seq(|targets|, i requires 0 <= i < |targets| => work(targets[i]).0)
  }

  /** Whether each submitted target's worker found results, by submission index. */
  function HitsOf<T, R>(targets: seq<T>, work: T -> (seq<R>, bool)): (r: seq<bool>)
    ensures |r| == |targets| && forall i :: 0 <= i < |targets| ==> r[i] == work(targets[i]).1
  {
    seq(|targets|, i requires 0 <= i < |targets| => work(targets[i]).1)
  }

  // ---------- gathering per-future results ----------

  /** `parts[k]`, or nothing for an index past the end. */
  function Part<T>(parts: seq<seq<T>>, k: nat): seq<T>
  {
    if k < |parts| then parts[k] else []
  }

  /** `rows_buffer.extend(out_rows)` for each finished future, in completion order `ks`. */
  function Gathered<T>(parts: seq<seq<T>>, ks: seq<nat>): seq<T>
  {
    if ks == [] then [] else Gathered(parts, ks[..|ks| - 1]) + Part(parts, ks[|ks| - 1])
  }

  lemma {:induction false} GatheredConcat<T>(parts: seq<seq<T>>, a: seq<nat>, b: seq<nat>)
    ensures Gathered(parts, a + b) == Gathered(parts, a) + Gathered(parts, b)
    decreases |b|
  {
    if b == [] {
      assert a + b == a;
    } else {
      var b', x := b[..|b| - 1], b[|b| - 1];
      assert (a + b)[..|a + b| - 1] == a + b' && (a + b)[|a + b| - 1] == x;
      GatheredConcat(parts, a, b');
      calc {
        Gathered(parts, a + b);
        Gathered(parts, a + b') + Part(parts, x);
        (Gathered(parts, a) + Gathered(parts, b')) + Part(parts, x);
        Gathered(parts, a) + (Gathered(parts, b') + Part(parts, x));
        Gathered(parts, a) + Gathered(parts, b);
      }
    }
  }

  /** Gathering in two orders that visit the same indices gives the same rows up to order. */
  lemma {:induction false} GatheredPermutation<T>(parts: seq<seq<T>>, ks: seq<nat>, js: seq<nat>)
    requires multiset(ks) == multiset(js)
    ensures multiset(Gathered(parts, ks)) == multiset(Gathered(parts, js))
    decreases |ks|
  {
    if ks == [] {
      assert |js| == |multiset(js)| == 0;
    } else {
      var init, x, before, after := SplitLast(ks, js);
      GatheredPermutation(parts, init, before + after);
      PermutationStep(parts, init, x, before, after);
    }
  }

  /** The last visit of `ks`, and the same visit in `js` with what surrounds it. */
  lemma SplitLast(ks: seq<nat>, js: seq<nat>) returns (init: seq<nat>, x: nat, before: seq<nat>, after: seq<nat>)
    requires multiset(ks) == multiset(js) && ks != []
    ensures ks == init + [x] && js == before + [x] + after
    ensures multiset(init) == multiset(before + after)
  {
    init, x := ks[..|ks| - 1], ks[|ks| - 1];
    var p := Find(js, ks, x);
    RemoveLast(init, x);
    assert ks == init + [x] + [];
    RemoveAt(js, p);
    before, after := js[..p], js[p + 1..];
    assert js == before + [x] + after;
  }

  /** A position of `x` in `js`, which holds it since `ks` does. */
  lemma Find(js: seq<nat>, ks: seq<nat>, x: nat) returns (p: nat)
    requires multiset(ks) == multiset(js) && ks != [] && x == ks[|ks| - 1]
    ensures p < |js| && js[p] == x
  {
    assert x in multiset(ks);
    assert x in multiset(js);
    p :| 0 <= p < |js| && js[p] == x;
  }

  /** One more completed future appends its rows. */
  lemma GatheredStep<T>(parts: seq<seq<T>>, order: seq<nat>, i: nat)
    requires i < |order| && order[i] < |parts|
    ensures Gathered(parts, order[..i + 1]) == Gathered(parts, order[..i]) + parts[order[i]]
  {
    assert order[..i + 1] == order[..i] + [order[i]];
    GatheredSnoc(parts, order[..i], order[i]);
  }

  /** Moving a visit of `x` from the end into the middle keeps the gathered rows. */
  lemma PermutationStep<T>(parts: seq<seq<T>>, init: seq<nat>, x: nat, before: seq<nat>, after: seq<nat>)
    requires multiset(Gathered(parts, init)) == multiset(Gathered(parts, before + after))
    ensures multiset(Gathered(parts, init + [x])) == multiset(Gathered(parts, before + [x] + after))
  {
    GatheredSplit(parts, before, x, after);
    GatheredSnoc(parts, init, x);
  }

  lemma GatheredSnoc<T>(parts: seq<seq<T>>, init: seq<nat>, x: nat)
    ensures Gathered(parts, init + [x]) == Gathered(parts, init) + Part(parts, x)
  {
    assert (init + [x])[..|init|] == init;
  }

  lemma RemoveLast(init: seq<nat>, x: nat)
    ensures multiset(init) == multiset(init + [x] + []) - multiset{x}
  {
    assert init + [x] + [] == init + [x];
  }

  lemma RemoveAt(s: seq<nat>, p: nat)
    requires p < |s|
    ensures multiset(s[..p] + s[p + 1..]) == multiset(s) - multiset{s[p]}
  {
    assert s == s[..p] + [s[p]] + s[p + 1..];
  }

  /** Visiting `x` between two runs adds exactly its part. */
  lemma GatheredSplit<T>(parts: seq<seq<T>>, before: seq<nat>, x: nat, after: seq<nat>)
    ensures multiset(Gathered(parts, before + [x] + after))
         == multiset(Gathered(parts, before + after)) + multiset(Part(parts, x))
  {
    var gb, gx, ga := Gathered(parts, before), Part(parts, x), Gathered(parts, after);
    GatheredConcat(parts, before, after);
    GatheredConcat(parts, before, [x]);
    GatheredConcat(parts, before + [x], after);
    assert Gathered(parts, [x]) == gx by {
      assert [x][..0] == [];
    }
    assert Gathered(parts, before + [x] + after) == gb + gx + ga;
    assert multiset(gb + gx + ga) == multiset(gb) + multiset(gx) + multiset(ga);
    assert multiset(gb + ga) == multiset(gb) + multiset(ga);
  }

  lemma {:induction false} DistinctMultiset(s: seq<nat>, x: nat)
    requires forall a, b :: 0 <= a < b < |s| ==> s[a] != s[b]
    ensures multiset(s)[x] == if x in s then 1 else 0
  {
    if s != [] {
      var init, last := s[..|s| - 1], s[|s| - 1];
      assert s == init + [last];
      assert forall a, b :: 0 <= a < b < |init| ==> init[a] != init[b] by {
        forall a, b | 0 <= a < b < |init| ensures init[a] != init[b] {
          assert init[a] == s[a] && init[b] == s[b];
        }
      }
      DistinctMultiset(init, x);
      if x == last {
        assert x !in init by {
          forall k | 0 <= k < |init| ensures init[k] != x {
            assert init[k] == s[k];
          }
        }
      }
    }
  }

  /** The rows gathered by a drain loop are the same multiset whatever the completion order. */
  lemma GatheredAnyOrder<T>(parts: seq<seq<T>>, order: seq<nat>)
    requires IsOrdering(order, |parts|)
    ensures multiset(Gathered(parts, order)) == multiset(Gathered(parts, Indices(|parts|)))
  {
    var n := |parts|;
    OrderingCovers(order, n);
    forall x ensures multiset(order)[x] == multiset(Indices(n))[x] {
      DistinctMultiset(order, x);
      DistinctMultiset(Indices(n), x);
    }
    assert multiset(order) == multiset(Indices(n));
    GatheredPermutation(parts, order, Indices(n));
  }

  // ---------- progress heartbeats ----------

  /** The values of `processed`, from 1 to `n`, at which `processed % m == 0` fires a heartbeat. */
  function Heartbeats(n: nat, m: nat): seq<nat>
    requires m >= 1
  {
    if n == 0 then [] else Heartbeats(n - 1, m) + (if n % m == 0 then [n] else [])
  }

  /** A heartbeat fires at exactly the multiples of `m` up to `n`, in increasing order. */
  lemma {:induction false} HeartbeatsAreMultiples(n: nat, m: nat)
    requires m >= 1
    ensures forall k :: k in Heartbeats(n, m) <==> 1 <= k <= n && k % m == 0
    ensures forall a, b :: 0 <= a < b < |Heartbeats(n, m)| ==> Heartbeats(n, m)[a] < Heartbeats(n, m)[b]
  {
    if n > 0 {
      HeartbeatsAreMultiples(n - 1, m);
      var h := Heartbeats(n - 1, m);
      assert forall k :: k in h ==> k < n;
      if n % m == 0 {
        assert Heartbeats(n, m) == h + [n];
        forall a, b | 0 <= a < b < |h| + 1 ensures (h + [n])[a] < (h + [n])[b] {
          if b == |h| {
            assert h[a] in h;
          }
        }
      }
    }
  }
}
