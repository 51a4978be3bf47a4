/**
 * The Kotlin collection operations the mod manager is built from: `filter`, `mapNotNull`,
 * `map`, `distinctBy`, `groupBy` keys, `any`/`none` and `maxByOrNull`, each defined once over
 * `seq` in iteration order.
 */
module Lists {
  import opened Wrappers

  /** `filter`: the elements satisfying `p`, in order. */
  function Filter<T(!new)>(s: seq<T>, p: T -> bool): (r: seq<T>)
    ensures |r| <= |s|
    ensures forall x :: x in r <==> x in s && p(x)
    ensures forall i :: 0 <= i < |r| ==> p(r[i])
  {
    if s == [] then []
    else
      var front := Filter(s[..|s| - 1], p);
      assert s == s[..|s| - 1] + [s[|s| - 1]];
      if p(s[|s| - 1]) then front + [s[|s| - 1]] else front
  }

  /** Filtering works piece by piece, so it keeps the order of its input. */
  lemma {:induction false} FilterConcat<T(!new)>(a: seq<T>, b: seq<T>, p: T -> bool)
    ensures Filter(a + b, p) == Filter(a, p) + Filter(b, p)
    decreases |b|
  {
    if b != [] {
      var b' := b[..|b| - 1];
      assert (a + b)[..|a + b| - 1] == a + b';
      FilterConcat(a, b', p);
    } else {
      assert a + b == a;
    }
  }

  /** Nothing passes a test no element meets. */
  lemma {:induction false} FilterNone<T(!new)>(s: seq<T>, p: T -> bool)
    requires forall i :: 0 <= i < |s| ==> !p(s[i])
    ensures Filter(s, p) == []
  {
    if s != [] {
      FilterNone(s[..|s| - 1], p);
    }
  }

  /** Everything passes a test every element meets. */
  lemma {:induction false} FilterAll<T(!new)>(s: seq<T>, p: T -> bool)
    requires forall i :: 0 <= i < |s| ==> p(s[i])
    ensures Filter(s, p) == s
  {
    if s != [] {
      FilterAll(s[..|s| - 1], p);
    }
  }

  /** Filtering twice keeps what satisfies both tests. */
  lemma {:induction false} FilterFilter<T(!new)>(s: seq<T>, p: T -> bool, q: T -> bool)
    ensures Filter(Filter(s, p), q) == Filter(s, x => p(x) && q(x))
  {
    if s != [] {
      var front := s[..|s| - 1];
      FilterFilter(front, p, q);
      FilterConcat(Filter(front, p), if p(s[|s| - 1]) then [s[|s| - 1]] else [], q);
    }
  }

  /** A test and its negation split a list between them. */
  lemma {:induction false} FilterPartition<T(!new)>(s: seq<T>, p: T -> bool, q: T -> bool)
    requires forall x :: q(x) == !p(x)
    ensures multiset(Filter(s, p)) + multiset(Filter(s, q)) == multiset(s)
  {
    if s != [] {
      FilterPartition(s[..|s| - 1], p, q);
      SnocSplit(s);
    }
  }

  /** Filtering keeps a list free of repeats. */
  lemma {:induction false} FilterDistinct<T(!new)>(s: seq<T>, p: T -> bool)
    requires Distinct(s)
    ensures Distinct(Filter(s, p))
  {
    if s != [] {
      var front := s[..|s| - 1];
      assert Distinct(front) by {
        forall i, j | 0 <= i < j < |front| ensures front[i] != front[j] {
          assert front[i] == s[i] && front[j] == s[j];
        }
      }
      FilterDistinct(front, p);
      var last := s[|s| - 1];
      assert last !in front by {
        forall i | 0 <= i < |front| ensures front[i] != last {
          assert front[i] == s[i];
        }
      }
    }
  }

  /** `mapNotNull`: the non-null images under `f`, in order. */
  function MapNotNull<T(!new), U(!new)>(s: seq<T>, f: T -> Option<U>): (r: seq<U>)
    ensures |r| <= |s|
    ensures forall y :: y in r <==> exists x :: x in s && f(x) == Some(y)
  {
    if s == [] then []
    else
      var front := MapNotNull(s[..|s| - 1], f);
      var last := s[|s| - 1];
      assert forall x :: x in s <==> x in s[..|s| - 1] || x == last;
      match f(last)
      case Some(y) => front + [y]
      case None => front
  }

  /** `mapNotNull` works piece by piece, so it keeps the order of its input. */
  lemma {:induction false} MapNotNullConcat<T(!new), U(!new)>(a: seq<T>, b: seq<T>, f: T -> Option<U>)
    ensures MapNotNull(a + b, f) == MapNotNull(a, f) + MapNotNull(b, f)
    decreases |b|
  {
    if b != [] {
      var b' := b[..|b| - 1];
      assert (a + b)[..|a + b| - 1] == a + b';
      MapNotNullConcat(a, b', f);
    } else {
      assert a + b == a;
    }
  }

  /** `map`. */
  function Map<T, U>(s: seq<T>, f: T -> U): (r: seq<U>)
    ensures |r| == |s|
    ensures forall i :: 0 <= i < |s| ==> r[i] == f(s[i])
  {
    seq(|s|, i requires 0 <= i < |s| => f(s[i]))
  }

  /** `find`: the first element satisfying `p`, or null. */
  function Find<T(==)>(s: seq<T>, p: T -> bool): (r: Option<T>)
    ensures r.None? <==> forall i :: 0 <= i < |s| ==> !p(s[i])
    ensures r.Some? ==> exists j :: 0 <= j < |s| && s[j] == r.value && p(s[j]) && forall i :: 0 <= i < j ==> !p(s[i])
  {
    if s == [] then None
    else if p(s[0]) then Some(s[0])
    else
      var r := Find(s[1..], p);
      assert forall i :: 1 <= i < |s| ==> s[i] == s[1..][i - 1];
      if r.Some? then
        var j :| 0 <= j < |s[1..]| && s[1..][j] == r.value && p(s[1..][j]) && forall i :: 0 <= i < j ==> !p(s[1..][i]);
        assert s[j + 1] == r.value;
        r
      else r
  }

  /** Mapping one more element appends its image. */
  lemma MapSnoc<T, U>(s: seq<T>, x: T, f: T -> U)
    ensures Map(s + [x], f) == Map(s, f) + [f(x)]
  {
    assert forall i :: 0 <= i < |s| ==> (s + [x])[i] == s[i];
  }

  /** `reversed`. */
  function Reverse<T>(s: seq<T>): (r: seq<T>)
    ensures |r| == |s|
    ensures forall i :: 0 <= i < |s| ==> r[i] == s[|s| - 1 - i]
  {
    if s == [] then [] else [s[|s| - 1]] + Reverse(s[..|s| - 1])
  }

  /** Reversing keeps the elements. */
  lemma ReverseMember<T>(s: seq<T>, x: T)
    ensures x in Reverse(s) <==> x in s
  {
    if x in s {
      var i :| 0 <= i < |s| && s[i] == x;
      assert Reverse(s)[|s| - 1 - i] == x;
    }
  }

  /** A non-empty sequence is its front and its last element. */
  lemma SnocSplit<T>(s: seq<T>)
    requires s != []
    ensures s == s[..|s| - 1] + [s[|s| - 1]]
  {
  }

  /** A prefix one element longer. */
  lemma PrefixSnoc<T>(s: seq<T>, i: nat)
    requires i < |s|
    ensures s[..i + 1] == s[..i] + [s[i]] && s[..i + 1][..i] == s[..i]
  {
  }

  /** `any`. */
  predicate Any<T>(s: seq<T>, p: T -> bool)
  {
    exists i :: 0 <= i < |s| && p(s[i])
  }

  /** No two positions hold the same value. */
  predicate Distinct<T(==)>(s: seq<T>)
  {
    forall i, j :: 0 <= i < j < |s| ==> s[i] != s[j]
  }

  /** `addAll` on an insertion-ordered set held as a sequence: each element of `xs` not yet
    * present is appended, in order. */
  function AddAll<T(==,!new)>(acc: seq<T>, xs: seq<T>): (r: seq<T>)
    ensures forall x :: x in r <==> x in acc || x in xs
    ensures Distinct(acc) ==> Distinct(r)
    ensures |acc| <= |r| && r[..|acc|] == acc
  {
    if xs == [] then acc
    else
      var front := AddAll(acc, xs[..|xs| - 1]);
      var last := xs[|xs| - 1];
      assert forall x :: x in xs <==> x in xs[..|xs| - 1] || x == last;
      if last in front then front
      else
        assert (front + [last])[..|acc|] == front[..|acc|];
        front + [last]
  }

  /** `addAll(f(k))` for each `k` of `ks` in turn, starting from `acc`. */
  function Collect<K, T(==,!new)>(acc: seq<T>, ks: seq<K>, f: K -> seq<T>): seq<T>
  {
    if ks == [] then acc else AddAll(Collect(acc, ks[..|ks| - 1], f), f(ks[|ks| - 1]))
  }

  /** What `Collect` gathers: `acc` and the lists of all keys, nothing else. */
  lemma {:induction false} CollectMember<K, T(!new)>(acc: seq<T>, ks: seq<K>, f: K -> seq<T>, x: T)
    ensures x in Collect(acc, ks, f) <==> x in acc || exists j :: 0 <= j < |ks| && x in f(ks[j])
  {
    if ks != [] {
      var front := ks[..|ks| - 1];
      CollectMember(acc, front, f, x);
      SomeListHas(ks, f, x);
    }
  }

  /** Some list of `ks` holds `x` exactly when some list of its front does or the last one does. */
  lemma SomeListHas<K, T>(ks: seq<K>, f: K -> seq<T>, x: T)
    requires ks != []
    ensures var front := ks[..|ks| - 1];
      (exists j :: 0 <= j < |ks| && x in f(ks[j])) <==>
      (exists j :: 0 <= j < |front| && x in f(front[j])) || x in f(ks[|ks| - 1])
  {
    var front := ks[..|ks| - 1];
    if exists j :: 0 <= j < |ks| && x in f(ks[j]) {
      var j :| 0 <= j < |ks| && x in f(ks[j]);
      if j < |front| {
        assert ks[j] == front[j];
      }
    }
    if exists j :: 0 <= j < |front| && x in f(front[j]) {
      var j :| 0 <= j < |front| && x in f(front[j]);
      assert ks[j] == front[j];
    }
  }

  /** `Collect` never repeats an element. */
  lemma {:induction false} CollectDistinct<K, T(!new)>(acc: seq<T>, ks: seq<K>, f: K -> seq<T>)
    requires Distinct(acc)
    ensures Distinct(Collect(acc, ks, f))
  {
    if ks != [] {
      CollectDistinct(acc, ks[..|ks| - 1], f);
    }
  }

  /** The keys of `s` under `key`, each once, in order of first occurrence (the keys of a
    * `groupBy` or `associateBy` map, or of `distinctBy`). */
  function KeysInOrder<T(!new), K(==,!new)>(s: seq<T>, key: T -> K): (r: seq<K>)
    ensures Distinct(r)
    ensures forall k :: k in r <==> exists x :: x in s && key(x) == k
  {
    if s == [] then []
    else
      var front := KeysInOrder(s[..|s| - 1], key);
      var last := s[|s| - 1];
      assert forall x :: x in s <==> x in s[..|s| - 1] || x == last;
      if key(last) in front then front else front + [key(last)]
  }

  /** `x` occurs in `s` before any other element with its key. */
  predicate EarliestWithKey<T(==), K(==)>(s: seq<T>, key: T -> K, x: T)
  {
    exists j :: 0 <= j < |s| && s[j] == x && forall i :: 0 <= i < j ==> key(s[i]) != key(x)
  }

  lemma EarliestInLonger<T, K>(s: seq<T>, n: nat, key: T -> K, x: T)
    requires n <= |s| && EarliestWithKey(s[..n], key, x)
    ensures EarliestWithKey(s, key, x)
  {
    var j :| 0 <= j < n && s[..n][j] == x && forall i :: 0 <= i < j ==> key(s[..n][i]) != key(x);
    assert s[j] == x;
    assert forall i :: 0 <= i < j ==> key(s[i]) != key(x) by {
      forall i | 0 <= i < j ensures key(s[i]) != key(x) {
        assert s[..n][i] == s[i];
      }
    }
  }

  /** `distinctBy`: for each key the element that carries it first, in order of the keys. */
  function DistinctBy<T(==,!new), K(==,!new)>(s: seq<T>, key: T -> K): (r: seq<T>)
    ensures |r| <= |s|
    ensures Map(r, key) == KeysInOrder(s, key)
    ensures forall i :: 0 <= i < |r| ==> EarliestWithKey(s, key, r[i])
  {
    if s == [] then []
    else
      var n := |s| - 1;
      var front := DistinctBy(s[..n], key);
      var last := s[n];
      forall i | 0 <= i < |front| ensures EarliestWithKey(s, key, front[i]) {
        EarliestInLonger(s, n, key, front[i]);
      }
      if key(last) in KeysInOrder(s[..n], key) then
        front
      else
        assert forall i :: 0 <= i < n ==> key(s[i]) != key(last) by {
          forall i | 0 <= i < n ensures key(s[i]) != key(last) {
            assert s[..n][i] == s[i];
            assert s[i] in s[..n];
          }
        }
        assert EarliestWithKey(s, key, last);
        assert Map(front + [last], key) == Map(front, key) + [key(last)];
        front + [last]
  }

  /** Keys that are already distinct come out as they are. */
  lemma {:induction false} KeysInOrderOfDistinct<T(!new), K(!new)>(a: seq<T>, key: T -> K)
    requires Distinct(Map(a, key))
    ensures KeysInOrder(a, key) == Map(a, key)
  {
    if a != [] {
      var front := a[..|a| - 1];
      MapSnoc(front, a[|a| - 1], key);
      SnocSplit(a);
      assert Distinct(Map(front, key)) by {
        forall i, j | 0 <= i < j < |front| ensures Map(front, key)[i] != Map(front, key)[j] {
          assert Map(front, key)[i] == Map(a, key)[i] && Map(front, key)[j] == Map(a, key)[j];
        }
      }
      KeysInOrderOfDistinct(front, key);
      assert key(a[|a| - 1]) !in Map(front, key) by {
        forall i | 0 <= i < |front| ensures Map(front, key)[i] != key(a[|a| - 1]) {
          assert Map(a, key)[i] == Map(front, key)[i];
        }
      }
    }
  }

  /** Appending elements only appends keys. */
  lemma {:induction false} KeysInOrderExtend<T(!new), K(!new)>(a: seq<T>, b: seq<T>, key: T -> K)
    ensures var ka := KeysInOrder(a, key);
      |ka| <= |KeysInOrder(a + b, key)| && KeysInOrder(a + b, key)[..|ka|] == ka
    decreases |b|
  {
    if b == [] {
      assert a + b == a;
    } else {
      var b' := b[..|b| - 1];
      KeysInOrderExtend(a, b', key);
      assert (a + b)[..|a + b| - 1] == a + b';
    }
  }

  /** `(a + b).distinctBy(key)` starts with `a` itself when the keys of `a` are distinct. */
  lemma DistinctByPrefix<T(!new), K(!new)>(a: seq<T>, b: seq<T>, key: T -> K)
    requires Distinct(Map(a, key))
    ensures var r := DistinctBy(a + b, key); |a| <= |r| && r[..|a|] == a
  {
    var s := a + b;
    var r := DistinctBy(s, key);
    KeysInOrderOfDistinct(a, key);
    KeysInOrderExtend(a, b, key);
    assert |Map(r, key)| == |r|;
    forall i | 0 <= i < |a| ensures r[i] == a[i] {
      assert Map(r, key)[i] == Map(a, key)[i];
      assert key(r[i]) == key(a[i]);
      assert EarliestWithKey(s, key, r[i]);
      var j :| 0 <= j < |s| && s[j] == r[i] && forall k :: 0 <= k < j ==> key(s[k]) != key(r[i]);
      assert s[i] == a[i];
      assert j <= i;
      assert s[j] == a[j];
      assert Map(a, key)[j] == Map(a, key)[i];
      assert j == i;
    }
  }

  /** The index of the first element with the largest `sel` value (`maxByOrNull`, which only
    * replaces its candidate on a strictly larger value). */
  function MaxIndex<T>(s: seq<T>, sel: T -> int): (r: nat)
    requires s != []
    ensures r < |s|
    ensures forall j :: 0 <= j < |s| ==> sel(s[j]) <= sel(s[r])
    ensures forall j :: 0 <= j < r ==> sel(s[j]) < sel(s[r])
  {
    if |s| == 1 then 0
    else
      var b := MaxIndex(s[..|s| - 1], sel);
      if sel(s[b]) < sel(s[|s| - 1]) then |s| - 1 else b
  }

  /** `maxByOrNull`. */
  function MaxBy<T(!new)>(s: seq<T>, sel: T -> int): (r: Option<T>)
    ensures r.None? <==> s == []
    ensures r.Some? ==> r.value in s && forall x :: x in s ==> sel(x) <= sel(r.value)
  {
    if s == [] then None else Some(s[MaxIndex(s, sel)])
  }

  /** Every element's key is at least that of every later element. */
  predicate IsDescending<T>(s: seq<T>, key: T -> int)
  {
    forall i, j :: 0 <= i < j < |s| ==> key(s[i]) >= key(s[j])
  }

  /** `x` put into a descending list just after the elements whose key is at least its own. */
  function InsertDescending<T>(t: seq<T>, x: T, key: T -> int): seq<T>
  {
    if t == [] || key(t[|t| - 1]) >= key(x) then t + [x]
    else InsertDescending(t[..|t| - 1], x, key) + [t[|t| - 1]]
  }

  /** `sortedByDescending`: a stable insertion sort, later elements placed after earlier ones
    * with the same key. */
  function SortedByDescending<T>(s: seq<T>, key: T -> int): seq<T>
  {
    if s == [] then [] else InsertDescending(SortedByDescending(s[..|s| - 1], key), s[|s| - 1], key)
  }

  /** One more element no larger than all the others keeps a list descending. */
  lemma DescendingSnoc<T>(s: seq<T>, y: T, key: T -> int)
    requires IsDescending(s, key) && forall i :: 0 <= i < |s| ==> key(s[i]) >= key(y)
    ensures IsDescending(s + [y], key)
  {
    var r := s + [y];
    forall i, j | 0 <= i < j < |r| ensures key(r[i]) >= key(r[j]) {
      assert r[i] == s[i];
      if j < |s| {
        assert r[j] == s[j];
      }
    }
  }

  /** Every element of a list made of `ms` has a key at least `k` when every element of `ms`
    * does. */
  lemma KeysAtLeast<T>(r: seq<T>, ms: multiset<T>, k: int, key: T -> int)
    requires multiset(r) == ms && forall z :: z in ms ==> key(z) >= k
    ensures forall i :: 0 <= i < |r| ==> key(r[i]) >= k
  {
    forall i | 0 <= i < |r| ensures key(r[i]) >= k {
      assert r[i] in multiset(r);
    }
  }

  lemma {:induction false} InsertDescendingSorts<T>(t: seq<T>, x: T, key: T -> int)
    requires IsDescending(t, key)
    ensures var r := InsertDescending(t, x, key);
      IsDescending(r, key) && multiset(r) == multiset(t) + multiset{x}
  {
    if t != [] && key(t[|t| - 1]) < key(x) {
      var front := t[..|t| - 1];
      var last := t[|t| - 1];
      SnocSplit(t);
      assert IsDescending(front, key) by {
        forall i, j | 0 <= i < j < |front| ensures key(front[i]) >= key(front[j]) {
          assert front[i] == t[i] && front[j] == t[j];
        }
      }
      InsertDescendingSorts(front, x, key);
      var r' := InsertDescending(front, x, key);
      var ms := multiset(front) + multiset{x};
      forall z | z in ms ensures key(z) >= key(last) {
        if z != x {
          assert z in front;
          var k :| 0 <= k < |front| && front[k] == z;
          assert t[k] == z;
        }
      }
      KeysAtLeast(r', ms, key(last), key);
      DescendingSnoc(r', last, key);
    }
  }

  /** The sorted list is descending and holds the same elements as its input. */
  lemma {:induction false} SortedByDescendingSorts<T>(s: seq<T>, key: T -> int)
    ensures var r := SortedByDescending(s, key);
      IsDescending(r, key) && multiset(r) == multiset(s)
  {
    if s != [] {
      SortedByDescendingSorts(s[..|s| - 1], key);
      InsertDescendingSorts(SortedByDescending(s[..|s| - 1], key), s[|s| - 1], key);
      SnocSplit(s);
    }
  }
}
