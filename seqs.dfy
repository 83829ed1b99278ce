/**
 * Sequence combinators shared by the list pipelines: `filter`, `map`, `flatMap`/`extend`,
 * order-preserving subsequences, and the stable insertion sort used as the model of
 * Python's `sorted` and of `Array.prototype.sort` with a consistent comparator (with an
 * inconsistent one, the order it gives is one of those an engine may produce).
 */
module Seqs {

  function Min(a: nat, b: nat): nat { if a < b then a else b }

  /** Keeps the elements satisfying `p`, in order (`Array.prototype.filter`, list comprehension). */
  function Filter<T>(s: seq<T>, p: T -> bool): (r: seq<T>)
    ensures |r| <= |s|
    ensures forall i :: 0 <= i < |r| ==> r[i] in s && p(r[i])
    ensures forall i :: 0 <= i < |s| && p(s[i]) ==> s[i] in r
    decreases |s|
  {
    if s == [] then []
    else (if p(s[0]) then [s[0]] else []) + Filter(s[1..], p)
  }

  /** `Array.prototype.map`. */
  function Map<A, B>(s: seq<A>, f: A -> B): (r: seq<B>)
    ensures |r| == |s|
    ensures forall i :: 0 <= i < |s| ==> r[i] == f(s[i])
  {
    seq(|s|, i requires 0 <= i < |s| => f(s[i]))
  }

  /** Concatenation of a sequence of sequences (`flatMap`, repeated `list.extend`). */
  function Flatten<T>(ss: seq<seq<T>>): seq<T>
    decreases |ss|
  {
    if ss == [] then [] else ss[0] + Flatten(ss[1..])
  }

  /** Total number of elements of a sequence of sequences. */
  function TotalLength<T>(ss: seq<seq<T>>): nat
    decreases |ss|
  {
    if ss == [] then 0 else |ss[0]| + TotalLength(ss[1..])
  }

  /** `a` is an order-preserving subsequence of `b`. */
  predicate IsSubsequence<T(==)>(a: seq<T>, b: seq<T>)
    decreases |b|
  {
    a == [] ||
    (b != [] && ((a[0] == b[0] && IsSubsequence(a[1..], b[1..])) || IsSubsequence(a, b[1..])))
  }

  lemma SubsequenceCons<T>(x: T, a: seq<T>, b: seq<T>)
    requires IsSubsequence(a, b)
    ensures IsSubsequence([x] + a, [x] + b)
  {
    assert ([x] + a)[1..] == a && ([x] + b)[1..] == b;
  }

  /** Keeping the element at `i` in front of a subsequence of the suffix after it. */
  lemma SubsequenceConsAt<T>(a: seq<T>, s: seq<T>, i: nat)
    requires i < |s| && IsSubsequence(a, s[i + 1..])
    ensures IsSubsequence([s[i]] + a, s[i..])
  {
    assert s[i..][0] == s[i] && s[i..][1..] == s[i + 1..];
    assert ([s[i]] + a)[0] == s[i] && ([s[i]] + a)[1..] == a;
  }

  /** A subsequence of a suffix is a subsequence of any longer suffix. */
  lemma {:induction false} SubsequenceOfSuffix<T>(a: seq<T>, s: seq<T>, i: nat, e: nat)
    requires i <= e <= |s| && IsSubsequence(a, s[e..])
    ensures IsSubsequence(a, s[i..])
    decreases e - i
  {
    if i < e {
      SubsequenceOfSuffix(a, s, i + 1, e);
      assert s[i..][1..] == s[i + 1..];
    }
  }

  /** Moving the head of `whole` to the end of an accumulator keeps the concatenation. */
  lemma AppendShift<T>(acc: seq<T>, x: T, rest: seq<T>, whole: seq<T>)
    requires whole == [x] + rest
    ensures acc + whole == (acc + [x]) + rest
  {
  }

  lemma {:induction false} FilterIsSubsequence<T>(s: seq<T>, p: T -> bool)
    ensures IsSubsequence(Filter(s, p), s)
    decreases |s|
  {
    if s != [] {
      FilterIsSubsequence(s[1..], p);
      if p(s[0]) {
        assert Filter(s, p) == [s[0]] + Filter(s[1..], p);
        assert Filter(s, p)[1..] == Filter(s[1..], p);
      } else {
        assert Filter(s, p) == Filter(s[1..], p);
      }
    }
  }

  lemma {:induction false} FilterAll<T>(s: seq<T>, p: T -> bool)
    requires forall x :: x in s ==> p(x)
    ensures Filter(s, p) == s
    decreases |s|
  {
    if s != [] {
      FilterAll(s[1..], p);
    }
  }

  lemma {:induction false} FilterNone<T>(s: seq<T>, p: T -> bool)
    requires forall x :: x in s ==> !p(x)
    ensures Filter(s, p) == []
    decreases |s|
  {
    if s != [] {
      FilterNone(s[1..], p);
    }
  }

  /** Filtering a sequence with a known head. */
  lemma FilterCons<T>(x: T, t: seq<T>, p: T -> bool)
    ensures Filter([x] + t, p) == (if p(x) then [x] else []) + Filter(t, p)
  {
    assert ([x] + t)[1..] == t;
  }

  /** When the first element passes, the filter starts with it. */
  lemma {:induction false} FilterKeepsFirst<T>(s: seq<T>, p: T -> bool)
    requires s != [] && p(s[0])
    ensures Filter(s, p) != [] && Filter(s, p)[0] == s[0] && Filter(s, p)[..1] == [s[0]]
  {
    assert s == [s[0]] + s[1..];
    FilterCons(s[0], s[1..], p);
  }

  /** When the first element fails and the second passes, the filter starts with the second. */
  lemma {:induction false} FilterSkipsFirst<T>(s: seq<T>, p: T -> bool)
    requires |s| >= 2 && !p(s[0]) && p(s[1])
    ensures Filter(s, p) != [] && Filter(s, p)[0] == s[1]
  {
    assert s == [s[0]] + ([s[1]] + s[2..]);
    FilterCons(s[0], [s[1]] + s[2..], p);
    FilterCons(s[1], s[2..], p);
  }

  lemma {:induction false} FilterConcat<T>(a: seq<T>, b: seq<T>, p: T -> bool)
    ensures Filter(a + b, p) == Filter(a, p) + Filter(b, p)
    decreases |a|
  {
    if a == [] {
      assert a + b == b;
    } else {
      assert (a + b)[1..] == a[1..] + b;
      FilterConcat(a[1..], b, p);
    }
  }

  /** The number of elements of `s` satisfying `p`. */
  function Count<T>(s: seq<T>, p: T -> bool): nat
  {
    |Filter(s, p)|
  }

  lemma {:induction false} FlattenConcat<T>(a: seq<seq<T>>, b: seq<seq<T>>)
    ensures Flatten(a + b) == Flatten(a) + Flatten(b)
    decreases |a|
  {
    if a == [] {
      assert a + b == b;
    } else {
      assert (a + b)[1..] == a[1..] + b;
      FlattenConcat(a[1..], b);
    }
  }

  lemma {:induction false} FlattenLength<T>(ss: seq<seq<T>>)
    ensures |Flatten(ss)| == TotalLength(ss)
    decreases |ss|
  {
    if ss != [] {
      FlattenLength(ss[1..]);
    }
  }

  lemma {:induction false} FlattenMembership<T>(ss: seq<seq<T>>, x: T)
    ensures x in Flatten(ss) <==> exists k :: 0 <= k < |ss| && x in ss[k]
    decreases |ss|
  {
    if ss != [] {
      FlattenMembership(ss[1..], x);
      if x in Flatten(ss[1..]) {
        var k :| 0 <= k < |ss[1..]| && x in ss[1..][k];
        assert x in ss[k + 1];
      }
      if exists k :: 0 <= k < |ss| && x in ss[k] {
        var k :| 0 <= k < |ss| && x in ss[k];
        if k > 0 {
          assert x in ss[1..][k - 1];
        }
      }
    }
  }

  // ---------------------------------------------------------------------------------------
  // Stable insertion sort driven by a three-way comparator (negative: first goes first).

  /** Inserts `x` before the first element it must precede, that is after every element it ties with. */
  function InsertBy<T>(t: seq<T>, x: T, cmp: (T, T) -> int): (r: seq<T>)
    ensures |r| == |t| + 1
    decreases |t|
  {
    if t == [] then [x]
    else if cmp(x, t[0]) < 0 then [x] + t
    else [t[0]] + InsertBy(t[1..], x, cmp)
  }

  /** Inserting adds exactly `x`. */
  lemma {:induction false} InsertByPermutes<T>(t: seq<T>, x: T, cmp: (T, T) -> int)
    ensures multiset(InsertBy(t, x, cmp)) == multiset(t) + multiset{x}
    decreases |t|
  {
    if t != [] && cmp(x, t[0]) >= 0 {
      InsertByPermutes(t[1..], x, cmp);
      assert t == [t[0]] + t[1..];
    }
  }

  /** Sorts `s` by inserting its elements one after another, in their original order. */
  function SortBy<T>(s: seq<T>, cmp: (T, T) -> int): (r: seq<T>)
    ensures |r| == |s|
    decreases |s|
  {
    if s == [] then []
    else InsertBy(SortBy(s[..|s| - 1], cmp), s[|s| - 1], cmp)
  }

  /** The sort is a permutation. */
  lemma {:induction false} SortByPermutes<T>(s: seq<T>, cmp: (T, T) -> int)
    ensures multiset(SortBy(s, cmp)) == multiset(s)
    decreases |s|
  {
    if s != [] {
      SortByPermutes(s[..|s| - 1], cmp);
      InsertByPermutes(SortBy(s[..|s| - 1], cmp), s[|s| - 1], cmp);
      assert s == s[..|s| - 1] + [s[|s| - 1]];
    }
  }

  /** Inserting under two comparators that agree on `x` against every element of `t` gives one result. */
  lemma {:induction false} InsertByCongruent<T>(t: seq<T>, x: T, c1: (T, T) -> int, c2: (T, T) -> int)
    requires forall a :: a in t ==> c1(x, a) == c2(x, a)
    ensures InsertBy(t, x, c1) == InsertBy(t, x, c2)
    decreases |t|
  {
    if t != [] {
      assert t[0] in t;
      forall a | a in t[1..] ensures c1(x, a) == c2(x, a) {
        assert a in t;
      }
      InsertByCongruent(t[1..], x, c1, c2);
    }
  }

  /** The sort depends only on what the comparator says about the elements being sorted. */
  lemma {:induction false} SortByCongruent<T>(s: seq<T>, c1: (T, T) -> int, c2: (T, T) -> int)
    requires forall a, b :: a in s && b in s ==> c1(a, b) == c2(a, b)
    ensures SortBy(s, c1) == SortBy(s, c2)
    decreases |s|
  {
    if s != [] {
      var init, x := s[..|s| - 1], s[|s| - 1];
      assert forall a :: a in init ==> a in s;
      SortByCongruent(init, c1, c2);
      SortByPermutes(init, c1);
      var t := SortBy(init, c1);
      forall a | a in t ensures c1(x, a) == c2(x, a) {
        assert a in multiset(init);
        assert a in s;
      }
      InsertByCongruent(t, x, c1, c2);
    }
  }

  /** Every neighbouring pair is in the comparator's order. */
  predicate AdjacentSorted<T>(s: seq<T>, cmp: (T, T) -> int)
  {
    forall i :: 0 <= i < |s| - 1 ==> cmp(s[i], s[i + 1]) <= 0
  }

  /**
   * What insertion sort needs of a comparator on the elements at hand: swapping two different
   * elements flips the sign, and an element that occurs twice does not compare after itself.
   */
  predicate ConsistentOn<T(==)>(s: seq<T>, cmp: (T, T) -> int)
  {
    (forall i, j :: 0 <= i < |s| && 0 <= j < |s| && s[i] != s[j] ==>
       (cmp(s[i], s[j]) < 0 <==> cmp(s[j], s[i]) > 0)) &&
    (forall i :: 0 <= i < |s| ==> cmp(s[i], s[i]) <= 0 || multiset(s)[s[i]] == 1)
  }

  lemma {:induction false} InsertByAdjacentSorted<T>(t: seq<T>, x: T, cmp: (T, T) -> int)
    requires AdjacentSorted(t, cmp)
    requires forall a :: a in t && a != x ==> (cmp(x, a) < 0 <==> cmp(a, x) > 0)
    requires x in t ==> cmp(x, x) <= 0
    ensures AdjacentSorted(InsertBy(t, x, cmp), cmp)
    ensures InsertBy(t, x, cmp)[0] == x || (t != [] && InsertBy(t, x, cmp)[0] == t[0])
    decreases |t|
  {
    if t != [] && cmp(x, t[0]) >= 0 {
      var rest := InsertBy(t[1..], x, cmp);
      assert AdjacentSorted(t[1..], cmp) by {
        forall i | 0 <= i < |t[1..]| - 1 ensures cmp(t[1..][i], t[1..][i + 1]) <= 0 {
          assert t[1..][i] == t[i + 1] && t[1..][i + 1] == t[i + 2];
        }
      }
      InsertByAdjacentSorted(t[1..], x, cmp);
      var r := [t[0]] + rest;
      assert cmp(t[0], rest[0]) <= 0 by {
        if rest[0] == x {
          if t[0] == x {
          } else {
            assert !(cmp(t[0], x) > 0);
          }
        } else {
          assert rest[0] == t[1];
        }
      }
      forall i | 0 <= i < |r| - 1 ensures cmp(r[i], r[i + 1]) <= 0 {
        if i > 0 {
          assert r[i] == rest[i - 1] && r[i + 1] == rest[i];
        }
      }
    } else if t != [] {
      var r := [x] + t;
      forall i | 0 <= i < |r| - 1 ensures cmp(r[i], r[i + 1]) <= 0 {
        if i > 0 {
          assert r[i] == t[i - 1] && r[i + 1] == t[i];
        }
      }
    }
  }

  /** Dropping the last element keeps the comparator consistent on what is left. */
  lemma ConsistentOnInit<T>(s: seq<T>, cmp: (T, T) -> int)
    requires s != [] && ConsistentOn(s, cmp)
    ensures ConsistentOn(s[..|s| - 1], cmp)
  {
    var init := s[..|s| - 1];
    assert s == init + [s[|s| - 1]];
    forall i | 0 <= i < |init| ensures cmp(init[i], init[i]) <= 0 || multiset(init)[init[i]] == 1 {
      assert init[i] == s[i];
      assert multiset(s) == multiset(init) + multiset{s[|s| - 1]};
      assert init[i] in multiset(init);
    }
  }

  lemma {:induction false} SortByAdjacentSorted<T>(s: seq<T>, cmp: (T, T) -> int)
    requires ConsistentOn(s, cmp)
    ensures AdjacentSorted(SortBy(s, cmp), cmp)
    decreases |s|
  {
    if s != [] {
      var init, x := s[..|s| - 1], s[|s| - 1];
      ConsistentOnInit(s, cmp);
      SortByAdjacentSorted(init, cmp);
      var t := SortBy(init, cmp);
      assert s == init + [x];
      LastConsistent(s, init, x, cmp);
      SortByPermutes(init, cmp);
      forall a | a in t ensures a in init {
        assert a in multiset(t);
      }
      InsertByAdjacentSorted(t, x, cmp);
    }
  }

  /** The last element compares consistently with every element before it. */
  lemma LastConsistent<T>(s: seq<T>, init: seq<T>, x: T, cmp: (T, T) -> int)
    requires s == init + [x] && ConsistentOn(s, cmp)
    ensures forall a :: a in init && a != x ==> (cmp(x, a) < 0 <==> cmp(a, x) > 0)
    ensures x in init ==> cmp(x, x) <= 0
  {
    forall a | a in init && a != x ensures cmp(x, a) < 0 <==> cmp(a, x) > 0 {
      var i :| 0 <= i < |init| && init[i] == a;
      assert s[i] == a && s[|s| - 1] == x;
    }
    if x in init {
      assert multiset(s) == multiset(init) + multiset{x};
      assert multiset(s)[x] >= 2;
      assert s[|s| - 1] == x;
    }
  }

  // ---------------------------------------------------------------------------------------
  // Sorting by an integer key, descending and stable (`sorted(xs, key=k, reverse=True)`).

  /** Comparator that puts larger keys first and ties in their original order. */
  function DescendingBy<T>(key: T -> int): (T, T) -> int
  {
    (a: T, b: T) => key(b) - key(a)
  }

  predicate SortedDescending<T>(s: seq<T>, key: T -> int)
  {
    forall i, j :: 0 <= i < j < |s| ==> key(s[i]) >= key(s[j])
  }

  /** The predicate "has key `k`" (a named function so that quantifiers over `k` have a trigger). */
  function HasKey<T>(key: T -> int, k: int): T -> bool
  {
    (y: T) => key(y) == k
  }

  lemma {:induction false} SortedDescendingTail<T>(t: seq<T>, key: T -> int)
    requires t != [] && SortedDescending(t, key)
    ensures SortedDescending(t[1..], key)
    ensures forall y :: y in t[1..] ==> key(y) <= key(t[0])
  {
    forall i, j | 0 <= i < j < |t[1..]| ensures key(t[1..][i]) >= key(t[1..][j]) {
      assert t[1..][i] == t[i + 1] && t[1..][j] == t[j + 1];
    }
    forall y | y in t[1..] ensures key(y) <= key(t[0]) {
      var m :| 0 <= m < |t[1..]| && t[1..][m] == y;
      assert t[m + 1] == y;
    }
  }

  lemma {:induction false} InsertDescendingSorted<T>(t: seq<T>, x: T, key: T -> int)
    requires SortedDescending(t, key)
    ensures SortedDescending(InsertBy(t, x, DescendingBy(key)), key)
    decreases |t|
  {
    var cmp := DescendingBy(key);
    if t == [] {
    } else if cmp(x, t[0]) < 0 {
      var r := [x] + t;
      forall i, j | 0 <= i < j < |r| ensures key(r[i]) >= key(r[j]) {
        assert r[j] == t[j - 1];
        if i > 0 {
          assert r[i] == t[i - 1];
        }
      }
    } else {
      SortedDescendingTail(t, key);
      InsertDescendingSorted(t[1..], x, key);
      var rest := InsertBy(t[1..], x, cmp);
      var r := [t[0]] + rest;
      forall i, j | 0 <= i < j < |r| ensures key(r[i]) >= key(r[j]) {
        assert r[j] == rest[j - 1];
        if i > 0 {
          assert r[i] == rest[i - 1];
        } else {
          InsertByPermutes(t[1..], x, cmp);
          assert rest[j - 1] in multiset(t[1..]) + multiset{x};
        }
      }
    }
  }

  lemma FilterSingleton<T>(x: T, p: T -> bool)
    ensures Filter([x], p) == if p(x) then [x] else []
  {
    assert [x][1..] == [];
  }

  /** The first position at or after `i` whose element satisfies `p`, or `|s|` when there is none. */
  function FirstWhere<T>(s: seq<T>, i: nat, p: T -> bool): (k: nat)
    requires i <= |s|
    ensures i <= k <= |s|
    ensures k < |s| ==> p(s[k])
    ensures forall j :: i <= j < k ==> !p(s[j])
    decreases |s| - i
  {
    if i == |s| || p(s[i]) then i else FirstWhere(s, i + 1, p)
  }

  /** A search loop that stops at the first element satisfying `p` and answers `f` of it, else `otherwise`. */
  function ScanFirst<T, U>(s: seq<T>, i: nat, p: T -> bool, f: T -> U, otherwise: U): U
    requires i <= |s|
    decreases |s| - i
  {
    if i == |s| then otherwise
    else if p(s[i]) then f(s[i])
    else ScanFirst(s, i + 1, p, f, otherwise)
  }

  lemma {:induction false} ScanFirstIs<T, U>(s: seq<T>, i: nat, p: T -> bool, f: T -> U, otherwise: U)
    requires i <= |s|
    ensures ScanFirst(s, i, p, f, otherwise) ==
      if FirstWhere(s, i, p) < |s| then f(s[FirstWhere(s, i, p)]) else otherwise
    decreases |s| - i
  {
    if i < |s| && !p(s[i]) {
      ScanFirstIs(s, i + 1, p, f, otherwise);
    }
  }

  /** Extending a prefix by one element. */
  lemma TakeSnoc<T>(s: seq<T>, i: nat)
    requires i < |s|
    ensures s[..i + 1] == s[..i] + [s[i]]
  {
  }

  /** Filtering one more element at the end: what a `for` loop with a guarded push does. */
  lemma FilterSnoc<T>(s: seq<T>, x: T, p: T -> bool)
    ensures Filter(s + [x], p) == Filter(s, p) + if p(x) then [x] else []
  {
    FilterConcat(s, [x], p);
    FilterSingleton(x, p);
  }

  lemma MapSnoc<A, B>(s: seq<A>, x: A, f: A -> B)
    ensures Map(s + [x], f) == Map(s, f) + [f(x)]
  {
  }

  /** One more step of a loop that builds `Map(s, f)` element by element. */
  lemma MapStep<A, B>(s: seq<A>, i: nat, f: A -> B, acc: seq<B>, y: B)
    requires i < |s| && acc == Map(s[..i], f) && y == f(s[i])
    ensures acc + [y] == Map(s[..i + 1], f)
  {
    assert s[..i + 1] == s[..i] + [s[i]];
    MapSnoc(s[..i], s[i], f);
  }

  lemma MapConcat<A, B>(a: seq<A>, b: seq<A>, f: A -> B)
    ensures Map(a + b, f) == Map(a, f) + Map(b, f)
  {
  }

  /** The concatenation of `f(x)` over `s`, built from the back as a loop accumulates it. */
  function Collect<T, U>(s: seq<T>, f: T -> seq<U>): seq<U>
    decreases |s|
  {
    if s == [] then [] else Collect(s[..|s| - 1], f) + f(s[|s| - 1])
  }

  lemma CollectSnoc<T, U>(s: seq<T>, x: T, f: T -> seq<U>)
    ensures Collect(s + [x], f) == Collect(s, f) + f(x)
  {
    assert (s + [x])[..|s|] == s;
  }

  /** One loop step of a collection: the accumulator for `s[..i]` plus `f(s[i])`. */
  lemma CollectStep<T, U>(s: seq<T>, i: nat, f: T -> seq<U>, acc: seq<U>, piece: seq<U>)
    requires i < |s| && acc == Collect(s[..i], f) && piece == f(s[i])
    ensures acc + piece == Collect(s[..i + 1], f)
  {
    assert s[..i + 1] == s[..i] + [s[i]];
    CollectSnoc(s[..i], s[i], f);
  }

  /** Collecting is mapping, then concatenating. */
  lemma {:induction false} CollectFlatten<T, U>(s: seq<T>, f: T -> seq<U>)
    ensures Collect(s, f) == Flatten(Map(s, f))
    decreases |s|
  {
    if s != [] {
      var init, x := s[..|s| - 1], s[|s| - 1];
      CollectFlatten(init, f);
      assert s == init + [x];
      MapSnoc(init, x, f);
      FlattenConcat(Map(init, f), [f(x)]);
      assert Flatten([f(x)]) == f(x) + Flatten([f(x)][1..]);
      assert [f(x)][1..] == [];
    }
  }

  /** Collecting at most one value per element is mapping over the elements that have one. */
  lemma {:induction false} CollectOptional<T, U>(s: seq<T>, f: T -> seq<U>, p: T -> bool, g: T -> U)
    requires forall x :: f(x) == if p(x) then [g(x)] else []
    ensures Collect(s, f) == Map(Filter(s, p), g)
    decreases |s|
  {
    if s != [] {
      var init, last := s[..|s| - 1], s[|s| - 1];
      assert s == init + [last];
      CollectOptional(init, f, p, g);
      FilterSnoc(init, last, p);
      MapConcat(Filter(init, p), if p(last) then [last] else [], g);
    }
  }

  lemma {:induction false} InsertDescendingStable<T>(t: seq<T>, x: T, key: T -> int, k: int)
    requires SortedDescending(t, key)
    ensures Filter(InsertBy(t, x, DescendingBy(key)), HasKey(key, k)) ==
            Filter(t, HasKey(key, k)) + (if key(x) == k then [x] else [])
    decreases |t|
  {
    var cmp, p := DescendingBy(key), HasKey(key, k);
    if t == [] {
      FilterSingleton(x, p);
    } else if cmp(x, t[0]) < 0 {
      InsertBeforeAll(t, x, key, k);
    } else {
      var rest := InsertBy(t[1..], x, cmp);
      assert InsertBy(t, x, cmp) == [t[0]] + rest;
      SortedDescendingTail(t, key);
      InsertDescendingStable(t[1..], x, key, k);
      FilterConsShift(t[0], rest, t[1..], if key(x) == k then [x] else [], p);
      assert t == [t[0]] + t[1..];
    }
  }

  lemma ConcatAssoc<T>(a: seq<T>, b: seq<T>, c: seq<T>)
    ensures a + (b + c) == a + b + c
  {
  }

  /** A common head does not disturb an equation between filters. */
  lemma FilterConsShift<T>(y: T, a: seq<T>, b: seq<T>, extra: seq<T>, p: T -> bool)
    requires Filter(a, p) == Filter(b, p) + extra
    ensures Filter([y] + a, p) == Filter([y] + b, p) + extra
  {
    var head, fb := if p(y) then [y] else [], Filter(b, p);
    FilterCons(y, a, p);
    FilterCons(y, b, p);
    ConcatAssoc(head, fb, extra);
  }

  lemma InsertBeforeAll<T>(t: seq<T>, x: T, key: T -> int, k: int)
    requires t != [] && SortedDescending(t, key) && key(t[0]) < key(x)
    ensures Filter([x] + t, HasKey(key, k)) == Filter(t, HasKey(key, k)) + (if key(x) == k then [x] else [])
  {
    var p := HasKey(key, k);
    FilterCons(x, t, p);
    if key(x) == k {
      forall y | y in t ensures !p(y) {
        var m :| 0 <= m < |t| && t[m] == y;
        assert key(t[m]) <= key(t[0]);
      }
      FilterNone(t, p);
    }
  }

  /**
   * The insertion sort under `DescendingBy(key)` is THE stable descending sort: the keys
   * are non-increasing, and the elements sharing any one key keep their original order.
   */
  lemma {:induction false} SortDescendingStable<T>(s: seq<T>, key: T -> int, k: int)
    ensures SortedDescending(SortBy(s, DescendingBy(key)), key)
    ensures Filter(SortBy(s, DescendingBy(key)), HasKey(key, k)) == Filter(s, HasKey(key, k))
    decreases |s|
  {
    if s != [] {
      var init, x := s[..|s| - 1], s[|s| - 1];
      assert s == init + [x];
      SortDescendingStable(init, key, k);
      InsertDescendingSorted(SortBy(init, DescendingBy(key)), x, key);
      InsertDescendingStable(SortBy(init, DescendingBy(key)), x, key, k);
      FilterConcat(init, [x], HasKey(key, k));
    }
  }

  // ---------------------------------------------------------------------------------------
  // Partitions and distinct elements

  /** Splitting by a predicate and its complement loses and adds nothing. */
  lemma {:induction false} FilterPartition<T>(s: seq<T>, p: T -> bool, q: T -> bool)
    requires forall x :: q(x) == !p(x)
    ensures multiset(Filter(s, p)) + multiset(Filter(s, q)) == multiset(s)
    decreases |s|
  {
    if s != [] {
      var x, t := s[0], s[1..];
      FilterPartition(t, p, q);
      assert s == [x] + t;
      FilterCons(x, t, p);
      FilterCons(x, t, q);
      assert multiset(Filter(s, p)) + multiset(Filter(s, q)) ==
        multiset{x} + (multiset(Filter(t, p)) + multiset(Filter(t, q)));
    }
  }

  /** Counting under two disjoint predicates counts under their union. */
  lemma {:induction false} CountUnion<T>(s: seq<T>, p: T -> bool, q: T -> bool, r: T -> bool)
    requires forall x :: !(p(x) && q(x))
    requires forall x :: r(x) == (p(x) || q(x))
    ensures Count(s, p) + Count(s, q) == Count(s, r)
    decreases |s|
  {
    if s != [] {
      CountUnion(s[1..], p, q, r);
      FilterCons(s[0], s[1..], p);
      FilterCons(s[0], s[1..], q);
      FilterCons(s[0], s[1..], r);
      assert s == [s[0]] + s[1..];
    }
  }

  predicate Distinct<T(==)>(s: seq<T>)
  {
    forall i, j :: 0 <= i < j < |s| ==> s[i] != s[j]
  }

  /** The tail of a sequence without repetitions has none and lacks the head. */
  lemma DistinctTail<T>(s: seq<T>)
    requires s != [] && Distinct(s)
    ensures Distinct(s[1..]) && s[0] !in s[1..]
  {
    var t := s[1..];
    forall i, j | 0 <= i < j < |t| ensures t[i] != t[j] {
      assert t[i] == s[i + 1] && t[j] == s[j + 1];
    }
    forall j | 0 <= j < |t| ensures t[j] != s[0] {
      assert t[j] == s[j + 1];
    }
  }

  /** No element repeats exactly when every multiplicity is at most one. */
  lemma {:induction false} DistinctMultiset<T>(s: seq<T>)
    ensures Distinct(s) <==> forall x :: multiset(s)[x] <= 1
    decreases |s|
  {
    if s != [] {
      var t := s[1..];
      DistinctMultiset(t);
      assert s == [s[0]] + t;
      assert multiset(s) == multiset{s[0]} + multiset(t);
      if Distinct(s) {
        assert Distinct(t) by {
          forall i, j | 0 <= i < j < |t| ensures t[i] != t[j] {
            assert t[i] == s[i + 1] && t[j] == s[j + 1];
          }
        }
        assert s[0] !in t;
        forall x ensures multiset(s)[x] <= 1 {
          assert multiset(t)[x] <= 1;
        }
      }
      if forall x :: multiset(s)[x] <= 1 {
        assert multiset(s)[s[0]] <= 1;
        forall x ensures multiset(t)[x] <= 1 {
          assert multiset(s)[x] <= 1;
        }
        forall i, j | 0 <= i < j < |s| ensures s[i] != s[j] {
          assert s[j] == t[j - 1];
          if i > 0 {
            assert s[i] == t[i - 1];
          } else {
            assert s[j] in multiset(t);
          }
        }
      }
    }
  }

  /** A permutation of a sequence without repetitions has none either. */
  lemma DistinctPermutation<T>(a: seq<T>, b: seq<T>)
    requires Distinct(a) && multiset(a) == multiset(b)
    ensures Distinct(b)
  {
    DistinctMultiset(a);
    DistinctMultiset(b);
  }
}
