/**
 * The publications page (app/publications/page.tsx): the scraped records are deduplicated by
 * title (first occurrence wins), sorted by year and then title, grouped by year with a
 * `reduce` that pushes into its accumulator, and the groups are shown in `sortedYears` order.
 */
module PublicationsPage {
  import opened Wrappers
  import opened Text
  import opened Seqs
  import Scraper

  type Pub = Scraper.Pub

  // ---------------------------------------------------------------------------------------
  // Dedupe: `filter((pub, index, self) => index === self.findIndex(t => t.title === pub.title))`

  /** The filter run from position `i` of `ps` on; `Scraper.TitleIndex` is `findIndex`. */
  function FirstOccurrencesFrom(ps: seq<Pub>, i: nat): seq<Pub>
    requires i <= |ps|
    decreases |ps| - i
  {
    if i == |ps| then []
    else (if Scraper.TitleIndex(ps, ps[i].title) == i then [ps[i]] else []) + FirstOccurrencesFrom(ps, i + 1)
  }

  function UniqueByTitle(ps: seq<Pub>): seq<Pub>
  {
    FirstOccurrencesFrom(ps, 0)
  }

  /** Where the first record titled like `p` stands in `ps` (`findIndex`, `|ps|` for -1). */
  function FirstIndex(ps: seq<Pub>, p: Pub): nat
  {
    Scraper.TitleIndex(ps, p.title)
  }

  /** Every record of `r` is the first one of `ps` with its title, found at `i` or later. */
  predicate FirstsFrom(ps: seq<Pub>, r: seq<Pub>, i: nat)
  {
    forall j :: 0 <= j < |r| ==> i <= FirstIndex(ps, r[j]) < |ps| && r[j] == ps[FirstIndex(ps, r[j])]
  }

  /** The records of `r` stand in the order of their first occurrences in `ps`. */
  predicate InFirstOrder(ps: seq<Pub>, r: seq<Pub>)
  {
    forall a, b :: 0 <= a < b < |r| ==> FirstIndex(ps, r[a]) < FirstIndex(ps, r[b])
  }

  /** The filter keeps position `i` exactly when `i` is the first position of its title. */
  lemma FirstOccurrencesUnfold(ps: seq<Pub>, i: nat)
    requires i < |ps|
    ensures FirstOccurrencesFrom(ps, i) ==
      (if FirstIndex(ps, ps[i]) == i then [ps[i]] else []) + FirstOccurrencesFrom(ps, i + 1)
  {
  }

  lemma FirstsCons(ps: seq<Pub>, i: nat, rest: seq<Pub>)
    requires i < |ps| && FirstIndex(ps, ps[i]) == i && FirstsFrom(ps, rest, i + 1)
    ensures FirstsFrom(ps, [ps[i]] + rest, i)
  {
    var r := [ps[i]] + rest;
    forall j | 0 <= j < |r| ensures i <= FirstIndex(ps, r[j]) < |ps| && r[j] == ps[FirstIndex(ps, r[j])] {
      if j > 0 {
        assert r[j] == rest[j - 1];
      }
    }
  }

  lemma OrderCons(ps: seq<Pub>, i: nat, rest: seq<Pub>)
    requires i < |ps| && FirstIndex(ps, ps[i]) == i && FirstsFrom(ps, rest, i + 1) && InFirstOrder(ps, rest)
    ensures InFirstOrder(ps, [ps[i]] + rest)
  {
    var r := [ps[i]] + rest;
    forall a, b | 0 <= a < b < |r| ensures FirstIndex(ps, r[a]) < FirstIndex(ps, r[b]) {
      assert r[b] == rest[b - 1];
      if a > 0 {
        assert r[a] == rest[a - 1];
      }
    }
  }

  /** Every record kept from position `i` on is the first one of `ps` with its title. */
  lemma {:induction false} FirstOccurrencesAreFirst(ps: seq<Pub>, i: nat)
    requires i <= |ps|
    ensures FirstsFrom(ps, FirstOccurrencesFrom(ps, i), i)
    decreases |ps| - i
  {
    if i < |ps| {
      FirstOccurrencesAreFirst(ps, i + 1);
      FirstOccurrencesUnfold(ps, i);
      if FirstIndex(ps, ps[i]) == i {
        FirstsCons(ps, i, FirstOccurrencesFrom(ps, i + 1));
      }
    }
  }

  /** The kept records stand in the order of their first occurrences. */
  lemma {:induction false} FirstOccurrencesOrdered(ps: seq<Pub>, i: nat)
    requires i <= |ps|
    ensures InFirstOrder(ps, FirstOccurrencesFrom(ps, i))
    decreases |ps| - i
  {
    if i < |ps| {
      FirstOccurrencesOrdered(ps, i + 1);
      FirstOccurrencesAreFirst(ps, i + 1);
      FirstOccurrencesUnfold(ps, i);
      if FirstIndex(ps, ps[i]) == i {
        OrderCons(ps, i, FirstOccurrencesFrom(ps, i + 1));
      }
    }
  }

  /** The kept records are a subsequence of the input from position `i` on. */
  lemma {:induction false} FirstOccurrencesSubsequence(ps: seq<Pub>, i: nat)
    requires i <= |ps|
    ensures IsSubsequence(FirstOccurrencesFrom(ps, i), ps[i..])
    decreases |ps| - i
  {
    if i < |ps| {
      FirstOccurrencesSubsequence(ps, i + 1);
      var rest := FirstOccurrencesFrom(ps, i + 1);
      if Scraper.TitleIndex(ps, ps[i].title) == i {
        assert FirstOccurrencesFrom(ps, i) == [ps[i]] + rest;
        SubsequenceConsAt(rest, ps, i);
      } else {
        assert FirstOccurrencesFrom(ps, i) == rest;
        SubsequenceOfSuffix(rest, ps, i, i + 1);
      }
    }
  }

  /** `findIndex` on a sequence with a known head. */
  lemma TitleIndexCons(y: Pub, d: seq<Pub>, t: String)
    ensures Scraper.TitleIndex([y] + d, t) == if y.title == t then 0 else 1 + Scraper.TitleIndex(d, t)
  {
    assert ([y] + d)[1..] == d;
  }

  /** Every title whose first occurrence is at `i` or later is kept. */
  lemma {:induction false} FirstOccurrencesKeep(ps: seq<Pub>, i: nat, k: nat)
    requires i <= k < |ps| && i <= FirstIndex(ps, ps[k])
    ensures Scraper.TitleIndex(FirstOccurrencesFrom(ps, i), ps[k].title) < |FirstOccurrencesFrom(ps, i)|
    decreases |ps| - i
  {
    var t := ps[k].title;
    var rest := FirstOccurrencesFrom(ps, i + 1);
    FirstOccurrencesUnfold(ps, i);
    var f := Scraper.TitleIndex(ps, t);
    assert f <= k && ps[f].title == t;
    if f == i {
      assert FirstIndex(ps, ps[i]) == i;
      assert FirstOccurrencesFrom(ps, i) == [ps[i]] + rest;
      TitleIndexCons(ps[i], rest, t);
    } else {
      FirstOccurrencesKeep(ps, i + 1, k);
      if FirstIndex(ps, ps[i]) == i {
        assert FirstOccurrencesFrom(ps, i) == [ps[i]] + rest;
        TitleIndexCons(ps[i], rest, t);
      } else {
        assert FirstOccurrencesFrom(ps, i) == [] + rest == rest;
      }
    }
  }

  /**
   * The dedupe keeps exactly one record per title: the titles are distinct, every input title
   * is kept, each kept record is the first one with its title, the records keep the order of
   * their first occurrences, and the result is a subsequence of the input.
   */
  lemma UniqueByTitleSpec(ps: seq<Pub>)
    ensures var u := UniqueByTitle(ps);
      Scraper.DistinctTitles(u) && Scraper.KeepsTitles(ps, u) && FirstsFrom(ps, u, 0) &&
      InFirstOrder(ps, u) && IsSubsequence(u, ps)
  {
    var u := UniqueByTitle(ps);
    FirstOccurrencesAreFirst(ps, 0);
    FirstOccurrencesOrdered(ps, 0);
    FirstOccurrencesSubsequence(ps, 0);
    assert ps[0..] == ps;
    forall k | 0 <= k < |ps| ensures Scraper.TitleIndex(u, ps[k].title) < |u| {
      FirstOccurrencesKeep(ps, 0, k);
    }
  }

  // ---------------------------------------------------------------------------------------
  // Sorting by year, then title

  /** `parseInt(year || "0")`; `None` is NaN. */
  function YearNumber(year: String): Option<int>
  {
    ParseInt(if year == [] then "0" else year)
  }

  /**
   * The comparator of the page's `sort`; `titleOrder` stands for `localeCompare`, which
   * depends on the locale.
   */
  function PubOrder(titleOrder: (String, String) -> int): (Pub, Pub) -> int
  {
    (a: Pub, b: Pub) =>
      if b.year != a.year then NumberDescending(YearNumber(a.year), YearNumber(b.year))
      else titleOrder(a.title, b.title)
  }

  /** What is assumed of `localeCompare`: swapping the arguments negates the result. */
  ghost predicate Antisymmetric(order: (String, String) -> int)
  {
    forall x, y :: order(x, y) == -order(y, x)
  }

  /** The deduplicated and sorted list. */
  function Publications(raw: seq<Pub>, titleOrder: (String, String) -> int): seq<Pub>
  {
    SortBy(UniqueByTitle(raw), PubOrder(titleOrder))
  }

  /**
   * Different year strings put the larger `parseInt` value first and compare equal when
   * either is NaN or both parse to the same number; equal year strings defer to the title
   * order.
   */
  lemma PubOrderCases(titleOrder: (String, String) -> int, a: Pub, b: Pub)
    ensures var c := PubOrder(titleOrder)(a, b);
      var ya, yb := YearNumber(a.year), YearNumber(b.year);
      (a.year != b.year && ya.Some? && yb.Some? ==> (c < 0 <==> ya.value > yb.value) && (c == 0 <==> ya == yb)) &&
      (a.year != b.year && (ya.None? || yb.None?) ==> c == 0) &&
      (a.year == b.year ==> c == titleOrder(a.title, b.title))
  {
    var ya, yb := YearNumber(a.year), YearNumber(b.year);
    var c := PubOrder(titleOrder)(a, b);
    if a.year != b.year {
      assert c == NumberDescending(ya, yb);
    } else {
      assert c == titleOrder(a.title, b.title);
    }
  }

  /** With an antisymmetric title order, swapping the arguments negates the comparison. */
  lemma PubOrderAntisymmetric(titleOrder: (String, String) -> int, a: Pub, b: Pub)
    requires Antisymmetric(titleOrder)
    ensures PubOrder(titleOrder)(a, b) == -PubOrder(titleOrder)(b, a)
  {
    var ya, yb := YearNumber(a.year), YearNumber(b.year);
    assert PubOrder(titleOrder)(a, b) ==
      if b.year != a.year then NumberDescending(ya, yb) else titleOrder(a.title, b.title);
    assert PubOrder(titleOrder)(b, a) ==
      if a.year != b.year then NumberDescending(yb, ya) else titleOrder(b.title, a.title);
  }

  /** With an antisymmetric title order the comparator is consistent on any list. */
  lemma PubOrderConsistent(s: seq<Pub>, titleOrder: (String, String) -> int)
    requires Antisymmetric(titleOrder)
    ensures ConsistentOn(s, PubOrder(titleOrder))
  {
    var cmp := PubOrder(titleOrder);
    forall i, j | 0 <= i < |s| && 0 <= j < |s| && s[i] != s[j]
      ensures cmp(s[i], s[j]) < 0 <==> cmp(s[j], s[i]) > 0
    {
      PubOrderAntisymmetric(titleOrder, s[i], s[j]);
    }
    forall i | 0 <= i < |s| ensures cmp(s[i], s[i]) <= 0 {
      PubOrderAntisymmetric(titleOrder, s[i], s[i]);
    }
  }

  /**
   * The sorted list holds the deduplicated records, each exactly once as often as before, and
   * every pair of neighbours is in order: different parsed years descending, equal year
   * strings by title. (NaN years make the comparator intransitive, so no more than the
   * neighbour order can be promised of the whole list.)
   */
  lemma PublicationsSpec(raw: seq<Pub>, titleOrder: (String, String) -> int)
    requires Antisymmetric(titleOrder)
    ensures var s := Publications(raw, titleOrder);
      multiset(s) == multiset(UniqueByTitle(raw)) &&
      forall i :: 0 <= i < |s| - 1 ==>
        var ya, yb := YearNumber(s[i].year), YearNumber(s[i + 1].year);
        (s[i].year != s[i + 1].year && ya.Some? && yb.Some? ==> ya.value >= yb.value) &&
        (s[i].year == s[i + 1].year ==> titleOrder(s[i].title, s[i + 1].title) <= 0)
  {
    var u := UniqueByTitle(raw);
    var s := Publications(raw, titleOrder);
    SortByPermutes(u, PubOrder(titleOrder));
    PubOrderConsistent(u, titleOrder);
    SortByAdjacentSorted(u, PubOrder(titleOrder));
    forall i | 0 <= i < |s| - 1
      ensures var ya, yb := YearNumber(s[i].year), YearNumber(s[i + 1].year);
        (s[i].year != s[i + 1].year && ya.Some? && yb.Some? ==> ya.value >= yb.value) &&
        (s[i].year == s[i + 1].year ==> titleOrder(s[i].title, s[i + 1].title) <= 0)
    {
      PubOrderCases(titleOrder, s[i], s[i + 1]);
    }
  }

  /** The sort keeps the titles distinct. */
  lemma PublicationsDistinct(raw: seq<Pub>, titleOrder: (String, String) -> int)
    ensures Scraper.DistinctTitles(Publications(raw, titleOrder))
  {
    var u := UniqueByTitle(raw);
    var s := Publications(raw, titleOrder);
    UniqueByTitleSpec(raw);
    SortByPermutes(u, PubOrder(titleOrder));
    assert Distinct(u);
    DistinctPermutation(u, s);
    forall i, j | 0 <= i < j < |s| ensures s[i].title != s[j].title {
      assert s[i] in multiset(u) && s[j] in multiset(u);
      var a :| 0 <= a < |u| && u[a] == s[i];
      var b :| 0 <= b < |u| && u[b] == s[j];
    }
  }

  // ---------------------------------------------------------------------------------------
  // Grouping by year: the `reduce` over `publications`

  const UnknownYear: String := "Unknown"

  /** `pub.year || "Unknown"`. */
  function GroupKey(p: Pub): (k: String)
    ensures k != []
    ensures p.year != [] ==> k == p.year
  {
    if p.year == [] then UnknownYear else p.year
  }

  function InGroup(k: String): Pub -> bool
  {
    (p: Pub) => GroupKey(p) == k
  }

  function GroupKeys(pubs: seq<Pub>): set<String>
  {
    set p | p in pubs :: GroupKey(p)
  }

  /** The accumulator the `reduce` returns: each key maps to its records, in list order. */
  function Groups(pubs: seq<Pub>): map<String, seq<Pub>>
  {
    map k | k in GroupKeys(pubs) :: Filter(pubs, InGroup(k))
  }

  /** The order in which the `reduce` creates the keys. */
  function KeyOrder(pubs: seq<Pub>): seq<String>
    decreases |pubs|
  {
    if pubs == [] then []
    else
      var init, k := KeyOrder(pubs[..|pubs| - 1]), GroupKey(pubs[|pubs| - 1]);
      init + if k in init then [] else [k]
  }

  lemma GroupKeysSnoc(s: seq<Pub>, x: Pub)
    ensures GroupKeys(s + [x]) == GroupKeys(s) + {GroupKey(x)}
  {
    var l, r := GroupKeys(s + [x]), GroupKeys(s) + {GroupKey(x)};
    forall k | k in l ensures k in r {
      var p :| p in s + [x] && GroupKey(p) == k;
      if p != x {
        assert p in s;
      }
    }
    forall k | k in r ensures k in l {
      if k != GroupKey(x) {
        var p :| p in s && GroupKey(p) == k;
        assert p in s + [x];
      } else {
        assert x in s + [x];
      }
    }
  }

  /** One more record: its group gains it at the end, created empty first if needed. */
  lemma GroupsSnoc(s: seq<Pub>, x: Pub)
    ensures var g, k := Groups(s), GroupKey(x);
      Groups(s + [x]) == g[k := (if k in g then g[k] else []) + [x]]
  {
    var g, k := Groups(s), GroupKey(x);
    var l, r := Groups(s + [x]), g[k := (if k in g then g[k] else []) + [x]];
    GroupKeysSnoc(s, x);
    assert l.Keys == r.Keys;
    forall j | j in l ensures l[j] == r[j] {
      FilterSnoc(s, x, InGroup(j));
      if j !in g {
        forall y | y in s ensures !InGroup(j)(y) {
          assert GroupKey(y) in GroupKeys(s);
        }
        FilterNone(s, InGroup(j));
      }
    }
  }

  /** The key order lists every key once. */
  lemma {:induction false} KeyOrderSpec(s: seq<Pub>)
    ensures Distinct(KeyOrder(s))
    ensures forall k :: k in KeyOrder(s) <==> k in Groups(s)
    decreases |s|
  {
    if s != [] {
      var init, x := s[..|s| - 1], s[|s| - 1];
      assert s == init + [x];
      KeyOrderSpec(init);
      GroupKeysSnoc(init, x);
    }
  }

  /**
   * The `reduce` with its in-place `push`: `acc` is the grouping of the records and `keys`
   * the order in which its keys were created.
   */
  method GroupByYear(pubs: seq<Pub>) returns (acc: map<String, seq<Pub>>, keys: seq<String>)
    ensures acc == Groups(pubs)
    ensures keys == KeyOrder(pubs)
  {
    acc, keys := map[], [];
    GroupsEmpty();
    for i := 0 to |pubs|
      invariant acc == Groups(pubs[..i])
      invariant keys == KeyOrder(pubs[..i])
    {
      var pub := pubs[i];
      var year := if pub.year == [] then UnknownYear else pub.year;
      ghost var acc0, keys0 := acc, keys;
      if year !in acc {
        acc := acc[year := []];
        keys := keys + [year];
      }
      GroupStepAt(pubs, i, acc0, keys0, acc, keys);
      acc := acc[year := acc[year] + [pub]];
    }
    assert pubs[..|pubs|] == pubs;
  }

  lemma GroupsEmpty()
    ensures Groups([]) == map[] && KeyOrder([]) == []
  {
    assert GroupKeys([]) == {};
  }

  /** The iteration at record `i`, stated on the prefixes the loop invariant names. */
  lemma GroupStepAt(pubs: seq<Pub>, i: nat, acc0: map<String, seq<Pub>>, keys0: seq<String>,
                    acc1: map<String, seq<Pub>>, keys1: seq<String>)
    requires i < |pubs| && acc0 == Groups(pubs[..i]) && keys0 == KeyOrder(pubs[..i])
    requires var k := GroupKey(pubs[i]);
      acc1 == (if k in acc0 then acc0 else acc0[k := []]) &&
      keys1 == (if k in acc0 then keys0 else keys0 + [k])
    ensures GroupKey(pubs[i]) in acc1
    ensures acc1[GroupKey(pubs[i]) := acc1[GroupKey(pubs[i])] + [pubs[i]]] == Groups(pubs[..i + 1])
    ensures keys1 == KeyOrder(pubs[..i + 1])
  {
    TakeSnoc(pubs, i);
    GroupStep(pubs[..i], pubs[i], acc0, keys0, acc1, keys1);
  }

  /** One iteration of the `reduce`: create the group if it is missing, then push. */
  lemma GroupStep(s: seq<Pub>, x: Pub, acc0: map<String, seq<Pub>>, keys0: seq<String>,
                  acc1: map<String, seq<Pub>>, keys1: seq<String>)
    requires acc0 == Groups(s) && keys0 == KeyOrder(s)
    requires var k := GroupKey(x);
      acc1 == (if k in acc0 then acc0 else acc0[k := []]) &&
      keys1 == (if k in acc0 then keys0 else keys0 + [k])
    ensures GroupKey(x) in acc1
    ensures acc1[GroupKey(x) := acc1[GroupKey(x)] + [x]] == Groups(s + [x])
    ensures keys1 == KeyOrder(s + [x])
  {
    GroupStepMap(s, x, acc0, acc1);
    KeyOrderStep(s, x);
  }

  lemma GroupStepMap(s: seq<Pub>, x: Pub, acc0: map<String, seq<Pub>>, acc1: map<String, seq<Pub>>)
    requires acc0 == Groups(s)
    requires acc1 == if GroupKey(x) in acc0 then acc0 else acc0[GroupKey(x) := []]
    ensures GroupKey(x) in acc1
    ensures acc1[GroupKey(x) := acc1[GroupKey(x)] + [x]] == Groups(s + [x])
  {
    var k := GroupKey(x);
    GroupsSnoc(s, x);
    if k in acc0 {
      assert acc1[k := acc1[k] + [x]] == acc0[k := acc0[k] + [x]];
    } else {
      assert acc1[k := acc1[k] + [x]] == acc0[k := [] + [x]];
    }
  }

  lemma KeyOrderStep(s: seq<Pub>, x: Pub)
    ensures KeyOrder(s + [x]) == KeyOrder(s) + if GroupKey(x) in Groups(s) then [] else [GroupKey(x)]
  {
    KeyOrderSpec(s);
    assert (s + [x])[..|s|] == s;
  }

  /**
   * Each record lands in exactly one group, the one named by its year (or "Unknown"), and
   * each group is a subsequence of the list, so the sorted order is kept within it.
   */
  lemma GroupsPartition(pubs: seq<Pub>, i: nat, k: String)
    requires i < |pubs|
    ensures GroupKey(pubs[i]) in Groups(pubs) && pubs[i] in Groups(pubs)[GroupKey(pubs[i])]
    ensures k in Groups(pubs) && pubs[i] in Groups(pubs)[k] ==> k == GroupKey(pubs[i])
    ensures k in Groups(pubs) ==> IsSubsequence(Groups(pubs)[k], pubs)
  {
    var g, key := Groups(pubs), GroupKey(pubs[i]);
    assert pubs[i] in pubs;
    assert key in GroupKeys(pubs);
    assert g[key] == Filter(pubs, InGroup(key));
    assert InGroup(key)(pubs[i]);
    if k in g {
      var r := Filter(pubs, InGroup(k));
      assert g[k] == r;
      if pubs[i] in r {
        var j :| 0 <= j < |r| && r[j] == pubs[i];
        assert InGroup(k)(r[j]);
      }
      FilterIsSubsequence(pubs, InGroup(k));
    }
  }

  /** The total size of the groups named in `ks`. */
  function GroupSizes(g: map<String, seq<Pub>>, ks: seq<String>): nat
    requires forall k :: k in ks ==> k in g
    decreases |ks|
  {
    if ks == [] then 0 else |g[ks[0]]| + GroupSizes(g, ks[1..])
  }

  function InKeys(ks: seq<String>): Pub -> bool
  {
    (p: Pub) => GroupKey(p) in ks
  }

  lemma {:induction false} GroupSizesCount(pubs: seq<Pub>, ks: seq<String>)
    requires Distinct(ks) && forall k :: k in ks ==> k in Groups(pubs)
    ensures GroupSizes(Groups(pubs), ks) == Count(pubs, InKeys(ks))
    decreases |ks|
  {
    if ks == [] {
      FilterNone(pubs, InKeys(ks));
    } else {
      var rest := ks[1..];
      DistinctTail(ks);
      GroupSizesCount(pubs, rest);
      assert ks == [ks[0]] + rest;
      assert GroupSizes(Groups(pubs), ks) == |Filter(pubs, InGroup(ks[0]))| + GroupSizes(Groups(pubs), rest);
      forall x ensures !(InGroup(ks[0])(x) && InKeys(rest)(x)) && (InKeys(ks)(x) == (InGroup(ks[0])(x) || InKeys(rest)(x))) {
      }
      CountUnion(pubs, InGroup(ks[0]), InKeys(rest), InKeys(ks));
    }
  }

  /** Ranging over all keys once each, the group sizes add up to the number of records. */
  lemma GroupSizesTotal(pubs: seq<Pub>, ks: seq<String>)
    requires Distinct(ks) && forall k :: k in ks <==> k in Groups(pubs)
    ensures GroupSizes(Groups(pubs), ks) == |pubs|
  {
    GroupSizesCount(pubs, ks);
    forall p | p in pubs ensures InKeys(ks)(p) {
      assert GroupKey(p) in GroupKeys(pubs);
    }
    FilterAll(pubs, InKeys(ks));
  }

  // ---------------------------------------------------------------------------------------
  // sortedYears

  /** Keys that JavaScript objects enumerate first, in ascending numeric order. */
  predicate IsArrayIndex(k: String)
  {
    k != [] && AllDigits(k) && (k[0] != '0' || |k| == 1) && DigitsValue(k) < 0xFFFF_FFFF
  }

  predicate NotArrayIndex(k: String) { !IsArrayIndex(k) }

  function IndexValue(k: String): int
  {
    if AllDigits(k) then DigitsValue(k) else 0
  }

  function AscendingIndex(a: String, b: String): int
  {
    IndexValue(a) - IndexValue(b)
  }

  /** `Object.keys(acc)`: the array-index keys ascending, then the rest in creation order. */
  function ObjectKeys(keys: seq<String>): seq<String>
  {
    SortBy(Filter(keys, IsArrayIndex), AscendingIndex) + Filter(keys, NotArrayIndex)
  }

  /** The comparator of `sortedYears`. */
  function YearOrder(a: String, b: String): int
  {
    if a == UnknownYear then 1
    else if b == UnknownYear then -1
    else NumberDescending(ParseInt(a), ParseInt(b))
  }

  function SortedYears(keys: seq<String>): seq<String>
  {
    SortBy(ObjectKeys(keys), YearOrder)
  }

  lemma ObjectKeysPermutes(keys: seq<String>)
    ensures multiset(ObjectKeys(keys)) == multiset(keys)
  {
    SortByPermutes(Filter(keys, IsArrayIndex), AscendingIndex);
    FilterPartition(keys, IsArrayIndex, NotArrayIndex);
  }

  lemma YearOrderAntisymmetric(a: String, b: String)
    requires a != b
    ensures YearOrder(a, b) == -YearOrder(b, a)
  {
    var pa, pb := ParseInt(a), ParseInt(b);
    assert YearOrder(a, b) ==
      if a == UnknownYear then 1 else if b == UnknownYear then -1 else NumberDescending(pa, pb);
    assert YearOrder(b, a) ==
      if b == UnknownYear then 1 else if a == UnknownYear then -1 else NumberDescending(pb, pa);
  }

  /** The comparator is consistent on any list of distinct keys. */
  lemma YearOrderConsistent(o: seq<String>)
    requires Distinct(o)
    ensures ConsistentOn(o, YearOrder)
  {
    DistinctMultiset(o);
    forall i, j | 0 <= i < |o| && 0 <= j < |o| && o[i] != o[j]
      ensures YearOrder(o[i], o[j]) < 0 <==> YearOrder(o[j], o[i]) > 0
    {
      YearOrderAntisymmetric(o[i], o[j]);
    }
    forall i | 0 <= i < |o| ensures YearOrder(o[i], o[i]) <= 0 || multiset(o)[o[i]] == 1 {
      assert o[i] in multiset(o);
    }
  }

  /** `sortedYears` lists every group key exactly once. */
  lemma SortedYearsKeys(pubs: seq<Pub>)
    ensures Distinct(ObjectKeys(KeyOrder(pubs)))
    ensures var ys := SortedYears(KeyOrder(pubs));
      Distinct(ys) && forall k :: k in ys <==> k in Groups(pubs)
  {
    var keys := KeyOrder(pubs);
    var o := ObjectKeys(keys);
    var ys := SortedYears(keys);
    KeyOrderSpec(pubs);
    ObjectKeysPermutes(keys);
    SortByPermutes(o, YearOrder);
    DistinctPermutation(keys, o);
    DistinctPermutation(o, ys);
    forall k ensures k in ys <==> k in keys {
      assert k in ys <==> k in multiset(ys);
      assert k in keys <==> k in multiset(keys);
    }
  }

  /** What a non-positive comparison of two keys says about them. */
  lemma YearOrderNeighbours(a: String, b: String)
    requires YearOrder(a, b) <= 0
    ensures a != UnknownYear
    ensures ParseInt(a).Some? && ParseInt(b).Some? ==> ParseInt(a).value >= ParseInt(b).value
  {
    var pa, pb := ParseInt(a), ParseInt(b);
    UnknownIsNaN();
    assert YearOrder(a, b) ==
      if a == UnknownYear then 1 else if b == UnknownYear then -1 else NumberDescending(pa, pb);
  }

  /** `parseInt("Unknown")` is NaN. */
  lemma UnknownIsNaN()
    ensures ParseInt(UnknownYear).None?
  {
    var u := UnknownYear;
    assert !IsSpace(u[0]) && StripStart(u, Whitespace) == u;
    assert Unsigned(u) == u && !IsDigit(u[0]);
  }

  /**
   * `sortedYears` puts "Unknown", when present, last, and orders each pair of neighbouring
   * numeric years descending.
   */
  lemma SortedYearsOrder(pubs: seq<Pub>)
    ensures var ys := SortedYears(KeyOrder(pubs));
      (forall i :: 0 <= i < |ys| - 1 ==> ys[i] != UnknownYear) &&
      (UnknownYear in ys ==> ys[|ys| - 1] == UnknownYear) &&
      forall i :: 0 <= i < |ys| - 1 && ParseInt(ys[i]).Some? && ParseInt(ys[i + 1]).Some? ==>
        ParseInt(ys[i]).value >= ParseInt(ys[i + 1]).value
  {
    var ys := SortedYears(KeyOrder(pubs));
    SortedYearsAdjacent(pubs);
    AdjacentYears(ys);
    OnlyLast(ys, UnknownYear);
  }

  /** Neighbours in the year order: no "Unknown" before the end, numeric years descending. */
  lemma AdjacentYears(ys: seq<String>)
    requires AdjacentSorted(ys, YearOrder)
    ensures forall i :: 0 <= i < |ys| - 1 ==> ys[i] != UnknownYear
    ensures forall i :: 0 <= i < |ys| - 1 && ParseInt(ys[i]).Some? && ParseInt(ys[i + 1]).Some? ==>
      ParseInt(ys[i]).value >= ParseInt(ys[i + 1]).value
  {
    forall i | 0 <= i < |ys| - 1
      ensures ys[i] != UnknownYear
      ensures ParseInt(ys[i]).Some? && ParseInt(ys[i + 1]).Some? ==> ParseInt(ys[i]).value >= ParseInt(ys[i + 1]).value
    {
      assert YearOrder(ys[i], ys[i + 1]) <= 0;
      YearOrderNeighbours(ys[i], ys[i + 1]);
    }
  }

  lemma SortedYearsAdjacent(pubs: seq<Pub>)
    ensures AdjacentSorted(SortedYears(KeyOrder(pubs)), YearOrder)
  {
    var o := ObjectKeys(KeyOrder(pubs));
    SortedYearsKeys(pubs);
    YearOrderConsistent(o);
    SortByAdjacentSorted(o, YearOrder);
  }

  /** A value that occurs nowhere before the last position can only occur there. */
  lemma OnlyLast(s: seq<String>, x: String)
    requires forall i :: 0 <= i < |s| - 1 ==> s[i] != x
    ensures x in s ==> s[|s| - 1] == x
  {
  }

  // ---------------------------------------------------------------------------------------
  // The page

  /**
   * The page shows every deduplicated record exactly once: the groups named by `sortedYears`
   * together hold as many records as the sorted list.
   */
  lemma PageShowsEveryRecord(raw: seq<Pub>, titleOrder: (String, String) -> int)
    ensures var pubs := Publications(raw, titleOrder);
      var ys := SortedYears(KeyOrder(pubs));
      (forall k :: k in ys ==> k in Groups(pubs)) &&
      GroupSizes(Groups(pubs), ys) == |pubs| == |UniqueByTitle(raw)|
  {
    var pubs := Publications(raw, titleOrder);
    SortedYearsKeys(pubs);
    GroupSizesTotal(pubs, SortedYears(KeyOrder(pubs)));
  }
}
