/**
 * The sort of Examples/insertion_sort.c, whose inner loop runs down to 0 even after the element
 * has found its place, on an array of any length.
 */
module InsertionSort {

  /** A key with the position it had in the input; the program only ever looks at keys. */
  datatype Tagged = Tagged(key: int, tag: nat)

  function Tag(s: seq<int>): seq<Tagged> {
    seq(|s|, i requires 0 <= i < |s| => Tagged(s[i], i))
  }

  function Keys(ts: seq<Tagged>): seq<int> {
    seq(|ts|, i requires 0 <= i < |ts| => ts[i].key)
  }

  // ---- The program as a function of the whole array -------------------------------------------

  function Exchange(ts: seq<Tagged>, j: nat): seq<Tagged>
    requires 0 < j < |ts|
  {
    ts[j - 1 := ts[j]][j := ts[j - 1]]
  }

  /** The inner loop from j down to 0. */
  function Scan(ts: seq<Tagged>, j: nat): (r: seq<Tagged>)
    requires j < |ts| || j == 0
    ensures |r| == |ts|
    decreases j
  {
    if j == 0 then ts
    else if ts[j - 1].key > ts[j].key then Scan(Exchange(ts, j), j - 1)
    else Scan(ts, j - 1)
  }

  /** The exchanges the inner loop makes. */
  function ScanSwaps(ts: seq<Tagged>, j: nat): nat
    requires j < |ts| || j == 0
    decreases j
  {
    if j == 0 then 0
    else if ts[j - 1].key > ts[j].key then 1 + ScanSwaps(Exchange(ts, j), j - 1)
    else ScanSwaps(ts, j - 1)
  }

  /** The array after the first n passes of the outer loop. */
  function Passes(ts: seq<Tagged>, n: nat): (r: seq<Tagged>)
    requires n <= |ts|
    ensures |r| == |ts|
  {
    if n == 0 then ts else Scan(Passes(ts, n - 1), n - 1)
  }

  function PassesSwaps(ts: seq<Tagged>, n: nat): nat
    requires n <= |ts|
  {
    if n == 0 then 0 else PassesSwaps(ts, n - 1) + ScanSwaps(Passes(ts, n - 1), n - 1)
  }

  /** The textbook form: stop at the first ordered pair. */
  function EarlyScan(ts: seq<Tagged>, j: nat): (r: seq<Tagged>)
    requires j < |ts| || j == 0
    ensures |r| == |ts|
    decreases j
  {
    if j == 0 || ts[j - 1].key <= ts[j].key then ts
    else EarlyScan(Exchange(ts, j), j - 1)
  }

  function EarlyPasses(ts: seq<Tagged>, n: nat): (r: seq<Tagged>)
    requires n <= |ts|
    ensures |r| == |ts|
  {
    if n == 0 then ts else EarlyScan(EarlyPasses(ts, n - 1), n - 1)
  }

  // ---- What sorting means ----------------------------------------------------------------------

  /** Strict order by key, and by original position between equal keys. */
  predicate Before(a: Tagged, b: Tagged) {
    a.key < b.key || (a.key == b.key && a.tag < b.tag)
  }

  ghost predicate Ordered(ts: seq<Tagged>, n: nat)
    requires n <= |ts|
  {
    forall a, b :: 0 <= a < b < n ==> Before(ts[a], ts[b])
  }

  /** Keys in the first n places are nondecreasing. */
  ghost predicate Nondecreasing(ts: seq<Tagged>, n: nat)
    requires n <= |ts|
  {
    forall a, b :: 0 <= a < b < n ==> ts[a].key <= ts[b].key
  }

  /** The pairs of positions whose values are out of order. */
  ghost function InversionPairs(s: seq<int>): set<(nat, nat)> {
    set i: nat, j: nat | i < j < |s| && s[i] > s[j] :: (i, j)
  }

  // ---- One pass ----------------------------------------------------------------------------------

  /** Once the prefix is in order, the rest of the inner loop does nothing. */
  lemma {:induction false} ScanOfOrdered(ts: seq<Tagged>, j: nat)
    requires j < |ts| && Nondecreasing(ts, j + 1)
    ensures Scan(ts, j) == ts && ScanSwaps(ts, j) == 0
    decreases j
  {
    if j > 0 { ScanOfOrdered(ts, j - 1); }
  }

  /**
   * The full inner loop gives the same array as the early exit: after the first comparison that
   * does not exchange, no later one does.
   */
  lemma {:induction false} ScanIsEarlyScan(ts: seq<Tagged>, j: nat)
    requires j < |ts| && Nondecreasing(ts, j)
    ensures Scan(ts, j) == EarlyScan(ts, j)
    decreases j
  {
    if j > 0 {
      if ts[j - 1].key > ts[j].key {
        ScanIsEarlyScan(Exchange(ts, j), j - 1);
      } else {
        ScanOfOrdered(ts, j - 1);
      }
    }
  }

  /** A pass touches nothing after element j. */
  lemma {:induction false} ScanKeepsRest(ts: seq<Tagged>, j: nat, k: nat)
    requires j < k < |ts|
    ensures Scan(ts, j)[k] == ts[k]
    decreases j
  {
    if j > 0 {
      ScanKeepsRest(if ts[j - 1].key > ts[j].key then Exchange(ts, j) else ts, j - 1, k);
    }
  }

  lemma ExchangePermutes(ts: seq<Tagged>, j: nat)
    requires 0 < j < |ts|
    ensures multiset(Exchange(ts, j)[..j + 1]) == multiset(ts[..j + 1])
  {
    assert ts[..j + 1] == ts[..j - 1] + [ts[j - 1]] + [ts[j]];
    assert Exchange(ts, j)[..j + 1] == ts[..j - 1] + [ts[j]] + [ts[j - 1]];
  }

  /** Sequences equal at n, with equal multisets below n, have equal multisets up to n. */
  lemma PrefixGrows(a: seq<Tagged>, b: seq<Tagged>, n: nat)
    requires n < |a| && n < |b| && a[n] == b[n] && multiset(a[..n]) == multiset(b[..n])
    ensures multiset(a[..n + 1]) == multiset(b[..n + 1])
  {
    assert a[..n + 1] == a[..n] + [a[n]];
    assert b[..n + 1] == b[..n] + [b[n]];
  }

  /** A pass permutes the elements up to j. */
  lemma {:induction false} ScanPermutes(ts: seq<Tagged>, j: nat)
    requires j < |ts|
    ensures multiset(Scan(ts, j)[..j + 1]) == multiset(ts[..j + 1])
    decreases j
  {
    if j > 0 {
      var us := if ts[j - 1].key > ts[j].key then Exchange(ts, j) else ts;
      assert Scan(ts, j) == Scan(us, j - 1);
      ExchangePermutes(ts, j);
      hide Scan, Exchange;
      ScanPermutes(us, j - 1);
      ScanKeepsRest(us, j - 1, j);
      PrefixGrows(Scan(us, j - 1), us, j);
    }
  }

  lemma ScanElement(ts: seq<Tagged>, j: nat, a: nat) returns (b: nat)
    requires a <= j < |ts|
    ensures b <= j && Scan(ts, j)[a] == ts[b]
  {
    ScanPermutes(ts, j);
    assert Scan(ts, j)[..j + 1][a] in multiset(ts[..j + 1]);
    b :| b <= j && ts[..j + 1][b] == Scan(ts, j)[a];
  }

  /** One pass inserts element j into the ordered prefix before it. */
  lemma {:induction false} ScanInserts(ts: seq<Tagged>, j: nat)
    requires j < |ts| && Ordered(ts, j)
    requires forall a :: 0 <= a < j ==> ts[a].tag < ts[j].tag
    ensures Ordered(Scan(ts, j), j + 1)
    decreases j
  {
    if j > 0 {
      if ts[j - 1].key > ts[j].key {
        var us := Exchange(ts, j);
        var r := Scan(us, j - 1);
        ScanInserts(us, j - 1);
        ScanKeepsRest(us, j - 1, j);
        forall a | 0 <= a < j ensures Before(r[a], r[j]) {
          var b := ScanElement(us, j - 1, a);
          assert us[b] == if b == j - 1 then ts[j] else ts[b];
        }
      } else {
        assert Ordered(ts, j + 1);
        ScanOfOrdered(ts, j);
      }
    }
  }

  // ---- All passes ----------------------------------------------------------------------------------

  lemma PrefixTagsAreSmaller(s: seq<int>, us: seq<Tagged>, n: nat)
    requires n <= |s| == |us| && multiset(us[..n]) == multiset(Tag(s)[..n])
    ensures forall a :: 0 <= a < n ==> us[a].tag < n
  {
    forall a | 0 <= a < n ensures us[a].tag < n {
      assert us[..n][a] in multiset(Tag(s)[..n]);
    }
  }

  /** After n passes the elements from n on have not moved. */
  lemma {:induction false} PassesWait(s: seq<int>, n: nat, k: nat)
    requires n <= k < |s|
    ensures Passes(Tag(s), n)[k] == Tag(s)[k]
    decreases n
  {
    if n > 0 {
      PassesWait(s, n - 1, k);
      ScanKeepsRest(Passes(Tag(s), n - 1), n - 1, k);
    }
  }

  /** After n passes the first n elements are the first n of the input. */
  lemma {:induction false} PassesPermute(s: seq<int>, n: nat)
    requires n <= |s|
    ensures multiset(Passes(Tag(s), n)[..n]) == multiset(Tag(s)[..n])
    decreases n
  {
    if n > 0 {
      var us := Passes(Tag(s), n - 1);
      PassesPermute(s, n - 1);
      PassesWait(s, n - 1, n - 1);
      PrefixGrows(us, Tag(s), n - 1);
      ScanPermutes(us, n - 1);
    }
  }

  /** After n passes the first n elements are in order. */
  lemma {:induction false} PassesOrder(s: seq<int>, n: nat)
    requires n <= |s|
    ensures Ordered(Passes(Tag(s), n), n)
    decreases n
  {
    if n > 0 {
      var us := Passes(Tag(s), n - 1);
      PassesOrder(s, n - 1);
      PassesPermute(s, n - 1);
      PrefixTagsAreSmaller(s, us, n - 1);
      PassesWait(s, n - 1, n - 1);
      ScanInserts(us, n - 1);
    }
  }

  /**
   * The whole sort: nondecreasing, a permutation, and stable -- equal keys appear in the order
   * of their original positions.
   */
  lemma SortIsStable(s: seq<int>)
    ensures var r := Passes(Tag(s), |s|);
            && multiset(r) == multiset(Tag(s))
            && (forall a, b :: 0 <= a < b < |r| ==>
                  r[a].key < r[b].key || (r[a].key == r[b].key && r[a].tag < r[b].tag))
  {
    PassesOrder(s, |s|);
    PassesPermute(s, |s|);
    var r := Passes(Tag(s), |s|);
    assert r[..|s|] == r && Tag(s)[..|s|] == Tag(s);
    assert Ordered(r, |s|);
  }

  /** The early-exit sort and this one hold the same array after every pass of the outer loop. */
  lemma {:induction false} SortIsEarlySort(s: seq<int>, n: nat)
    requires n <= |s|
    ensures Passes(Tag(s), n) == EarlyPasses(Tag(s), n)
    decreases n
  {
    if n > 0 {
      SortIsEarlySort(s, n - 1);
      PassesOrder(s, n - 1);
      assert Ordered(Passes(Tag(s), n - 1), n - 1);
      ScanIsEarlyScan(Passes(Tag(s), n - 1), n - 1);
    }
  }

  // ---- Counting exchanges ---------------------------------------------------------------------------

  /** How many elements have a key above x. */
  function Above(ts: seq<Tagged>, x: int): nat {
    if ts == [] then 0
    else (if ts[|ts| - 1].key > x then 1 else 0) + Above(ts[..|ts| - 1], x)
  }

  lemma {:induction false} AboveOfConcat(a: seq<Tagged>, b: seq<Tagged>, x: int)
    ensures Above(a + b, x) == Above(a, x) + Above(b, x)
    decreases |b|
  {
    if b == [] {
      assert a + b == a;
    } else {
      AboveOfConcat(a, b[..|b| - 1], x);
      assert (a + b)[..|a + b| - 1] == a + b[..|b| - 1];
    }
  }

  lemma AboveGrows(ts: seq<Tagged>, n: nat, x: int)
    requires n < |ts|
    ensures Above(ts[..n + 1], x) == Above(ts[..n], x) + (if ts[n].key > x then 1 else 0)
  {
    assert ts[..n + 1][..n] == ts[..n];
  }

  /** Taking an element out takes its share of the count. */
  lemma AboveWithout(b: seq<Tagged>, i: nat, x: int)
    requires i < |b|
    ensures Above(b, x) == Above(b[..i] + b[i + 1..], x) + (if b[i].key > x then 1 else 0)
  {
    assert b == b[..i + 1] + b[i + 1..];
    AboveGrows(b, i, x);
    hide Above;
    AboveOfConcat(b[..i + 1], b[i + 1..], x);
    AboveOfConcat(b[..i], b[i + 1..], x);
  }

  lemma MultisetWithout(b: seq<Tagged>, i: nat)
    requires i < |b|
    ensures multiset(b[..i] + b[i + 1..]) == multiset(b) - multiset{b[i]}
  {
    assert b == b[..i] + [b[i]] + b[i + 1..];
  }

  /** The count does not depend on the order of the elements. */
  lemma {:induction false} AboveOfPermutation(a: seq<Tagged>, b: seq<Tagged>, x: int)
    requires multiset(a) == multiset(b)
    ensures Above(a, x) == Above(b, x)
    decreases |a|
  {
    if a == [] {
      assert b == [] by { assert |multiset(b)| == 0; }
    } else {
      hide Above;
      var n := |a| - 1;
      assert a[n] in multiset(b);
      var i :| 0 <= i < |b| && b[i] == a[n];
      MultisetWithout(a, n);
      MultisetWithout(b, i);
      AboveWithout(a, n, x);
      AboveWithout(b, i, x);
      AboveOfPermutation(a[..n] + a[n + 1..], b[..i] + b[i + 1..], x);
    }
  }

  /** A pass makes one exchange for each earlier element with a larger key. */
  lemma {:induction false} ScanSwapsAreAbove(ts: seq<Tagged>, j: nat)
    requires j < |ts| && Nondecreasing(ts, j)
    ensures ScanSwaps(ts, j) == Above(ts[..j], ts[j].key)
    decreases j
  {
    if j > 0 {
      assert ts[..j][..j - 1] == ts[..j - 1];
      if ts[j - 1].key > ts[j].key {
        var us := Exchange(ts, j);
        ScanSwapsAreAbove(us, j - 1);
        assert us[..j - 1] == ts[..j - 1];
      } else {
        ScanOfOrdered(ts, j - 1);
        NoneAbove(ts[..j], ts[j].key);
      }
    }
  }

  lemma {:induction false} NoneAbove(ts: seq<Tagged>, x: int)
    requires forall a :: 0 <= a < |ts| ==> ts[a].key <= x
    ensures Above(ts, x) == 0
    decreases |ts|
  {
    if ts != [] { NoneAbove(ts[..|ts| - 1], x); }
  }

  /** Inversions whose right end is the last element. */
  ghost function LastColumn(s: seq<int>): set<(nat, nat)>
    requires s != []
  {
    set i: nat | i < |s| - 1 && s[i] > s[|s| - 1] :: (i, |s| - 1)
  }

  /** The pairs (i, j) with i below n and s[i] above x. */
  ghost function Column(s: seq<int>, n: nat, x: int, j: nat): set<(nat, nat)>
    requires n <= |s|
  {
    set i: nat | i < n && s[i] > x :: (i, j)
  }

  lemma ColumnGrows(s: seq<int>, n: nat, x: int, j: nat)
    requires n < |s|
    ensures Column(s, n + 1, x, j) == Column(s, n, x, j) + (if s[n] > x then {(n, j)} else {})
    ensures (n, j) !in Column(s, n, x, j)
  {
  }

  lemma {:induction false} ColumnSize(s: seq<int>, n: nat, x: int, j: nat)
    requires n <= |s|
    ensures |Column(s, n, x, j)| == Above(Tag(s)[..n], x)
    decreases n
  {
    if n == 0 {
      assert Column(s, 0, x, j) == {};
    } else {
      hide Column, Above;
      ColumnSize(s, n - 1, x, j);
      ColumnGrows(s, n - 1, x, j);
      AboveGrows(Tag(s), n - 1, x);
    }
  }

  lemma LastColumnSize(s: seq<int>)
    requires s != []
    ensures |LastColumn(s)| == Above(Tag(s)[..|s| - 1], s[|s| - 1])
  {
    var n := |s| - 1;
    ColumnSize(s, n, s[n], n);
    assert LastColumn(s) == Column(s, n, s[n], n);
  }

  lemma UnionSize<T>(whole: set<T>, a: set<T>, b: set<T>)
    requires forall p :: p in whole <==> p in a || p in b
    requires forall p :: !(p in a && p in b)
    ensures |whole| == |a| + |b|
  {
    assert whole == a + b;
    assert a !! b;
  }

  /** An inversion either lies in the prefix or has the last element as its right end. */
  lemma InversionsSplit(s: seq<int>, i: nat, j: nat)
    requires s != []
    ensures (i, j) in InversionPairs(s) <==>
            (i, j) in InversionPairs(s[..|s| - 1]) || (i, j) in LastColumn(s)
    ensures !((i, j) in InversionPairs(s[..|s| - 1]) && (i, j) in LastColumn(s))
  {
  }

  /** Inversions of a prefix one longer: those of the prefix, and the larger elements before the last. */
  lemma InversionsExtend(s: seq<int>)
    requires s != []
    ensures |InversionPairs(s)| == |InversionPairs(s[..|s| - 1])| + Above(Tag(s)[..|s| - 1], s[|s| - 1])
  {
    var n := |s| - 1;
    var shorter, column := InversionPairs(s[..n]), LastColumn(s);
    forall p: (nat, nat)
      ensures p in InversionPairs(s) <==> p in shorter || p in column
      ensures !(p in shorter && p in column)
    {
      InversionsSplit(s, p.0, p.1);
    }
    UnionSize(InversionPairs(s), shorter, column);
    LastColumnSize(s);
  }

  lemma OrderedIsNondecreasing(ts: seq<Tagged>, n: nat)
    requires n <= |ts| && Ordered(ts, n)
    ensures Nondecreasing(ts, n)
  {
  }

  lemma TagOfPrefix(s: seq<int>, n: nat)
    requires 0 < n <= |s|
    ensures s[..n][..n - 1] == s[..n - 1] && Tag(s[..n])[..n - 1] == Tag(s)[..n - 1]
  {
  }

  /** Pass n exchanges once for each of the first n elements with a larger key than the next one. */
  lemma PassSwaps(s: seq<int>, n: nat)
    requires n < |s|
    ensures ScanSwaps(Passes(Tag(s), n), n) == Above(Tag(s)[..n], s[n])
  {
    hide Scan, ScanSwaps, Above, Passes, Ordered, Nondecreasing;
    var ts, us := Tag(s), Passes(Tag(s), n);
    PassesOrder(s, n);
    PassesPermute(s, n);
    PassesWait(s, n, n);
    OrderedIsNondecreasing(us, n);
    ScanSwapsAreAbove(us, n);
    AboveOfPermutation(us[..n], ts[..n], s[n]);
  }

  /** The exchanges of the first n passes number the inversions among the first n elements. */
  lemma {:induction false} SwapsAreInversions(s: seq<int>, n: nat)
    requires n <= |s|
    ensures PassesSwaps(Tag(s), n) == |InversionPairs(s[..n])|
    decreases n
  {
    if n == 0 {
      assert InversionPairs(s[..0]) == {};
    } else {
      hide InversionPairs, ScanSwaps, Above, Passes;
      SwapsAreInversions(s, n - 1);
      PassSwaps(s, n - 1);
      TagOfPrefix(s, n);
      InversionsExtend(s[..n]);
    }
  }

  // ---- The program ---------------------------------------------------------------------------------

  /** One comparison for each j from i down to 1, in each of n passes. */
  function Comparisons(n: nat): nat {
    if n == 0 then 0 else Comparisons(n - 1) + (n - 1)
  }

  lemma {:induction false} ComparisonsClosedForm(n: nat)
    ensures 2 * Comparisons(n) == n * (n - 1)
  {
    if n > 0 {
      ComparisonsClosedForm(n - 1);
      assert (n - 1) * (n - 2) + 2 * (n - 1) == n * (n - 1);
    }
  }

  /** The three assignments through tmp. */
  method ExchangeInPlace(t: array<int>, j: nat, ghost ts: seq<Tagged>)
    requires 0 < j < t.Length && t[..] == Keys(ts)
    modifies t
    ensures t[..] == Keys(Exchange(ts, j))
    ensures multiset(t[..]) == multiset(old(t[..]))
  {
    var tmp := t[j - 1];
    t[j - 1] := t[j];
    t[j] := tmp;
  }

  /** The inner loop, in place; the ghost sequence carries the tags along. */
  method InnerLoop(t: array<int>, i: nat, ghost start: seq<Tagged>)
    returns (ghost ts: seq<Tagged>, ghost swaps: nat, ghost comparisons: nat)
    requires i < t.Length && t[..] == Keys(start)
    modifies t
    ensures t[..] == Keys(ts) && ts == Scan(start, i)
    ensures multiset(t[..]) == multiset(old(t[..]))
    ensures swaps == ScanSwaps(start, i) && comparisons == i
  {
    ts, swaps, comparisons := start, 0, 0;
    var j := i;
    while j > 0
      invariant 0 <= j <= i && t[..] == Keys(ts)
      invariant multiset(t[..]) == multiset(old(t[..]))
      invariant Scan(start, i) == Scan(ts, j)
      invariant swaps + ScanSwaps(ts, j) == ScanSwaps(start, i)
      invariant comparisons + j == i
    {
      comparisons := comparisons + 1;
      if t[j - 1] > t[j] {
        ExchangeInPlace(t, j, ts);
        ts, swaps := Exchange(ts, j), swaps + 1;
      }
      j := j - 1;
    }
  }

  /**
   * The whole program, in place: sorted, a permutation, one exchange for each inversion of the
   * input and n(n-1)/2 comparisons whatever the input.
   */
  method Sort(t: array<int>) returns (ghost ts: seq<Tagged>, ghost swaps: nat, ghost comparisons: nat)
    modifies t
    ensures ts == Passes(Tag(old(t[..])), t.Length) && t[..] == Keys(ts)
    ensures forall a, b :: 0 <= a < b < t.Length ==> t[a] <= t[b]
    ensures multiset(t[..]) == multiset(old(t[..]))
    ensures swaps == |InversionPairs(old(t[..]))|
    ensures 2 * comparisons == t.Length * (t.Length - 1)
  {
    hide Scan, ScanSwaps, InversionPairs, Exchange;
    ghost var s := t[..];
    ts, swaps, comparisons := Tag(s), 0, 0;
    for i := 0 to t.Length
      invariant t[..] == Keys(ts) && multiset(t[..]) == multiset(s)
      invariant ts == Passes(Tag(s), i) && swaps == PassesSwaps(Tag(s), i)
      invariant comparisons == Comparisons(i)
    {
      ghost var moreSwaps, moreComparisons;
      ts, moreSwaps, moreComparisons := InnerLoop(t, i, ts);
      swaps, comparisons := swaps + moreSwaps, comparisons + moreComparisons;
    }
    SortIsStable(s);
    assert s[..|s|] == s;
    SwapsAreInversions(s, |s|);
    ComparisonsClosedForm(t.Length);
  }
}
