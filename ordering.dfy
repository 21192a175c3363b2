/** Orders, dense ranks and running counts shared by the table operations.

    pandas sorts strings by code point, ranks with `method='dense'`,
    factorizes with `sort=True` and numbers rows with `groupby().cumcount()`;
    each of these is defined here once, for any strict total order. */
module Ordering {

  /** Python's `<` on `str`: lexicographic by code point, a proper prefix first. */
  predicate StrLt(a: string, b: string)
    decreases |a|
  {
    if |b| == 0 then false
    else if |a| == 0 then true
    else if a[0] != b[0] then a[0] < b[0]
    else StrLt(a[1..], b[1..])
  }

  lemma {:induction false} StrLtIrreflexive(a: string)
    ensures !StrLt(a, a)
  {
    if |a| > 0 {
      StrLtIrreflexive(a[1..]);
    }
  }

  lemma {:induction false} StrLtTransitive(a: string, b: string, c: string)
    requires StrLt(a, b) && StrLt(b, c)
    ensures StrLt(a, c)
    decreases |a|
  {
    if |a| > 0 && a[0] == b[0] && b[0] == c[0] {
      StrLtTransitive(a[1..], b[1..], c[1..]);
    }
  }

  lemma {:induction false} StrLtTotal(a: string, b: string)
    requires a != b
    ensures StrLt(a, b) || StrLt(b, a)
    decreases |a|
  {
    if |a| > 0 && |b| > 0 && a[0] == b[0] {
      assert a == [a[0]] + a[1..];
      assert b == [b[0]] + b[1..];
      StrLtTotal(a[1..], b[1..]);
    }
  }

  /** `lt` is irreflexive, transitive and relates any two distinct values. */
  ghost predicate StrictTotalOrder<T(!new)>(lt: (T, T) -> bool)
  {
    && (forall a :: !lt(a, a))
    && (forall a, b, c :: lt(a, b) && lt(b, c) ==> lt(a, c))
    && (forall a, b :: a != b ==> lt(a, b) || lt(b, a))
  }

  lemma StrLtIsStrictTotalOrder()
    ensures StrictTotalOrder(StrLt)
  {
    forall a ensures !StrLt(a, a) {
      StrLtIrreflexive(a);
    }
    forall a, b, c | StrLt(a, b) && StrLt(b, c) ensures StrLt(a, c) {
      StrLtTransitive(a, b, c);
    }
    forall a, b | a != b ensures StrLt(a, b) || StrLt(b, a) {
      StrLtTotal(a, b);
    }
  }

  predicate IntLt(a: int, b: int) { a < b }

  lemma IntLtIsStrictTotalOrder()
    ensures StrictTotalOrder(IntLt)
  {
  }

  /** The distinct values of a sequence. */
  function Elems<T>(xs: seq<T>): set<T>
  {
    set x | x in xs
  }

  ghost predicate StrictlySorted<T>(s: seq<T>, lt: (T, T) -> bool)
  {
    forall i, j :: 0 <= i < j < |s| ==> lt(s[i], s[j])
  }

  ghost predicate Distinct<T>(s: seq<T>)
  {
    forall i, j :: 0 <= i < j < |s| ==> s[i] != s[j]
  }

  lemma StrictlySortedIsDistinct<T(!new)>(s: seq<T>, lt: (T, T) -> bool)
    requires StrictTotalOrder(lt) && StrictlySorted(s, lt)
    ensures Distinct(s)
  {
  }

  /** A duplicate-free sequence has as many distinct values as elements. */
  lemma {:induction false} DistinctCard<T>(s: seq<T>)
    requires Distinct(s)
    ensures |Elems(s)| == |s|
  {
    if s != [] {
      var t := s[..|s| - 1];
      DistinctCard(t);
      assert Elems(s) == Elems(t) + {s[|s| - 1]};
      assert s[|s| - 1] !in Elems(t);
    }
  }

  /** Inserts `x` into a strictly sorted sequence, keeping it strictly sorted. */
  function Insert<T(==)>(s: seq<T>, x: T, lt: (T, T) -> bool): (r: seq<T>)
    decreases |s|
  {
    if s == [] then [x]
    else if x == s[0] then s
    else if lt(x, s[0]) then [x] + s
    else [s[0]] + Insert(s[1..], x, lt)
  }

  lemma ElemsCons<T>(x: T, s: seq<T>)
    ensures Elems([x] + s) == {x} + Elems(s)
  {
  }

  lemma {:induction false} InsertElems<T>(s: seq<T>, x: T, lt: (T, T) -> bool)
    ensures Elems(Insert(s, x, lt)) == Elems(s) + {x}
    decreases |s|
  {
    if s != [] {
      assert s == [s[0]] + s[1..];
      ElemsCons(s[0], s[1..]);
      if x != s[0] && !lt(x, s[0]) {
        InsertElems(s[1..], x, lt);
        ElemsCons(s[0], Insert(s[1..], x, lt));
      } else if x != s[0] {
        ElemsCons(x, s);
      }
    }
  }

  lemma {:induction false} InsertSorted<T(!new)>(s: seq<T>, x: T, lt: (T, T) -> bool)
    requires StrictTotalOrder(lt) && StrictlySorted(s, lt)
    ensures StrictlySorted(Insert(s, x, lt), lt)
    decreases |s|
  {
    if s != [] && x != s[0] && !lt(x, s[0]) {
      var r := Insert(s[1..], x, lt);
      InsertSorted(s[1..], x, lt);
      InsertElems(s[1..], x, lt);
      forall k | 0 <= k < |r| ensures lt(s[0], r[k]) {
        assert r[k] in Elems(r);
      }
      assert Insert(s, x, lt) == [s[0]] + r;
    }
  }

  lemma InsertCorrect<T(!new)>(s: seq<T>, x: T, lt: (T, T) -> bool)
    requires StrictTotalOrder(lt) && StrictlySorted(s, lt)
    ensures StrictlySorted(Insert(s, x, lt), lt)
    ensures Elems(Insert(s, x, lt)) == Elems(s) + {x}
  {
    InsertSorted(s, x, lt);
    InsertElems(s, x, lt);
  }

  /** The distinct values of `xs` in ascending order: what `groupby(...)`
      produces as its sorted group keys and `sorted(set(...))` as a list. */
  function SortedDistinct<T(==)>(xs: seq<T>, lt: (T, T) -> bool): seq<T>
    decreases |xs|
  {
    if xs == [] then [] else Insert(SortedDistinct(xs[..|xs| - 1], lt), xs[|xs| - 1], lt)
  }

  lemma {:induction false} SortedDistinctCorrect<T(!new)>(xs: seq<T>, lt: (T, T) -> bool)
    requires StrictTotalOrder(lt)
    ensures StrictlySorted(SortedDistinct(xs, lt), lt)
    ensures Elems(SortedDistinct(xs, lt)) == Elems(xs)
    ensures |SortedDistinct(xs, lt)| == |Elems(xs)|
    decreases |xs|
  {
    if xs != [] {
      var init := xs[..|xs| - 1];
      SortedDistinctCorrect(init, lt);
      InsertCorrect(SortedDistinct(init, lt), xs[|xs| - 1], lt);
      assert xs == init + [xs[|xs| - 1]];
      assert Elems(xs) == Elems(init) + {xs[|xs| - 1]};
    }
    StrictlySortedIsDistinct(SortedDistinct(xs, lt), lt);
    DistinctCard(SortedDistinct(xs, lt));
  }

  /** Dense rank, 0-based: how many distinct values of `xs` lie strictly below `v`.
      `Series.rank(method='dense') - 1` and `pd.factorize(sort=True)[0]` are this. */
  function Rank<T(==)>(xs: seq<T>, lt: (T, T) -> bool, v: T): nat
  {
    |set x | x in xs && lt(x, v)|
  }

  /** The ranks the values of `xs` receive. */
  function Ranks<T(==)>(xs: seq<T>, lt: (T, T) -> bool): set<nat>
  {
    set v | v in xs :: Rank(xs, lt, v)
  }

  /** Rank 0 goes to the values with nothing of `xs` below them. */
  lemma RankZero<T>(xs: seq<T>, lt: (T, T) -> bool, v: T)
    ensures Rank(xs, lt, v) == 0 <==> forall x :: x in xs ==> !lt(x, v)
  {
    var below := set x | x in xs && lt(x, v);
    if Rank(xs, lt, v) != 0 {
      var x :| x in below;
    } else {
      assert below == {};
      forall x | x in xs ensures !lt(x, v) {
        assert x !in below;
      }
    }
  }

  /** Ranking preserves the order strictly. */
  lemma RankMonotone<T(!new)>(xs: seq<T>, lt: (T, T) -> bool, a: T, b: T)
    requires StrictTotalOrder(lt) && a in xs && lt(a, b)
    ensures Rank(xs, lt, a) < Rank(xs, lt, b)
  {
    var sa := set x | x in xs && lt(x, a);
    var sb := set x | x in xs && lt(x, b);
    assert sa <= sb;
    assert sb == sa + (sb - sa);
    assert a in sb - sa;
    assert |sb| == |sa| + |sb - sa|;
  }

  /** Two values of `xs` get the same rank exactly when they are equal, and
      the rank order is the value order. */
  lemma RankOrder<T(!new)>(xs: seq<T>, lt: (T, T) -> bool, a: T, b: T)
    requires StrictTotalOrder(lt) && a in xs && b in xs
    ensures Rank(xs, lt, a) == Rank(xs, lt, b) <==> a == b
    ensures Rank(xs, lt, a) < Rank(xs, lt, b) <==> lt(a, b)
  {
    if lt(a, b) {
      RankMonotone(xs, lt, a, b);
    } else if lt(b, a) {
      RankMonotone(xs, lt, b, a);
    }
  }

  lemma SortedIndexBelow<T(!new)>(ds: seq<T>, lt: (T, T) -> bool, j: nat, i: nat)
    requires StrictTotalOrder(lt) && StrictlySorted(ds, lt)
    requires i < |ds| && j < |ds| && lt(ds[j], ds[i])
    ensures j < i
  {
  }

  /** In the ascending list of distinct values, position and rank agree. */
  lemma RankAt<T(!new)>(xs: seq<T>, lt: (T, T) -> bool, i: nat)
    requires StrictTotalOrder(lt) && i < |SortedDistinct(xs, lt)|
    ensures Rank(xs, lt, SortedDistinct(xs, lt)[i]) == i
  {
    var ds := SortedDistinct(xs, lt);
    SortedDistinctCorrect(xs, lt);
    var below := set x | x in xs && lt(x, ds[i]);
    assert below == Elems(ds[..i]) by {
      forall x | x in below ensures x in Elems(ds[..i]) {
        assert x in Elems(ds);
        var j :| 0 <= j < |ds| && ds[j] == x;
        SortedIndexBelow(ds, lt, j, i);
      }
      forall x | x in Elems(ds[..i]) ensures x in below {
        var j :| 0 <= j < i && ds[..i][j] == x;
        assert ds[j] in Elems(ds);
      }
    }
    StrictlySortedIsDistinct(ds, lt);
    DistinctCard(ds[..i]);
  }

  /** Dense ranks of the values of `xs` run over 0 .. |distinct values| - 1,
      every one of them taken. */
  lemma RankDense<T(!new)>(xs: seq<T>, lt: (T, T) -> bool)
    requires StrictTotalOrder(lt)
    ensures forall v :: v in xs ==> Rank(xs, lt, v) < |Elems(xs)|
    ensures forall r :: 0 <= r < |Elems(xs)| ==> r in Ranks(xs, lt)
  {
    var ds := SortedDistinct(xs, lt);
    SortedDistinctCorrect(xs, lt);
    forall v | v in xs ensures Rank(xs, lt, v) < |Elems(xs)| {
      assert v in Elems(ds);
      var j :| 0 <= j < |ds| && ds[j] == v;
      RankAt(xs, lt, j);
    }
    forall r | 0 <= r < |Elems(xs)| ensures r in Ranks(xs, lt) {
      RankAt(xs, lt, r);
      assert ds[r] in Elems(ds);
    }
  }

  /** Concatenation regroups. */
  lemma AppendAssoc<T>(a: seq<T>, b: seq<T>, c: seq<T>)
    ensures a + b + c == a + (b + c)
  {
  }

  /** Occurrences of `x` in `s`. */
  function Count<T(==)>(s: seq<T>, x: T): nat
  {
    if s == [] then 0 else Count(s[..|s| - 1], x) + (if s[|s| - 1] == x then 1 else 0)
  }

  lemma {:induction false} CountAppend<T>(a: seq<T>, b: seq<T>, x: T)
    ensures Count(a + b, x) == Count(a, x) + Count(b, x)
    decreases |b|
  {
    if b != [] {
      assert (a + b)[..|a + b| - 1] == a + b[..|b| - 1];
      CountAppend(a, b[..|b| - 1], x);
    } else {
      assert a + b == a;
    }
  }

  lemma {:induction false} CountPositive<T>(s: seq<T>, i: nat)
    requires i < |s|
    ensures Count(s, s[i]) >= 1
  {
    assert s == s[..i] + [s[i]] + s[i + 1..];
    CountAppend(s[..i] + [s[i]], s[i + 1..], s[i]);
    CountAppend(s[..i], [s[i]], s[i]);
    assert [s[i]][..0] == [];
  }

  /** `groupby(key).cumcount()`: how many earlier rows share row `i`'s key. */
  function CumCount<T(==)>(keys: seq<T>, i: nat): nat
    requires i < |keys|
  {
    Count(keys[..i], keys[i])
  }

  /** Within one key, later rows get strictly larger counters, so the pair
      (key, counter) tells rows apart, and counters stay below the group size. */
  lemma CumCountIncreasing<T>(keys: seq<T>, i: nat, j: nat)
    requires i < j < |keys| && keys[i] == keys[j]
    ensures CumCount(keys, i) < CumCount(keys, j)
  {
    assert keys[..j] == keys[..i] + keys[i..j];
    CountAppend(keys[..i], keys[i..j], keys[i]);
    CountPositive(keys[i..j], 0);
  }

  lemma CumCountBound<T>(keys: seq<T>, i: nat)
    requires i < |keys|
    ensures CumCount(keys, i) < Count(keys, keys[i])
  {
    assert keys == keys[..i] + keys[i..];
    CountAppend(keys[..i], keys[i..], keys[i]);
    CountPositive(keys[i..], 0);
  }

  /** Every counter below the group size is taken by some row of the group,
      so a group of `k` rows is numbered exactly `0 .. k - 1`. */
  lemma {:induction false} CumCountOnto<T>(keys: seq<T>, c: T, r: nat)
    requires r < Count(keys, c)
    ensures exists i :: 0 <= i < |keys| && keys[i] == c && CumCount(keys, i) == r
    decreases |keys|
  {
    var init := keys[..|keys| - 1];
    if r < Count(init, c) {
      CumCountOnto(init, c, r);
      var i :| 0 <= i < |init| && init[i] == c && CumCount(init, i) == r;
      assert keys[..i] == init[..i];
      assert CumCount(keys, i) == r;
    } else {
      assert keys[|keys| - 1] == c;
      assert keys[..|keys| - 1] == init;
      assert CumCount(keys, |keys| - 1) == r;
    }
  }
}
