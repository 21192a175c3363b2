/** The pure helpers of peru_party_switchers/code/vis/build_sankey.py around
    the `Sankey` class: the query for the switches of one party, and the
    cleaning that turns its result into the rows the diagram reads. */
module SankeyQuery {
  import opened Wrappers
  import opened Ordering
  import opened SankeyInputs
  import opened SankeyProperties

  // ---- build_query ----

  const SelectClause := "SELECT c.id_hdv, n.source, n.target, n.year"
  const FromClause := "FROM network as n JOIN candidate as c on n.id_hdv = c.id_hdv JOIN sankey_vars as sv on sv.id_hdv = c.id_hdv "
  const SourceFilter := "WHERE n.source = "
  const TargetFilter := " OR n.target = "

  /** `WHERE n.source = {poi} OR n.target = {poi}`. */
  function WhereClause(poi: nat): string
  {
    SourceFilter + NatToString(poi) + TargetFilter + NatToString(poi)
  }

  /** `not attribute`: no attribute, or the empty name. */
  predicate Falsy(attribute: Option<string>)
  {
    attribute.None? || attribute.value == ""
  }

  /** `' '` without an attribute, `', sv.<attribute> '` with one. */
  function AttributeString(attribute: Option<string>): (s: string)
    ensures Falsy(attribute) ==> s == " "
    ensures !Falsy(attribute) ==> |s| == |attribute.value| + 6
  {
    if Falsy(attribute) then " " else ", sv." + attribute.value + " "
  }

  /** `build_query(poi, attribute)`. */
  function BuildQuery(poi: nat, attribute: Option<string>): string
  {
    SelectClause + (AttributeString(attribute) + (FromClause + WhereClause(poi)))
  }

  lemma Split(a: string, b: string)
    ensures |a + b| == |a| + |b| && (a + b)[..|a|] == a && (a + b)[|a|..] == b
  {
  }

  lemma Suffix(a: string, b: string, c: string, d: string)
    ensures |a + (b + (c + d))| >= |d| && (a + (b + (c + d)))[|a + (b + (c + d))| - |d|..] == d
  {
    assert a + (b + (c + d)) == (a + b + c) + d;
    Split(a + b + c, d);
  }

  /** The first character of the attribute part: a space without an
      attribute, the comma of a fifth column with one. */
  lemma AttributeHead(attribute: Option<string>)
    ensures |AttributeString(attribute)| >= 1
    ensures AttributeString(attribute)[0] == if Falsy(attribute) then ' ' else ','
  {
  }

  /** After `', sv.'` come the attribute and a space. */
  lemma AttributeTail(attribute: Option<string>, rest: string)
    requires !Falsy(attribute)
    ensures |AttributeString(attribute) + rest| >= 5
    ensures (AttributeString(attribute) + rest)[5..] == attribute.value + " " + rest
  {
    assert AttributeString(attribute) + rest == ", sv." + (attribute.value + " " + rest);
  }

  /** `q` starts with the select clause `sel`, has a comma right after it
      exactly when it selects a fifth column, and ends with the filter
      `where`. */
  ghost predicate Shaped(q: string, sel: string, fifth: bool, where: string)
  {
    && |q| > |sel| && q[..|sel|] == sel && (q[|sel|] == ',' <==> fifth)
    && |q| >= |where| && q[|q| - |where|..] == where
  }

  lemma Shape(sel: string, s: string, from: string, w: string)
    requires |s| >= 1
    ensures Shaped(sel + (s + (from + w)), sel, s[0] == ',', w)
  {
    Split(sel, s + (from + w));
    Suffix(sel, s, from, w);
  }

  /** `build_query` selects the four edge columns, adds a fifth exactly when
      there is an attribute, and keeps only the switches into or out of
      `poi`. */
  lemma BuildQueryParts(poi: nat, attribute: Option<string>)
    ensures Shaped(BuildQuery(poi, attribute), SelectClause, !Falsy(attribute), WhereClause(poi))
  {
    AttributeHead(attribute);
    Shape(SelectClause, AttributeString(attribute), FromClause, WhereClause(poi));
  }

  /** A name fit for a column of the select list. */
  predicate ColumnName(attribute: Option<string>)
  {
    attribute.Some? ==> ' ' !in attribute.value
  }

  /** The position of the first space. */
  function FirstSpace(s: string): (k: nat)
    requires ' ' in s
    ensures k < |s| && s[k] == ' '
  {
    if s[0] == ' ' then 0
    else
      assert s == [s[0]] + s[1..];
      1 + FirstSpace(s[1..])
  }

  /** A word without spaces ends at the first space. */
  lemma {:induction false} FirstSpaceAfter(v: string, r: string)
    requires ' ' !in v
    ensures ' ' in v + " " + r && FirstSpace(v + " " + r) == |v|
  {
    var t := v + " " + r;
    assert t[|v|] == ' ';
    if v != [] {
      assert t[1..] == v[1..] + " " + r;
      FirstSpaceAfter(v[1..], r);
    }
  }

  lemma DigitInjective(a: nat, b: nat)
    requires a < 10 && b < 10 && Digit(a) == Digit(b)
    ensures a == b
  {
  }

  /** Different party ids print differently. */
  lemma {:induction false} NatToStringInjective(a: nat, b: nat)
    requires NatToString(a) == NatToString(b)
    ensures a == b
  {
    var sa, sb := NatToString(a), NatToString(b);
    if a < 10 && b < 10 {
      assert sa[0] == Digit(a) && sb[0] == Digit(b);
      DigitInjective(a, b);
    } else if a >= 10 && b >= 10 {
      assert sa[|sa| - 1] == Digit(a % 10) && sb[|sb| - 1] == Digit(b % 10);
      DigitInjective(a % 10, b % 10);
      assert sa[..|sa| - 1] == NatToString(a / 10) && sb[..|sb| - 1] == NatToString(b / 10);
      NatToStringInjective(a / 10, b / 10);
    }
  }

  /** The filter names the party it was built for. */
  lemma WhereClauseInjective(a: nat, b: nat)
    requires WhereClause(a) == WhereClause(b)
    ensures a == b
  {
    var sa, sb := NatToString(a), NatToString(b);
    var n := |SourceFilter|;
    assert |WhereClause(a)| == n + |TargetFilter| + 2 * |sa|;
    assert |sa| == |sb|;
    assert WhereClause(a)[n..n + |sa|] == sa;
    assert WhereClause(b)[n..n + |sb|] == sb;
    NatToStringInjective(a, b);
  }

  /** Between the select clause and the rest, the query holds exactly the
      attribute part. */
  lemma AttributeStringsEqual(a1: Option<string>, a2: Option<string>, rest1: string, rest2: string)
    requires ColumnName(a1) && ColumnName(a2)
    requires AttributeString(a1) + rest1 == AttributeString(a2) + rest2
    ensures Falsy(a1) == Falsy(a2) && AttributeString(a1) == AttributeString(a2) && rest1 == rest2
  {
    var s1, s2 := AttributeString(a1), AttributeString(a2);
    var q := s1 + rest1;
    AttributeHead(a1);
    AttributeHead(a2);
    if !Falsy(a1) && !Falsy(a2) {
      var v1, v2 := a1.value, a2.value;
      AttributeTail(a1, rest1);
      AttributeTail(a2, rest2);
      FirstSpaceAfter(v1, rest1);
      FirstSpaceAfter(v2, rest2);
      assert v1 == q[5..][..|v1|] && v2 == q[5..][..|v2|];
    }
    Split(s1, rest1);
    Split(s2, rest2);
  }

  /** Two queries are equal only for the same party and the same attribute
      column (an empty attribute name counts as none). */
  lemma BuildQueryInjective(p1: nat, a1: Option<string>, p2: nat, a2: Option<string>)
    requires ColumnName(a1) && ColumnName(a2)
    requires BuildQuery(p1, a1) == BuildQuery(p2, a2)
    ensures p1 == p2 && Falsy(a1) == Falsy(a2) && (!Falsy(a1) ==> a1.value == a2.value)
  {
    var s1, s2 := AttributeString(a1), AttributeString(a2);
    var w1, w2 := WhereClause(p1), WhereClause(p2);
    Split(SelectClause, s1 + (FromClause + w1));
    Split(SelectClause, s2 + (FromClause + w2));
    AttributeStringsEqual(a1, a2, FromClause + w1, FromClause + w2);
    Split(FromClause, w1);
    Split(FromClause, w2);
    WhereClauseInjective(p1, p2);
    if !Falsy(a1) {
      AttributeTail(a1, []);
      AttributeTail(a2, []);
      assert a1.value == (s1 + [])[5..][..|a1.value|];
    }
  }

  // ---- clean_df ----

  /** A row of the edge table the query returns: the candidate, the two party
      ids, the year, and the attribute value, `NULL` (absent) for a candidate
      without one. A query without attribute has no fifth column: `attr` is
      not read then. */
  datatype QueryRow = QueryRow(idHdv: int, source: nat, target: nat, year: int, attr: Option<int>)

  /** A group of `groupby(['source', 'target', attr])`. */
  datatype Key = Key(source: nat, target: nat, attr: int)

  /** A group key and its `size()`. */
  datatype Group = Group(key: Key, size: nat)

  /** The order `groupby` sorts its keys in: by source, then target, then the
      attribute value. */
  predicate KeyLt(a: Key, b: Key)
  {
    || a.source < b.source
    || (a.source == b.source && a.target < b.target)
    || (a.source == b.source && a.target == b.target && a.attr < b.attr)
  }

  lemma KeyLtIsStrictTotalOrder()
    ensures StrictTotalOrder(KeyLt)
  {
    forall a: Key, b: Key | a != b ensures KeyLt(a, b) || KeyLt(b, a) {
      assert a.source != b.source || a.target != b.target || a.attr != b.attr;
    }
  }

  /** `df.columns[4]`: the attribute's column, or `'dummy'` in a table of
      four columns. */
  function AttrColumn(attribute: Option<string>): string
  {
    if Falsy(attribute) then "dummy" else attribute.value
  }

  /** The group a row falls into: none for a `NULL` attribute value, which
      `groupby` leaves out; the `''` of the dummy column is written 0. */
  function KeyOf(row: QueryRow, attribute: Option<string>): Option<Key>
  {
    if Falsy(attribute) then Some(Key(row.source, row.target, 0))
    else if row.attr.Some? then Some(Key(row.source, row.target, row.attr.value))
    else None
  }

  /** The group keys of all rows, in row order. */
  function Keys(rows: seq<QueryRow>, attribute: Option<string>): (ks: seq<Key>)
    ensures |ks| <= |rows|
  {
    if rows == [] then []
    else
      var last := KeyOf(rows[|rows| - 1], attribute);
      Keys(rows[..|rows| - 1], attribute) + (if last.Some? then [last.value] else [])
  }

  /** Every key is the key of some row. */
  lemma {:induction false} KeysFromRows(rows: seq<QueryRow>, attribute: Option<string>, k: Key)
    requires k in Keys(rows, attribute)
    ensures exists i :: 0 <= i < |rows| && KeyOf(rows[i], attribute) == Some(k)
  {
    var init := rows[..|rows| - 1];
    var last := KeyOf(rows[|rows| - 1], attribute);
    if last == Some(k) {
      assert KeyOf(rows[|rows| - 1], attribute) == Some(k);
    } else {
      assert k in Keys(init, attribute);
      KeysFromRows(init, attribute, k);
      var i :| 0 <= i < |init| && KeyOf(init[i], attribute) == Some(k);
      assert rows[i] == init[i];
    }
  }

  /** Every row with a key contributes it. */
  lemma {:induction false} RowsToKeys(rows: seq<QueryRow>, attribute: Option<string>, i: nat)
    requires i < |rows| && KeyOf(rows[i], attribute).Some?
    ensures KeyOf(rows[i], attribute).value in Keys(rows, attribute)
  {
    var init := rows[..|rows| - 1];
    if i < |rows| - 1 {
      assert init[i] == rows[i];
      RowsToKeys(init, attribute, i);
    }
  }

  /** `df.groupby(['source', 'target', attr]).size().reset_index()`: one
      group per distinct key, in key order, with the number of rows that
      have it. */
  function GroupBy(keys: seq<Key>): seq<Group>
  {
    var ds := SortedDistinct(keys, KeyLt);
    seq(|ds|, i requires 0 <= i < |ds| => Group(ds[i], Count(keys, ds[i])))
  }

  function GroupKeys(gs: seq<Group>): (ks: seq<Key>)
    ensures |ks| == |gs| && forall i :: 0 <= i < |gs| ==> ks[i] == gs[i].key
  {
    seq(|gs|, i requires 0 <= i < |gs| => gs[i].key)
  }

  /** The groups are in strictly ascending key order, exactly the keys of
      the rows, each with a positive size equal to its number of rows. */
  lemma GroupByCorrect(keys: seq<Key>)
    ensures StrictlySorted(GroupKeys(GroupBy(keys)), KeyLt)
    ensures Elems(GroupKeys(GroupBy(keys))) == Elems(keys)
    ensures forall g :: g in GroupBy(keys) ==> g.size == Count(keys, g.key) >= 1
  {
    KeyLtIsStrictTotalOrder();
    SortedDistinctCorrect(keys, KeyLt);
    var ds := SortedDistinct(keys, KeyLt);
    var gs := GroupBy(keys);
    assert GroupKeys(gs) == ds;
    forall g | g in gs ensures g.size == Count(keys, g.key) >= 1 {
      var i :| 0 <= i < |gs| && gs[i] == g;
      assert g.key == ds[i] && ds[i] in Elems(keys);
      var j :| 0 <= j < |keys| && keys[j] == g.key;
      CountPositive(keys, j);
    }
  }

  /** The sizes of the groups, added up. */
  function Sizes(gs: seq<Group>): nat
  {
    if gs == [] then 0 else Sizes(gs[..|gs| - 1]) + gs[|gs| - 1].size
  }

  /** How many rows of `s` have one of the keys `ds`. */
  function SumCounts(ds: seq<Key>, s: seq<Key>): nat
  {
    if ds == [] then 0 else SumCounts(ds[..|ds| - 1], s) + Count(s, ds[|ds| - 1])
  }

  lemma {:induction false} SumCountsEmpty(ds: seq<Key>)
    ensures SumCounts(ds, []) == 0
  {
    if ds != [] {
      SumCountsEmpty(ds[..|ds| - 1]);
    }
  }

  lemma {:induction false} SumCountsSnoc(ds: seq<Key>, s: seq<Key>, x: Key)
    ensures SumCounts(ds, s + [x]) == SumCounts(ds, s) + Count(ds, x)
  {
    if ds != [] {
      var d := ds[|ds| - 1];
      SumCountsSnoc(ds[..|ds| - 1], s, x);
      assert (s + [x])[..|s|] == s;
      assert Count(s + [x], d) == Count(s, d) + (if x == d then 1 else 0);
    }
  }

  lemma {:induction false} CountAbsent(s: seq<Key>, x: Key)
    requires x !in s
    ensures Count(s, x) == 0
  {
    if s != [] {
      CountAbsent(s[..|s| - 1], x);
    }
  }

  lemma {:induction false} CountOnce(ds: seq<Key>, x: Key)
    requires Distinct(ds) && x in ds
    ensures Count(ds, x) == 1
  {
    var init := ds[..|ds| - 1];
    if ds[|ds| - 1] == x {
      assert forall j :: 0 <= j < |init| ==> init[j] == ds[j] != ds[|ds| - 1];
      CountAbsent(init, x);
    } else {
      assert x in init;
      CountOnce(init, x);
    }
  }

  /** Distinct keys that cover every row count every row once. */
  lemma {:induction false} SumCountsAll(ds: seq<Key>, s: seq<Key>)
    requires Distinct(ds) && forall k :: k in s ==> k in ds
    ensures SumCounts(ds, s) == |s|
  {
    if s == [] {
      SumCountsEmpty(ds);
    } else {
      var init, x := s[..|s| - 1], s[|s| - 1];
      assert s == init + [x];
      SumCountsAll(ds, init);
      SumCountsSnoc(ds, init, x);
      CountOnce(ds, x);
    }
  }

  lemma {:induction false} SizesOf(gs: seq<Group>, ds: seq<Key>, s: seq<Key>)
    requires |gs| == |ds| && forall i :: 0 <= i < |gs| ==> gs[i].size == Count(s, ds[i])
    ensures Sizes(gs) == SumCounts(ds, s)
  {
    if gs != [] {
      SizesOf(gs[..|gs| - 1], ds[..|ds| - 1], s);
    }
  }

  /** The group sizes add up to the number of rows grouped. */
  lemma GroupBySizes(keys: seq<Key>)
    ensures Sizes(GroupBy(keys)) == |keys|
  {
    KeyLtIsStrictTotalOrder();
    SortedDistinctCorrect(keys, KeyLt);
    var ds := SortedDistinct(keys, KeyLt);
    StrictlySortedIsDistinct(ds, KeyLt);
    forall k | k in keys ensures k in ds {
      assert k in Elems(keys);
    }
    SizesOf(GroupBy(keys), ds, keys);
    SumCountsAll(ds, keys);
  }

  /** A switch from the party of interest to itself. */
  predicate Loop(g: Group, poi: nat)
  {
    g.key.source == poi && g.key.target == poi
  }

  /** `df[(df.source != poi) | (df.target != poi)]`. */
  function DropLoops(gs: seq<Group>, poi: nat): (r: seq<Group>)
    ensures |r| <= |gs|
  {
    if gs == [] then []
    else DropLoops(gs[..|gs| - 1], poi) + (if Loop(gs[|gs| - 1], poi) then [] else [gs[|gs| - 1]])
  }

  /** The filter keeps exactly the groups that are not loops of the party of
      interest. */
  lemma {:induction false} DropLoopsExact(gs: seq<Group>, poi: nat, g: Group)
    ensures g in DropLoops(gs, poi) <==> g in gs && !Loop(g, poi)
  {
    if gs != [] {
      var init := gs[..|gs| - 1];
      DropLoopsExact(init, poi, g);
      assert gs == init + [gs[|gs| - 1]];
    }
  }

  /** It keeps them in order. */
  lemma {:induction false} DropLoopsSorted(gs: seq<Group>, poi: nat)
    requires StrictlySorted(GroupKeys(gs), KeyLt)
    ensures StrictlySorted(GroupKeys(DropLoops(gs, poi)), KeyLt)
  {
    if gs != [] {
      var init, last := gs[..|gs| - 1], gs[|gs| - 1];
      assert StrictlySorted(GroupKeys(init), KeyLt) by {
        forall i, j | 0 <= i < j < |init| ensures KeyLt(init[i].key, init[j].key) {
          assert init[i] == gs[i] && init[j] == gs[j];
        }
      }
      DropLoopsSorted(init, poi);
      var r0 := DropLoops(init, poi);
      if !Loop(last, poi) {
        forall i | 0 <= i < |r0| ensures KeyLt(r0[i].key, last.key) {
          assert r0[i] in r0;
          DropLoopsExact(init, poi, r0[i]);
          var j :| 0 <= j < |init| && init[j] == r0[i];
          assert gs[j] == init[j];
        }
        var r := DropLoops(gs, poi);
        assert r == r0 + [last];
        forall i, j | 0 <= i < j < |r| ensures KeyLt(r[i].key, r[j].key) {
          if j < |r0| {
            assert r[i] == r0[i] && r[j] == r0[j];
          } else {
            assert r[i] == r0[i] && r[j] == last;
          }
        }
      }
    }
  }

  /** The name pandas gives a party id: its entry in `indexer`, or
      `'REGIONAL PARTY'` when that starts with `MR/D`. An id the indexer
      lacks maps to `NaN`, whose `startswith` is `NaN` again, which
      `np.where` takes as true. */
  function PartyName(indexer: map<nat, string>, id: nat): (name: string)
    ensures id in indexer && !(|indexer[id]| >= 4 && indexer[id][..4] == "MR/D") ==> name == indexer[id]
    ensures id in indexer && |indexer[id]| >= 4 && indexer[id][..4] == "MR/D" ==> name == "REGIONAL PARTY"
    ensures id !in indexer ==> name == "REGIONAL PARTY"
  {
    if id in indexer && !(|indexer[id]| >= 4 && indexer[id][..4] == "MR/D") then indexer[id] else "REGIONAL PARTY"
  }

  /** The type conversion of the attribute column: the value itself for
      `crim_rec`, `univ_rec` and the dummy column, plus one for the quartile
      attributes (which start at 0 in the database). */
  function ConvertAttr(column: string, v: int): int
  {
    if column in ["crim_rec", "univ_rec", "D_gini", "dummy"] then v else v + 1
  }

  /** The conversion keeps the attribute values apart and in order. */
  lemma ConvertAttrMonotone(column: string, a: int, b: int)
    ensures a < b <==> ConvertAttr(column, a) < ConvertAttr(column, b)
    ensures a == b <==> ConvertAttr(column, a) == ConvertAttr(column, b)
  {
  }

  /** One cleaned row: the names of the two parties, the converted value and
      the `Count`. */
  function CleanRow(g: Group, attribute: Option<string>, indexer: map<nat, string>): FlowRow
  {
    FlowRow(PartyName(indexer, g.key.source), PartyName(indexer, g.key.target),
            ConvertAttr(AttrColumn(attribute), g.key.attr), g.size)
  }

  /** The groups `clean_df` keeps. */
  function Kept(rows: seq<QueryRow>, attribute: Option<string>, poi: nat): seq<Group>
  {
    DropLoops(GroupBy(Keys(rows, attribute)), poi)
  }

  /** `clean_df(df, poi, indexer)`. */
  function CleanDf(rows: seq<QueryRow>, attribute: Option<string>, poi: nat, indexer: map<nat, string>): (data: seq<FlowRow>)
    ensures |data| == |Kept(rows, attribute, poi)|
    ensures forall i :: 0 <= i < |data| ==> data[i] == CleanRow(Kept(rows, attribute, poi)[i], attribute, indexer)
  {
    var kept := Kept(rows, attribute, poi);
    seq(|kept|, i requires 0 <= i < |kept| => CleanRow(kept[i], attribute, indexer))
  }

  /** The kept groups are in ascending key order. */
  lemma KeptSorted(rows: seq<QueryRow>, attribute: Option<string>, poi: nat)
    ensures StrictlySorted(GroupKeys(Kept(rows, attribute, poi)), KeyLt)
  {
    GroupByCorrect(Keys(rows, attribute));
    DropLoopsSorted(GroupBy(Keys(rows, attribute)), poi);
  }

  /** No kept group is a loop of the party of interest, and each counts the
      rows that have its key. */
  lemma KeptCounts(rows: seq<QueryRow>, attribute: Option<string>, poi: nat, g: Group)
    requires g in Kept(rows, attribute, poi)
    ensures !Loop(g, poi) && g.size == Count(Keys(rows, attribute), g.key) >= 1
  {
    GroupByCorrect(Keys(rows, attribute));
    DropLoopsExact(GroupBy(Keys(rows, attribute)), poi, g);
  }

  /** Every row with an attribute value that is not such a loop lands in a
      kept group. */
  lemma KeptCovers(rows: seq<QueryRow>, attribute: Option<string>, poi: nat, i: nat)
    requires i < |rows| && KeyOf(rows[i], attribute).Some? && !(rows[i].source == poi && rows[i].target == poi)
    ensures exists g :: g in Kept(rows, attribute, poi) && g.key == KeyOf(rows[i], attribute).value
  {
    var keys := Keys(rows, attribute);
    var gs := GroupBy(keys);
    var k := KeyOf(rows[i], attribute).value;
    GroupByCorrect(keys);
    RowsToKeys(rows, attribute, i);
    assert k in Elems(GroupKeys(gs));
    var j :| 0 <= j < |gs| && GroupKeys(gs)[j] == k;
    DropLoopsExact(gs, poi, gs[j]);
  }

  /** Before the loops are dropped, the counts add up to the rows grouped. */
  lemma CleanDfTotal(rows: seq<QueryRow>, attribute: Option<string>)
    ensures Sizes(GroupBy(Keys(rows, attribute))) == |Keys(rows, attribute)|
    ensures Falsy(attribute) ==> |Keys(rows, attribute)| == |rows|
  {
    GroupBySizes(Keys(rows, attribute));
    if Falsy(attribute) {
      KeysAll(rows, attribute);
    }
  }

  lemma {:induction false} KeysAll(rows: seq<QueryRow>, attribute: Option<string>)
    requires Falsy(attribute)
    ensures |Keys(rows, attribute)| == |rows|
  {
    if rows != [] {
      KeysAll(rows[..|rows| - 1], attribute);
    }
  }

  /** Every row the query returns has the party of interest at one end. */
  predicate TouchesPoi(rows: seq<QueryRow>, poi: nat)
  {
    forall i :: 0 <= i < |rows| ==> rows[i].source == poi || rows[i].target == poi
  }

  /** The id of a kept group is the party of interest at exactly one end. */
  lemma KeptOneEnd(rows: seq<QueryRow>, attribute: Option<string>, poi: nat, g: Group)
    requires TouchesPoi(rows, poi) && g in Kept(rows, attribute, poi)
    ensures (g.key.source == poi) != (g.key.target == poi)
  {
    var keys := Keys(rows, attribute);
    var gs := GroupBy(keys);
    DropLoopsExact(gs, poi, g);
    GroupByCorrect(keys);
    var j :| 0 <= j < |gs| && gs[j] == g;
    assert GroupKeys(gs)[j] == g.key;
    assert g.key in Elems(keys);
    KeysFromRows(rows, attribute, g.key);
  }

  /** The name of the party of interest is the name of no other id, and
      stays as it is. */
  predicate NamesApart(indexer: map<nat, string>, poi: nat)
  {
    && poi in indexer
    && !(|indexer[poi]| >= 4 && indexer[poi][..4] == "MR/D")
    && indexer[poi] != "REGIONAL PARTY"
    && forall id :: id in indexer && id != poi ==> indexer[id] != indexer[poi]
  }

  lemma PartyNameIsPoi(indexer: map<nat, string>, poi: nat, id: nat)
    requires NamesApart(indexer, poi)
    ensures PartyName(indexer, id) == indexer[poi] <==> id == poi
  {
  }

  /** `sankey_wrapper`: when the query returns only switches into or out of
      the party, and its name belongs to it alone, every cleaned row has that
      name at exactly one end, so the diagram `Sankey(sankey_df, attribute,
      indexer[party_of_interest])` builds without running out of palette and
      draws the flows of every cleaned row. */
  lemma CleanDfFeedsSankey(rows: seq<QueryRow>, attribute: Option<string>, poi: nat, indexer: map<nat, string>)
    requires KnownAttribute(attribute) && TouchesPoi(rows, poi) && NamesApart(indexer, poi)
    ensures var data := CleanDf(rows, attribute, poi, indexer);
      var name := indexer[poi];
      var cfg := MakeConfig(data, attribute, name);
      && (forall k :: 0 <= k < |data| ==> (data[k].source == name) != (data[k].target == name))
      && !Build(data, attribute, name).failed
      && Displays(cfg, Build(data, attribute, name), Flows(cfg, data, true) + Flows(cfg, data, false))
  {
    var data := CleanDf(rows, attribute, poi, indexer);
    var kept := Kept(rows, attribute, poi);
    var name := indexer[poi];
    forall k | 0 <= k < |data| ensures (data[k].source == name) != (data[k].target == name) {
      var g := kept[k];
      KeptOneEnd(rows, attribute, poi, g);
      PartyNameIsPoi(indexer, poi, g.key.source);
      PartyNameIsPoi(indexer, poi, g.key.target);
    }
    BuildNeverFails(data, attribute, name);
    BuildDisplays(data, attribute, name);
  }
}
