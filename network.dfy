/** Whole-table properties of `network_table`
    (peru_party_switchers/code/sql/db_config.py:315-377): the merge gives
    every event its node, the sort groups candidates, and the network
    table is the per-candidate chains side by side. */
module NetworkTable {
  import opened Wrappers
  import opened Ordering
  import opened RawEdges
  import opened Nodes
  import opened Transitions

  // ---- the merge ----

  lemma {:induction false} MatchNone(e: Edge, nodes: seq<NodeRow>)
    requires forall k :: 0 <= k < |nodes| ==> nodes[k].pName != e.pName
    ensures MatchNodes(e, nodes) == []
    decreases |nodes|
  {
    if nodes != [] {
      MatchNone(e, nodes[..|nodes| - 1]);
    }
  }

  lemma {:induction false} MatchOne(e: Edge, nodes: seq<NodeRow>, k: nat)
    requires k < |nodes| && nodes[k].pName == e.pName
    requires forall k' :: 0 <= k' < |nodes| && k' != k ==> nodes[k'].pName != e.pName
    ensures MatchNodes(e, nodes) == [Row(e, nodes[k].node)]
    decreases |nodes|
  {
    var init := nodes[..|nodes| - 1];
    if k == |nodes| - 1 {
      MatchNone(e, init);
    } else {
      MatchOne(e, init, k);
    }
  }

  lemma {:induction false} MergeRows(xs: seq<Edge>, nodes: seq<NodeRow>)
    requires forall i :: 0 <= i < |xs| ==> |MatchNodes(xs[i], nodes)| == 1
    ensures |Merge(xs, nodes)| == |xs|
    ensures forall i :: 0 <= i < |xs| ==> Merge(xs, nodes)[i] == MatchNodes(xs[i], nodes)[0]
    decreases |xs|
  {
    if xs != [] {
      var init := xs[..|xs| - 1];
      assert forall i :: 0 <= i < |init| ==> init[i] == xs[i];
      MergeRows(init, nodes);
      var m := Merge(init, nodes);
      var last := MatchNodes(xs[|xs| - 1], nodes);
      assert Merge(xs, nodes) == m + last;
      forall i | 0 <= i < |xs| ensures (m + last)[i] == MatchNodes(xs[i], nodes)[0] {
        if i < |init| {
          assert (m + last)[i] == m[i];
        }
      }
    }
  }

  /** Each event of `es` finds exactly one row of `nodes`: the one of its
      name, whose node id is the name's dense rank. */
  ghost predicate JoinsByName(es: seq<Edge>, nodes: seq<NodeRow>)
  {
    forall k :: 0 <= k < |es| ==> MatchNodes(es[k], nodes) == [Row(es[k], NodeOf(es, es[k].pName))]
  }

  /** In rows sorted strictly by name, only row `r` has the name of row `r`. */
  lemma SortedNamesUnique(nt: seq<NodeRow>, r: nat)
    requires r < |nt|
    requires forall i, j :: 0 <= i < j < |nt| ==> StrLt(nt[i].pName, nt[j].pName)
    ensures forall k :: 0 <= k < |nt| && k != r ==> nt[k].pName != nt[r].pName
  {
    forall k | 0 <= k < |nt| && k != r ensures nt[k].pName != nt[r].pName {
      StrLtIrreflexive(nt[r].pName);
      if k < r {
        assert StrLt(nt[k].pName, nt[r].pName);
      } else {
        assert StrLt(nt[r].pName, nt[k].pName);
      }
    }
  }

  /** The node table built from the events joins every event by name. */
  lemma NodeTableJoins(es: seq<Edge>)
    ensures JoinsByName(es, NodeTable(es))
  {
    var nt := NodeTable(es);
    NodeNamesSorted(es);
    NodeNamesCover(es);
    forall i | 0 <= i < |es| ensures MatchNodes(es[i], nt) == [Row(es[i], NodeOf(es, es[i].pName))] {
      var name := es[i].pName;
      assert Names(es)[i] == name;
      NodeRowOf(es, name);
      var r := NodeOf(es, name);
      SortedNamesUnique(nt, r);
      MatchOne(es[i], nt, r);
    }
  }

  /** The merge keeps every event, in order, and adds the node id of its
      `p_name`. */
  lemma MergeJoined(es: seq<Edge>, nodes: seq<NodeRow>)
    requires JoinsByName(es, nodes)
    ensures var m := Merge(es, nodes);
      && |m| == |es|
      && forall i :: 0 <= i < |es| ==> m[i] == Row(es[i], NodeOf(es, es[i].pName))
  {
    MergeRows(es, nodes);
  }

  /** Each row carries a name of the events and that name's node id. */
  ghost predicate FromNodeTable(s: seq<Row>, es: seq<Edge>)
  {
    forall i :: 0 <= i < |s| ==> s[i].Name() in Names(es) && s[i].node == NodeOf(es, s[i].Name())
  }

  /** Two sequences with one multiset hold the same elements. */
  lemma PermutationRows<T>(s: seq<T>, m: seq<T>)
    requires multiset(s) == multiset(m)
    ensures |s| == |m|
    ensures forall i :: 0 <= i < |s| ==> s[i] in m
    ensures forall k :: 0 <= k < |m| ==> m[k] in s
  {
    assert |s| == |multiset(s)| == |multiset(m)| == |m|;
    forall i | 0 <= i < |s| ensures s[i] in m {
      assert s[i] in multiset(m);
    }
    forall k | 0 <= k < |m| ensures m[k] in s {
      assert m[k] in multiset(s);
    }
  }

  /** Any order the sort may produce holds each event once, with its node
      id, and nothing else. */
  lemma SortedMergeRows(s: seq<Row>, es: seq<Edge>, nodes: seq<NodeRow>)
    requires JoinsByName(es, nodes) && multiset(s) == multiset(Merge(es, nodes))
    ensures |s| == |es| && FromNodeTable(s, es)
    ensures forall k :: 0 <= k < |es| ==> Row(es[k], NodeOf(es, es[k].pName)) in s
  {
    var m := Merge(es, nodes);
    MergeJoined(es, nodes);
    PermutationRows(s, m);
    SortedRowsFromTable(s, es, m);
    forall k | 0 <= k < |es| ensures Row(es[k], NodeOf(es, es[k].pName)) in s {
      assert m[k] in s;
    }
  }

  /** Rows that each equal some row of the merge carry a name of the events
      and its node id. */
  lemma SortedRowsFromTable(s: seq<Row>, es: seq<Edge>, m: seq<Row>)
    requires |m| == |es| && forall i :: 0 <= i < |es| ==> m[i] == Row(es[i], NodeOf(es, es[i].pName))
    requires forall i :: 0 <= i < |s| ==> s[i] in m
    ensures FromNodeTable(s, es)
  {
    forall i | 0 <= i < |s| ensures s[i].Name() in Names(es) && s[i].node == NodeOf(es, s[i].Name()) {
      var k :| 0 <= k < |m| && m[k] == s[i];
      assert Names(es)[k] == es[k].pName;
    }
  }

  lemma FromNodeTableSlice(s: seq<Row>, es: seq<Edge>, lo: nat, hi: nat)
    requires FromNodeTable(s, es) && lo <= hi <= |s|
    ensures FromNodeTable(s[lo..hi], es) && NodesByName(s[lo..hi])
  {
    var t := s[lo..hi];
    forall i, j | 0 <= i < |t| && 0 <= j < |t| ensures t[i].node == t[j].node <==> t[i].Name() == t[j].Name() {
      assert t[i] == s[lo + i] && t[j] == s[lo + j];
      NodeOfInjective(es, t[i].Name(), t[j].Name());
    }
  }

  // ---- the sort groups each candidate's rows ----

  lemma {:induction false} SortedIsGrouped(s: seq<Row>)
    requires SortedByKey(s)
    ensures Grouped(s)
    decreases |s|
  {
    if s != [] {
      var n := RunLen(s);
      RunEndsCandidate(s);
      SortedSuffix(s, n);
      SortedIsGrouped(s[n..]);
    }
  }

  /** In key order, no row after the leading run belongs to its candidate. */
  lemma RunEndsCandidate(s: seq<Row>)
    requires SortedByKey(s) && s != []
    ensures forall i :: RunLen(s) <= i < |s| ==> s[i].Id() != s[0].Id()
  {
    var n := RunLen(s);
    if n < |s| {
      forall i | n <= i < |s| ensures s[i].Id() != s[0].Id() {
        assert KeyLe(s[0], s[n]);
        if i > n {
          assert KeyLe(s[n], s[i]);
          if s[i].Id() != s[n].Id() {
            StrLtTransitive(s[0].Id(), s[n].Id(), s[i].Id());
          }
        }
        StrLtIrreflexive(s[0].Id());
      }
    }
  }

  lemma SortedSuffix(s: seq<Row>, n: nat)
    requires SortedByKey(s) && n <= |s|
    ensures SortedByKey(s[n..])
  {
    forall i, j | 0 <= i < j < |s[n..]| ensures KeyLe(s[n..][i], s[n..][j]) {
      assert s[n..][i] == s[n + i] && s[n..][j] == s[n + j];
    }
  }

  // ---- per candidate ----

  /** The rows of candidate `c`, in table order. */
  function GroupOf(s: seq<Row>, c: string): (g: seq<Row>)
    ensures forall i :: 0 <= i < |g| ==> g[i].Id() == c
  {
    if s == [] then [] else (if s[0].Id() == c then [s[0]] else []) + GroupOf(s[1..], c)
  }

  /** The network rows of candidate `c`, in table order. */
  function RowsOf(ts: seq<Transition>, c: string): (r: seq<Transition>)
    ensures forall k :: 0 <= k < |r| ==> r[k].idHdv == c
  {
    if ts == [] then [] else (if ts[0].idHdv == c then [ts[0]] else []) + RowsOf(ts[1..], c)
  }

  lemma {:induction false} GroupOfAppend(a: seq<Row>, b: seq<Row>, c: string)
    ensures GroupOf(a + b, c) == GroupOf(a, c) + GroupOf(b, c)
    decreases |a|
  {
    if a != [] {
      var head := if a[0].Id() == c then [a[0]] else [];
      var ab := a + b;
      assert ab[0] == a[0] && ab[1..] == a[1..] + b;
      GroupOfAppend(a[1..], b, c);
      var g1, gb := GroupOf(a[1..], c), GroupOf(b, c);
      assert GroupOf(ab, c) == head + (g1 + gb);
      assert GroupOf(a, c) == head + g1;
      AppendAssoc(head, g1, gb);
    } else {
      assert a + b == b;
    }
  }

  lemma {:induction false} RowsOfAppend(a: seq<Transition>, b: seq<Transition>, c: string)
    ensures RowsOf(a + b, c) == RowsOf(a, c) + RowsOf(b, c)
    decreases |a|
  {
    if a != [] {
      var head := if a[0].idHdv == c then [a[0]] else [];
      var ab := a + b;
      assert ab[0] == a[0] && ab[1..] == a[1..] + b;
      RowsOfAppend(a[1..], b, c);
      var r1, rb := RowsOf(a[1..], c), RowsOf(b, c);
      assert RowsOf(ab, c) == head + (r1 + rb);
      assert RowsOf(a, c) == head + r1;
      AppendAssoc(head, r1, rb);
    } else {
      assert a + b == b;
    }
  }

  /** `GroupOf` keeps every row of a block of `c` ... */
  lemma {:induction false} GroupOfAll(s: seq<Row>, c: string)
    requires forall i :: 0 <= i < |s| ==> s[i].Id() == c
    ensures GroupOf(s, c) == s
    decreases |s|
  {
    if s != [] {
      assert s[0].Id() == c;
      GroupOfAll(s[1..], c);
      assert s == [s[0]] + s[1..];
    }
  }

  /** ... and none of a table without `c`. */
  lemma {:induction false} GroupOfNone(s: seq<Row>, c: string)
    requires forall i :: 0 <= i < |s| ==> s[i].Id() != c
    ensures GroupOf(s, c) == []
    decreases |s|
  {
    if s != [] {
      assert s[0].Id() != c;
      GroupOfNone(s[1..], c);
    }
  }

  lemma {:induction false} RowsOfAll(ts: seq<Transition>, c: string)
    requires forall k :: 0 <= k < |ts| ==> ts[k].idHdv == c
    ensures RowsOf(ts, c) == ts
    decreases |ts|
  {
    if ts != [] {
      assert ts[0].idHdv == c;
      RowsOfAll(ts[1..], c);
      assert ts == [ts[0]] + ts[1..];
    }
  }

  lemma {:induction false} RowsOfNone(ts: seq<Transition>, c: string)
    requires forall k :: 0 <= k < |ts| ==> ts[k].idHdv != c
    ensures RowsOf(ts, c) == []
    decreases |ts|
  {
    if ts != [] {
      assert ts[0].idHdv != c;
      RowsOfNone(ts[1..], c);
    }
  }

  // ---- blockwise computations ----

  /** `f` yields only rows of the candidate of its block. */
  ghost predicate KeepsCandidate(f: seq<Row> -> seq<Transition>)
  {
    forall b: seq<Row> :: b != [] && Uniform(b) ==> forall k :: 0 <= k < |f(b)| ==> f(b)[k].idHdv == b[0].Id()
  }

  /** `f` yields at least one row for every candidate block. */
  ghost predicate NeverSilent(f: seq<Row> -> seq<Transition>)
  {
    forall b: seq<Row> :: b != [] && Uniform(b) ==> |f(b)| >= 1
  }

  lemma ChainBlockwise()
    ensures KeepsCandidate(Chain) && NeverSilent(Chain) && Chain([]) == []
  {
    forall b: seq<Row> | b != [] && Uniform(b) ensures |Chain(b)| >= 1 && forall k :: 0 <= k < |Chain(b)| ==> Chain(b)[k].idHdv == b[0].Id() {
      ChainNonEmpty(b);
    }
    assert Annotate([]) == [];
  }

  lemma BlockwiseSplit<U>(s: seq<Row>, f: seq<Row> -> seq<U>)
    requires s != []
    ensures Blockwise(s, f) == f(s[..RunLen(s)]) + Blockwise(s[RunLen(s)..], f)
  {
  }

  /** The rows of a blockwise result come from the candidates of the table. */
  lemma {:induction false} BlockwiseIds(s: seq<Row>, f: seq<Row> -> seq<Transition>)
    requires KeepsCandidate(f)
    ensures forall k :: 0 <= k < |Blockwise(s, f)| ==> exists i :: 0 <= i < |s| && s[i].Id() == Blockwise(s, f)[k].idHdv
    decreases |s|
  {
    if s != [] {
      var n := RunLen(s);
      var b := s[..n];
      var t := Blockwise(s, f);
      BlockwiseSplit(s, f);
      BlockwiseIds(s[n..], f);
      forall k | 0 <= k < |t| ensures exists i :: 0 <= i < |s| && s[i].Id() == t[k].idHdv {
        if k < |f(b)| {
          assert t[k] == f(b)[k];
          assert s[0].Id() == t[k].idHdv;
        } else {
          assert t[k] == Blockwise(s[n..], f)[k - |f(b)|];
          var i :| 0 <= i < |s[n..]| && s[n..][i].Id() == t[k].idHdv;
          assert s[n + i] == s[n..][i];
        }
      }
    } else {
      assert Blockwise(s, f) == [];
    }
  }

  /** The rest of a grouped table is grouped and does not hold the
      candidate of the first block. */
  lemma GroupedRest(s: seq<Row>)
    requires Grouped(s) && s != []
    ensures Grouped(s[RunLen(s)..])
    ensures forall i :: 0 <= i < |s[RunLen(s)..]| ==> s[RunLen(s)..][i].Id() != s[0].Id()
  {
    var n := RunLen(s);
    forall i | 0 <= i < |s[n..]| ensures s[n..][i].Id() != s[0].Id() {
      assert s[n..][i] == s[n + i];
    }
  }

  lemma GroupOfSplit(s: seq<Row>, n: nat, c: string)
    requires n <= |s|
    ensures GroupOf(s, c) == GroupOf(s[..n], c) + GroupOf(s[n..], c)
  {
    assert s == s[..n] + s[n..];
    GroupOfAppend(s[..n], s[n..], c);
  }

  /** The rows of `c` in a blockwise result: those of the first block,
      then those of the rest. */
  lemma RowsOfBlockwise(s: seq<Row>, f: seq<Row> -> seq<Transition>, c: string)
    requires s != []
    ensures RowsOf(Blockwise(s, f), c) == RowsOf(f(s[..RunLen(s)]), c) + RowsOf(Blockwise(s[RunLen(s)..], f), c)
  {
    BlockwiseSplit(s, f);
    RowsOfAppend(f(s[..RunLen(s)]), Blockwise(s[RunLen(s)..], f), c);
  }

  /** The rows `f` yields for a uniform block all carry its candidate. */
  lemma KeepsAt(f: seq<Row> -> seq<Transition>, b: seq<Row>)
    requires KeepsCandidate(f) && b != [] && Uniform(b)
    ensures forall k :: 0 <= k < |f(b)| ==> f(b)[k].idHdv == b[0].Id()
  {
  }

  /** After the first block of a grouped table, its candidate has neither
      rows nor results. */
  lemma RestWithoutCandidate(s: seq<Row>, f: seq<Row> -> seq<Transition>)
    requires Grouped(s) && KeepsCandidate(f) && s != []
    ensures GroupOf(s[RunLen(s)..], s[0].Id()) == []
    ensures RowsOf(Blockwise(s[RunLen(s)..], f), s[0].Id()) == []
  {
    var rest := s[RunLen(s)..];
    GroupedRest(s);
    GroupOfNone(rest, s[0].Id());
    BlockwiseIds(rest, f);
    RowsOfNone(Blockwise(rest, f), s[0].Id());
  }

  /** The first block is the whole group of its candidate. */
  lemma BlockOwnCandidate(s: seq<Row>, f: seq<Row> -> seq<Transition>)
    requires Grouped(s) && KeepsCandidate(f) && s != []
    ensures RowsOf(Blockwise(s, f), s[0].Id()) == f(GroupOf(s, s[0].Id()))
  {
    var c := s[0].Id();
    var n := RunLen(s);
    var b := s[..n];
    RowsOfBlockwise(s, f, c);
    GroupOfSplit(s, n, c);
    RestWithoutCandidate(s, f);
    KeepsAt(f, b);
    GroupOfAll(b, c);
    RowsOfAll(f(b), c);
    assert GroupOf(s, c) == b + [] == b;
  }

  /** A block of another candidate contributes nothing to the rows of `c`. */
  lemma BlockOtherCandidate(s: seq<Row>, f: seq<Row> -> seq<Transition>, c: string)
    requires KeepsCandidate(f) && s != [] && s[0].Id() != c
    ensures RowsOf(Blockwise(s, f), c) == RowsOf(Blockwise(s[RunLen(s)..], f), c)
    ensures GroupOf(s, c) == GroupOf(s[RunLen(s)..], c)
  {
    var n := RunLen(s);
    RowsOfBlockwise(s, f, c);
    GroupOfSplit(s, n, c);
    KeepsAt(f, s[..n]);
    GroupOfNone(s[..n], c);
    RowsOfNone(f(s[..n]), c);
  }

  /** In a grouped table, the rows a blockwise computation yields for
      candidate `c` are what `f` yields on that candidate's rows alone. */
  lemma {:induction false} BlockwisePerCandidate(s: seq<Row>, f: seq<Row> -> seq<Transition>, c: string)
    requires Grouped(s) && KeepsCandidate(f) && f([]) == []
    ensures RowsOf(Blockwise(s, f), c) == f(GroupOf(s, c))
    decreases |s|
  {
    if s == [] {
      assert Blockwise(s, f) == [];
    } else if s[0].Id() == c {
      BlockOwnCandidate(s, f);
    } else {
      BlockOtherCandidate(s, f, c);
      GroupedRest(s);
      BlockwisePerCandidate(s[RunLen(s)..], f, c);
    }
  }

  /** A blockwise computation that is never silent covers every candidate. */
  lemma {:induction false} BlockwiseCoverage(s: seq<Row>, f: seq<Row> -> seq<Transition>, i: nat)
    requires KeepsCandidate(f) && NeverSilent(f) && i < |s|
    ensures exists k :: 0 <= k < |Blockwise(s, f)| && Blockwise(s, f)[k].idHdv == s[i].Id()
    decreases |s|
  {
    var n := RunLen(s);
    var b, rest := s[..n], s[n..];
    BlockwiseSplit(s, f);
    var fb, fr := f(b), Blockwise(rest, f);
    assert Blockwise(s, f) == fb + fr;
    if i < n {
      assert Uniform(b) by {
        forall j | 0 <= j < |b| ensures b[j].Id() == b[0].Id() {
          assert b[j] == s[j];
        }
      }
      assert |fb| >= 1;
      KeepsAt(f, b);
      assert b[0] == s[0];
      IdAtLeft(fb, fr, 0);
    } else {
      BlockwiseCoverage(rest, f, i - n);
      var k :| 0 <= k < |fr| && fr[k].idHdv == rest[i - n].Id();
      assert rest[i - n] == s[i];
      IdAtRight(fb, fr, k);
    }
  }

  /** An entry of the left part is an entry of the concatenation ... */
  lemma IdAtLeft(a: seq<Transition>, b: seq<Transition>, k: nat)
    requires k < |a|
    ensures exists m :: 0 <= m < |a + b| && (a + b)[m].idHdv == a[k].idHdv
  {
    assert (a + b)[k] == a[k];
  }

  /** ... and so is one of the right part. */
  lemma IdAtRight(a: seq<Transition>, b: seq<Transition>, k: nat)
    requires k < |b|
    ensures exists m :: 0 <= m < |a + b| && (a + b)[m].idHdv == b[k].idHdv
  {
    assert (a + b)[|a| + k] == b[k];
  }

  /** `f` maps each block to one annotated row per row, in order. */
  ghost predicate RowForRow(f: seq<Row> -> seq<EventRow>)
  {
    forall b: seq<Row> :: |f(b)| == |b| && forall i :: 0 <= i < |b| ==> f(b)[i].row == b[i]
  }

  lemma {:induction false} BlockwiseKeeps(s: seq<Row>, f: seq<Row> -> seq<EventRow>)
    requires RowForRow(f)
    ensures |Blockwise(s, f)| == |s|
    ensures forall i :: 0 <= i < |s| ==> Blockwise(s, f)[i].row == s[i]
    decreases |s|
  {
    if s != [] {
      var n := RunLen(s);
      var b := s[..n];
      var rest := s[n..];
      BlockwiseSplit(s, f);
      BlockwiseKeeps(rest, f);
      forall i | 0 <= i < |s| ensures Blockwise(s, f)[i].row == s[i] {
        if i < n {
          assert Blockwise(s, f)[i] == f(b)[i];
        } else {
          assert Blockwise(s, f)[i] == Blockwise(rest, f)[i - n];
          assert rest[i - n] == s[i];
        }
      }
    } else {
      assert Blockwise(s, f) == [];
    }
  }

  // ---- the network table ----

  /** In a grouped table, the network rows of each candidate are exactly
      what that candidate's own rows yield on their own. */
  lemma NetworkPerCandidate(s: seq<Row>, c: string)
    requires Grouped(s)
    ensures RowsOf(Network(s), c) == Chain(GroupOf(s, c))
  {
    ChainBlockwise();
    BlockwisePerCandidate(s, Chain, c);
  }

  /** Every candidate of the table has at least one network row, and every
      network row belongs to a candidate of the table. */
  lemma NetworkCoverage(s: seq<Row>)
    ensures forall i :: 0 <= i < |s| ==> exists k :: 0 <= k < |Network(s)| && Network(s)[k].idHdv == s[i].Id()
    ensures forall k :: 0 <= k < |Network(s)| ==> exists i :: 0 <= i < |s| && s[i].Id() == Network(s)[k].idHdv
  {
    var t := Network(s);
    assert t == Blockwise(s, Chain);
    ChainBlockwise();
    forall i | 0 <= i < |s| ensures exists k :: 0 <= k < |t| && t[k].idHdv == s[i].Id() {
      BlockwiseCoverage(s, Chain, i);
    }
    BlockwiseIds(s, Chain);
  }

  /** `tables['edges']` keeps every merged row, in the sorted order. */
  lemma EdgesTableKeeps(s: seq<Row>)
    ensures |EdgesTable(s)| == |s|
    ensures forall i :: 0 <= i < |s| ==> EdgesTable(s)[i].row == s[i]
  {
    forall b: seq<Row> ensures |Annotate(b)| == |b| && forall i :: 0 <= i < |b| ==> Annotate(b)[i].row == b[i] {
      AnnotateFlags(b);
    }
    BlockwiseKeeps(s, Annotate);
  }

  // ---- endpoints ----

  /** `set(source) | set(target)` of a network table. */
  function Endpoints(ts: seq<Transition>): set<nat>
  {
    (set k | 0 <= k < |ts| :: ts[k].source) + (set k | 0 <= k < |ts| :: ts[k].target)
  }

  /** The node ids of a set of rows. */
  function NodeSet(b: seq<Row>): set<nat>
  {
    set i | 0 <= i < |b| :: b[i].node
  }

  /** `set(node)` of a node table. */
  function NodeIds(nodes: seq<NodeRow>): set<nat>
  {
    set i | 0 <= i < |nodes| :: nodes[i].node
  }

  function SurvivorNodes(sv: seq<EventRow>): set<nat>
  {
    set j | 0 <= j < |sv| :: sv[j].row.node
  }

  /** A lone survivor's self-loop touches its node only. */
  lemma LinksEndpointsOne(sv: seq<EventRow>)
    requires |sv| == 1
    ensures Endpoints(Links(sv)) == SurvivorNodes(sv)
  {
    var ts := Links(sv);
    assert ts == [Transition(sv[0].row.Id(), sv[0].row.node, sv[0].row.node, sv[0].year, false)];
    forall x | x in Endpoints(ts) ensures x == sv[0].row.node {
      var k :| 0 <= k < |ts| && (ts[k].source == x || ts[k].target == x);
    }
    assert ts[0].source == sv[0].row.node;
    forall x | x in SurvivorNodes(sv) ensures x == sv[0].row.node {
      var j :| 0 <= j < |sv| && sv[j].row.node == x;
    }
  }

  /** The links between two or more survivors touch every survivor's node
      and no other. */
  lemma LinksAt(sv: seq<EventRow>)
    requires |sv| >= 2
    ensures |Links(sv)| == |sv| - 1
    ensures forall k :: 0 <= k < |sv| - 1 ==> Links(sv)[k].source == sv[k].row.node && Links(sv)[k].target == sv[k + 1].row.node
  {
    assert forall k :: 0 <= k < |sv| - 1 ==> Links(sv)[k] == Sourced(sv)[k + 1];
  }

  lemma LinksEndpointsMany(sv: seq<EventRow>)
    requires |sv| >= 2
    ensures Endpoints(Links(sv)) == SurvivorNodes(sv)
  {
    var ts := Links(sv);
    LinksAt(sv);
    forall x | x in SurvivorNodes(sv) ensures x in Endpoints(ts) {
      var j :| 0 <= j < |sv| && sv[j].row.node == x;
      if j == 0 {
        assert ts[0].source == x;
      } else {
        assert ts[j - 1].target == x;
      }
    }
    forall x | x in Endpoints(ts) ensures x in SurvivorNodes(sv) {
      var k :| 0 <= k < |ts| && (ts[k].source == x || ts[k].target == x);
      assert sv[k].row.node in SurvivorNodes(sv) && sv[k + 1].row.node in SurvivorNodes(sv);
    }
  }

  /** The survivors of a block whose nodes follow names carry every node of
      the block. */
  lemma SurvivorNodesOfBlock(b: seq<Row>)
    requires b != [] && NodesByName(b)
    ensures SurvivorNodes(Survivors(Annotate(b))) == NodeSet(b)
  {
    var a := Annotate(b);
    var sv := Survivors(a);
    AnnotateFlags(b);
    forall x | x in SurvivorNodes(sv) ensures x in NodeSet(b) {
      var j :| 0 <= j < |sv| && sv[j].row.node == x;
      SurvivorRows(b, j);
    }
    forall x | x in NodeSet(b) ensures x in SurvivorNodes(sv) {
      var i :| 0 <= i < |b| && b[i].node == x;
      SurvivorsCover(a, i);
      var j :| 0 <= j < |sv| && sv[j].row.Name() == a[i].row.Name();
      SurvivorRows(b, j);
      var p :| 0 <= p < |b| && sv[j] == a[p] && a[p].row == b[p];
      assert b[p].Name() == b[i].Name();
    }
  }

  /** The network rows of one candidate touch exactly the nodes of its events. */
  lemma ChainEndpoints(b: seq<Row>)
    requires b != [] && NodesByName(b)
    ensures Endpoints(Chain(b)) == NodeSet(b)
  {
    AnnotateFlags(b);
    SurvivorsLast(Annotate(b));
    if |Survivors(Annotate(b))| == 1 {
      LinksEndpointsOne(Survivors(Annotate(b)));
    } else {
      LinksEndpointsMany(Survivors(Annotate(b)));
    }
    SurvivorNodesOfBlock(b);
  }

  lemma EndpointsAppend(a: seq<Transition>, b: seq<Transition>)
    ensures Endpoints(a + b) == Endpoints(a) + Endpoints(b)
  {
    var ab := a + b;
    forall x | x in Endpoints(ab) ensures x in Endpoints(a) + Endpoints(b) {
      var k :| 0 <= k < |ab| && (ab[k].source == x || ab[k].target == x);
      if k < |a| {
        assert ab[k] == a[k];
      } else {
        assert ab[k] == b[k - |a|];
      }
    }
    forall x | x in Endpoints(a) ensures x in Endpoints(ab) {
      var k :| 0 <= k < |a| && (a[k].source == x || a[k].target == x);
      assert ab[k] == a[k];
    }
    forall x | x in Endpoints(b) ensures x in Endpoints(ab) {
      var k :| 0 <= k < |b| && (b[k].source == x || b[k].target == x);
      assert ab[|a| + k] == b[k];
    }
  }

  lemma NodeSetSplit(s: seq<Row>, n: nat)
    requires n <= |s|
    ensures NodeSet(s) == NodeSet(s[..n]) + NodeSet(s[n..])
  {
    forall x | x in NodeSet(s) ensures x in NodeSet(s[..n]) + NodeSet(s[n..]) {
      var i :| 0 <= i < |s| && s[i].node == x;
      if i < n {
        assert s[..n][i] == s[i];
      } else {
        assert s[n..][i - n] == s[i];
      }
    }
    forall x | x in NodeSet(s[..n]) ensures x in NodeSet(s) {
      var i :| 0 <= i < n && s[..n][i].node == x;
      assert s[i] == s[..n][i];
    }
    forall x | x in NodeSet(s[n..]) ensures x in NodeSet(s) {
      var i :| 0 <= i < |s| - n && s[n..][i].node == x;
      assert s[n + i] == s[n..][i];
    }
  }

  /** When every row carries its name's node id, the network touches
      exactly the nodes of the table's rows. */
  lemma {:induction false} NetworkEndpoints(s: seq<Row>, es: seq<Edge>)
    requires FromNodeTable(s, es)
    ensures Endpoints(Network(s)) == NodeSet(s)
    decreases |s|
  {
    if s == [] {
      assert Network(s) == [];
    } else {
      var n := RunLen(s);
      assert Network(s) == Chain(s[..n]) + Network(s[n..]) by {
        BlockwiseSplit(s, Chain);
      }
      FromNodeTableSlice(s, es, 0, n);
      FromNodeTableSlice(s, es, n, |s|);
      assert s[n..|s|] == s[n..];
      ChainEndpoints(s[..n]);
      NetworkEndpoints(s[n..], es);
      EndpointsAppend(Chain(s[..n]), Network(s[n..]));
      NodeSetSplit(s, n);
    }
  }

  /** The merged rows carry only nodes of the node table ... */
  lemma MergedNodesInTable(s: seq<Row>, es: seq<Edge>)
    requires FromNodeTable(s, es)
    ensures NodeSet(s) <= NodeIds(NodeTable(es))
  {
    var nt := NodeTable(es);
    NodeNamesCover(es);
    forall x | x in NodeSet(s) ensures x in NodeIds(nt) {
      var i :| 0 <= i < |s| && s[i].node == x;
      NodeRowOf(es, s[i].Name());
      assert nt[x].node == x;
    }
  }

  /** ... and every one of them. */
  lemma TableNodesMerged(s: seq<Row>, es: seq<Edge>)
    requires forall k :: 0 <= k < |es| ==> Row(es[k], NodeOf(es, es[k].pName)) in s
    ensures NodeIds(NodeTable(es)) <= NodeSet(s)
  {
    var nt := NodeTable(es);
    NodeNamesCover(es);
    forall x | x in NodeIds(nt) ensures x in NodeSet(s) {
      var r :| 0 <= r < |nt| && nt[r].node == x;
      NodeTableRows(es, r);
      assert nt[r].pName in Names(es);
      var k :| 0 <= k < |Names(es)| && Names(es)[k] == nt[r].pName;
      assert Row(es[k], NodeOf(es, es[k].pName)) in s;
      var i :| 0 <= i < |s| && s[i] == Row(es[k], NodeOf(es, es[k].pName));
      assert s[i].node == x;
    }
  }

  /** The merged rows, in any order, carry every node of the node table
      and no other. */
  lemma MergedNodeSet(s: seq<Row>, es: seq<Edge>)
    requires multiset(s) == multiset(Merge(es, NodeTable(es)))
    ensures FromNodeTable(s, es)
    ensures NodeSet(s) == NodeIds(NodeTable(es))
  {
    NodeTableJoins(es);
    SortedMergeRows(s, es, NodeTable(es));
    MergedNodesInTable(s, es);
    TableNodesMerged(s, es);
  }

  /** `set(source) | set(target) == set(node)` holds for the tables the
      pipeline builds: whatever order the sort leaves ties in, the network
      touches every node of the node table and no other. */
  lemma NetworkEndpointsAreNodes(s: seq<Row>, es: seq<Edge>)
    requires IsSortedMerge(s, Merge(es, NodeTable(es)))
    ensures Endpoints(Network(s)) == NodeIds(NodeTable(es))
  {
    MergedNodeSet(s, es);
    NetworkEndpoints(s, es);
  }
}
