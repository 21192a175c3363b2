/** The transition extractor (`network_table`,
    peru_party_switchers/code/sql/db_config.py:315-377): the merged and
    sorted rows, the per-candidate passes and what they yield. */
module Transitions {
  import opened Wrappers
  import opened Ordering
  import opened RawEdges
  import opened Nodes

  /** An event row after the merge with the node table. */
  datatype Row = Row(edge: Edge, node: nat)
  {
    function Id(): string { edge.raw.idHdv }
    function Name(): string { edge.pName }
    function Begin(): Option<int> { edge.raw.begin }
    function End(): Option<int> { edge.raw.end }
  }

  /** A row of `tables['edges']` after `network_table`: the merged row with
      the `same_party` flag and the filled `year`. */
  datatype EventRow = EventRow(row: Row, sameParty: bool, year: int)

  /** A row of the network table: `id_hdv`, `source`, `target`, `year`, `edge`. */
  datatype Transition = Transition(idHdv: string, source: nat, target: nat, year: int, edge: bool)

  // ---- merge with the node table (inner join on p_name) ----

  /** The node rows whose name is that of `e`, joined to `e`. */
  function MatchNodes(e: Edge, nodes: seq<NodeRow>): seq<Row>
  {
    if nodes == [] then []
    else
      var n := nodes[|nodes| - 1];
      MatchNodes(e, nodes[..|nodes| - 1]) + (if n.pName == e.pName then [Row(e, n.node)] else [])
  }

  function Merge(es: seq<Edge>, nodes: seq<NodeRow>): seq<Row>
  {
    if es == [] then [] else Merge(es[..|es| - 1], nodes) + MatchNodes(es[|es| - 1], nodes)
  }

  // ---- sort_values(['id_hdv', 'begin', 'end']) ----

  /** Year order with nulls last. */
  predicate YearLt(a: Option<int>, b: Option<int>)
  {
    a.Some? && (b.None? || a.value < b.value)
  }

  /** `a` may precede `b` in the sorted table. */
  predicate KeyLe(a: Row, b: Row)
  {
    StrLt(a.Id(), b.Id())
    || (a.Id() == b.Id()
        && (YearLt(a.Begin(), b.Begin()) || (a.Begin() == b.Begin() && !YearLt(b.End(), a.End()))))
  }

  ghost predicate SortedByKey(s: seq<Row>)
  {
    forall i, j :: 0 <= i < j < |s| ==> KeyLe(s[i], s[j])
  }

  /** The order `sort_values` may produce from `merged`: the same rows, in
      key order; the order of rows with equal keys is left open. */
  ghost predicate IsSortedMerge(s: seq<Row>, merged: seq<Row>)
  {
    multiset(s) == multiset(merged) && SortedByKey(s)
  }

  // ---- per-candidate blocks ----

  /** The length of the leading run of rows of one candidate. */
  function RunLen(s: seq<Row>): (n: nat)
    requires s != []
    ensures 1 <= n <= |s|
    ensures forall k :: 0 <= k < n ==> s[k].Id() == s[0].Id()
    ensures n == |s| || s[n].Id() != s[0].Id()
  {
    if |s| == 1 || s[1].Id() != s[0].Id() then 1 else 1 + RunLen(s[1..])
  }

  /** Every candidate's rows are contiguous: the candidate of the leading
      block appears nowhere after it, and so on for the rest. */
  ghost predicate Grouped(s: seq<Row>)
    decreases |s|
  {
    s == []
    || ((forall i :: RunLen(s) <= i < |s| ==> s[i].Id() != s[0].Id()) && Grouped(s[RunLen(s)..]))
  }

  /** `groupby('id_hdv')['p_name'].shift(-1) == p_name` within a block. */
  predicate SameParty(b: seq<Row>, i: nat)
  {
    i + 1 < |b| && b[i + 1].Name() == b[i].Name()
  }

  /** The year before the override: the previous row's end, or this row's
      begin when there is no previous row or its end is null. */
  function Y0(b: seq<Row>, i: nat): Option<int>
    requires i < |b|
  {
    if i > 0 && b[i - 1].End().Some? then b[i - 1].End() else b[i].Begin()
  }

  /** The override: after a same-party row, the previous row's Y0. The value
      taken is the one before the override, so nothing chains. */
  function Y1(b: seq<Row>, i: nat): Option<int>
    requires i < |b|
  {
    if i > 0 && SameParty(b, i - 1) then Y0(b, i - 1) else Y0(b, i)
  }

  /** `fillna(2020)`. */
  function Year(b: seq<Row>, i: nat): int
    requires i < |b|
  {
    match Y1(b, i)
    case None => ObservationYear
    case Some(y) => y
  }

  function Annotate(b: seq<Row>): seq<EventRow>
  {
    seq(|b|, i requires 0 <= i < |b| => EventRow(b[i], SameParty(b, i), Year(b, i)))
  }

  /** `ntwk.loc[~ntwk['same_party']]`. */
  function Survivors(a: seq<EventRow>): seq<EventRow>
  {
    if a == [] then [] else (if a[0].sameParty then [] else [a[0]]) + Survivors(a[1..])
  }

  /** `source` is the previous survivor's node, or the row's own node for
      the first survivor; `edge` is `source != node`. */
  function Sourced(sv: seq<EventRow>): seq<Transition>
  {
    seq(|sv|, j requires 0 <= j < |sv| =>
      var src := if j == 0 then sv[j].row.node else sv[j - 1].row.node;
      Transition(sv[j].row.Id(), src, sv[j].row.node, sv[j].year, src != sv[j].row.node))
  }

  /** `_n > 1 | _N == 1`: the first survivor's row goes unless it is the only one. */
  function Links(sv: seq<EventRow>): seq<Transition>
  {
    if |sv| <= 1 then Sourced(sv) else Sourced(sv)[1..]
  }

  /** What one candidate's rows contribute to the network table. */
  function Chain(b: seq<Row>): seq<Transition>
  {
    Links(Survivors(Annotate(b)))
  }

  /** `f` applied to each candidate block of `s` in turn, the results side
      by side: what a `groupby('id_hdv')` computation over a table sorted by
      candidate produces. */
  function Blockwise<U>(s: seq<Row>, f: seq<Row> -> seq<U>): seq<U>
    decreases |s|
  {
    if s == [] then [] else var n := RunLen(s); f(s[..n]) + Blockwise(s[n..], f)
  }

  /** The network table of a sorted merged table. */
  function Network(s: seq<Row>): seq<Transition>
  {
    Blockwise(s, Chain)
  }

  /** `tables['edges']` as `network_table` leaves it. */
  function EdgesTable(s: seq<Row>): seq<EventRow>
  {
    Blockwise(s, Annotate)
  }

  // ---- survivors of a flagged block ----

  /** Row `i` of `a` is followed by a row of the same name. */
  predicate NextSame(a: seq<EventRow>, i: nat)
  {
    i + 1 < |a| && a[i + 1].row.Name() == a[i].row.Name()
  }

  /** The `same_party` flags of `a` are those of its own rows. */
  ghost predicate FlagsMatch(a: seq<EventRow>)
  {
    forall i :: 0 <= i < |a| ==> a[i].sameParty == NextSame(a, i)
  }

  lemma AnnotateFlags(b: seq<Row>)
    ensures |Annotate(b)| == |b|
    ensures forall i :: 0 <= i < |b| ==> Annotate(b)[i].row == b[i] && Annotate(b)[i].year == Year(b, i)
    ensures FlagsMatch(Annotate(b))
  {
  }

  lemma FlagsMatchTail(a: seq<EventRow>)
    requires FlagsMatch(a) && a != []
    ensures FlagsMatch(a[1..])
  {
    forall i | 0 <= i < |a| - 1
      ensures a[1..][i].sameParty == NextSame(a[1..], i)
    {
      assert a[i + 1].sameParty == NextSame(a, i + 1);
      assert a[1..][i] == a[i + 1];
      if i + 1 < |a| - 1 {
        assert a[1..][i + 1] == a[i + 2];
      }
    }
  }

  /** The last row always survives, and it is the last survivor. */
  lemma {:induction false} SurvivorsLast(a: seq<EventRow>)
    requires FlagsMatch(a) && a != []
    ensures Survivors(a) != [] && Survivors(a)[|Survivors(a)| - 1] == a[|a| - 1]
    decreases |a|
  {
    if |a| == 1 {
      assert a[0].sameParty == NextSame(a, 0);
      assert Survivors(a[1..]) == [];
    } else {
      FlagsMatchTail(a);
      SurvivorsLast(a[1..]);
    }
  }

  /** The first survivor carries the name of the first row. */
  lemma {:induction false} SurvivorsFirstName(a: seq<EventRow>)
    requires FlagsMatch(a) && a != []
    ensures Survivors(a) != [] && Survivors(a)[0].row.Name() == a[0].row.Name()
    decreases |a|
  {
    SurvivorsLast(a);
    if a[0].sameParty {
      FlagsMatchTail(a);
      SurvivorsFirstName(a[1..]);
    }
  }

  /** Every survivor is a row of `a`. */
  lemma {:induction false} SurvivorsAreRows(a: seq<EventRow>)
    ensures forall j :: 0 <= j < |Survivors(a)| ==> Survivors(a)[j] in a
    decreases |a|
  {
    if a != [] {
      SurvivorsAreRows(a[1..]);
      forall j | 0 <= j < |Survivors(a)| ensures Survivors(a)[j] in a {
        if !a[0].sameParty && j == 0 {
        } else {
          var k := if a[0].sameParty then j else j - 1;
          assert Survivors(a)[j] == Survivors(a[1..])[k];
          assert Survivors(a[1..])[k] in a[1..];
        }
      }
    }
  }

  /** Consecutive survivors carry different names. */
  lemma {:induction false} SurvivorsDistinct(a: seq<EventRow>)
    requires FlagsMatch(a)
    ensures forall j :: 0 <= j < |Survivors(a)| - 1 ==> Survivors(a)[j].row.Name() != Survivors(a)[j + 1].row.Name()
    decreases |a|
  {
    if a != [] {
      FlagsMatchTail(a);
      SurvivorsDistinct(a[1..]);
      var rest := Survivors(a[1..]);
      if !a[0].sameParty && rest != [] {
        assert |a| > 1;
        SurvivorsFirstName(a[1..]);
        assert rest[0].row.Name() == a[1].row.Name();
        forall j | 0 <= j < |Survivors(a)| - 1
          ensures Survivors(a)[j].row.Name() != Survivors(a)[j + 1].row.Name()
        {
          if j > 0 {
            assert Survivors(a)[j] == rest[j - 1] && Survivors(a)[j + 1] == rest[j];
          }
        }
      }
    }
  }

  /** Every name of `a` is the name of some survivor. */
  lemma {:induction false} SurvivorsCover(a: seq<EventRow>, i: nat)
    requires FlagsMatch(a) && i < |a|
    ensures exists j :: 0 <= j < |Survivors(a)| && Survivors(a)[j].row.Name() == a[i].row.Name()
    decreases |a|
  {
    FlagsMatchTail(a);
    var sv := Survivors(a);
    var off := if a[0].sameParty then 0 else 1;
    assert forall j :: 0 <= j < |Survivors(a[1..])| ==> sv[j + off] == Survivors(a[1..])[j];
    if i == 0 {
      SurvivorsFirstName(a);
    } else {
      SurvivorsCover(a[1..], i - 1);
      var j :| 0 <= j < |Survivors(a[1..])| && Survivors(a[1..])[j].row.Name() == a[1..][i - 1].row.Name();
      assert sv[j + off].row.Name() == a[i].row.Name();
    }
  }

  /** A single survivor exactly when the rows all carry one name. */
  lemma OneSurvivorIff(a: seq<EventRow>)
    requires FlagsMatch(a) && a != []
    ensures |Survivors(a)| == 1 <==> forall i :: 0 <= i < |a| ==> a[i].row.Name() == a[0].row.Name()
  {
    var sv := Survivors(a);
    SurvivorsLast(a);
    SurvivorsAreRows(a);
    if |sv| == 1 {
      forall i | 0 <= i < |a| ensures a[i].row.Name() == a[0].row.Name() {
        SurvivorsCover(a, i);
        SurvivorsCover(a, 0);
      }
    }
    if forall i :: 0 <= i < |a| ==> a[i].row.Name() == a[0].row.Name() {
      if |sv| >= 2 {
        SurvivorsDistinct(a);
        assert false;
      }
    }
  }

  // ---- what one candidate contributes ----

  /** Every row of the block belongs to one candidate. */
  ghost predicate Uniform(b: seq<Row>)
  {
    forall i :: 0 <= i < |b| ==> b[i].Id() == b[0].Id()
  }

  /** Within `b`, node ids and names determine each other, as they do after
      the merge with the node table. */
  ghost predicate NodesByName(b: seq<Row>)
  {
    forall i, j :: 0 <= i < |b| && 0 <= j < |b| ==> (b[i].node == b[j].node <==> b[i].Name() == b[j].Name())
  }

  lemma SurvivorRows(b: seq<Row>, j: nat)
    requires j < |Survivors(Annotate(b))|
    ensures exists i :: 0 <= i < |b| && Survivors(Annotate(b))[j] == Annotate(b)[i] && Annotate(b)[i].row == b[i]
  {
    SurvivorsAreRows(Annotate(b));
    assert Survivors(Annotate(b))[j] in Annotate(b);
  }

  /** Every candidate yields at least one row, all of them carry the
      candidate's id, and the last one ends at the node of the candidate's
      last event. */
  lemma ChainNonEmpty(b: seq<Row>)
    requires b != [] && Uniform(b)
    ensures |Chain(b)| >= 1
    ensures Chain(b)[|Chain(b)| - 1].target == b[|b| - 1].node
    ensures forall k :: 0 <= k < |Chain(b)| ==> Chain(b)[k].idHdv == b[0].Id()
  {
    var a := Annotate(b);
    var sv := Survivors(a);
    AnnotateFlags(b);
    SurvivorsLast(a);
    forall k | 0 <= k < |Chain(b)| ensures Chain(b)[k].idHdv == b[0].Id() {
      var j := if |sv| <= 1 then k else k + 1;
      assert Chain(b)[k] == Sourced(sv)[j];
      SurvivorRows(b, j);
    }
  }

  /** A candidate has a single survivor exactly when all its events carry
      one name, and then yields one self-loop with `edge` false, at the
      node and year of its last event. */
  lemma ChainSelfLoop(b: seq<Row>)
    requires b != []
    ensures (forall i :: 0 <= i < |b| ==> b[i].Name() == b[0].Name()) <==> |Survivors(Annotate(b))| == 1
    ensures |Survivors(Annotate(b))| == 1 ==>
      var last := b[|b| - 1];
      Chain(b) == [Transition(last.Id(), last.node, last.node, Year(b, |b| - 1), false)]
  {
    var a := Annotate(b);
    AnnotateFlags(b);
    OneSurvivorIff(a);
    SurvivorsLast(a);
    assert forall i :: 0 <= i < |b| ==> a[i].row.Name() == b[i].Name();
  }

  /** With k >= 2 survivors a candidate yields k - 1 rows; row j links
      survivor j to survivor j + 1 at the latter's year, and since
      consecutive survivors carry different names, every row has `edge`
      true. */
  lemma ChainMoves(b: seq<Row>)
    requires b != [] && Uniform(b) && NodesByName(b)
    requires |Survivors(Annotate(b))| >= 2
    ensures var sv := Survivors(Annotate(b));
      && |Chain(b)| == |sv| - 1
      && forall j :: 0 <= j < |sv| - 1 ==>
           Chain(b)[j] == Transition(b[0].Id(), sv[j].row.node, sv[j + 1].row.node, sv[j + 1].year, true)
  {
    var a := Annotate(b);
    var sv := Survivors(a);
    AnnotateFlags(b);
    SurvivorsDistinct(a);
    forall j | 0 <= j < |sv| - 1
      ensures Chain(b)[j] == Transition(b[0].Id(), sv[j].row.node, sv[j + 1].row.node, sv[j + 1].year, true)
    {
      assert Chain(b)[j] == Sourced(sv)[j + 1];
      SurvivorRows(b, j);
      SurvivorRows(b, j + 1);
      var p :| 0 <= p < |b| && sv[j] == a[p] && a[p].row == b[p];
      var q :| 0 <= q < |b| && sv[j + 1] == a[q] && a[q].row == b[q];
      assert b[p].node != b[q].node;
    }
  }

  /** One year override, never two: three events of one party give a
      self-loop at the end of the first, not at its begin. */
  lemma NoChainingExample(e1: RawEdge, e2: RawEdge, e3: RawEdge)
    requires e1.idHdv == e2.idHdv == e3.idHdv
    requires e1.begin == Some(2000) && e1.end == Some(2005)
    requires e2.begin == Some(2005) && e2.end == Some(2010)
    requires e3.begin == Some(2010) && e3.end == Some(2015)
    ensures Chain([Row(Edge(e1, "A"), 0), Row(Edge(e2, "A"), 0), Row(Edge(e3, "A"), 0)])
      == [Transition(e1.idHdv, 0, 0, 2005, false)]
  {
    var b := [Row(Edge(e1, "A"), 0), Row(Edge(e2, "A"), 0), Row(Edge(e3, "A"), 0)];
    var a := Annotate(b);
    assert a == [EventRow(b[0], true, 2000), EventRow(b[1], true, 2000), EventRow(b[2], false, 2005)];
    assert Survivors(a) == [a[2]] by {
      assert a[1..][1..] == [a[2]];
      assert Survivors([a[2]]) == [a[2]] + Survivors([]);
    }
  }

  /** `[A(2000-05), A(2005-10), B(2010-20)]` gives the single row A -> B at 2010. */
  lemma CollapseExample(e1: RawEdge, e2: RawEdge, e3: RawEdge)
    requires e1.idHdv == e2.idHdv == e3.idHdv
    requires e1.begin == Some(2000) && e1.end == Some(2005)
    requires e2.begin == Some(2005) && e2.end == Some(2010)
    requires e3.begin == Some(2010) && e3.end == Some(2020)
    ensures Chain([Row(Edge(e1, "A"), 0), Row(Edge(e2, "A"), 0), Row(Edge(e3, "B"), 1)])
      == [Transition(e1.idHdv, 0, 1, 2010, true)]
  {
    var b := [Row(Edge(e1, "A"), 0), Row(Edge(e2, "A"), 0), Row(Edge(e3, "B"), 1)];
    var a := Annotate(b);
    assert b[2].Name() != b[1].Name();
    assert a == [EventRow(b[0], true, 2000), EventRow(b[1], false, 2000), EventRow(b[2], false, 2010)];
    assert Survivors(a) == [a[1], a[2]] by {
      assert a[1..][1..] == [a[2]];
      assert Survivors([a[2]]) == [a[2]] + Survivors([]);
    }
  }
}
