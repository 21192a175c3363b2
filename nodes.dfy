/** Canonical names on the event rows (`party_standarization`) and the node
    table (`node_table`, peru_party_switchers/code/sql/db_config.py:289-312). */
module Nodes {
  import opened Ordering
  import opened RawEdges
  import opened PartyNames

  /** An event row once `p_name` has been added. */
  datatype Edge = Edge(raw: RawEdge, pName: string)

  /** `party_standarization` on the `edges` table: every row gains the
      canonical name of its `org_pol`, nothing else changes. */
  method PartyStandarization(edges: seq<RawEdge>) returns (named: seq<Edge>)
    ensures |named| == |edges|
    ensures forall i :: 0 <= i < |edges| ==> named[i] == Edge(edges[i], Standardize(edges[i].orgPol))
  {
    var orgPol := seq(|edges|, i requires 0 <= i < |edges| => edges[i].orgPol);
    var pName := StandardizeColumn(orgPol);
    named := seq(|edges|, i requires 0 <= i < |edges| => Edge(edges[i], pName[i]));
  }

  /** One row of the `nodes` table; `current` and `reg_movement` are 0/1. */
  datatype NodeRow = NodeRow(node: nat, pName: string, current: int, regMovement: int)

  function Names(es: seq<Edge>): (ns: seq<string>)
    ensures |ns| == |es| && forall i :: 0 <= i < |es| ==> ns[i] == es[i].pName
  {
    seq(|es|, i requires 0 <= i < |es| => es[i].pName)
  }

  /** `agg({'current': 'max'})` over the rows of one name, where a row
      counts 1 when its type is `current`. */
  function MaxCurrent(es: seq<Edge>, name: string): (m: int)
    ensures m == 0 || m == 1
  {
    if es == [] then 0
    else
      var last := es[|es| - 1];
      var flag := if last.pName == name && last.raw.kind == Current then 1 else 0;
      var rest := MaxCurrent(es[..|es| - 1], name);
      if flag > rest then flag else rest
  }

  /** The three `str.contains` tests that set `reg_movement`. */
  function RegMovement(name: string): int
  {
    if Contains(name, "MR/D") || Contains(name, "OPLD") || Contains(name, "OPLP") then 1 else 0
  }

  /** The node table: the distinct names in ascending order, numbered from 0. */
  function NodeTable(es: seq<Edge>): seq<NodeRow>
  {
    var names := SortedDistinct(Names(es), StrLt);
    seq(|names|, i requires 0 <= i < |names| =>
      NodeRow(i, names[i], MaxCurrent(es, names[i]), RegMovement(names[i])))
  }

  /** The node id of a name, as `node_table` assigns it. */
  function NodeOf(es: seq<Edge>, name: string): nat
  {
    Rank(Names(es), StrLt, name)
  }

  // ---- properties ----

  /** `current` is 1 exactly when some row of that name has type `current`. */
  lemma {:induction false} MaxCurrentIsAny(es: seq<Edge>, name: string)
    ensures MaxCurrent(es, name) == 1 <==>
      exists i :: 0 <= i < |es| && es[i].pName == name && es[i].raw.kind == Current
  {
    if es != [] {
      var init := es[..|es| - 1];
      MaxCurrentIsAny(init, name);
      if MaxCurrent(init, name) == 1 {
        var i :| 0 <= i < |init| && init[i].pName == name && init[i].raw.kind == Current;
        assert es[i] == init[i];
      }
      if exists i :: 0 <= i < |es| && es[i].pName == name && es[i].raw.kind == Current {
        var i :| 0 <= i < |es| && es[i].pName == name && es[i].raw.kind == Current;
        if i < |es| - 1 {
          assert init[i] == es[i];
        }
      }
    }
  }

  /** The node table lists the distinct names of the event rows in strictly
      ascending order, one row each. */
  lemma NodeNamesSorted(es: seq<Edge>)
    ensures var nodes := NodeTable(es);
      && |nodes| == |Elems(Names(es))|
      && forall i, j :: 0 <= i < j < |nodes| ==> StrLt(nodes[i].pName, nodes[j].pName)
  {
    StrLtIsStrictTotalOrder();
    SortedDistinctCorrect(Names(es), StrLt);
  }

  /** `node` is the row position, and the names of the node table are
      exactly those of the event rows. */
  lemma NodeNamesCover(es: seq<Edge>)
    ensures var nodes := NodeTable(es);
      && (forall i :: 0 <= i < |nodes| ==> nodes[i].node == i && nodes[i].pName in Names(es))
      && (forall k :: 0 <= k < |es| ==> exists i :: 0 <= i < |nodes| && nodes[i].pName == es[k].pName)
  {
    var names := SortedDistinct(Names(es), StrLt);
    var nodes := NodeTable(es);
    StrLtIsStrictTotalOrder();
    SortedDistinctCorrect(Names(es), StrLt);
    forall i | 0 <= i < |nodes| ensures nodes[i].node == i && nodes[i].pName in Names(es) {
      assert nodes[i].pName == names[i];
      assert names[i] in Elems(names);
    }
    forall k | 0 <= k < |es| ensures exists i :: 0 <= i < |nodes| && nodes[i].pName == es[k].pName {
      assert Names(es)[k] in Elems(Names(es));
      var i :| 0 <= i < |names| && names[i] == es[k].pName;
      assert nodes[i].pName == names[i];
    }
  }

  /** The node row of a name carries the name's dense rank, and the flags
      say what the source promises: `current` is 1 iff a `current` row has
      that name, `reg_movement` is 1 iff the name contains `MR/D`, `OPLD` or
      `OPLP`. */
  lemma NodeTableRows(es: seq<Edge>, i: nat)
    requires i < |NodeTable(es)|
    ensures var n := NodeTable(es)[i];
      && n.node == NodeOf(es, n.pName)
      && (n.current == 1 <==> exists k :: 0 <= k < |es| && es[k].pName == n.pName && es[k].raw.kind == Current)
      && (n.current == 0 || n.current == 1)
      && (n.regMovement == 1 <==> Contains(n.pName, "MR/D") || Contains(n.pName, "OPLD") || Contains(n.pName, "OPLP"))
      && (n.regMovement == 0 || n.regMovement == 1)
  {
    StrLtIsStrictTotalOrder();
    RankAt(Names(es), StrLt, i);
    MaxCurrentIsAny(es, NodeTable(es)[i].pName);
  }

  /** Two names get the same node id exactly when they are equal, and ids
      are below the number of nodes. */
  lemma NodeOfInjective(es: seq<Edge>, a: string, b: string)
    requires a in Names(es) && b in Names(es)
    ensures NodeOf(es, a) == NodeOf(es, b) <==> a == b
    ensures NodeOf(es, a) < |NodeTable(es)|
  {
    StrLtIsStrictTotalOrder();
    RankOrder(Names(es), StrLt, a, b);
    RankDense(Names(es), StrLt);
    SortedDistinctCorrect(Names(es), StrLt);
  }

  /** The node row holding a name sits at the name's node id. */
  lemma NodeRowOf(es: seq<Edge>, name: string)
    requires name in Names(es)
    ensures NodeOf(es, name) < |NodeTable(es)|
    ensures NodeTable(es)[NodeOf(es, name)].pName == name
  {
    var names := SortedDistinct(Names(es), StrLt);
    StrLtIsStrictTotalOrder();
    SortedDistinctCorrect(Names(es), StrLt);
    assert name in Elems(names);
    var j :| 0 <= j < |names| && names[j] == name;
    RankAt(Names(es), StrLt, j);
  }

  /** The canonical names written with a backslash are not flagged as
      regional movements. */
  lemma BackslashNamesNotRegional(ayllu: string, fuerzaSocial: string)
    requires ayllu == "MR\\D AYLLU" && fuerzaSocial == "MR\\D FUERZA SOCIAL"
    ensures RegMovement(ayllu) == 0 && RegMovement(fuerzaSocial) == 0
  {
    MissingCharAt(ayllu, "MR/D", 2);
    MissingCharAt(ayllu, "OPLD", 1);
    MissingCharAt(ayllu, "OPLP", 1);
    MissingCharAt(fuerzaSocial, "MR/D", 2);
    MissingCharAt(fuerzaSocial, "OPLD", 1);
    MissingCharAt(fuerzaSocial, "OPLP", 1);
  }
}
