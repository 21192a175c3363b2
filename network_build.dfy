/** `network_table` as the column-by-column passes it makes
    (peru_party_switchers/code/sql/db_config.py:315-377), proved to compute
    the tables `Transitions` specifies. */
module NetworkBuild {
  import opened Wrappers
  import opened RawEdges
  import opened Nodes
  import opened Transitions
  import opened NetworkTable

  lemma {:induction false} SurvivorsAppend(x: seq<EventRow>, y: seq<EventRow>)
    ensures Survivors(x + y) == Survivors(x) + Survivors(y)
    decreases |x|
  {
    if x == [] {
      assert x + y == y;
    } else {
      assert (x + y)[0] == x[0] && (x + y)[1..] == x[1..] + y;
      SurvivorsAppend(x[1..], y);
    }
  }

  lemma SurvivorsSnoc(a: seq<EventRow>, i: nat)
    requires i < |a|
    ensures Survivors(a[..i + 1]) == Survivors(a[..i]) + (if a[i].sameParty then [] else [a[i]])
  {
    assert a[..i + 1] == a[..i] + [a[i]];
    SurvivorsAppend(a[..i], [a[i]]);
    assert Survivors([a[i]]) == (if a[i].sameParty then [] else [a[i]]) + Survivors([]);
  }

  /** The passes over one candidate's rows: `same_party` and the previous
      end, then the year override and `fillna(2020)`, then the
      `~same_party` filter, then `source`, `_n`/`_N` and `edge`. */
  method ProcessBlock(b: seq<Row>) returns (annotated: seq<EventRow>, links: seq<Transition>)
    ensures annotated == Annotate(b)
    ensures links == Chain(b)
  {
    var sameParty, y0 := SamePartyPass(b);
    annotated := YearPass(b, sameParty, y0);
    var sv := SurvivorPass(annotated);
    links := LinkPass(sv);
  }

  /** `same_party`, and the year before the override: the previous row's
      `end`, or the row's own `begin` where there is none. */
  method SamePartyPass(b: seq<Row>) returns (sameParty: seq<bool>, y0: seq<Option<int>>)
    ensures |sameParty| == |b| && |y0| == |b|
    ensures forall k :: 0 <= k < |b| ==> sameParty[k] == SameParty(b, k) && y0[k] == Y0(b, k)
  {
    sameParty, y0 := [], [];
    for i := 0 to |b|
      invariant |sameParty| == i && |y0| == i
      invariant forall k :: 0 <= k < i ==> sameParty[k] == SameParty(b, k) && y0[k] == Y0(b, k)
    {
      sameParty := sameParty + [i + 1 < |b| && b[i + 1].Name() == b[i].Name()];
      y0 := y0 + [if i > 0 && b[i - 1].End().Some? then b[i - 1].End() else b[i].Begin()];
    }
  }

  /** The one-step override from the un-overridden column, then `fillna`. */
  method YearPass(b: seq<Row>, sameParty: seq<bool>, y0: seq<Option<int>>) returns (annotated: seq<EventRow>)
    requires |sameParty| == |b| && |y0| == |b|
    requires forall k :: 0 <= k < |b| ==> sameParty[k] == SameParty(b, k) && y0[k] == Y0(b, k)
    ensures annotated == Annotate(b)
  {
    annotated := [];
    for i := 0 to |b|
      invariant |annotated| == i
      invariant forall k :: 0 <= k < i ==> annotated[k] == Annotate(b)[k]
    {
      var y := if i > 0 && sameParty[i - 1] then y0[i - 1] else y0[i];
      var year := if y.None? then ObservationYear else y.value;
      annotated := annotated + [EventRow(b[i], sameParty[i], year)];
    }
  }

  /** `ntwk.loc[~ntwk['same_party']]`. */
  method SurvivorPass(annotated: seq<EventRow>) returns (sv: seq<EventRow>)
    ensures sv == Survivors(annotated)
  {
    sv := [];
    for i := 0 to |annotated|
      invariant sv == Survivors(annotated[..i])
    {
      SurvivorsSnoc(annotated, i);
      if !annotated[i].sameParty {
        sv := sv + [annotated[i]];
      }
    }
    assert annotated[..|annotated|] == annotated;
  }

  /** `source`, `_n`, `_N`, `edge` and the final filter. */
  method LinkPass(sv: seq<EventRow>) returns (links: seq<Transition>)
    ensures links == Links(sv)
  {
    links := [];
    var total := |sv|;
    for j := 0 to |sv|
      invariant |links| == (if total == 1 || j == 0 then j else j - 1)
      invariant links == Links(sv)[..|links|]
    {
      var source := if j == 0 then sv[j].row.node else sv[j - 1].row.node;
      var rank := j + 1;
      if rank > 1 || total == 1 {
        var t := Transition(sv[j].row.Id(), source, sv[j].row.node, sv[j].year, source != sv[j].row.node);
        LinkAt(sv, j);
        PrefixSnoc(Links(sv), |links|);
        links := links + [t];
      }
    }
    assert links == Links(sv)[..|Links(sv)|];
  }

  /** The link a kept survivor contributes, at its place in `Links`. */
  lemma LinkAt(sv: seq<EventRow>, j: nat)
    requires j < |sv| && (j >= 1 || |sv| == 1)
    ensures |Links(sv)| == (if |sv| == 1 then 1 else |sv| - 1)
    ensures var src := if j == 0 then sv[j].row.node else sv[j - 1].row.node;
      Links(sv)[if |sv| == 1 then j else j - 1] == Transition(sv[j].row.Id(), src, sv[j].row.node, sv[j].year, src != sv[j].row.node)
  {
    var sd := Sourced(sv);
    if |sv| == 1 {
      assert Links(sv) == sd;
    } else {
      assert Links(sv) == sd[1..];
      assert sd[1..][j - 1] == sd[j];
    }
  }

  lemma PrefixSnoc<T>(s: seq<T>, n: nat)
    requires n < |s|
    ensures s[..n + 1] == s[..n] + [s[n]]
  {
  }

  /** A leading run found by scanning is the one `RunLen` measures. */
  lemma RunLenIs(s: seq<Row>, n: nat)
    requires 1 <= n <= |s|
    requires forall k :: 0 <= k < n ==> s[k].Id() == s[0].Id()
    requires n == |s| || s[n].Id() != s[0].Id()
    ensures RunLen(s) == n
  {
  }

  /** Splitting off the run `sorted[i..j]` splits both tables. */
  lemma BlockStep(sorted: seq<Row>, i: nat, j: nat)
    requires i < j <= |sorted|
    requires forall k :: i <= k < j ==> sorted[k].Id() == sorted[i].Id()
    requires j == |sorted| || sorted[j].Id() != sorted[i].Id()
    ensures Network(sorted[i..]) == Chain(sorted[i..j]) + Network(sorted[j..])
    ensures EdgesTable(sorted[i..]) == Annotate(sorted[i..j]) + EdgesTable(sorted[j..])
  {
    var rest := sorted[i..];
    RunLenIs(rest, j - i);
    assert rest[..j - i] == sorted[i..j] && rest[j - i..] == sorted[j..];
    BlockwiseSplit(rest, Chain);
    BlockwiseSplit(rest, Annotate);
  }

  /** What the network table of the sorted merge holds: each candidate's
      rows are the chain of that candidate's events, and when the merge used
      the node table every endpoint is a node id and every node id is an
      endpoint. */
  lemma NetworkOfSorted(edges: seq<Edge>, nodes: seq<NodeRow>, sorted: seq<Row>)
    requires IsSortedMerge(sorted, Merge(edges, nodes))
    ensures forall c :: RowsOf(Network(sorted), c) == Chain(GroupOf(sorted, c))
    ensures nodes == NodeTable(edges) ==> Endpoints(Network(sorted)) == NodeIds(nodes)
  {
    SortedIsGrouped(sorted);
    forall c ensures RowsOf(Network(sorted), c) == Chain(GroupOf(sorted, c)) {
      NetworkPerCandidate(sorted, c);
    }
    if nodes == NodeTable(edges) {
      NetworkEndpointsAreNodes(sorted, edges);
    }
  }

  /** Moving the next block from the rest onto the done part keeps the
      whole. */
  lemma PrefixGrows<T>(done: seq<T>, block: seq<T>, rest: seq<T>, whole: seq<T>)
    requires done + (block + rest) == whole
    ensures (done + block) + rest == whole
  {
  }

  /** The end of the block of rows `sorted[i]`'s candidate starts. */
  method BlockEnd(sorted: seq<Row>, i: nat) returns (j: nat)
    requires i < |sorted|
    ensures i < j <= |sorted|
    ensures forall k :: i <= k < j ==> sorted[k].Id() == sorted[i].Id()
    ensures j == |sorted| || sorted[j].Id() != sorted[i].Id()
  {
    j := i + 1;
    while j < |sorted| && sorted[j].Id() == sorted[i].Id()
      invariant i < j <= |sorted|
      invariant forall k :: i <= k < j ==> sorted[k].Id() == sorted[i].Id()
      decreases |sorted| - j
    {
      j := j + 1;
    }
  }

  /** `network_table`: `sorted` is the order `sort_values` leaves the merged
      rows in. Returns the network table and the new `tables['edges']`. */
  method BuildNetwork(edges: seq<Edge>, nodes: seq<NodeRow>, sorted: seq<Row>)
    returns (ntwk: seq<Transition>, edgesTable: seq<EventRow>)
    requires IsSortedMerge(sorted, Merge(edges, nodes))
    ensures ntwk == Network(sorted)
    ensures edgesTable == EdgesTable(sorted)
    ensures forall c :: RowsOf(ntwk, c) == Chain(GroupOf(sorted, c))
    ensures nodes == NodeTable(edges) ==> Endpoints(ntwk) == NodeIds(nodes)
  {
    ntwk := [];
    edgesTable := [];
    var i := 0;
    while i < |sorted|
      invariant 0 <= i <= |sorted|
      invariant ntwk + Network(sorted[i..]) == Network(sorted)
      invariant edgesTable + EdgesTable(sorted[i..]) == EdgesTable(sorted)
      decreases |sorted| - i
    {
      var j := BlockEnd(sorted, i);
      BlockStep(sorted, i, j);
      var annotated, links := ProcessBlock(sorted[i..j]);
      PrefixGrows(ntwk, links, Network(sorted[j..]), Network(sorted));
      PrefixGrows(edgesTable, annotated, EdgesTable(sorted[j..]), EdgesTable(sorted));
      ntwk := ntwk + links;
      edgesTable := edgesTable + annotated;
      i := j;
    }
    assert sorted[|sorted|..] == [];
    assert Network([]) == [] && EdgesTable([]) == [];
    NetworkOfSorted(edges, nodes, sorted);
  }
}
