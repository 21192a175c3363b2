/** The relabelling of communities in
    peru_party_switchers/code/analysis/gen_clusters.py: the community
    partition and the bisection of the largest community are inputs, the
    node table gains `cluster_gmc`, `cluster_klb`, `clusters` and
    `cluster_labs`, and `update_db` drops the two intermediate columns. */
module Clusters {
  import opened Ordering
  import opened QueryValidation

  /** Where the loop over the communities leaves a node: the index of the
      last community listing it, or the initial 0. */
  function CommunityOf(communities: seq<set<Value>>, v: Value): (k: nat)
    ensures k == 0 || (k < |communities| && v in communities[k])
    ensures forall j :: k < j < |communities| ==> v !in communities[j]
  {
    if communities == [] then 0
    else
      var n := |communities| - 1;
      if v in communities[n] then n else CommunityOf(communities[..n], v)
  }

  /** Communities that do not overlap. */
  ghost predicate Disjoint(communities: seq<set<Value>>)
  {
    forall j, k :: 0 <= j < k < |communities| ==> communities[j] !! communities[k]
  }

  /** With a partition, a node's `cluster_gmc` is the index of the community
      holding it. */
  lemma CommunityOfPartition(communities: seq<set<Value>>, v: Value, k: nat)
    requires Disjoint(communities) && k < |communities| && v in communities[k]
    ensures CommunityOf(communities, v) == k
  {
  }

  /** `cluster_klb` after the loop over the two halves (`0`, then `1`, a
      later half overwriting) and `fillna(2)`. */
  function HalfOf(bisection: (set<Value>, set<Value>), v: Value): (h: int)
    ensures h == 2 <==> v !in bisection.0 && v !in bisection.1
    ensures h == 1 <==> v in bisection.1
    ensures h == 0 <==> v in bisection.0 && v !in bisection.1
  {
    if v in bisection.1 then 1 else if v in bisection.0 then 0 else 2
  }

  /** `cluster_gmc * 100 + cluster_klb`. */
  function Code(gmc: int, klb: int): int
  {
    gmc * 100 + klb
  }

  /** Codes tell (community, half) pairs apart, the half being 0, 1 or 2. */
  lemma CodeInjective(g1: nat, k1: int, g2: nat, k2: int)
    requires 0 <= k1 <= 2 && 0 <= k2 <= 2
    ensures Code(g1, k1) == Code(g2, k2) <==> g1 == g2 && k1 == k2
  {
    if g1 < g2 {
      assert Code(g1, k1) < g1 * 100 + 100 <= Code(g2, k2);
    } else if g2 < g1 {
      assert Code(g2, k2) < g2 * 100 + 100 <= Code(g1, k1);
    }
  }

  /** The last cluster id; every id from it on is merged into it. */
  const LastCluster := 12

  /** `pd.factorize(codes, sort=True)[0]` with every id of 12 and above
      merged into 12. */
  function ClusterOf(codes: seq<int>, i: nat): (c: int)
    requires i < |codes|
    ensures 0 <= c <= LastCluster
  {
    var r := Rank(codes, IntLt, codes[i]);
    if r >= LastCluster then LastCluster else r
  }

  /** Cluster ids follow the codes: a smaller code never gets a larger id,
      equal codes get equal ids, and distinct codes whose dense rank is
      below 12 get distinct ids. The ids in use are `0 .. min(n, 13) - 1`
      for `n` distinct codes. */
  lemma ClusterOrder(codes: seq<int>, i: nat, j: nat)
    requires i < |codes| && j < |codes|
    ensures codes[i] <= codes[j] ==> ClusterOf(codes, i) <= ClusterOf(codes, j)
    ensures codes[i] == codes[j] ==> ClusterOf(codes, i) == ClusterOf(codes, j)
    ensures codes[i] != codes[j] && Rank(codes, IntLt, codes[i]) < LastCluster ==>
      ClusterOf(codes, i) != ClusterOf(codes, j)
  {
    IntLtIsStrictTotalOrder();
    RankOrder(codes, IntLt, codes[i], codes[j]);
  }

  lemma ClustersDense(codes: seq<int>, c: nat)
    requires c < |Elems(codes)| && c <= LastCluster
    ensures exists i :: 0 <= i < |codes| && ClusterOf(codes, i) == c
  {
    IntLtIsStrictTotalOrder();
    RankDense(codes, IntLt);
    assert c in Ranks(codes, IntLt);
    var v :| v in codes && Rank(codes, IntLt, v) == c;
    var i :| 0 <= i < |codes| && codes[i] == v;
    assert ClusterOf(codes, i) == c;
  }

  /** `cluster_labs`, indexed by cluster id. */
  const ClusterLabels: seq<string> := [
    "Strong Regional Left", "Socialist Progresive + AP", "APRA influence", "Fujimorism",
    "High Income Liberal Progresive", "Podemos Peru Influence", "APP Influence", "Etnocacerism",
    "P.N.", "FONAVI", "RUNA", "PPS", "Other Local Movements"]

  /** The node columns `cluster_analysis` adds, one entry per row of the node table. */
  datatype ClusterColumns = ClusterColumns(gmc: seq<int>, klb: seq<int>, clusters: seq<int>, labs: seq<string>)

  /** `cluster_analysis` after the two library calls. `df` is the node
      table `network_structure` returns, indexed by `node`, and `df.loc`
      finds nodes by that index; `communities` is the modularity partition
      (the first the largest) and `bisection` the two halves of its first
      community. The columns come back one entry per row of `df`. */
  method ClusterAnalysis(df: IndexedFrame, communities: seq<set<Value>>, bisection: (set<Value>, set<Value>))
    returns (cols: ClusterColumns)
    requires |communities| >= 1
    requires forall k, v :: 0 <= k < |communities| && v in communities[k] ==> v in df.index
    requires forall v :: v in bisection.0 ==> v in df.index
    requires forall v :: v in bisection.1 ==> v in df.index
    ensures var ids := df.index;
      |cols.gmc| == |ids| && |cols.klb| == |ids| && |cols.clusters| == |ids| && |cols.labs| == |ids|
    ensures forall i :: 0 <= i < |df.index| ==> cols.gmc[i] == CommunityOf(communities, df.index[i])
    ensures forall i :: 0 <= i < |df.index| ==> cols.klb[i] == HalfOf(bisection, df.index[i])
    ensures forall i :: 0 <= i < |df.index| ==>
      cols.clusters[i] == ClusterOf(seq(|df.index|, k requires 0 <= k < |df.index| => Code(cols.gmc[k], cols.klb[k])), i)
    ensures forall i :: 0 <= i < |df.index| ==> 0 <= cols.clusters[i] <= LastCluster
    ensures forall i :: 0 <= i < |df.index| ==> cols.labs[i] == ClusterLabels[cols.clusters[i]]
  {
    var ids := df.index;
    var n := |ids|;
    var gmc: seq<int> := seq(n, i => 0);
    for c := 0 to |communities|
      invariant |gmc| == n
      invariant forall i :: 0 <= i < n ==> gmc[i] == CommunityOf(communities[..c], ids[i])
    {
      gmc := seq(n, i requires 0 <= i < n => if ids[i] in communities[c] then c else gmc[i]);
      assert communities[..c + 1][..c] == communities[..c];
    }
    assert communities[..|communities|] == communities;
    var halves := [bisection.0, bisection.1];
    var klbNa: seq<int> := seq(n, i => -1);
    for c := 0 to 2
      invariant |klbNa| == n
      invariant forall i :: 0 <= i < n ==>
        klbNa[i] == (if c >= 2 && ids[i] in bisection.1 then 1
                     else if c >= 1 && ids[i] in bisection.0 then 0 else -1)
    {
      klbNa := seq(n, i requires 0 <= i < n => if ids[i] in halves[c] then c else klbNa[i]);
    }
    // fillna(2): -1 stands for the missing value
    var klb := seq(n, i requires 0 <= i < n => if klbNa[i] == -1 then 2 else klbNa[i]);
    var codes := seq(n, i requires 0 <= i < n => Code(gmc[i], klb[i]));
    var clusters := seq(n, i requires 0 <= i < n => Rank(codes, IntLt, codes[i]));
    clusters := seq(n, i requires 0 <= i < n => if clusters[i] >= LastCluster then LastCluster else clusters[i]);
    var labs := seq(n, i requires 0 <= i < n => ClusterLabels[clusters[i]]);
    assert codes == seq(|df.index|, k requires 0 <= k < |df.index| => Code(gmc[k], klb[k]));
    cols := ClusterColumns(gmc, klb, clusters, labs);
  }

  // ---- update_db ----

  /** A data frame: every row holds one value per column. */
  ghost predicate WellFormed(f: Frame)
  {
    forall r :: 0 <= r < |f.rows| ==> |f.rows[r]| == |f.header|
  }

  /** How many columns of `header` are not in `cols`. */
  function Kept(header: seq<string>, cols: set<string>): nat
  {
    if header == [] then 0 else (if header[0] in cols then 0 else 1) + Kept(header[1..], cols)
  }

  /** The entries of `xs` at the columns whose name is not in `cols`. */
  function Keep<T>(header: seq<string>, xs: seq<T>, cols: set<string>): (ys: seq<T>)
    requires |xs| == |header|
    ensures |ys| == Kept(header, cols)
  {
    if header == [] then []
    else (if header[0] in cols then [] else [xs[0]]) + Keep(header[1..], xs[1..], cols)
  }

  /** `df.drop(cols, axis=1)`. */
  function DropColumns(f: Frame, cols: set<string>): (r: Frame)
    requires WellFormed(f)
  {
    Frame(Keep(f.header, f.header, cols),
      seq(|f.rows|, i requires 0 <= i < |f.rows| => Keep(f.header, f.rows[i], cols)))
  }

  lemma {:induction false} KeepHeader(header: seq<string>, cols: set<string>, c: string)
    ensures c in Keep(header, header, cols) <==> c in header && c !in cols
  {
    if header != [] {
      KeepHeader(header[1..], cols, c);
      assert header == [header[0]] + header[1..];
    }
  }

  /** A kept column reads the same after the drop. */
  lemma {:induction false} KeepCell(header: seq<string>, row: seq<Value>, cols: set<string>, c: string)
    requires |row| == |header| && c in header && c !in cols
    ensures c in Keep(header, header, cols)
    ensures Keep(header, row, cols)[ColIndex(Keep(header, header, cols), c)] == row[ColIndex(header, c)]
  {
    KeepHeader(header, cols, c);
    var h, t := header[0], header[1..];
    var kh := Keep(t, t, cols);
    var kr := Keep(t, row[1..], cols);
    KeepCons(header, header, cols);
    KeepCons(header, row, cols);
    if h != c {
      KeepCell(t, row[1..], cols, c);
      var j := ColIndex(t, c);
      assert ColIndex(header, c) == 1 + j;
      assert row[1 + j] == row[1..][j];
      if h !in cols {
        ColIndexAfter(h, kh, c);
      }
    }
  }

  /** `Keep` on a non-empty header: the first entry, when kept, then the rest. */
  lemma KeepCons<T>(header: seq<string>, xs: seq<T>, cols: set<string>)
    requires |xs| == |header| && header != []
    ensures Keep(header, xs, cols) == (if header[0] in cols then [] else [xs[0]]) + Keep(header[1..], xs[1..], cols)
    ensures header[0] in cols ==> Keep(header, xs, cols) == Keep(header[1..], xs[1..], cols)
  {
    if header[0] in cols {
      assert [] + Keep(header[1..], xs[1..], cols) == Keep(header[1..], xs[1..], cols);
    }
  }

  /** A first column of another name shifts the index by one. */
  lemma ColIndexAfter(x: string, ys: seq<string>, c: string)
    requires c in ys && x != c
    ensures ColIndex([x] + ys, c) == 1 + ColIndex(ys, c)
  {
    assert ([x] + ys)[1..] == ys;
  }

  /** `update_db`'s drop: the columns left are exactly those not dropped,
      the rows stay, and every kept column holds the same values. */
  lemma DropColumnsKeeps(f: Frame, cols: set<string>, c: string)
    requires WellFormed(f)
    ensures c in DropColumns(f, cols).header <==> c in f.header && c !in cols
    ensures |DropColumns(f, cols).rows| == |f.rows|
    ensures c in f.header && c !in cols ==> Column(DropColumns(f, cols), c) == Column(f, c)
  {
    KeepHeader(f.header, cols, c);
    var d := DropColumns(f, cols);
    if c in f.header && c !in cols {
      forall i | 0 <= i < |f.rows| ensures Column(d, c)[i] == Column(f, c)[i] {
        KeepCell(f.header, f.rows[i], cols, c);
      }
    }
  }

  /** The two columns `update_db` drops. */
  const Intermediate: set<string> := {"cluster_gmc", "cluster_klb"}

  /** `update_db` keeps `clusters` and `cluster_labs` and loses the two
      intermediate columns. */
  lemma UpdateDbColumns(f: Frame)
    requires WellFormed(f)
    ensures "cluster_gmc" !in DropColumns(f, Intermediate).header
    ensures "cluster_klb" !in DropColumns(f, Intermediate).header
    ensures "clusters" in f.header ==> "clusters" in DropColumns(f, Intermediate).header
    ensures "cluster_labs" in f.header ==> "cluster_labs" in DropColumns(f, Intermediate).header
  {
    DropColumnsKeeps(f, Intermediate, "cluster_gmc");
    DropColumnsKeeps(f, Intermediate, "cluster_klb");
    DropColumnsKeeps(f, Intermediate, "clusters");
    DropColumnsKeeps(f, Intermediate, "cluster_labs");
  }
}
