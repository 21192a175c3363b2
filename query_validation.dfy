/** The query gate of peru_party_switchers/code/graph/network_structure.py:
    column headers, the three checks on a query result, the endpoint check,
    and the graph built from an edge table and a node table. */
module QueryValidation {
  import opened Wrappers
  import opened Ordering

  /** A value SQLite hands back. */
  datatype Value = Null | Int(i: int) | Text(s: string)

  /** A data frame: column names and rows, one value per column. */
  datatype Frame = Frame(header: seq<string>, rows: seq<seq<Value>>)

  /** A query SQLite could execute: the column names of the cursor
      description and the fetched records. */
  datatype QueryResult = QueryResult(description: seq<string>, records: seq<seq<Value>>)

  // ---- get_header ----

  /** Position of the first `c` in `s`, or `|s|` when there is none. */
  function FirstIndex(s: string, c: char): (k: nat)
    ensures k <= |s|
    ensures k < |s| ==> s[k] == c
    ensures forall j :: 0 <= j < k ==> s[j] != c
  {
    if s == [] then 0
    else if s[0] == c then 0
    else 1 + FirstIndex(s[1..], c)
  }

  /** A column name with its table qualifier removed: everything up to and
      including the first `.` is dropped, a name without `.` is kept. */
  function Unqualified(s: string): (r: string)
    ensures '.' !in s ==> r == s
    ensures '.' in s ==> exists k :: 0 <= k < |s| && s[k] == '.' && '.' !in s[..k] && r == s[k + 1..]
  {
    var k := FirstIndex(s, '.');
    if k < |s| then s[k + 1..] else s
  }

  /** The header `get_header` makes of a cursor description. */
  function Header(description: seq<string>): seq<string>
  {
    seq(|description|, i requires 0 <= i < |description| => Unqualified(description[i]))
  }

  /** `get_header`: one name per column of the description, unqualified. */
  method GetHeader(description: seq<string>) returns (header: seq<string>)
    ensures |header| == |description|
    ensures forall i :: 0 <= i < |description| ==> header[i] == Unqualified(description[i])
    ensures header == Header(description)
  {
    header := [];
    for i := 0 to |description|
      invariant |header| == i
      invariant forall k :: 0 <= k < i ==> header[k] == Unqualified(description[k])
    {
      var s := description[i];
      if '.' in s {
        s := s[FirstIndex(s, '.') + 1..];
      }
      header := header + [s];
    }
  }

  // ---- is_header_valid ----

  /** The priority columns of an edge query and of a node query. */
  function KeyColumns(edge: bool): seq<string>
  {
    if edge then ["id_hdv", "source", "target", "year"] else ["node"]
  }

  function AllIn(cols: seq<string>, header: seq<string>): (b: bool)
    ensures b <==> forall c :: c in cols ==> c in header
  {
    cols == [] || (cols[0] in header && AllIn(cols[1..], header))
  }

  /** `is_header_valid`: every priority column is present; any further
      column is allowed. */
  function IsHeaderValid(header: seq<string>, edge: bool): (b: bool)
    ensures b <==> forall c :: c in KeyColumns(edge) ==> c in header
    ensures edge ==> (b <==> "id_hdv" in header && "source" in header && "target" in header && "year" in header)
    ensures !edge ==> (b <==> "node" in header)
  {
    AllIn(KeyColumns(edge), header)
  }

  // ---- columns and keys ----

  /** The first column of that name. */
  function ColIndex(header: seq<string>, c: string): (j: nat)
    requires c in header
    ensures j < |header| && header[j] == c
  {
    if header[0] == c then 0 else 1 + ColIndex(header[1..], c)
  }

  /** The value of column `c` in a row. Rows of a query result hold one
      value per column; a shorter row reads as null there. */
  function Cell(f: Frame, row: seq<Value>, c: string): Value
    requires c in f.header
  {
    var j := ColIndex(f.header, c);
    if j < |row| then row[j] else Null
  }

  /** `df[c]`. */
  function Column(f: Frame, c: string): (col: seq<Value>)
    requires c in f.header
    ensures |col| == |f.rows|
  {
    seq(|f.rows|, i requires 0 <= i < |f.rows| => Cell(f, f.rows[i], c))
  }

  /** The key columns of one row. */
  function Key(f: Frame, row: seq<Value>, edge: bool): seq<Value>
    requires IsHeaderValid(f.header, edge)
  {
    var cols := KeyColumns(edge);
    seq(|cols|, i requires 0 <= i < |cols| => Cell(f, row, cols[i]))
  }

  function Keys(f: Frame, edge: bool): (ks: seq<seq<Value>>)
    requires IsHeaderValid(f.header, edge)
    ensures |ks| == |f.rows|
  {
    seq(|f.rows|, i requires 0 <= i < |f.rows| => Key(f, f.rows[i], edge))
  }

  // ---- is_unique ----

  /** The groups `groupby` forms over the key columns: one per distinct key,
      and none for a key holding a null. */
  function Groups(keys: seq<seq<Value>>): set<seq<Value>>
  {
    set k | k in keys && Null !in k
  }

  ghost predicate NoNullKey(keys: seq<seq<Value>>)
  {
    forall i :: 0 <= i < |keys| ==> Null !in keys[i]
  }

  lemma {:induction false} GroupsBound(keys: seq<seq<Value>>)
    ensures |Groups(keys)| <= |keys|
  {
    if keys != [] {
      var t := keys[..|keys| - 1];
      var x := keys[|keys| - 1];
      GroupsBound(t);
      assert keys == t + [x];
      if Null !in x {
        assert Groups(keys) == Groups(t) + {x};
      } else {
        assert Groups(keys) == Groups(t);
      }
    } else {
      assert Groups(keys) == {};
    }
  }

  /** The groups of `keys` with one more key. */
  lemma GroupsSnoc(t: seq<seq<Value>>, x: seq<Value>)
    ensures Groups(t + [x]) == if Null !in x then Groups(t) + {x} else Groups(t)
  {
  }

  /** As many groups as rows: no key holds a null and no two rows share one. */
  lemma {:induction false} GroupsFull(keys: seq<seq<Value>>)
    requires |Groups(keys)| == |keys|
    ensures NoNullKey(keys) && Distinct(keys)
  {
    if keys != [] {
      var t := keys[..|keys| - 1];
      var x := keys[|keys| - 1];
      assert keys == t + [x];
      GroupsSnoc(t, x);
      GroupsBound(t);
      assert Null !in x && x !in Groups(t) && |Groups(t)| == |t|;
      GroupsFull(t);
      assert x !in t;
      forall i, j | 0 <= i < j < |keys| ensures keys[i] != keys[j] {
        if j < |keys| - 1 {
          assert keys[i] == t[i] && keys[j] == t[j];
        } else {
          assert keys[i] == t[i];
        }
      }
      forall i | 0 <= i < |keys| ensures Null !in keys[i] {
        if i < |t| {
          assert keys[i] == t[i];
        }
      }
    }
  }

  /** No null and no shared key: one group per row. */
  lemma {:induction false} GroupsOfDistinct(keys: seq<seq<Value>>)
    requires NoNullKey(keys) && Distinct(keys)
    ensures |Groups(keys)| == |keys|
  {
    if keys == [] {
      assert Groups(keys) == {};
    } else {
      var t := keys[..|keys| - 1];
      var x := keys[|keys| - 1];
      assert keys == t + [x];
      GroupsSnoc(t, x);
      assert NoNullKey(t) && Distinct(t);
      GroupsOfDistinct(t);
      assert x !in t;
      assert Null !in x;
    }
  }

  /** There are as many groups as rows exactly when no key holds a null and
      no two rows share a key. */
  lemma GroupsCard(keys: seq<seq<Value>>)
    ensures |Groups(keys)| == |keys| <==> NoNullKey(keys) && Distinct(keys)
  {
    if |Groups(keys)| == |keys| {
      GroupsFull(keys);
    }
    if NoNullKey(keys) && Distinct(keys) {
      GroupsOfDistinct(keys);
    }
  }

  /** `is_unique`: as many rows as groups of the key columns, that is, every
      key is free of nulls and no two rows share one. */
  function IsUnique(f: Frame, edge: bool): (b: bool)
    requires IsHeaderValid(f.header, edge)
    ensures b <==> NoNullKey(Keys(f, edge)) && Distinct(Keys(f, edge))
  {
    GroupsCard(Keys(f, edge));
    |Groups(Keys(f, edge))| == |f.rows|
  }

  // ---- has_erroneous_values ----

  /** Rows of the inner join of the query rows with the stored rows on the
      key columns: each query row meets every stored row of equal key. */
  function JoinSize(query: seq<seq<Value>>, stored: seq<seq<Value>>): nat
  {
    if query == [] then 0
    else JoinSize(query[..|query| - 1], stored) + Count(stored, query[|query| - 1])
  }

  lemma {:induction false} CountZero<T>(s: seq<T>, x: T)
    requires x !in s
    ensures Count(s, x) == 0
  {
    if s != [] {
      assert x !in s[..|s| - 1];
      CountZero(s[..|s| - 1], x);
    }
  }

  lemma {:induction false} CountDistinct<T>(s: seq<T>, x: T)
    requires Distinct(s)
    ensures Count(s, x) <= 1
  {
    if s != [] {
      var t := s[..|s| - 1];
      CountDistinct(t, x);
      if s[|s| - 1] == x {
        assert x !in t;
        CountZero(t, x);
      }
    }
  }

  /** Against stored keys without duplicates the join is as large as the
      query exactly when every query key is stored. */
  lemma {:induction false} JoinSizeDistinct(query: seq<seq<Value>>, stored: seq<seq<Value>>)
    ensures Distinct(stored) ==> JoinSize(query, stored) <= |query|
    ensures Distinct(stored) ==>
      (JoinSize(query, stored) == |query| <==> forall i :: 0 <= i < |query| ==> query[i] in stored)
  {
    if query != [] && Distinct(stored) {
      var t := query[..|query| - 1];
      var x := query[|query| - 1];
      JoinSizeDistinct(t, stored);
      CountDistinct(stored, x);
      if x in stored {
        var i :| 0 <= i < |stored| && stored[i] == x;
        CountPositive(stored, i);
      } else {
        CountZero(stored, x);
      }
      if JoinSize(query, stored) == |query| {
        forall i | 0 <= i < |query| ensures query[i] in stored {
          if i < |query| - 1 {
            assert query[i] == t[i];
          }
        }
      }
      if forall i :: 0 <= i < |query| ==> query[i] in stored {
        forall i | 0 <= i < |t| ensures t[i] in stored {
          assert t[i] == query[i];
        }
      }
    }
  }

  /** `has_erroneous_values`: the inner join with the stored table on the key
      columns does not have as many rows as the query. */
  function HasErroneousValues(f: Frame, stored: Frame, edge: bool): (b: bool)
    requires IsHeaderValid(f.header, edge) && IsHeaderValid(stored.header, edge)
    ensures Distinct(Keys(stored, edge)) ==>
      (!b <==> forall i :: 0 <= i < |f.rows| ==> Keys(f, edge)[i] in Keys(stored, edge))
  {
    JoinSizeDistinct(Keys(f, edge), Keys(stored, edge));
    JoinSize(Keys(f, edge), Keys(stored, edge)) != |f.rows|
  }

  /** With a key stored twice, a query row holding that key alone is
      reported as erroneous: the join counts both stored rows. */
  lemma DuplicateStoredKey(f: Frame, stored: Frame, edge: bool)
    requires IsHeaderValid(f.header, edge) && IsHeaderValid(stored.header, edge)
    requires |f.rows| == 1 && Count(Keys(stored, edge), Keys(f, edge)[0]) >= 2
    ensures HasErroneousValues(f, stored, edge)
  {
    var q := Keys(f, edge);
    assert q[..0] == [];
  }

  // ---- validate_edge_query / validate_node_query ----

  /** The validation of an edge query (`edge`) or a node query: the header,
      then uniqueness of the keys, then presence of the keys in the stored
      table; the first check that fails gives `None`. */
  function ValidateQuery(header: seq<string>, records: seq<seq<Value>>, stored: Frame, edge: bool): (r: Option<Frame>)
    requires IsHeaderValid(stored.header, edge)
    ensures r.Some? ==> r.value == Frame(header, records) && IsHeaderValid(header, edge)
    ensures r.Some? ==> NoNullKey(Keys(r.value, edge)) && Distinct(Keys(r.value, edge))
    ensures Distinct(Keys(stored, edge)) ==>
      (r.Some? <==>
        && IsHeaderValid(header, edge)
        && NoNullKey(Keys(Frame(header, records), edge))
        && Distinct(Keys(Frame(header, records), edge))
        && forall i :: 0 <= i < |records| ==> Keys(Frame(header, records), edge)[i] in Keys(stored, edge))
  {
    if !IsHeaderValid(header, edge) then None
    else
      var df := Frame(header, records);
      if !IsUnique(df, edge) then None
      else if HasErroneousValues(df, stored, edge) then None
      else Some(df)
  }

  // ---- set_index ----

  /** A data frame after `set_index`: `index` holds the row labels, `table`
      the columns that are left. */
  datatype IndexedFrame = IndexedFrame(index: seq<Value>, table: Frame)

  /** One label per row. */
  predicate Aligned(f: IndexedFrame)
  {
    |f.index| == |f.table.rows|
  }

  /** `xs` without its entry at `j`; unchanged when `j` is past its end. */
  function DropAt<T>(xs: seq<T>, j: nat): (ys: seq<T>)
    ensures j < |xs| ==> |ys| == |xs| - 1
    ensures j >= |xs| ==> ys == xs
    ensures forall k :: 0 <= k < j && k < |ys| ==> ys[k] == xs[k]
    ensures j < |xs| ==> forall k :: j <= k < |ys| ==> ys[k] == xs[k + 1]
  {
    if j < |xs| then xs[..j] + xs[j + 1..] else xs
  }

  /** `ColIndex` is the first position holding the name. */
  lemma {:induction false} ColIndexIs(header: seq<string>, d: string, k: nat)
    requires k < |header| && header[k] == d
    requires forall m :: 0 <= m < k ==> header[m] != d
    ensures ColIndex(header, d) == k
  {
    if k > 0 {
      ColIndexIs(header[1..], d, k - 1);
    }
  }

  /** `ColIndex` finds no earlier position holding the name. */
  lemma {:induction false} ColIndexFirst(header: seq<string>, d: string)
    requires d in header
    ensures forall m :: 0 <= m < ColIndex(header, d) ==> header[m] != d
  {
    if header[0] != d {
      ColIndexFirst(header[1..], d);
      forall m | 0 <= m < ColIndex(header, d) ensures header[m] != d {
        if m > 0 {
          assert header[m] == header[1..][m - 1];
        }
      }
    }
  }

  /** Once the column at `j`, the first one named `c`, is gone, every other
      name `d` is still found, one place earlier when it came after `c`. */
  lemma ColIndexDropAt(header: seq<string>, c: string, d: string)
    requires c in header && d in header && d != c
    ensures var j := ColIndex(header, c);
      var k := ColIndex(header, d);
      d in DropAt(header, j) && ColIndex(DropAt(header, j), d) == if k < j then k else k - 1
  {
    var j := ColIndex(header, c);
    var k := ColIndex(header, d);
    var h := DropAt(header, j);
    ColIndexFirst(header, c);
    ColIndexFirst(header, d);
    if k < j {
      ColIndexIs(h, d, k);
    } else {
      assert k != j;
      forall m | 0 <= m < k - 1 ensures h[m] != d {
        if m >= j {
          assert h[m] == header[m + 1];
        }
      }
      ColIndexIs(h, d, k - 1);
    }
  }

  /** The names left after dropping the first column named `c`: every other
      name stays. */
  lemma DropAtHeader(header: seq<string>, c: string)
    requires c in header
    ensures forall d :: d != c ==> (d in DropAt(header, ColIndex(header, c)) <==> d in header)
  {
    var j := ColIndex(header, c);
    var h := DropAt(header, j);
    forall d | d != c
      ensures d in h <==> d in header
    {
      if d in header {
        ColIndexDropAt(header, c, d);
      }
      if d in h {
        var k :| 0 <= k < |h| && h[k] == d;
        if k < j {
          assert header[k] == d;
        } else {
          assert header[k + 1] == d;
        }
      }
    }
  }

  /** `set_index(c, inplace=True)`: the column `c` becomes the row labels and
      leaves the columns; every other column is kept. */
  function SetIndex(f: Frame, c: string): (r: IndexedFrame)
    requires c in f.header
    ensures Aligned(r) && r.index == Column(f, c)
    ensures |r.table.rows| == |f.rows| && |r.table.header| == |f.header| - 1
    ensures forall d :: d != c ==> (d in r.table.header <==> d in f.header)
  {
    var j := ColIndex(f.header, c);
    DropAtHeader(f.header, c);
    IndexedFrame(Column(f, c),
      Frame(DropAt(f.header, j), seq(|f.rows|, i requires 0 <= i < |f.rows| => DropAt(f.rows[i], j))))
  }

  /** A row with the entry at `j` gone: the entry at `k` is found at `k`,
      or at `k - 1` when it came after `j`, a missing entry reading null. */
  lemma DropAtCell(row: seq<Value>, j: nat, k: nat)
    requires k != j
    ensures var d := DropAt(row, j);
      var k' := if k < j then k else k - 1;
      (if k' < |d| then d[k'] else Null) == (if k < |row| then row[k] else Null)
  {
    if j >= |row| {
      assert DropAt(row, j) == row;
    }
  }

  /** Every other column reads the same once `c` is the index. */
  lemma SetIndexColumn(f: Frame, c: string, d: string)
    requires c in f.header && d in f.header && d != c
    ensures d in SetIndex(f, c).table.header && Column(SetIndex(f, c).table, d) == Column(f, d)
  {
    var t := SetIndex(f, c).table;
    var j := ColIndex(f.header, c);
    var k := ColIndex(f.header, d);
    ColIndexDropAt(f.header, c, d);
    assert ColIndex(t.header, d) == if k < j then k else k - 1;
    forall i | 0 <= i < |f.rows| ensures Column(t, d)[i] == Column(f, d)[i] {
      assert t.rows[i] == DropAt(f.rows[i], j);
      DropAtCell(f.rows[i], j, k);
    }
  }

  // ---- the graph ----

  /** An edge of the graph: its endpoints and the other columns of its row. */
  datatype GraphEdge = GraphEdge(u: Value, v: Value, attrs: map<string, Value>)

  /** The graph as its node set, its edges and, per node attribute, the
      value each node carries. */
  datatype Graph = Graph(nodes: set<Value>, edges: seq<GraphEdge>, nodeAttrs: map<string, map<Value, Value>>)

  predicate HasEndpoints(f: Frame)
  {
    "source" in f.header && "target" in f.header
  }

  /** `set(source) | set(target)`. */
  function EdgeEndpoints(f: Frame): set<Value>
    requires HasEndpoints(f)
  {
    Elems(Column(f, "source")) + Elems(Column(f, "target"))
  }

  /** `from_pandas_edgelist(edge_attr=True)`: every column other than the two
      endpoints becomes an edge attribute. */
  function EdgeOf(f: Frame, row: seq<Value>): GraphEdge
    requires HasEndpoints(f)
  {
    GraphEdge(Cell(f, row, "source"), Cell(f, row, "target"),
      map c | c in f.header && c != "source" && c != "target" :: Cell(f, row, c))
  }

  /** `set_node_attributes` with one column of the node table, keyed by its
      index: the rows are applied in order, a later row overwrites an
      earlier one, and a node that is not in the graph is skipped. */
  function NodeAttr(keys: seq<Value>, vals: seq<Value>, nodes: set<Value>): (m: map<Value, Value>)
    requires |keys| == |vals|
    ensures forall v :: v in m <==> v in nodes && v in keys
  {
    if keys == [] then map[]
    else
      var n := |keys| - 1;
      var m := NodeAttr(keys[..n], vals[..n], nodes);
      if keys[n] in nodes then m[keys[n] := vals[n]] else m
  }

  /** When the index has no duplicates, each node carries the value of its
      own row. */
  lemma {:induction false} NodeAttrOfRow(keys: seq<Value>, vals: seq<Value>, nodes: set<Value>, i: nat)
    requires |keys| == |vals| && Distinct(keys) && i < |keys| && keys[i] in nodes
    ensures NodeAttr(keys, vals, nodes)[keys[i]] == vals[i]
  {
    var n := |keys| - 1;
    if i < n {
      NodeAttrOfRow(keys[..n], vals[..n], nodes, i);
    }
  }

  function NodeAttrOf(nodeDf: IndexedFrame, c: string, nodes: set<Value>): map<Value, Value>
    requires Aligned(nodeDf) && c in nodeDf.table.header
  {
    NodeAttr(nodeDf.index, Column(nodeDf.table, c), nodes)
  }

  /** The graph `build_graph` makes of an edge table and a node table already
      indexed by `node`: the nodes are the endpoints of the edge rows, one
      edge per row, and every column left in the node table is a node
      attribute keyed by the index. */
  function GraphOf(edgeDf: Frame, nodeDf: IndexedFrame): (g: Graph)
    requires HasEndpoints(edgeDf) && Aligned(nodeDf)
    ensures g.nodes == EdgeEndpoints(edgeDf)
    ensures |g.edges| == |edgeDf.rows|
    ensures forall i :: 0 <= i < |g.edges| ==>
      && g.edges[i].u == Column(edgeDf, "source")[i] && g.edges[i].v == Column(edgeDf, "target")[i]
      && (forall c :: c in g.edges[i].attrs <==> c in edgeDf.header && c != "source" && c != "target")
    ensures forall c :: c in g.nodeAttrs <==> c in nodeDf.table.header
    ensures forall c, v :: c in g.nodeAttrs ==>
      (v in g.nodeAttrs[c] <==> v in g.nodes && v in nodeDf.index)
  {
    var nodes := EdgeEndpoints(edgeDf);
    Graph(nodes,
      seq(|edgeDf.rows|, i requires 0 <= i < |edgeDf.rows| => EdgeOf(edgeDf, edgeDf.rows[i])),
      map c | c in nodeDf.table.header :: NodeAttrOf(nodeDf, c, nodes))
  }

  /** `build_graph`: the node table is re-indexed by `node` (the caller's
      table, in place: here the new table is returned), then the graph is
      made of the edge rows and the remaining columns. */
  method BuildGraph(edgeDf: Frame, nodeDf: Frame) returns (g: Graph, indexed: IndexedFrame)
    requires HasEndpoints(edgeDf) && "node" in nodeDf.header
    ensures indexed == SetIndex(nodeDf, "node")
    ensures g == GraphOf(edgeDf, indexed)
  {
    indexed := SetIndex(nodeDf, "node");
    var nodes := EdgeEndpoints(edgeDf);
    var edges := seq(|edgeDf.rows|, i requires 0 <= i < |edgeDf.rows| => EdgeOf(edgeDf, edgeDf.rows[i]));
    var attrs := SetNodeAttributes(indexed, nodes);
    g := Graph(nodes, edges, attrs);
  }

  /** The loop `for col in node_df.columns`: one `set_node_attributes` per
      column left in the indexed node table. */
  method SetNodeAttributes(nodeDf: IndexedFrame, nodes: set<Value>) returns (attrs: map<string, map<Value, Value>>)
    requires Aligned(nodeDf)
    ensures attrs == map c | c in nodeDf.table.header :: NodeAttrOf(nodeDf, c, nodes)
  {
    attrs := map[];
    var header := nodeDf.table.header;
    for j := 0 to |header|
      invariant attrs == map c | c in header[..j] :: NodeAttrOf(nodeDf, c, nodes)
    {
      var c := header[j];
      assert header[..j + 1] == header[..j] + [c];
      attrs := attrs[c := NodeAttrOf(nodeDf, c, nodes)];
    }
    assert header[..|header|] == header;
  }

  /** With one `node` column, `set_index` leaves none among the columns. */
  lemma NodeColumnMoved(f: Frame)
    requires "node" in f.header
    ensures "node" !in f.header[ColIndex(f.header, "node") + 1..] ==> "node" !in SetIndex(f, "node").table.header
  {
    ColIndexFirst(f.header, "node");
  }

  // ---- network_structure ----

  /** What `network_structure` returns: the edge table alone (`edge_only`),
      or the graph with the edge table and the node table, which
      `build_graph` has re-indexed by `node`. */
  datatype Outcome = EdgesOnly(edges: Frame) | Built(graph: Graph, edges: Frame, nodes: IndexedFrame)

  /** A query as SQLite ran it, validated: `None` when it could not execute
      or a check failed. */
  function Validated(run: Option<QueryResult>, stored: Frame, edge: bool): (r: Option<Frame>)
    requires IsHeaderValid(stored.header, edge)
    ensures r.Some? ==> run.Some? && r.value == Frame(Header(run.value.description), run.value.records)
    ensures r.Some? ==> IsHeaderValid(r.value.header, edge)
  {
    if run.None? then None else ValidateQuery(Header(run.value.description), run.value.records, stored, edge)
  }

  /** `network_structure`. `edgeRun` and `nodeRun` are the two queries as
      SQLite ran them (`None`: it could not execute the query);
      `storedNetwork` and `storedNodes` are the full `network` and `nodes`
      tables the key check compares against. The result is `None` at the
      first failure. */
  function NetworkStructure(edgeRun: Option<QueryResult>, nodeRun: Option<QueryResult>,
                            storedNetwork: Frame, storedNodes: Frame, edgeOnly: bool): (r: Option<Outcome>)
    requires IsHeaderValid(storedNetwork.header, true) && IsHeaderValid(storedNodes.header, false)
    ensures r.Some? ==>
      && edgeRun.Some?
      && r.value.edges == Frame(Header(edgeRun.value.description), edgeRun.value.records)
      && ValidateQuery(r.value.edges.header, r.value.edges.rows, storedNetwork, true).Some?
    ensures r.Some? ==> (r.value.EdgesOnly? <==> edgeOnly)
    ensures r.Some? && !edgeOnly ==>
      && nodeRun.Some?
      && ValidateQuery(Header(nodeRun.value.description), nodeRun.value.records, storedNodes, false).Some?
      && r.value.nodes == SetIndex(Frame(Header(nodeRun.value.description), nodeRun.value.records), "node")
      && r.value.graph.nodes == Elems(r.value.nodes.index)
  {
    if edgeRun.None? then None
    else if !edgeOnly && nodeRun.None? then None
    else
      var edgeDf := ValidateQuery(Header(edgeRun.value.description), edgeRun.value.records, storedNetwork, true);
      if edgeDf.None? then None
      else if edgeOnly then Some(EdgesOnly(edgeDf.value))
      else
        var nodeDf := ValidateQuery(Header(nodeRun.value.description), nodeRun.value.records, storedNodes, false);
        if nodeDf.None? then None
        else if EdgeEndpoints(edgeDf.value) != Elems(Column(nodeDf.value, "node")) then None
        else
          var indexed := SetIndex(nodeDf.value, "node");
          Some(Built(GraphOf(edgeDf.value, indexed), edgeDf.value, indexed))
  }

  /** Without `edge_only` a graph is built exactly when both queries run and
      pass their checks and the endpoints are the nodes; it is then the graph
      of the edge table and of the node table indexed by `node`. */
  lemma NetworkStructureBuilds(edgeRun: Option<QueryResult>, nodeRun: Option<QueryResult>,
                               storedNetwork: Frame, storedNodes: Frame)
    requires IsHeaderValid(storedNetwork.header, true) && IsHeaderValid(storedNodes.header, false)
    ensures var r := NetworkStructure(edgeRun, nodeRun, storedNetwork, storedNodes, false);
      var e := Validated(edgeRun, storedNetwork, true);
      var n := Validated(nodeRun, storedNodes, false);
      && (r.Some? <==> e.Some? && n.Some? && EdgeEndpoints(e.value) == Elems(Column(n.value, "node")))
      && (r.Some? ==> r == Some(Built(GraphOf(e.value, SetIndex(n.value, "node")), e.value, SetIndex(n.value, "node"))))
  {
  }

  /** With `edge_only` the node query is never looked at: its outcome and
      the stored node table do not change the result, which is the
      validated edge table. */
  lemma EdgeOnlyIgnoresNodes(edgeRun: Option<QueryResult>, nodeRun1: Option<QueryResult>, nodeRun2: Option<QueryResult>,
                             storedNetwork: Frame, storedNodes1: Frame, storedNodes2: Frame)
    requires IsHeaderValid(storedNetwork.header, true)
    requires IsHeaderValid(storedNodes1.header, false) && IsHeaderValid(storedNodes2.header, false)
    ensures NetworkStructure(edgeRun, nodeRun1, storedNetwork, storedNodes1, true)
         == NetworkStructure(edgeRun, nodeRun2, storedNetwork, storedNodes2, true)
    ensures NetworkStructure(edgeRun, nodeRun1, storedNetwork, storedNodes1, true).Some? <==>
      edgeRun.Some? && ValidateQuery(Header(edgeRun.value.description), edgeRun.value.records, storedNetwork, true).Some?
  {
  }

  /** An index without duplicates: each node of the graph carries, for every
      attribute column, the value of its own row. */
  lemma GraphNodeAttr(edgeDf: Frame, nodeDf: IndexedFrame, i: nat, c: string)
    requires HasEndpoints(edgeDf) && Aligned(nodeDf) && c in nodeDf.table.header
    requires Distinct(nodeDf.index) && i < |nodeDf.index|
    requires nodeDf.index[i] in EdgeEndpoints(edgeDf)
    ensures var g := GraphOf(edgeDf, nodeDf);
      c in g.nodeAttrs && g.nodeAttrs[c][nodeDf.index[i]] == Column(nodeDf.table, c)[i]
  {
    NodeAttrOfRow(nodeDf.index, Column(nodeDf.table, c), EdgeEndpoints(edgeDf), i);
  }

  /** Unique node keys mean a node column without duplicates. */
  lemma NodeKeysDistinct(nodeDf: Frame)
    requires "node" in nodeDf.header && Distinct(Keys(nodeDf, false))
    ensures Distinct(Column(nodeDf, "node"))
  {
    var col := Column(nodeDf, "node");
    var ks := Keys(nodeDf, false);
    forall a, b | 0 <= a < b < |col| ensures col[a] != col[b] {
      assert ks[a] != ks[b];
      assert ks[a] == [col[a]] && ks[b] == [col[b]];
    }
  }

  /** A built graph has exactly the nodes of the node table's index, and
      every node carries every column left in the node table with the value
      its own row had in the node query. */
  lemma BuiltGraphComplete(edgeRun: Option<QueryResult>, nodeRun: Option<QueryResult>,
                           storedNetwork: Frame, storedNodes: Frame, i: nat, c: string)
    requires IsHeaderValid(storedNetwork.header, true) && IsHeaderValid(storedNodes.header, false)
    requires var r := NetworkStructure(edgeRun, nodeRun, storedNetwork, storedNodes, false);
      r.Some? && i < |r.value.nodes.index| && c in r.value.nodes.table.header && c != "node"
    ensures var r := NetworkStructure(edgeRun, nodeRun, storedNetwork, storedNodes, false).value;
      var v := r.nodes.index[i];
      var queried := Frame(Header(nodeRun.value.description), nodeRun.value.records);
      && v in r.graph.nodes
      && c in r.graph.nodeAttrs
      && c in queried.header
      && r.graph.nodeAttrs[c][v] == Column(queried, c)[i]
  {
    var r := NetworkStructure(edgeRun, nodeRun, storedNetwork, storedNodes, false).value;
    var queried := Frame(Header(nodeRun.value.description), nodeRun.value.records);
    NodeKeysDistinct(queried);
    assert r.nodes.index[i] in Elems(r.nodes.index);
    GraphNodeAttr(r.edges, r.nodes, i, c);
    SetIndexColumn(queried, "node", c);
  }

  /** `simple_graph`: the node query runs, then the edge query, and no check
      is made. `None` stands for the exception that escapes when a query
      cannot run or when `build_graph` finds no `node`, `source` or `target`
      column. The node table comes back indexed by `node`. */
  function SimpleGraph(nodeRun: Option<QueryResult>, edgeRun: Option<QueryResult>): (r: Option<(Graph, Frame, IndexedFrame)>)
    ensures r.Some? <==>
      && nodeRun.Some? && edgeRun.Some?
      && "node" in Header(nodeRun.value.description)
      && "source" in Header(edgeRun.value.description) && "target" in Header(edgeRun.value.description)
    ensures r.Some? ==> r.value.1 == Frame(Header(edgeRun.value.description), edgeRun.value.records)
    ensures r.Some? ==> r.value.2 == SetIndex(Frame(Header(nodeRun.value.description), nodeRun.value.records), "node")
    ensures r.Some? ==> r.value.0.nodes == EdgeEndpoints(r.value.1)
  {
    if nodeRun.None? || edgeRun.None? then None
    else
      var nodes := Frame(Header(nodeRun.value.description), nodeRun.value.records);
      var edges := Frame(Header(edgeRun.value.description), edgeRun.value.records);
      if "node" !in nodes.header || !HasEndpoints(edges) then None
      else
        var indexed := SetIndex(nodes, "node");
        Some((GraphOf(edges, indexed), edges, indexed))
  }

  /** Whenever `network_structure` builds a graph, `simple_graph` on the same
      two queries builds the same graph and tables. */
  lemma SimpleGraphAgrees(edgeRun: QueryResult, nodeRun: QueryResult, storedNetwork: Frame, storedNodes: Frame)
    requires IsHeaderValid(storedNetwork.header, true) && IsHeaderValid(storedNodes.header, false)
    requires NetworkStructure(Some(edgeRun), Some(nodeRun), storedNetwork, storedNodes, false).Some?
    ensures var r := NetworkStructure(Some(edgeRun), Some(nodeRun), storedNetwork, storedNodes, false).value;
      SimpleGraph(Some(nodeRun), Some(edgeRun)) == Some((r.graph, r.edges, r.nodes))
  {
  }
}
