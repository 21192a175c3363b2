# Peru party switchers: a verified model of the table-to-graph pipeline

The repository turns scraped résumés of Peruvian candidates into a network.
The nodes of the network are political organizations. The edges are
candidates moving from one organization to another. This project models
the deterministic part of that pipeline in Dafny and proves what each step
promises:

- **Name normalizer** (`party_standarization`), module `PartyNames`. It has
  four stages, applied in this order:
  - a per-character substitution;
  - whitespace collapsing;
  - thirteen ordered replace-all rules;
  - twenty-five ordered exception rules, each of which overwrites the whole
    name when its key occurs.
- **Event stream** (`raw_edges`, `append_edges`), module `RawEdges`. It
  collects four record streams: current affiliations, party memberships,
  elected positions and resignations. It then numbers each candidate's
  rows `1 .. k` (`edge_rec`).
- **Node table** (`node_table`), module `Nodes`. It holds one row per
  canonical name, with dense ids in ascending name order and the
  `current` and `reg_movement` flags.
- **Transition extractor** (`network_table`), modules `Transitions` (per
  candidate), `NetworkTable` (whole table) and `NetworkBuild` (the
  column-by-column passes as a method). The steps are:
  - merge the events with the node table;
  - sort by candidate, then `begin` (nulls last), then `end`;
  - compute the `same_party` flag and the year rule with its one-step
    override;
  - drop same-party rows, link consecutive survivors, and keep a self-loop
    only for a candidate with one survivor.
- **Query gate** (`network_structure.py`), module `QueryValidation`. A
  query result passes four checks in order: the header, uniqueness of the
  key columns, presence of the keys in the stored table, and whether the
  node set equals the endpoint set. Then the graph is built. The result is
  `None` at the first failure. `simple_graph` is the unchecked bypass.
- **Cluster relabelling** (`cluster_analysis` after the library calls, and
  the drop in `update_db`), module `Clusters`. The community partition and
  the bisection are inputs.
- **Candidate menu** (`update_candidate_menu`), module `CandidateMenu`. It
  computes the full name, the dense district rank (the lowest district is
  dropped), the dense party rank and the per-group counter.
- **Sankey diagram** (`build_sankey.py`):
  - `SankeyDiagram.Sankey` is a class whose fields the constructor fills by
    appending, in an incoming pass and then an outgoing pass;
  - `SankeyInputs` holds the functions that specify it;
  - `SankeyProperties` states what the lists mean: the flows drawn, their
    colours, and when the palette is long enough;
  - `SankeyQuery` models `build_query` and `clean_df`.
- `Ordering` holds the shared helpers: string order, dense rank,
  sorted-distinct, counts and `cumcount`. `Wrappers` holds `Option`.

Tables are sequences of rows. A failed query or a failed check is `None`.
The order `sort_values` leaves ties in (events of one candidate with equal
`begin` and `end`) cannot be read off the code. `BuildNetwork` therefore
takes the sorted table as a parameter: any permutation of the merged rows
that is sorted by key.

Points about the code that the model states as the code has them:

- **The normalizer is not idempotent.** For example,
  `ALIANZA PARTIDO POLITICO ELECTORAL X` becomes `ALIANZA ELECTORAL X`, and
  a second run gives `X`: the replace rules are what breaks it. The
  character pass and whitespace collapsing, each on its own, are idempotent
  (`PartyNames.RepleIdempotent`, `PartyNames.CleanIdempotent`).
- **Failures.** The validators print a message and return `None`; there
  are no error types, so every failure is one `None` result. A candidate
  without events simply has no rows, and every candidate block of the
  table yields at least one row (`Transitions.ChainNonEmpty`).
- **`tables['edges']` after `network_table`.** It is not left unchanged.
  It becomes the merged, sorted table (line 337). Because the later column
  writes go to the same frame, it also gains `same_party` and `year`
  (`NetworkTable.EdgesTableKeeps`).
- **The node table after `build_graph`.** `set_index('node', inplace=True)`
  moves `node` out of the columns into the index of the caller's table, so
  `network_structure` and `simple_graph` return it re-indexed
  (`QueryValidation.SetIndex`, `QueryValidation.IndexedFrame`), and
  `cluster_analysis` looks nodes up by that index.
- **Backslash names.** Two canonical names are written `MR\D AYLLU` and
  `MR\D FUERZA SOCIAL`, with a backslash. `reg_movement` is therefore 0 for
  them (`Nodes.BackslashNamesNotRegional`).
- **`clean_df`.** It drops only the rows whose two ends are both the party
  of interest. The query already kept only rows touching it.

## Model

| member | source | states |
|---|---|---|
| PartyNames.Reple | peru_party_switchers/code/sql/db_config.py:238-267 | the character pass keeps the length, turns the five acute capitals `Á É Í Ó Ú` into `A E I O U` and the five marks `- , . " +` into spaces, so none of the ten is left, and leaves every other character (`Ñ`, `Ü`, `À`, ...) as it was |
| PartyNames.CleanForm | peru_party_switchers/code/sql/db_config.py:268 | after `clean` a name has no leading or trailing space, no two spaces in a row and no other whitespace, and its non-space characters are those of the input in order |
| PartyNames.SplitJoin | peru_party_switchers/code/sql/db_config.py:268 | splitting a space-joined list of words gives the words back |
| PartyNames.RepleIdempotent | peru_party_switchers/code/sql/db_config.py:238-267 | applying the character pass twice gives the same as once |
| PartyNames.CleanIdempotent | peru_party_switchers/code/sql/db_config.py:268 | collapsing whitespace twice gives the same as once |
| PartyNames.ReplaceAllIsSplitJoin | peru_party_switchers/code/sql/db_config.py:274-275 | replace-all is split on the key then join with the value, and joining the pieces with the key gives the name back |
| PartyNames.SplitOnPiecesFree | peru_party_switchers/code/sql/db_config.py:274-275 | no piece left by the split contains the key: every occurrence is replaced |
| PartyNames.ReplaceAllAbsent | peru_party_switchers/code/sql/db_config.py:274-275 | a name without the key is unchanged by its rule |
| PartyNames.ReplaceAllWhole | peru_party_switchers/code/sql/db_config.py:274-275 | a name equal to the key becomes the value |
| PartyNames.TablesWellFormed | peru_party_switchers/code/sql/db_config.py:221-265 | the tables have 13 replace rules and 25 exception rules, none with an empty key |
| PartyNames.ReplacementsAbsent | peru_party_switchers/code/sql/db_config.py:274-275 | replace rules whose keys do not occur leave the name unchanged |
| PartyNames.ExceptionsAbsent | peru_party_switchers/code/sql/db_config.py:278-279 | a name matching no exception key keeps its value |
| PartyNames.ExceptionsOutcome | peru_party_switchers/code/sql/db_config.py:278-279 | the exception pass keeps the name, or ends on the canonical name of the last rule whose key occurred in the name it was applied to |
| PartyNames.StandardizeOutcome | peru_party_switchers/code/sql/db_config.py:267-279 | the canonical name is the post-replacement name or the canonical name of one of the exception rules |
| PartyNames.StandardizeNoException | peru_party_switchers/code/sql/db_config.py:267-279 | a post-replacement name that no exception key matches is the canonical name |
| PartyNames.MovimientoKeysNested | peru_party_switchers/code/sql/db_config.py:221-231 | the regional-movement keys shorten by dropping trailing words: the third rule's key is a proper prefix of the second's, and the keys of the fifth, sixth and seventh rules are proper prefixes of every regional-movement key listed before them |
| PartyNames.LongestMovimientoWins | peru_party_switchers/code/sql/db_config.py:221-275 | a statement about the rule table for one fixed input, the key of rule 1: the longest `MOVIMIENTO REGIONAL ...` label becomes exactly `MR/D`, because its rule comes before the shorter ones |
| PartyNames.PpcRule | peru_party_switchers/code/sql/db_config.py:253-279 | a name containing `PPC` when its rule is reached becomes `POPULAR CRISTIANO` |
| PartyNames.PpcEndsAsPartidoPopularCristiano | peru_party_switchers/code/sql/db_config.py:253-279 | such a name ends as `PARTIDO POPULAR CRISTIANO`: the later `POPULAR CRISTIANO` rule matches again |
| PartyNames.ReplaceColumn | peru_party_switchers/code/sql/db_config.py:274-275 | the loop over the replace rules leaves every row of the column equal to the rules applied in order to that row |
| PartyNames.ExceptColumn | peru_party_switchers/code/sql/db_config.py:278-279 | the loop over the exception rules leaves every row equal to the rules applied in order to that row's name |
| PartyNames.StandardizeColumn | peru_party_switchers/code/sql/db_config.py:271-279 | the column `p_name` has one entry per row, the canonical name of that row's `org_pol` |
| RawEdges.NumberRows | peru_party_switchers/code/sql/db_config.py:202 | the single pass with a running count per candidate computes `cumcount + 1` |
| RawEdges.BuildRawEdges | peru_party_switchers/code/sql/db_config.py:179-204 | the method builds the `edges` table: current rows, then three appends, then the counter |
| RawEdges.RawEdgesCount | peru_party_switchers/code/sql/db_config.py:179-204 | the table has as many rows as the four sources together |
| RawEdges.CurrentRows | peru_party_switchers/code/sql/db_config.py:180-183 | the first rows are the candidates' current organizations, type `current`, with a null begin and end 2020 |
| RawEdges.PartyRows | peru_party_switchers/code/sql/db_config.py:185-189 | party memberships follow, with their own start and end |
| RawEdges.PositionRows | peru_party_switchers/code/sql/db_config.py:190-194 | elected positions follow, with the organization and the years of the position |
| RawEdges.ResignationRows | peru_party_switchers/code/sql/db_config.py:195-200 | resignations come last, and begin and end in the resignation year |
| RawEdges.EdgeRecNumbering | peru_party_switchers/code/sql/db_config.py:202 | `edge_rec` numbers each candidate's rows `1 .. k` (`k` their number), increasing in row order and using every value |
| Nodes.PartyStandarization | peru_party_switchers/code/sql/db_config.py:212-282 | every event row gains the canonical name of its `org_pol`, and nothing else changes |
| Nodes.MaxCurrentIsAny | peru_party_switchers/code/sql/db_config.py:301-303 | the aggregated `current` is 1 exactly when some row of that name has type `current` |
| Nodes.NodeNamesSorted | peru_party_switchers/code/sql/db_config.py:300-313 | the node table has one row per distinct name, in strictly ascending name order |
| Nodes.NodeNamesCover | peru_party_switchers/code/sql/db_config.py:300-313 | `node` is the row position `0 .. n-1`, and the names are exactly those of the events |
| Nodes.NodeTableRows | peru_party_switchers/code/sql/db_config.py:301-311 | each node row carries its name's id; `current` is 1 iff a `current` event has that name; `reg_movement` is 1 iff the name contains `MR/D`, `OPLD` or `OPLP`; both are 0 or 1 |
| Nodes.NodeOfInjective | peru_party_switchers/code/sql/db_config.py:310-311 | two names get the same node id exactly when they are equal, and ids are below the number of nodes |
| Nodes.NodeRowOf | peru_party_switchers/code/sql/db_config.py:310-311 | the node row of a name sits at the name's id |
| Nodes.BackslashNamesNotRegional | peru_party_switchers/code/sql/db_config.py:305-308 | `MR\D AYLLU` and `MR\D FUERZA SOCIAL` get `reg_movement` 0 |
| Transitions.AnnotateFlags | peru_party_switchers/code/sql/db_config.py:340-354 | the annotated rows are the block's rows with their years, and the `same_party` flags compare each row with the next one |
| Transitions.SurvivorsLast | peru_party_switchers/code/sql/db_config.py:340-357 | the last event never has `same_party` set, so it survives, and it is the last survivor |
| Transitions.SurvivorsFirstName | peru_party_switchers/code/sql/db_config.py:340-357 | the first survivor carries the name of the first event |
| Transitions.SurvivorsAreRows | peru_party_switchers/code/sql/db_config.py:357 | the filter only drops rows |
| Transitions.SurvivorsDistinct | peru_party_switchers/code/sql/db_config.py:340-357 | consecutive survivors carry different names |
| Transitions.SurvivorsCover | peru_party_switchers/code/sql/db_config.py:340-357 | every name of the candidate is carried by some survivor |
| Transitions.OneSurvivorIff | peru_party_switchers/code/sql/db_config.py:340-357 | there is one survivor exactly when all the events carry one name |
| Transitions.SurvivorRows | peru_party_switchers/code/sql/db_config.py:357 | every survivor is the annotated form of some event of the block |
| Transitions.ChainNonEmpty | peru_party_switchers/code/sql/db_config.py:357-373 | every candidate yields at least one row; all of them carry its id; the last one ends at the node of its last event |
| Transitions.ChainSelfLoop | peru_party_switchers/code/sql/db_config.py:357-373 | one survivor iff one name, and then exactly one row: `source == target`, `edge` false, at the last event's node and year |
| Transitions.ChainMoves | peru_party_switchers/code/sql/db_config.py:344-373 | with k ≥ 2 survivors there are k-1 rows; row j links survivor j to survivor j+1 at the latter's year, with `edge` true |
| Transitions.NoChainingExample | peru_party_switchers/code/sql/db_config.py:349-351 | the year override is one step: three events of one party give a self-loop at the first event's end, not its begin |
| Transitions.CollapseExample | peru_party_switchers/code/sql/db_config.py:340-373 | `[A(2000-05), A(2005-10), B(2010-20)]` gives the single row A -> B at year 2010 |
| NetworkTable.NodeTableJoins | peru_party_switchers/code/sql/db_config.py:300-332 | every event finds exactly one node row, that of its name, whose id is the name's dense rank |
| NetworkTable.MergeJoined | peru_party_switchers/code/sql/db_config.py:330-332 | the merge keeps every event, in order, and adds the node id of its name |
| NetworkTable.SortedMergeRows | peru_party_switchers/code/sql/db_config.py:330-334 | any order the sort may leave holds each event once, with its node id, and nothing else |
| NetworkTable.SortedIsGrouped | peru_party_switchers/code/sql/db_config.py:334 | sorting by `id_hdv` first puts each candidate's rows in one block |
| NetworkTable.BlockwisePerCandidate | peru_party_switchers/code/sql/db_config.py:340-366 | in a grouped table a per-block computation gives each candidate what its own rows give alone |
| NetworkTable.BlockwiseCoverage | peru_party_switchers/code/sql/db_config.py:340-373 | a per-block computation that yields rows for every block covers every candidate |
| NetworkTable.NetworkPerCandidate | peru_party_switchers/code/sql/db_config.py:340-373 | the network rows of each candidate are the chain of that candidate's events |
| NetworkTable.NetworkCoverage | peru_party_switchers/code/sql/db_config.py:340-373 | every candidate has a network row, and every network row belongs to a candidate of the table |
| NetworkTable.EdgesTableKeeps | peru_party_switchers/code/sql/db_config.py:337-354 | `tables['edges']` keeps every merged row in sorted order, with its flags and year |
| NetworkTable.LinksAt | peru_party_switchers/code/sql/db_config.py:360-373 | with two or more survivors, link k goes from survivor k's node to survivor k+1's |
| NetworkTable.ChainEndpoints | peru_party_switchers/code/sql/db_config.py:357-373 | the rows of one candidate touch exactly the nodes of its events |
| NetworkTable.NetworkEndpoints | peru_party_switchers/code/sql/db_config.py:357-373 | the network touches exactly the nodes of the table's rows |
| NetworkTable.MergedNodeSet | peru_party_switchers/code/sql/db_config.py:330-334 | the merged rows, in any order, carry every node of the node table and no other |
| NetworkTable.NetworkEndpointsAreNodes | peru_party_switchers/code/sql/db_config.py:300-373 | for the tables the pipeline builds, `set(source) ∪ set(target)` is the node table's set of ids, whatever the tie order |
| NetworkBuild.ProcessBlock | peru_party_switchers/code/sql/db_config.py:340-373 | the passes over one candidate's rows compute its annotated rows and its chain |
| NetworkBuild.SamePartyPass | peru_party_switchers/code/sql/db_config.py:340-346 | the loop computes, row by row, whether the next row has the same party and the previous row's `end` (or the row's own `begin`) |
| NetworkBuild.YearPass | peru_party_switchers/code/sql/db_config.py:348-354 | the loop computes the overridden year, with 2020 for a missing one, giving the annotated rows |
| NetworkBuild.SurvivorPass | peru_party_switchers/code/sql/db_config.py:357 | the loop keeps exactly the rows not followed by the same party, in order |
| NetworkBuild.LinkPass | peru_party_switchers/code/sql/db_config.py:360-373 | the loop computes the chain: the previous survivor's node as source, and the first row dropped unless it is the only one |
| NetworkBuild.BlockStep | peru_party_switchers/code/sql/db_config.py:340-373 | splitting off one candidate's block splits both result tables |
| NetworkBuild.NetworkOfSorted | peru_party_switchers/code/sql/db_config.py:315-377 | each candidate's rows in the network table are the chain of its events; with the pipeline's node table, the endpoints are the node ids |
| NetworkBuild.BuildNetwork | peru_party_switchers/code/sql/db_config.py:315-377 | the method computes the network table and the new `tables['edges']` from any key-sorted merge, with the per-candidate and endpoint properties |
| QueryValidation.Unqualified | peru_party_switchers/code/graph/network_structure.py:58-64 | a name without `.` stays the same; otherwise everything up to and including the first `.` is dropped |
| QueryValidation.GetHeader | peru_party_switchers/code/graph/network_structure.py:53-66 | one name per column of the description, each unqualified |
| QueryValidation.IsHeaderValid | peru_party_switchers/code/graph/network_structure.py:74-90 | true iff `id_hdv`, `source`, `target` and `year` are all present (edges), or iff `node` is present (nodes); extra columns are allowed |
| QueryValidation.GroupsCard | peru_party_switchers/code/graph/network_structure.py:93-113 | there are as many key groups as rows iff no key holds a null and no two rows share a key |
| QueryValidation.IsUnique | peru_party_switchers/code/graph/network_structure.py:93-113 | true iff no key tuple holds a null and no two rows share one |
| QueryValidation.JoinSizeDistinct | peru_party_switchers/code/graph/network_structure.py:116-145 | against duplicate-free stored keys, the join is no larger than the query, and equal in size iff every query key is stored |
| QueryValidation.HasErroneousValues | peru_party_switchers/code/graph/network_structure.py:116-145 | with duplicate-free stored keys, false iff every query row's key is in the stored table |
| QueryValidation.DuplicateStoredKey | peru_party_switchers/code/graph/network_structure.py:130-145 | a key stored twice makes a one-row query holding it erroneous |
| QueryValidation.ValidateQuery | peru_party_switchers/code/graph/network_structure.py:154-214 | the table comes back only with a valid header and unique, null-free keys; with duplicate-free stored keys it comes back iff all three checks pass |
| QueryValidation.NodeAttr | peru_party_switchers/code/graph/network_structure.py:236-237 | a node gets an attribute value iff it is in the graph and in the index of the node table |
| QueryValidation.NodeAttrOfRow | peru_party_switchers/code/graph/network_structure.py:236-237 | with an index free of duplicates, each node carries the value of its own row |
| QueryValidation.SetIndex | peru_party_switchers/code/graph/network_structure.py:232 | `set_index('node')`: the index is the `node` column, the rows stay, one column fewer, and every other column name stays |
| QueryValidation.SetIndexColumn | peru_party_switchers/code/graph/network_structure.py:232 | every other column reads the same after `set_index` |
| QueryValidation.NodeColumnMoved | peru_party_switchers/code/graph/network_structure.py:232 | with one `node` column, `node` is no longer among the columns |
| QueryValidation.GraphOf | peru_party_switchers/code/graph/network_structure.py:221-239 | the nodes are the endpoints; one edge per row, carrying every non-endpoint column; one attribute per column left in the indexed node table, keyed by the index |
| QueryValidation.BuildGraph | peru_party_switchers/code/graph/network_structure.py:221-239 | the caller's node table comes back indexed by `node`, and the graph is the one of the edge table and that indexed table |
| QueryValidation.SetNodeAttributes | peru_party_switchers/code/graph/network_structure.py:235-237 | the loop over the remaining columns sets one attribute map per column |
| QueryValidation.NetworkStructure | peru_party_switchers/code/graph/network_structure.py:248-332 | a result only when the edge query ran and validated; with `edge_only` it is the edge table alone; otherwise the node query also ran and validated, the node table comes back indexed by `node`, and the graph's nodes are the index's values |
| QueryValidation.NetworkStructureBuilds | peru_party_switchers/code/graph/network_structure.py:294-332 | without `edge_only` a graph is built iff both queries ran and validated and the endpoints equal the nodes; it is then the graph of the edge table and the node table indexed by `node` |
| QueryValidation.EdgeOnlyIgnoresNodes | peru_party_switchers/code/graph/network_structure.py:294-330 | with `edge_only` the node query and the stored nodes do not matter; the result exists iff the edge query ran and validated |
| QueryValidation.GraphNodeAttr | peru_party_switchers/code/graph/network_structure.py:221-239 | each node of the node table that is an endpoint carries, for every attribute column, the value of its own row |
| QueryValidation.BuiltGraphComplete | peru_party_switchers/code/graph/network_structure.py:303-332 | a built graph holds every node of the index, each carrying every remaining column with the value its row had in the node query |
| QueryValidation.SimpleGraph | peru_party_switchers/code/graph/network_structure.py:341-357 | a result iff both queries ran and the `node`, `source` and `target` columns exist; the edge table as queried, the node table indexed by `node`, and the nodes are the endpoints, without any check |
| QueryValidation.SimpleGraphAgrees | peru_party_switchers/code/graph/network_structure.py:248-357 | whenever `network_structure` builds a graph, `simple_graph` on the same queries builds the same graph and tables |
| Clusters.CommunityOf | peru_party_switchers/code/analysis/gen_clusters.py:72-76 | a node's `cluster_gmc` is 0 or the index of a community holding it, and no later community holds it |
| Clusters.CommunityOfPartition | peru_party_switchers/code/analysis/gen_clusters.py:72-76 | with disjoint communities, `cluster_gmc` is the index of the community holding the node |
| Clusters.HalfOf | peru_party_switchers/code/analysis/gen_clusters.py:78-84 | `cluster_klb` is 2 outside both halves, 1 in the second half, and 0 in the first half only |
| Clusters.CodeInjective | peru_party_switchers/code/analysis/gen_clusters.py:85-86 | `gmc*100 + klb` tells (community, half) pairs apart |
| Clusters.ClusterOf | peru_party_switchers/code/analysis/gen_clusters.py:85-89 | every cluster id is in `0 .. 12` |
| Clusters.ClusterOrder | peru_party_switchers/code/analysis/gen_clusters.py:85-89 | cluster ids follow the codes: smaller codes never get larger ids, equal codes get equal ids, and distinct codes of rank below 12 get distinct ids |
| Clusters.ClustersDense | peru_party_switchers/code/analysis/gen_clusters.py:85-89 | every id below the number of distinct codes, up to 12, is used |
| Clusters.ClusterAnalysis | peru_party_switchers/code/analysis/gen_clusters.py:64-104 | for every row of the node table `network_structure` returns, found by its `node` index, the loops fill `cluster_gmc`, `cluster_klb`, `clusters` (the capped dense rank of the codes) and `cluster_labs` (the fixed label of the id) |
| Clusters.DropColumnsKeeps | peru_party_switchers/code/analysis/gen_clusters.py:131 | the drop keeps exactly the columns not named, every row, and each kept column's values |
| Clusters.UpdateDbColumns | peru_party_switchers/code/analysis/gen_clusters.py:131 | `update_db` loses `cluster_gmc` and `cluster_klb` and keeps `clusters` and `cluster_labs` |
| CandidateMenu.Kept | peru_party_switchers/code/vis/nodes_coordinates.py:116-118 | the kept rows come from the query and have a `dist_id` of at least 1, ranked over all rows |
| CandidateMenu.KeptCovers | peru_party_switchers/code/vis/nodes_coordinates.py:118 | every row whose district is not the lowest is kept |
| CandidateMenu.DroppedIffLowest | peru_party_switchers/code/vis/nodes_coordinates.py:116-118 | `dist_id` is 0 exactly for the lowest district |
| CandidateMenu.MenuRows | peru_party_switchers/code/vis/nodes_coordinates.py:114-118 | each menu row is a query row outside the lowest district, with `name = nombres + ' ' + ape_pat + ' ' + ape_mat` and its district's dense rank; every such query row is in the menu |
| CandidateMenu.PartyIds | peru_party_switchers/code/vis/nodes_coordinates.py:120 | `party_id` lies in `1 .. #parties`; ids are equal iff the parties are, and ordered as the names are |
| CandidateMenu.PartyIdsOnto | peru_party_switchers/code/vis/nodes_coordinates.py:120 | every id from 1 to the number of kept parties is used |
| CandidateMenu.CandIds | peru_party_switchers/code/vis/nodes_coordinates.py:122-124 | `cand_id` ≥ 1, increases in row order within a (district, party) group, and the triple tells rows apart |
| CandidateMenu.CandIdsOnto | peru_party_switchers/code/vis/nodes_coordinates.py:122-124 | a group of k rows uses every id `1 .. k` |
| CandidateMenu.CandIdBound | peru_party_switchers/code/vis/nodes_coordinates.py:122-124 | no id exceeds the size of its group |
| SankeyInputs.MakeConfig | peru_party_switchers/code/vis/build_sankey.py:108-123 | `attribute_range` is the sorted distinct values (empty without an attribute); binary iff it is `[0, 1]`; `attr_of_interest` is 1 for `crim_rec` and 0 for other binary attributes |
| SankeyInputs.Palette | peru_party_switchers/code/vis/build_sankey.py:142-154 | the palette has length `1 + num_nodes + 2·len(attribute_range)`, green first, random entries after |
| SankeyInputs.GroupingLabelShape | peru_party_switchers/code/vis/build_sankey.py:241-262 | the label starts with `In: ` or `Out: `; then, for a binary attribute, `No <label>` for 0 and `<label>` otherwise; otherwise `<label> <attr>` |
| SankeyInputs.GroupingLabelsApart | peru_party_switchers/code/vis/build_sankey.py:241-262 | incoming and outgoing grouping labels never clash, and the two values of a binary attribute get different labels |
| SankeyInputs.IndexOf | peru_party_switchers/code/vis/build_sankey.py:183-192 | `labels.index` returns a position holding the label |
| SankeyInputs.IndexOfFirst | peru_party_switchers/code/vis/build_sankey.py:183-192 | no earlier position holds it |
| SankeyInputs.TargetSourceLabels | peru_party_switchers/code/vis/build_sankey.py:224-239 | outgoing parties gain a trailing space; the party is always appended; the counterpart is `poi` without an attribute, else the grouping label, appended only when absent; nothing but labels and flow colours changes |
| SankeyInputs.Step | peru_party_switchers/code/vis/build_sankey.py:177-206 | a row only adds labels, leaves the palette length alone, and does nothing once construction has failed |
| SankeyInputs.Pass | peru_party_switchers/code/vis/build_sankey.py:169-206 | a pass only adds labels and leaves the palette length alone |
| SankeyDiagram.Sankey.constructor | peru_party_switchers/code/vis/build_sankey.py:95-130 | the state is the incoming pass then the outgoing pass; when not failed, node 0 is `poi` and the lists draw the incoming flows then the outgoing ones; it never fails when each row has exactly one end at `poi` |
| SankeyDiagram.Sankey.GenColorPalette | peru_party_switchers/code/vis/build_sankey.py:132-154 | the loop builds the palette `Palette` describes |
| SankeyDiagram.Sankey.TargetSourceLabelsOf | peru_party_switchers/code/vis/build_sankey.py:210-239 | the method leaves the labels, the flow colours and the two names that `TargetSourceLabels` gives |
| SankeyDiagram.Sankey.AddFirstTriple | peru_party_switchers/code/vis/build_sankey.py:179-185 | the party's triple is appended with the first positions of its labels |
| SankeyDiagram.Sankey.AddGroupTriple | peru_party_switchers/code/vis/build_sankey.py:190-206 | the grouping triple, the gray colour and the flow colour are added, or the construction fails when the palette has no entry for the grouping node |
| SankeyDiagram.Sankey.AddFlows | peru_party_switchers/code/vis/build_sankey.py:177-206 | the loop body for a kept row does what `Step` describes |
| SankeyDiagram.Sankey.GenInputsFromData | peru_party_switchers/code/vis/build_sankey.py:156-208 | the incoming call runs the incoming pass and then the outgoing one; the outgoing call runs its pass only |
| SankeyProperties.Colors | peru_party_switchers/code/vis/build_sankey.py:200-237 | one colour per flow, red exactly when the flow's attribute is the value of interest, light gray otherwise |
| SankeyProperties.DisplaysExtend | peru_party_switchers/code/vis/build_sankey.py:177-206 | appending triples for new flows keeps the lists drawing the longer list of flows |
| SankeyProperties.StepPlainAppended | peru_party_switchers/code/vis/build_sankey.py:177-187 | without an attribute a kept row appends one triple, party to `poi` (or back), and drops the flow colours |
| SankeyProperties.StepGroupedShape | peru_party_switchers/code/vis/build_sankey.py:177-206 | with an attribute a kept row appends two triples, the party's and the grouping node's at node 0, both with the count |
| SankeyProperties.StepGroupedPrefix | peru_party_switchers/code/vis/build_sankey.py:177-206 | such a row keeps the earlier triples and adds two |
| SankeyProperties.StepGroupedFirst | peru_party_switchers/code/vis/build_sankey.py:179-185 | the party's triple names the row's first flow |
| SankeyProperties.StepGroupedSecond | peru_party_switchers/code/vis/build_sankey.py:190-199 | the second triple links the grouping node with node 0 |
| SankeyProperties.StepGroupedColors | peru_party_switchers/code/vis/build_sankey.py:200-237 | a binary attribute colours both flows of the row alike; any other attribute drops the flow colours |
| SankeyProperties.StepGroupedNames | peru_party_switchers/code/vis/build_sankey.py:177-199 | the new triples keep the three lists of equal length and name the row's flows |
| SankeyProperties.StepGroupedAppended | peru_party_switchers/code/vis/build_sankey.py:177-206 | the row appends its two flows |
| SankeyProperties.StepDisplays | peru_party_switchers/code/vis/build_sankey.py:177-206 | a kept row that does not fail keeps node 0 the party of interest and draws its flows after the earlier ones |
| SankeyProperties.PassDisplays | peru_party_switchers/code/vis/build_sankey.py:169-206 | a pass that does not fail draws the flows of its kept rows after the ones already drawn |
| SankeyProperties.BuildDisplays | peru_party_switchers/code/vis/build_sankey.py:124-208 | a built diagram has `poi` at node 0 and draws the incoming flows then the outgoing ones; every index names a label, and the three lists have equal length |
| SankeyProperties.FlowsCount | peru_party_switchers/code/vis/build_sankey.py:177-199 | a kept row draws one flow without an attribute and two with one |
| SankeyProperties.GroupLabels | peru_party_switchers/code/vis/build_sankey.py:241-262 | at most two grouping labels per attribute value, and every value's label in either direction is among them |
| SankeyProperties.StepFits | peru_party_switchers/code/vis/build_sankey.py:190-193 | a row finds its grouping index inside a palette that has room, and adds at most one label beyond the grouping labels |
| SankeyProperties.PassFits | peru_party_switchers/code/vis/build_sankey.py:177-206 | a pass never indexes past the palette while it has room for its kept rows and the grouping labels |
| SankeyProperties.ProcessedSplit | peru_party_switchers/code/vis/build_sankey.py:169-175 | when each row has exactly one end at `poi`, the two passes keep `len(data)` rows between them |
| SankeyProperties.BuildNeverFails | peru_party_switchers/code/vis/build_sankey.py:126-193 | the palette sized from the rows and the attribute values always has an entry for every grouping node, when each row has exactly one end at `poi` |
| SankeyQuery.AttributeString | peru_party_switchers/code/vis/build_sankey.py:330-333 | `' '` without an attribute (or an empty one), and `, sv.<attr> ` otherwise |
| SankeyQuery.BuildQueryParts | peru_party_switchers/code/vis/build_sankey.py:335-338 | the query starts with the select clause, has a space or a comma right after it, and ends with `WHERE n.source = poi OR n.target = poi` |
| SankeyQuery.NatToStringInjective | peru_party_switchers/code/vis/build_sankey.py:338 | distinct party ids print differently |
| SankeyQuery.BuildQueryInjective | peru_party_switchers/code/vis/build_sankey.py:317-340 | for column names without spaces, equal queries have the same party id and the same attribute |
| SankeyQuery.KeyLtIsStrictTotalOrder | peru_party_switchers/code/vis/build_sankey.py:358 | the groupby key order is a strict total order |
| SankeyQuery.KeysFromRows | peru_party_switchers/code/vis/build_sankey.py:355-358 | every key comes from a row with that source, target and attribute value (0 for the dummy column) |
| SankeyQuery.RowsToKeys | peru_party_switchers/code/vis/build_sankey.py:355-358 | every row with a value in the grouping column gives a key |
| SankeyQuery.GroupByCorrect | peru_party_switchers/code/vis/build_sankey.py:358-359 | `groupby(...).size()` has one group per distinct key, in ascending key order, and each size is that key's count, at least 1 |
| SankeyQuery.GroupBySizes | peru_party_switchers/code/vis/build_sankey.py:358-359 | the group sizes add up to the number of keys |
| SankeyQuery.DropLoopsExact | peru_party_switchers/code/vis/build_sankey.py:360 | a group is kept iff its source or its target is not `poi` |
| SankeyQuery.DropLoopsSorted | peru_party_switchers/code/vis/build_sankey.py:360 | the filter keeps the key order |
| SankeyQuery.PartyName | peru_party_switchers/code/vis/build_sankey.py:369-375 | an id maps to its name, but `REGIONAL PARTY` replaces names starting `MR/D` and ids without a name |
| SankeyQuery.ConvertAttrMonotone | peru_party_switchers/code/vis/build_sankey.py:363-368 | the value conversion keeps order and equality |
| SankeyQuery.CleanDf | peru_party_switchers/code/vis/build_sankey.py:342-377 | one cleaned row per kept group, with its names, converted value and count |
| SankeyQuery.KeptSorted | peru_party_switchers/code/vis/build_sankey.py:358-360 | the kept groups are in strictly ascending key order |
| SankeyQuery.KeptCounts | peru_party_switchers/code/vis/build_sankey.py:358-360 | every kept group is not a loop at `poi` and counts its key's rows, at least one |
| SankeyQuery.KeptCovers | peru_party_switchers/code/vis/build_sankey.py:358-360 | every key that is not a loop at `poi` has a kept group |
| SankeyQuery.CleanDfTotal | peru_party_switchers/code/vis/build_sankey.py:355-360 | the group sizes add up to the keyed rows, which are all the rows when there is no attribute |
| SankeyQuery.KeptOneEnd | peru_party_switchers/code/vis/build_sankey.py:338-360 | when every row touches `poi`, each kept group has exactly one end at `poi` |
| SankeyQuery.PartyNameIsPoi | peru_party_switchers/code/vis/build_sankey.py:369-404 | when the name of `poi` is held by no other id and is neither regional nor `REGIONAL PARTY`, a mapped name equals it iff the id is `poi` |
| SankeyQuery.CleanDfFeedsSankey | peru_party_switchers/code/vis/build_sankey.py:399-406 | on rows the query returns for `poi`, each cleaned row has exactly one end at the party of interest, so the diagram never fails and draws the incoming flows then the outgoing ones |

## Left out

- Web scraping, CSV loading, `raw_data_cleaning` (including the `dni` padding and the yes/no recoding), `meta_table`, and every database read and write. Tables are input sequences.
- SQL execution. `network_structure` takes each query's outcome as an input: `None` when SQLite could not run it, or the column names and records. The stored `network` and `nodes` tables the key check joins against are inputs too. `build_query` is modelled as the text it returns.
- The community-detection calls (greedy modularity, Kernighan–Lin), `neighbor_degree`, `network_metrics.py`, `sankey_vars.py`, layout and plotting (`create_coordinates`, `total_graph.py`, `plot_diagram`). The partition and the bisection are inputs of `Clusters.ClusterAnalysis`.
- The random RGBA strings of `gen_color_palette`. Each is the abstract colour `RandomRgba`, and only the palette's length and its green first entry are modelled.
- `BuildGraph`: requires the `node`, `source` and `target` columns; without them pandas or networkx raise `KeyError`. In `network_structure` the header check rules this out, and `SimpleGraph` models the exception as a `None` result.
- `BuildGraph`, `NetworkStructure`, `SimpleGraph`: `set_index(..., inplace=True)` changes the caller's data frame object. The model returns the re-indexed table as a new value, so the aliasing itself (other references to the same frame seeing the change) is not modelled.
- `SimpleGraph`: the exception that escapes (a query SQLite cannot run, a missing column) is one `None`; which exception and its message are not modelled.
- `QueryValidation.ColIndex`: a header with two columns of one unqualified name resolves `df[name]` to the first of them. pandas then returns a data frame of both columns, which the model does not capture.
- networkx internals: how a simple graph merges parallel edges, and the graph class. The graph is its node set, its edge list and its node-attribute maps. Edge order and merging are not modelled.
- The tie order of `sort_values` for events of one candidate with equal `begin` and `end`. The sorted table is a parameter: any permutation of the merged rows that is sorted by key.
- `gen_party_indexer` and the way `sankey_wrapper` chains the calls. The indexer is a parameter of `clean_df`. The chain is stated as the lemma `SankeyQuery.CleanDfFeedsSankey`, which also covers the `KeyError` of `indexer[party_of_interest]`: it requires `poi` to be in the indexer.
- `SankeyQuery.CleanDf`: attribute values are integers. `astype(float).astype(int)` is the identity on them, and the `round(..., 1)` of `D_gini` is modelled as the identity, so fractional `D_gini` values are not modelled. The empty dummy column is the value 0.
- `SankeyQuery.CleanDf`: a null value in the attribute column drops the row, as `groupby` does.
- `SankeyQuery.PartyName`: an id missing from the indexer maps to `REGIONAL PARTY`, because `NaN` is truthy in `np.where`. The floating point `NaN` itself is not modelled.
- The `IndexError` of `node_colors[group_index]` is the `failed` flag, which stops every later step. It ends the construction as the exception does. The partial lists left behind are not observable in the source.
- `CandidateMenu.MenuRows`, `CandidateMenu.PartyIds`: the name parts, `elec_dist` and `p_name` are strings, never null. In the source a null name part makes `name` NaN, and a null `elec_dist` or `p_name` makes `rank(...).astype(int)` raise; neither path is modelled.
- `party_switching.py` (menus, input loops, stdout) and the printed error messages.
- Concurrency and floating point elsewhere: none in the core.
