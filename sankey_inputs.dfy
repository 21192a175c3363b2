/** What the `Sankey` class of peru_party_switchers/code/vis/build_sankey.py
    computes, as functions of its data: the configuration `__init__` derives,
    the grouping labels, the colour palette, and the state that one row and
    one pass of `gen_inputs_from_data` leave behind. */
module SankeyInputs {
  import opened Wrappers
  import opened Ordering

  /** A row of the cleaned data: party names, the attribute value, the count. */
  datatype FlowRow = FlowRow(source: string, target: string, attr: int, count: int)

  /** A node colour: the party of interest's green, a random RGBA entry of the
      palette, or the gray of a grouping node. */
  datatype NodeColor = Green | RandomRgba | Gray

  /** `'rgba(235, 235, 235, .5)'` and `'rgba(214, 30, 30, .8)'`. */
  datatype FlowColor = LightGray | Red

  /** `VAR_LABELS` without its `None` entry. */
  const VarLabels: map<string, string> := map[
    "univ_rec" := "University Degree",
    "total_ing" := "Candidate Income (by Quartile)",
    "D_gini" := "District Gini Index",
    "D_pobreza" := "District Poverty Level (by Quartile)",
    "lengua_originaria" := "Share of Indigenous Population (by Quartile)",
    "sin_nivel_educ" := "District Share Pop no Schooling (by Quartile)",
    "crim_rec" := "Criminal Record"]

  /** `VAR_LABELS[None]`. */
  const NoAttributeLabel := "No Attribute Selected"

  /** An attribute `VAR_LABELS` knows, or none. */
  predicate KnownAttribute(attribute: Option<string>)
  {
    attribute.None? || attribute.value in VarLabels
  }

  function VarLabel(attribute: Option<string>): string
    requires KnownAttribute(attribute)
  {
    if attribute.None? then NoAttributeLabel else VarLabels[attribute.value]
  }

  // ---- __init__ ----

  /** What `__init__` fixes before the passes: `poi`, `attribute`, its entry
      in `VAR_LABELS`, `attribute_range`, `binary` and `attr_of_interest`
      (unset, `None`, when the attribute is not binary). */
  datatype Config = Config(poi: string, attribute: Option<string>, attrLabel: string, attributeRange: seq<int>,
                           binary: bool, attrOfInterest: Option<int>)

  function Attrs(data: seq<FlowRow>): (xs: seq<int>)
    ensures |xs| == |data| && forall i :: 0 <= i < |data| ==> xs[i] == data[i].attr
  {
    seq(|data|, i requires 0 <= i < |data| => data[i].attr)
  }

  /** The configuration of `Sankey(data, attribute, poi)`: the sorted distinct
      attribute values (none without an attribute), binary exactly when they
      are `[0, 1]`, and 1 the value of interest for `crim_rec`, 0 for any
      other binary attribute. */
  function MakeConfig(data: seq<FlowRow>, attribute: Option<string>, poi: string): (c: Config)
    requires KnownAttribute(attribute)
    ensures c.poi == poi && c.attribute == attribute && c.attrLabel == VarLabel(attribute)
    ensures attribute.None? ==> c.attributeRange == []
    ensures attribute.Some? ==>
      StrictlySorted(c.attributeRange, IntLt) && Elems(c.attributeRange) == Elems(Attrs(data))
    ensures c.binary <==> c.attributeRange == [0, 1]
    ensures c.binary ==> c.attrOfInterest == Some(if attribute == Some("crim_rec") then 1 else 0)
    ensures !c.binary ==> c.attrOfInterest.None?
  {
    IntLtIsStrictTotalOrder();
    SortedDistinctCorrect(Attrs(data), IntLt);
    var range := if attribute.Some? then SortedDistinct(Attrs(data), IntLt) else [];
    var binary := range == [0, 1];
    var interest := if !binary then None else if attribute == Some("crim_rec") then Some(1) else Some(0);
    Config(poi, attribute, VarLabel(attribute), range, binary, interest)
  }

  /** `"{} flows by {}".format(poi, VAR_LABELS[attribute])`. */
  function Title(poi: string, attribute: Option<string>): string
    requires KnownAttribute(attribute)
  {
    poi + " flows by " + VarLabel(attribute)
  }

  /** `gen_color_palette(num_nodes)`: green for the party of interest, then one
      entry per node and two per attribute value. */
  function Palette(numNodes: nat, rangeLen: nat): (p: seq<NodeColor>)
    ensures |p| == 1 + numNodes + 2 * rangeLen
    ensures p[0] == Green
    ensures forall i :: 1 <= i < |p| ==> p[i] == RandomRgba
  {
    [Green] + seq(numNodes + 2 * rangeLen, _ => RandomRgba)
  }

  // ---- labels ----

  function Digit(d: nat): char
    requires d < 10
  {
    "0123456789"[d]
  }

  /** Python's `str` of a non-negative integer. */
  function NatToString(n: nat): (s: string)
    ensures |s| >= 1 && forall i :: 0 <= i < |s| ==> '0' <= s[i] <= '9'
  {
    if n < 10 then [Digit(n)] else NatToString(n / 10) + [Digit(n % 10)]
  }

  /** Python's `str` of an integer. */
  function IntToString(i: int): string
  {
    if i < 0 then "-" + NatToString(-i) else NatToString(i)
  }

  /** The direction word `grouping_label` starts with, and its separating
      space. */
  function Direction(incoming: bool): string
  {
    if incoming then "In: " else "Out: "
  }

  /** What follows the direction: the attribute's label (`No ` in front for
      the value 0) when it is binary, the label and the value otherwise. */
  function Status(cfg: Config, attr: int): string
  {
    var lbl := cfg.attrLabel;
    if cfg.binary then (if attr == 0 then "No " + lbl else lbl)
    else lbl + " " + IntToString(attr)
  }

  /** `grouping_label`. */
  function GroupingLabel(cfg: Config, attr: int, incoming: bool): (g: string)
  {
    Direction(incoming) + Status(cfg, attr)
  }

  /** The label names the direction first, then, for a binary attribute, the
      label with `No ` in front for the value 0 and alone otherwise, and for any
      other attribute the label and the value. */
  lemma GroupingLabelShape(cfg: Config, attr: int, incoming: bool)
    ensures var g := GroupingLabel(cfg, attr, incoming);
      var lbl := cfg.attrLabel;
      var d := if incoming then "In: " else "Out: ";
      && |g| >= |d| && g[..|d|] == d
      && (cfg.binary && attr == 0 ==> g[|d|..] == "No " + lbl)
      && (cfg.binary && attr != 0 ==> g[|d|..] == lbl)
      && (!cfg.binary ==> g[|d|..] == lbl + " " + IntToString(attr))
  {
    var d := Direction(incoming);
    var g := GroupingLabel(cfg, attr, incoming);
    assert g[..|d|] == d && g[|d|..] == Status(cfg, attr);
  }

  /** Incoming and outgoing grouping nodes never share a label, and the two
      values of a binary attribute get different labels. */
  lemma GroupingLabelsApart(cfg: Config, a: int, b: int, incoming: bool)
    ensures GroupingLabel(cfg, a, true) != GroupingLabel(cfg, b, false)
    ensures cfg.binary && (a == 0) != (b == 0) ==> GroupingLabel(cfg, a, incoming) != GroupingLabel(cfg, b, incoming)
  {
    assert GroupingLabel(cfg, a, true)[0] == 'I' && GroupingLabel(cfg, b, false)[0] == 'O';
  }

  // ---- the state of the diagram ----

  /** The lists `gen_inputs_from_data` fills; `failed` records that an
      `IndexError` ended the construction. */
  datatype Inputs = Inputs(labels: seq<string>, sources: seq<nat>, targets: seq<nat>, values: seq<int>,
                           nodeColors: seq<NodeColor>, flowColors: Option<seq<FlowColor>>, failed: bool)

  /** The lists `__init__` starts from. */
  function Initial(cfg: Config, numRows: nat): Inputs
  {
    Inputs([cfg.poi], [], [], [], Palette(numRows, |cfg.attributeRange|), Some([]), false)
  }

  /** `labels.index(x)`: the first position of `x`. */
  function IndexOf(xs: seq<string>, x: string): (k: nat)
    requires x in xs
    ensures k < |xs| && xs[k] == x
  {
    if xs[0] == x then 0 else 1 + IndexOf(xs[1..], x)
  }

  /** No earlier position holds `x`. */
  lemma {:induction false} IndexOfFirst(xs: seq<string>, x: string, j: nat)
    requires x in xs && j < IndexOf(xs, x)
    ensures xs[j] != x
  {
    if j > 0 {
      IndexOfFirst(xs[1..], x, j - 1);
    }
  }

  function FlowColorOf(cfg: Config, attr: int): FlowColor
  {
    if Some(attr) != cfg.attrOfInterest then LightGray else Red
  }

  /** `flow_colors.append(c)`. */
  function AppendColor(fc: Option<seq<FlowColor>>, c: FlowColor): Option<seq<FlowColor>>
  {
    if fc.Some? then Some(fc.value + [c]) else None
  }

  /** `target_source_labels`: the party label (a trailing space on the way
      out) is always appended, the counterpart is the party of interest
      without an attribute and the grouping label otherwise, appended only when
      absent; a binary attribute adds a flow colour. */
  function TargetSourceLabels(cfg: Config, st: Inputs, incoming: bool, party: string, attr: int): (r: (Inputs, string, string))
    ensures r.1 == (if incoming then party else party + " ")
    ensures cfg.attribute.None? ==> r.2 == cfg.poi && r.0.labels == st.labels + [r.1]
    ensures cfg.attribute.Some? ==> r.2 == GroupingLabel(cfg, attr, incoming) && r.2 in r.0.labels
    ensures cfg.attribute.Some? ==>
      r.0.labels == st.labels + [r.1] + (if r.2 in st.labels + [r.1] then [] else [r.2])
    ensures |r.0.labels| > |st.labels| && r.0.labels[..|st.labels| + 1] == st.labels + [r.1]
    ensures r.0 == st.(labels := r.0.labels, flowColors := r.0.flowColors)
  {
    var p := if incoming then party else party + " ";
    var labels := st.labels + [p];
    if cfg.attribute.None? then
      (st.(labels := labels), p, cfg.poi)
    else
      var ts := GroupingLabel(cfg, attr, incoming);
      var labels' := if ts in labels then labels else labels + [ts];
      var fc := if cfg.binary then AppendColor(st.flowColors, FlowColorOf(cfg, attr)) else st.flowColors;
      assert labels'[..|st.labels| + 1] == labels;
      (st.(labels := labels', flowColors := fc), p, ts)
  }

  /** The triple from the party to its counterpart, or back on the way out. */
  function FirstTriple(st: Inputs, p: string, ts: string, count: int, incoming: bool): (r: Inputs)
    requires p in st.labels && ts in st.labels
  {
    Inputs(st.labels, st.sources + [IndexOf(st.labels, if incoming then p else ts)],
           st.targets + [IndexOf(st.labels, if incoming then ts else p)],
           st.values + [count], st.nodeColors, st.flowColors, st.failed)
  }

  /** The triple between the grouping node `ts` and node 0, the grouping
      node turned gray and the flow colour; `IndexError` when the palette
      has no entry for the grouping node. */
  function GroupTriple(cfg: Config, st: Inputs, ts: string, attr: int, count: int, incoming: bool): (r: Inputs)
    requires ts in st.labels
  {
    var gi := IndexOf(st.labels, ts);
    if gi >= |st.nodeColors| then
      Inputs(st.labels, st.sources, st.targets, st.values + [count], st.nodeColors, st.flowColors, true)
    else
      Inputs(st.labels, st.sources + [if incoming then gi else 0], st.targets + [if incoming then 0 else gi],
             st.values + [count], st.nodeColors[gi := Gray],
             if cfg.binary then AppendColor(st.flowColors, FlowColorOf(cfg, attr)) else None, st.failed)
  }

  /** What one row of a pass does once its labels are in place: the party's
      triple, then with an attribute the grouping node's; without one the flow
      colours are dropped. */
  function Triples(cfg: Config, st: Inputs, p: string, ts: string, attr: int, count: int, incoming: bool): (r: Inputs)
    requires p in st.labels && ts in st.labels
    ensures r.labels == st.labels && |r.nodeColors| == |st.nodeColors|
  {
    var s1 := FirstTriple(st, p, ts, count, incoming);
    if cfg.attribute.None? then s1.(flowColors := None)
    else GroupTriple(cfg, s1, ts, attr, count, incoming)
  }

  /** One row of a pass: its labels, then its triples. */
  function Step(cfg: Config, st: Inputs, party: string, attr: int, count: int, incoming: bool): (r: Inputs)
    requires cfg.poi in st.labels
    ensures st.labels <= r.labels && |r.nodeColors| == |st.nodeColors|
    ensures st.failed ==> r == st
  {
    if st.failed then st
    else
      var t := TargetSourceLabels(cfg, st, incoming, party, attr);
      assert cfg.poi in st.labels && st.labels <= t.0.labels;
      assert t.1 in t.0.labels && t.2 in t.0.labels;
      Triples(cfg, t.0, t.1, t.2, attr, count, incoming)
  }

  /** The column a pass skips the party of interest on, and the party it
      reads: `source` on the way in, `target` on the way out. */
  function Side(row: FlowRow, incoming: bool): string
  {
    if incoming then row.source else row.target
  }

  /** One row of the pass, or nothing for a row `drop` removed. */
  function StepRow(cfg: Config, st: Inputs, row: FlowRow, incoming: bool): Inputs
    requires cfg.poi in st.labels
  {
    if Side(row, incoming) == cfg.poi then st
    else Step(cfg, st, Side(row, incoming), row.attr, row.count, incoming)
  }

  lemma StepGrows(cfg: Config, st: Inputs, row: FlowRow, incoming: bool)
    requires cfg.poi in st.labels
    ensures var r := StepRow(cfg, st, row, incoming);
      st.labels <= r.labels && |r.nodeColors| == |st.nodeColors| && (st.failed ==> r == st)
  {
  }

  /** A pass of `gen_inputs_from_data` over the rows in order. */
  function Pass(cfg: Config, st: Inputs, rows: seq<FlowRow>, incoming: bool): (r: Inputs)
    requires cfg.poi in st.labels
    ensures st.labels <= r.labels && |r.nodeColors| == |st.nodeColors|
    ensures st.failed ==> r == st
  {
    if rows == [] then st
    else
      var mid := Pass(cfg, st, rows[..|rows| - 1], incoming);
      StepGrows(cfg, mid, rows[|rows| - 1], incoming);
      StepRow(cfg, mid, rows[|rows| - 1], incoming)
  }

  /** `Sankey(data, attribute, poi)`: the incoming pass, then the outgoing
      pass. */
  function Build(data: seq<FlowRow>, attribute: Option<string>, poi: string): Inputs
    requires KnownAttribute(attribute)
  {
    var cfg := MakeConfig(data, attribute, poi);
    Pass(cfg, Pass(cfg, Initial(cfg, |data|), data, true), data, false)
  }
}
