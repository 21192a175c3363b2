/** The `Sankey` class of peru_party_switchers/code/vis/build_sankey.py: the
    constructor fills the node labels, the (source, target, value) triples and
    the colours in place, first for the flows into the party of interest and
    then for the flows out of it. */
module SankeyDiagram {
  import opened Wrappers
  import opened SankeyInputs
  import opened SankeyProperties

  class Sankey {
    /** The cleaned rows the diagram is built from. */
    const data: seq<FlowRow>
    /** `poi`, `attribute`, the label of the attribute, `attribute_range`,
        `binary` and `attr_of_interest`. */
    const cfg: Config
    const title: string
    var labels: seq<string>
    var values: seq<int>
    var sources: seq<nat>
    var targets: seq<nat>
    var nodeColors: seq<NodeColor>
    var flowColors: Option<seq<FlowColor>>
    /** Set when `node_colors[group_index]` raised `IndexError`, which ends
        the construction. */
    var failed: bool

    function State(): Inputs
      reads this
    {
      Inputs(labels, sources, targets, values, nodeColors, flowColors, failed)
    }

    /** `Sankey(data, attribute, party_of_interest)`. The lists are the ones
        `Build` describes; when construction does not fail they draw the
        incoming flows and then the outgoing ones around node 0, the party of
        interest; and it never fails when each row has exactly one end at the
        party of interest. */
    constructor (data: seq<FlowRow>, attribute: Option<string>, poi: string)
      requires KnownAttribute(attribute)
      ensures this.data == data && cfg == MakeConfig(data, attribute, poi) && title == Title(poi, attribute)
      ensures State() == Build(data, attribute, poi)
      ensures !failed ==> labels[0] == poi && Displays(cfg, State(), Flows(cfg, data, true) + Flows(cfg, data, false))
      ensures (forall k :: 0 <= k < |data| ==> (data[k].source == poi) != (data[k].target == poi)) ==> !failed
    {
      this.data := data;
      cfg := MakeConfig(data, attribute, poi);
      title := Title(poi, attribute);
      labels := [poi];
      values, sources, targets := [], [], [];
      flowColors := Some([]);
      failed := false;
      new;
      var palette := GenColorPalette(|data|);
      nodeColors := palette;
      GenInputsFromData(true);
      if !failed {
        BuildDisplays(data, attribute, poi);
      }
      if forall k :: 0 <= k < |data| ==> (data[k].source == poi) != (data[k].target == poi) {
        BuildNeverFails(data, attribute, poi);
      }
    }

    /** `gen_color_palette(num_nodes)`: green, then a random colour for every
        node and two for every attribute value. */
    method GenColorPalette(numNodes: nat) returns (palette: seq<NodeColor>)
      ensures palette == Palette(numNodes, |cfg.attributeRange|)
    {
      palette := [Green];
      var flowCount := numNodes + |cfg.attributeRange| * 2;
      for i := 0 to flowCount
        invariant |palette| == 1 + i && palette[0] == Green
        invariant forall k :: 1 <= k < |palette| ==> palette[k] == RandomRgba
      {
        palette := palette + [RandomRgba];
      }
    }

    /** `target_source_labels(incoming, party, attr)`. */
    method TargetSourceLabelsOf(incoming: bool, party: string, attr: int) returns (p: string, ts: string)
      modifies this
      ensures (State(), p, ts) == TargetSourceLabels(cfg, old(State()), incoming, party, attr)
    {
      p := if incoming then party else party + " ";
      labels := labels + [p];
      if cfg.attribute.None? {
        ts := cfg.poi;
      } else {
        ts := GroupingLabel(cfg, attr, incoming);
        if ts !in labels {
          labels := labels + [ts];
        }
        if cfg.binary {
          flowColors := AppendColor(flowColors, FlowColorOf(cfg, attr));
        }
      }
    }

    /** The party's triple: `sources` and `targets` get the first positions
        of its two labels, `values` the count. */
    method AddFirstTriple(p: string, ts: string, count: int, incoming: bool)
      requires p in labels && ts in labels
      modifies this
      ensures State() == FirstTriple(old(State()), p, ts, count, incoming)
    {
      var src, tgt := if incoming then p else ts, if incoming then ts else p;
      sources := sources + [IndexOf(labels, src)];
      targets := targets + [IndexOf(labels, tgt)];
      values := values + [count];
    }

    /** The grouping node's triple, its gray colour and the flow colour. */
    method AddGroupTriple(groupLabel: string, attr: int, count: int, incoming: bool)
      requires groupLabel in labels
      modifies this
      ensures State() == GroupTriple(cfg, old(State()), groupLabel, attr, count, incoming)
    {
      values := values + [count];
      var groupIndex := IndexOf(labels, groupLabel);
      if groupIndex >= |nodeColors| {
        failed := true;
      } else {
        nodeColors := nodeColors[groupIndex := Gray];
        if incoming {
          sources := sources + [groupIndex];
          targets := targets + [0];
        } else {
          sources := sources + [0];
          targets := targets + [groupIndex];
        }
        if cfg.binary {
          flowColors := AppendColor(flowColors, FlowColorOf(cfg, attr));
        } else {
          flowColors := None;
        }
      }
    }

    /** The body of the loop of `gen_inputs_from_data` for a row it keeps. */
    method AddFlows(incoming: bool, party: string, attr: int, count: int)
      requires cfg.poi in labels && !failed
      modifies this
      ensures State() == Step(cfg, old(State()), party, attr, count, incoming)
    {
      var p, ts := TargetSourceLabelsOf(incoming, party, attr);
      AddFirstTriple(p, ts, count, incoming);
      if cfg.attribute.None? {
        flowColors := None;
      } else {
        AddGroupTriple(ts, attr, count, incoming);
      }
    }

    /** `gen_inputs_from_data(incoming)`: one pass over the rows whose
        `source` (on the way in) or `target` (on the way out) is not the party
        of interest, then, on the way in, the pass out. */
    method GenInputsFromData(incoming: bool)
      requires cfg.poi in labels
      modifies this
      ensures incoming ==> State() == Pass(cfg, Pass(cfg, old(State()), data, true), data, false)
      ensures !incoming ==> State() == Pass(cfg, old(State()), data, false)
      decreases if incoming then 1 else 0
    {
      for i := 0 to |data|
        invariant cfg.poi in labels
        invariant State() == Pass(cfg, old(State()), data[..i], incoming)
      {
        assert data[..i + 1][..i] == data[..i];
        var row := data[i];
        if Side(row, incoming) != cfg.poi && !failed {
          AddFlows(incoming, Side(row, incoming), row.attr, row.count);
        }
      }
      assert data[..|data|] == data;
      if incoming {
        GenInputsFromData(false);
      }
    }
  }
}
