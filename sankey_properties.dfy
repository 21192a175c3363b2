/** What the lists of a `Sankey` diagram mean: the labelled flows they show,
    the colours of those flows, and when the palette is long enough for the
    grouping nodes (peru_party_switchers/code/vis/build_sankey.py:95-239). */
module SankeyProperties {
  import opened Wrappers
  import opened Ordering
  import opened SankeyInputs

  /** A flow as the diagram draws it: the labels of its two nodes, its value,
      and the attribute value of the row it came from. */
  datatype Link = Link(source: string, target: string, value: int, attr: int)

  /** The flows one kept row adds: party to counterpart on the way in and
      counterpart to party (with its trailing space) on the way out, then,
      with an attribute, grouping node to the party of interest or back. */
  function RowLinks(cfg: Config, row: FlowRow, incoming: bool): seq<Link>
  {
    var p := if incoming then row.source else row.target + " ";
    var ts := if cfg.attribute.None? then cfg.poi else GroupingLabel(cfg, row.attr, incoming);
    var first := if incoming then Link(p, ts, row.count, row.attr) else Link(ts, p, row.count, row.attr);
    if cfg.attribute.None? then [first]
    else [first, if incoming then Link(ts, cfg.poi, row.count, row.attr) else Link(cfg.poi, ts, row.count, row.attr)]
  }

  /** The flows of a pass: those of every row it does not drop, in order. */
  function Flows(cfg: Config, rows: seq<FlowRow>, incoming: bool): seq<Link>
  {
    if rows == [] then []
    else
      var last := rows[|rows| - 1];
      Flows(cfg, rows[..|rows| - 1], incoming) + (if Side(last, incoming) == cfg.poi then [] else RowLinks(cfg, last, incoming))
  }

  /** The rows a pass does not drop. */
  function Processed(cfg: Config, rows: seq<FlowRow>, incoming: bool): nat
  {
    if rows == [] then 0
    else Processed(cfg, rows[..|rows| - 1], incoming) + (if Side(rows[|rows| - 1], incoming) == cfg.poi then 0 else 1)
  }

  /** A configuration `__init__` can produce: a binary attribute is an
      attribute. */
  predicate Consistent(cfg: Config)
  {
    cfg.binary ==> cfg.attribute.Some?
  }

  /** Node 0 is the party of interest. */
  ghost predicate Rooted(cfg: Config, st: Inputs)
  {
    |st.labels| >= 1 && st.labels[0] == cfg.poi
  }

  /** The triple lists draw exactly `flows`: position `n` of `sources`,
      `targets` and `values` names the labels and the value of `flows[n]`; a
      binary attribute colours each flow red for the value of interest and
      light gray otherwise, and any other configuration leaves no flow
      colours once a flow exists. */
  ghost predicate Displays(cfg: Config, st: Inputs, flows: seq<Link>)
  {
    && |st.sources| == |flows| && |st.targets| == |flows| && |st.values| == |flows|
    && (forall n :: 0 <= n < |flows| ==>
          st.sources[n] < |st.labels| && st.targets[n] < |st.labels|
          && st.labels[st.sources[n]] == flows[n].source
          && st.labels[st.targets[n]] == flows[n].target
          && st.values[n] == flows[n].value)
    && (cfg.binary ==>
          st.flowColors.Some? && |st.flowColors.value| == |flows|
          && forall n :: 0 <= n < |flows| ==> st.flowColors.value[n] == FlowColorOf(cfg, flows[n].attr))
    && (!cfg.binary && |flows| > 0 ==> st.flowColors.None?)
  }

  lemma IndexOfRoot(xs: seq<string>, x: string)
    requires |xs| >= 1 && xs[0] == x
    ensures IndexOf(xs, x) == 0
  {
  }

  /** Growing the labels keeps every drawn flow. */
  lemma DisplaysGrow(cfg: Config, st: Inputs, labels: seq<string>, flows: seq<Link>)
    requires Displays(cfg, st, flows) && st.labels <= labels
    ensures Displays(cfg, st.(labels := labels), flows)
  {
    forall n | 0 <= n < |flows|
      ensures labels[st.sources[n]] == flows[n].source && labels[st.targets[n]] == flows[n].target
    {
      assert labels[st.sources[n]] == st.labels[st.sources[n]];
      assert labels[st.targets[n]] == st.labels[st.targets[n]];
    }
  }

  /** The colour `flow_colors` gives each of `links`: red exactly for a flow
      whose attribute is the value of interest, light gray for every other. */
  function Colors(cfg: Config, links: seq<Link>): (cs: seq<FlowColor>)
    ensures |cs| == |links|
    ensures forall i :: 0 <= i < |links| ==> (cs[i] == Red <==> Some(links[i].attr) == cfg.attrOfInterest)
  {
    seq(|links|, i requires 0 <= i < |links| => FlowColorOf(cfg, links[i].attr))
  }

  /** `r` keeps the labels and triples of `st` and has `k` more triples. */
  ghost predicate Extends(st: Inputs, r: Inputs, k: nat)
  {
    && st.labels <= r.labels
    && |r.sources| == |st.sources| + k && r.sources[..|st.sources|] == st.sources
    && |r.targets| == |st.sources| + k && r.targets[..|st.sources|] == st.targets
    && |r.values| == |st.sources| + k && r.values[..|st.sources|] == st.values
  }

  /** The new triples of `r` name the labels and the values of `links`. */
  ghost predicate Names(st: Inputs, r: Inputs, links: seq<Link>)
    requires |r.sources| == |r.targets| == |r.values| == |st.sources| + |links|
  {
    forall i :: 0 <= i < |links| ==>
      && r.sources[|st.sources| + i] < |r.labels| && r.labels[r.sources[|st.sources| + i]] == links[i].source
      && r.targets[|st.sources| + i] < |r.labels| && r.labels[r.targets[|st.sources| + i]] == links[i].target
      && r.values[|st.sources| + i] == links[i].value
  }

  /** The flow colours of `r` follow those of `links`. */
  ghost predicate Colored(cfg: Config, st: Inputs, r: Inputs, links: seq<Link>)
  {
    && (cfg.binary && st.flowColors.Some? ==> r.flowColors == Some(st.flowColors.value + Colors(cfg, links)))
    && (!cfg.binary ==> r.flowColors.None?)
  }

  /** `r` is `st` with `links` drawn after its triples. */
  ghost predicate Appended(cfg: Config, st: Inputs, r: Inputs, links: seq<Link>)
  {
    Extends(st, r, |links|) && Names(st, r, links) && Colored(cfg, st, r, links)
  }

  /** Triple `k` of `r` names the labels and the value of `link`. */
  ghost predicate Names1(r: Inputs, k: nat, link: Link)
  {
    && k < |r.sources| && k < |r.targets| && k < |r.values|
    && r.sources[k] < |r.labels| && r.labels[r.sources[k]] == link.source
    && r.targets[k] < |r.labels| && r.labels[r.targets[k]] == link.target
    && r.values[k] == link.value
  }

  /** Two new triples that name two flows. */
  lemma NamesTwo(st: Inputs, r: Inputs, links: seq<Link>)
    requires |links| == 2 && |r.sources| == |r.targets| == |r.values| == |st.sources| + 2
    requires Names1(r, |st.sources|, links[0]) && Names1(r, |st.sources| + 1, links[1])
    ensures Names(st, r, links)
  {
    var m := |st.sources|;
    forall i | 0 <= i < 2
      ensures r.sources[m + i] < |r.labels| && r.labels[r.sources[m + i]] == links[i].source
      ensures r.targets[m + i] < |r.labels| && r.labels[r.targets[m + i]] == links[i].target
      ensures r.values[m + i] == links[i].value
    {
      if i == 0 {
        assert m + i == m;
      } else {
        assert m + i == m + 1;
      }
    }
  }

  /** Two flows of one attribute value, appended with their colours. */
  lemma AppendedTwo(cfg: Config, st: Inputs, r: Inputs, links: seq<Link>, a: int)
    requires |links| == 2 && links[0].attr == a && links[1].attr == a
    requires Extends(st, r, 2) && Names(st, r, links)
    requires cfg.binary && st.flowColors.Some? ==>
      r.flowColors == Some(st.flowColors.value + [FlowColorOf(cfg, a), FlowColorOf(cfg, a)])
    requires !cfg.binary ==> r.flowColors.None?
    ensures Appended(cfg, st, r, links)
  {
    assert Colors(cfg, links) == [FlowColorOf(cfg, a), FlowColorOf(cfg, a)];
  }

  /** Appending flows keeps the triples of the longer list drawn. */
  lemma TriplesExtend(cfg: Config, st: Inputs, r: Inputs, flows: seq<Link>, links: seq<Link>)
    requires Displays(cfg, st, flows) && Extends(st, r, |links|) && Names(st, r, links)
    ensures var all := flows + links;
      forall n :: 0 <= n < |all| ==>
        r.sources[n] < |r.labels| && r.targets[n] < |r.labels|
        && r.labels[r.sources[n]] == all[n].source && r.labels[r.targets[n]] == all[n].target
        && r.values[n] == all[n].value
  {
    var all := flows + links;
    var m := |flows|;
    forall n | 0 <= n < |all|
      ensures r.sources[n] < |r.labels| && r.targets[n] < |r.labels|
      ensures r.labels[r.sources[n]] == all[n].source && r.labels[r.targets[n]] == all[n].target
      ensures r.values[n] == all[n].value
    {
      if n < m {
        assert r.sources[n] == st.sources[n] && r.targets[n] == st.targets[n] && r.values[n] == st.values[n];
        assert r.labels[st.sources[n]] == st.labels[st.sources[n]];
        assert r.labels[st.targets[n]] == st.labels[st.targets[n]];
      } else {
        assert all[n] == links[n - m];
        assert n == m + (n - m);
      }
    }
  }

  /** Appending coloured flows keeps the colours of the longer list. */
  lemma ColorsExtend(cfg: Config, st: Inputs, r: Inputs, flows: seq<Link>, links: seq<Link>)
    requires Displays(cfg, st, flows) && Colored(cfg, st, r, links) && cfg.binary
    ensures r.flowColors.Some? && |r.flowColors.value| == |flows + links|
    ensures forall n :: 0 <= n < |flows + links| ==> r.flowColors.value[n] == FlowColorOf(cfg, (flows + links)[n].attr)
  {
    var all := flows + links;
    var m := |flows|;
    var fc := r.flowColors.value;
    assert fc == st.flowColors.value + Colors(cfg, links) && |st.flowColors.value| == m;
    forall n | 0 <= n < |all|
      ensures fc[n] == FlowColorOf(cfg, all[n].attr)
    {
      if n < m {
        assert fc[n] == st.flowColors.value[n];
      } else {
        assert all[n] == links[n - m];
        assert fc[n] == Colors(cfg, links)[n - m];
      }
    }
  }

  /** Appending flows keeps the diagram drawing the longer list. */
  lemma DisplaysExtend(cfg: Config, st: Inputs, r: Inputs, flows: seq<Link>, links: seq<Link>)
    requires Displays(cfg, st, flows) && Appended(cfg, st, r, links) && |links| >= 1
    ensures Displays(cfg, r, flows + links)
  {
    TriplesExtend(cfg, st, r, flows, links);
    if cfg.binary {
      ColorsExtend(cfg, st, r, flows, links);
    }
  }

  /** A kept row without an attribute appends its one flow. */
  lemma StepPlainAppended(cfg: Config, st: Inputs, row: FlowRow, incoming: bool)
    requires cfg.attribute.None? && !cfg.binary && cfg.poi in st.labels && Rooted(cfg, st) && !st.failed
    requires Side(row, incoming) != cfg.poi
    requires |st.targets| == |st.sources| && |st.values| == |st.sources|
    ensures Appended(cfg, st, Step(cfg, st, Side(row, incoming), row.attr, row.count, incoming), RowLinks(cfg, row, incoming))
  {
    var t := TargetSourceLabels(cfg, st, incoming, Side(row, incoming), row.attr);
    var L := t.0.labels;
    IndexOfRoot(L, cfg.poi);
    var r := Step(cfg, st, Side(row, incoming), row.attr, row.count, incoming);
    var links := RowLinks(cfg, row, incoming);
    var m := |st.sources|;
    var src, tgt := if incoming then t.1 else t.2, if incoming then t.2 else t.1;
    assert r == st.(labels := L, sources := st.sources + [IndexOf(L, src)], targets := st.targets + [IndexOf(L, tgt)],
                    values := st.values + [row.count], flowColors := None);
    assert links == [if incoming then Link(t.1, t.2, row.count, row.attr) else Link(t.2, t.1, row.count, row.attr)];
    assert r.sources[..m] == st.sources;
  }

  /** The two triples of a row with an attribute, once its labels are in
      place and its grouping node has a colour. */
  lemma TriplesGrouped(cfg: Config, s: Inputs, p: string, ts: string, attr: int, count: int, incoming: bool)
    requires p in s.labels && ts in s.labels && cfg.attribute.Some?
    requires !Triples(cfg, s, p, ts, attr, count, incoming).failed
    ensures var r := Triples(cfg, s, p, ts, attr, count, incoming);
      var L := s.labels;
      var i0, j0, gi := IndexOf(L, if incoming then p else ts), IndexOf(L, if incoming then ts else p), IndexOf(L, ts);
      && r.labels == L
      && r.sources == s.sources + (if incoming then [i0, gi] else [i0, 0])
      && r.targets == s.targets + (if incoming then [j0, 0] else [j0, gi])
      && r.values == s.values + [count, count]
      && (cfg.binary ==> r.flowColors == AppendColor(s.flowColors, FlowColorOf(cfg, attr)))
      && (!cfg.binary ==> r.flowColors.None?)
  {
  }

  /** The lists one row with an attribute leaves, when its grouping node has
      a colour: two triples, the party's and the grouping node's. */
  lemma StepGroupedShape(cfg: Config, st: Inputs, party: string, attr: int, count: int, incoming: bool)
    requires cfg.poi in st.labels && !st.failed && cfg.attribute.Some?
    requires !Step(cfg, st, party, attr, count, incoming).failed
    ensures var r := Step(cfg, st, party, attr, count, incoming);
      var t := TargetSourceLabels(cfg, st, incoming, party, attr);
      var L, p, ts := t.0.labels, t.1, t.2;
      var i0, j0, gi := IndexOf(L, if incoming then p else ts), IndexOf(L, if incoming then ts else p), IndexOf(L, ts);
      && r.labels == L
      && r.sources == st.sources + (if incoming then [i0, gi] else [i0, 0])
      && r.targets == st.targets + (if incoming then [j0, 0] else [j0, gi])
      && r.values == st.values + [count, count]
      && (cfg.binary ==> r.flowColors == AppendColor(t.0.flowColors, FlowColorOf(cfg, attr)))
      && (!cfg.binary ==> r.flowColors.None?)
  {
    var t := TargetSourceLabels(cfg, st, incoming, party, attr);
    assert Step(cfg, st, party, attr, count, incoming) == Triples(cfg, t.0, t.1, t.2, attr, count, incoming);
    TriplesGrouped(cfg, t.0, t.1, t.2, attr, count, incoming);
  }

  /** Such a row keeps the triples already there and adds two. */
  lemma StepGroupedPrefix(cfg: Config, st: Inputs, row: FlowRow, incoming: bool)
    requires cfg.attribute.Some? && cfg.poi in st.labels && !st.failed && Side(row, incoming) != cfg.poi
    requires !Step(cfg, st, Side(row, incoming), row.attr, row.count, incoming).failed
    requires |st.targets| == |st.sources| && |st.values| == |st.sources|
    ensures Extends(st, Step(cfg, st, Side(row, incoming), row.attr, row.count, incoming), 2)
  {
    StepGroupedShape(cfg, st, Side(row, incoming), row.attr, row.count, incoming);
  }

  /** The party's triple of such a row names the labels and the count of the
      row's first flow. */
  lemma StepGroupedFirst(cfg: Config, st: Inputs, row: FlowRow, incoming: bool)
    requires cfg.attribute.Some? && cfg.poi in st.labels && !st.failed && Side(row, incoming) != cfg.poi
    requires |st.targets| == |st.sources| && |st.values| == |st.sources|
    requires !Step(cfg, st, Side(row, incoming), row.attr, row.count, incoming).failed
    ensures var r := Step(cfg, st, Side(row, incoming), row.attr, row.count, incoming);
      var link := RowLinks(cfg, row, incoming)[0];
      Names1(r, |st.sources|, link) && link.attr == row.attr
  {
    StepGroupedShape(cfg, st, Side(row, incoming), row.attr, row.count, incoming);
  }

  /** The grouping node's triple of such a row names the labels and the count
      of the row's second flow. */
  lemma StepGroupedSecond(cfg: Config, st: Inputs, row: FlowRow, incoming: bool)
    requires cfg.attribute.Some? && cfg.poi in st.labels && Rooted(cfg, st) && !st.failed && Side(row, incoming) != cfg.poi
    requires |st.targets| == |st.sources| && |st.values| == |st.sources|
    requires !Step(cfg, st, Side(row, incoming), row.attr, row.count, incoming).failed
    ensures var r := Step(cfg, st, Side(row, incoming), row.attr, row.count, incoming);
      var links := RowLinks(cfg, row, incoming);
      |links| == 2 && Names1(r, |st.sources| + 1, links[1]) && links[1].attr == row.attr
  {
    var t := TargetSourceLabels(cfg, st, incoming, Side(row, incoming), row.attr);
    IndexOfRoot(t.0.labels, cfg.poi);
    StepGroupedShape(cfg, st, Side(row, incoming), row.attr, row.count, incoming);
  }

  /** A binary attribute colours both flows of such a row alike. */
  lemma StepGroupedColors(cfg: Config, st: Inputs, row: FlowRow, incoming: bool)
    requires cfg.attribute.Some? && cfg.poi in st.labels && !st.failed && Side(row, incoming) != cfg.poi
    requires !Step(cfg, st, Side(row, incoming), row.attr, row.count, incoming).failed
    ensures var r := Step(cfg, st, Side(row, incoming), row.attr, row.count, incoming);
      var c := FlowColorOf(cfg, row.attr);
      && (cfg.binary && st.flowColors.Some? ==> r.flowColors == Some(st.flowColors.value + [c, c]))
      && (!cfg.binary ==> r.flowColors.None?)
  {
    StepGroupedShape(cfg, st, Side(row, incoming), row.attr, row.count, incoming);
    TargetSourceColors(cfg, st, incoming, Side(row, incoming), row.attr);
    var c := FlowColorOf(cfg, row.attr);
    if cfg.binary && st.flowColors.Some? {
      TwoColors(st.flowColors.value, c);
    }
  }

  lemma TwoColors(fc: seq<FlowColor>, c: FlowColor)
    ensures fc + [c] + [c] == fc + [c, c]
  {
  }

  /** The labels step adds the row's flow colour for a binary attribute. */
  lemma TargetSourceColors(cfg: Config, st: Inputs, incoming: bool, party: string, attr: int)
    requires cfg.attribute.Some?
    ensures TargetSourceLabels(cfg, st, incoming, party, attr).0.flowColors ==
      if cfg.binary then AppendColor(st.flowColors, FlowColorOf(cfg, attr)) else st.flowColors
  {
  }

  /** The new triples of a kept row with an attribute name its two flows. */
  lemma StepGroupedNames(cfg: Config, st: Inputs, row: FlowRow, incoming: bool)
    requires cfg.attribute.Some? && cfg.poi in st.labels && Rooted(cfg, st) && !st.failed && Side(row, incoming) != cfg.poi
    requires |st.targets| == |st.sources| && |st.values| == |st.sources|
    requires !Step(cfg, st, Side(row, incoming), row.attr, row.count, incoming).failed
    ensures var r := Step(cfg, st, Side(row, incoming), row.attr, row.count, incoming);
      var links := RowLinks(cfg, row, incoming);
      && |r.sources| == |r.targets| == |r.values| == |st.sources| + |links|
      && Names(st, r, links)
  {
    StepGroupedPrefix(cfg, st, row, incoming);
    StepGroupedFirst(cfg, st, row, incoming);
    StepGroupedSecond(cfg, st, row, incoming);
    NamesTwo(st, Step(cfg, st, Side(row, incoming), row.attr, row.count, incoming), RowLinks(cfg, row, incoming));
  }

  /** A kept row with an attribute, when its grouping node has a colour,
      appends its two flows. */
  lemma StepGroupedAppended(cfg: Config, st: Inputs, row: FlowRow, incoming: bool)
    requires cfg.attribute.Some? && cfg.poi in st.labels && Rooted(cfg, st) && !st.failed && Side(row, incoming) != cfg.poi
    requires |st.targets| == |st.sources| && |st.values| == |st.sources|
    requires !Step(cfg, st, Side(row, incoming), row.attr, row.count, incoming).failed
    ensures Appended(cfg, st, Step(cfg, st, Side(row, incoming), row.attr, row.count, incoming), RowLinks(cfg, row, incoming))
  {
    var links := RowLinks(cfg, row, incoming);
    StepGroupedPrefix(cfg, st, row, incoming);
    StepGroupedNames(cfg, st, row, incoming);
    StepGroupedColors(cfg, st, row, incoming);
    AppendedTwo(cfg, st, Step(cfg, st, Side(row, incoming), row.attr, row.count, incoming), links, row.attr);
  }

  /** A kept row that does not fail draws its flows. */
  lemma StepDisplays(cfg: Config, st: Inputs, row: FlowRow, incoming: bool, flows: seq<Link>)
    requires Consistent(cfg) && cfg.poi in st.labels && Rooted(cfg, st) && !st.failed && Displays(cfg, st, flows)
    requires Side(row, incoming) != cfg.poi
    requires !Step(cfg, st, Side(row, incoming), row.attr, row.count, incoming).failed
    ensures var r := Step(cfg, st, Side(row, incoming), row.attr, row.count, incoming);
      Rooted(cfg, r) && Displays(cfg, r, flows + RowLinks(cfg, row, incoming))
  {
    var r := Step(cfg, st, Side(row, incoming), row.attr, row.count, incoming);
    if cfg.attribute.None? {
      StepPlainAppended(cfg, st, row, incoming);
    } else {
      StepGroupedAppended(cfg, st, row, incoming);
    }
    DisplaysExtend(cfg, st, r, flows, RowLinks(cfg, row, incoming));
  }

  lemma StepRowDisplays(cfg: Config, st: Inputs, row: FlowRow, incoming: bool, flows: seq<Link>)
    requires Consistent(cfg) && Rooted(cfg, st) && Displays(cfg, st, flows)
    requires !StepRow(cfg, st, row, incoming).failed
    ensures var r := StepRow(cfg, st, row, incoming);
      Rooted(cfg, r)
      && Displays(cfg, r, flows + (if Side(row, incoming) == cfg.poi then [] else RowLinks(cfg, row, incoming)))
  {
    if Side(row, incoming) == cfg.poi {
      assert flows + [] == flows;
    } else {
      StepDisplays(cfg, st, row, incoming, flows);
    }
  }

  /** A pass that does not fail draws the flows of its kept rows after the
      ones already drawn. */
  lemma {:induction false} PassDisplays(cfg: Config, st: Inputs, rows: seq<FlowRow>, incoming: bool, flows: seq<Link>)
    requires Consistent(cfg) && Rooted(cfg, st) && Displays(cfg, st, flows)
    requires !Pass(cfg, st, rows, incoming).failed
    ensures Rooted(cfg, Pass(cfg, st, rows, incoming))
    ensures Displays(cfg, Pass(cfg, st, rows, incoming), flows + Flows(cfg, rows, incoming))
  {
    if rows == [] {
      assert flows + Flows(cfg, rows, incoming) == flows;
    } else {
      var init, last := rows[..|rows| - 1], rows[|rows| - 1];
      var mid := Pass(cfg, st, init, incoming);
      assert Pass(cfg, st, rows, incoming) == StepRow(cfg, mid, last, incoming);
      StepGrows(cfg, mid, last, incoming);
      assert !mid.failed;
      PassDisplays(cfg, st, init, incoming, flows);
      assert Displays(cfg, mid, flows + Flows(cfg, init, incoming));
      StepRowDisplays(cfg, mid, last, incoming, flows + Flows(cfg, init, incoming));
      var tail := if Side(last, incoming) == cfg.poi then [] else RowLinks(cfg, last, incoming);
      assert Flows(cfg, rows, incoming) == Flows(cfg, init, incoming) + tail;
      AppendAssoc(flows, Flows(cfg, init, incoming), tail);
    }
  }

  /** A diagram that is built draws the incoming flows and then the outgoing
      ones, with the party of interest as node 0. */
  lemma BuildDisplays(data: seq<FlowRow>, attribute: Option<string>, poi: string)
    requires KnownAttribute(attribute)
    requires !Build(data, attribute, poi).failed
    ensures var cfg := MakeConfig(data, attribute, poi);
      var b := Build(data, attribute, poi);
      && b.labels[0] == poi
      && Displays(cfg, b, Flows(cfg, data, true) + Flows(cfg, data, false))
  {
    var cfg := MakeConfig(data, attribute, poi);
    var st0 := Initial(cfg, |data|);
    var st1 := Pass(cfg, st0, data, true);
    assert Displays(cfg, st0, []);
    PassDisplays(cfg, st0, data, true, []);
    assert [] + Flows(cfg, data, true) == Flows(cfg, data, true);
    PassDisplays(cfg, st1, data, false, Flows(cfg, data, true));
  }

  /** A kept row draws one flow without an attribute and two with one. */
  lemma {:induction false} FlowsCount(cfg: Config, rows: seq<FlowRow>, incoming: bool)
    ensures |Flows(cfg, rows, incoming)| == (if cfg.attribute.None? then 1 else 2) * Processed(cfg, rows, incoming)
  {
    if rows != [] {
      FlowsCount(cfg, rows[..|rows| - 1], incoming);
    }
  }

  // ---- the palette is long enough ----

  /** The set of the entries of `xs`: no more of them than entries. */
  function SetOf(xs: seq<string>): (g: set<string>)
    ensures |g| <= |xs|
    ensures forall k :: 0 <= k < |xs| ==> xs[k] in g
  {
    if xs == [] then {}
    else
      var init := xs[..|xs| - 1];
      var g0 := SetOf(init);
      assert forall k :: 0 <= k < |init| ==> xs[k] == init[k];
      g0 + {xs[|xs| - 1]}
  }

  /** The grouping labels of the values in `s`, for one direction. */
  function LabelsOf(cfg: Config, s: seq<int>, incoming: bool): (g: set<string>)
    ensures |g| <= |s|
    ensures forall k :: 0 <= k < |s| ==> GroupingLabel(cfg, s[k], incoming) in g
  {
    var xs := seq(|s|, i requires 0 <= i < |s| => GroupingLabel(cfg, s[i], incoming));
    assert forall k :: 0 <= k < |s| ==> xs[k] == GroupingLabel(cfg, s[k], incoming);
    SetOf(xs)
  }

  /** Every grouping label the attribute values can produce. */
  function GroupLabels(cfg: Config): (g: set<string>)
    ensures |g| <= 2 * |cfg.attributeRange|
    ensures forall a, incoming :: a in cfg.attributeRange ==> GroupingLabel(cfg, a, incoming) in g
  {
    var gin := LabelsOf(cfg, cfg.attributeRange, true);
    var gout := LabelsOf(cfg, cfg.attributeRange, false);
    assert |gin + gout| <= |gin| + |gout|;
    gin + gout
  }

  lemma {:induction false} SubsetCard(a: set<string>, b: set<string>)
    requires a <= b
    ensures |a| <= |b|
    decreases |b|
  {
    if b != {} {
      var x :| x in b;
      SubsetCard(a - {x}, b - {x});
      if x in a {
        assert a == (a - {x}) + {x};
      } else {
        assert a == a - {x};
      }
    }
  }

  /** Labels beyond the grouping labels among them. */
  function Excess(labels: seq<string>, g: set<string>): int
  {
    |labels| - |Elems(labels) * g|
  }

  /** A label adds at most one to the excess, and none when it is a grouping
      label not there before. */
  lemma ExcessSnoc(labels: seq<string>, x: string, g: set<string>)
    ensures Excess(labels + [x], g) <= Excess(labels, g) + 1
    ensures x in g && x !in labels ==> Excess(labels + [x], g) == Excess(labels, g)
  {
    assert Elems(labels + [x]) == Elems(labels) + {x};
    var before := Elems(labels) * g;
    if x in g && x !in labels {
      assert x !in before;
      assert Elems(labels + [x]) * g == before + {x};
    } else if x in g {
      assert Elems(labels + [x]) * g == before;
    } else {
      assert Elems(labels + [x]) * g == before;
    }
  }

  /** The grouping triple of a row does not fail when the palette has an
      entry for its grouping node. */
  lemma TriplesFit(cfg: Config, s: Inputs, p: string, ts: string, attr: int, count: int, incoming: bool)
    requires p in s.labels && ts in s.labels && !s.failed
    requires IndexOf(s.labels, ts) < |s.nodeColors|
    ensures !Triples(cfg, s, p, ts, attr, count, incoming).failed
  {
  }

  /** A kept row with an attribute finds its grouping index inside a
      palette that has room for one more excess label beside the grouping
      labels, and adds at most one to the excess. */
  lemma StepFits(cfg: Config, st: Inputs, row: FlowRow, incoming: bool)
    requires cfg.attribute.Some? && cfg.poi in st.labels && !st.failed && Side(row, incoming) != cfg.poi
    requires row.attr in cfg.attributeRange
    requires Excess(st.labels, GroupLabels(cfg)) + 1 + |GroupLabels(cfg)| <= |st.nodeColors|
    ensures var r := Step(cfg, st, Side(row, incoming), row.attr, row.count, incoming);
      !r.failed && Excess(r.labels, GroupLabels(cfg)) <= Excess(st.labels, GroupLabels(cfg)) + 1
  {
    var g := GroupLabels(cfg);
    var t := TargetSourceLabels(cfg, st, incoming, Side(row, incoming), row.attr);
    var p, ts := t.1, t.2;
    var l1 := st.labels + [p];
    ExcessSnoc(st.labels, p, g);
    assert ts in g;
    if ts !in l1 {
      ExcessSnoc(l1, ts, g);
    }
    var L := t.0.labels;
    assert Excess(L, g) <= Excess(st.labels, g) + 1;
    SubsetCard(Elems(L) * g, g);
    assert IndexOf(L, ts) < |L| <= |st.nodeColors|;
    assert Step(cfg, st, Side(row, incoming), row.attr, row.count, incoming) == Triples(cfg, t.0, p, ts, row.attr, row.count, incoming);
    TriplesFit(cfg, t.0, p, ts, row.attr, row.count, incoming);
  }

  /** A pass with an attribute keeps every grouping index inside the palette
      as long as the start's excess, the rows it keeps and the grouping labels
      fit in the palette. */
  lemma {:induction false} PassFits(cfg: Config, st: Inputs, rows: seq<FlowRow>, incoming: bool)
    requires cfg.attribute.Some? && cfg.poi in st.labels && !st.failed
    requires forall k :: 0 <= k < |rows| ==> rows[k].attr in cfg.attributeRange
    requires Excess(st.labels, GroupLabels(cfg)) + Processed(cfg, rows, incoming) + |GroupLabels(cfg)| <= |st.nodeColors|
    ensures !Pass(cfg, st, rows, incoming).failed
    ensures Excess(Pass(cfg, st, rows, incoming).labels, GroupLabels(cfg))
      <= Excess(st.labels, GroupLabels(cfg)) + Processed(cfg, rows, incoming)
  {
    if rows != [] {
      var init, last := rows[..|rows| - 1], rows[|rows| - 1];
      PassFits(cfg, st, init, incoming);
      var mid := Pass(cfg, st, init, incoming);
      if Side(last, incoming) != cfg.poi {
        StepFits(cfg, mid, last, incoming);
      }
    }
  }

  lemma {:induction false} PassPlainNeverFails(cfg: Config, st: Inputs, rows: seq<FlowRow>, incoming: bool)
    requires cfg.attribute.None? && cfg.poi in st.labels && !st.failed
    ensures !Pass(cfg, st, rows, incoming).failed
  {
    if rows != [] {
      PassPlainNeverFails(cfg, st, rows[..|rows| - 1], incoming);
    }
  }

  /** When each row has exactly one end at the party of interest, the two
      passes keep `|data|` rows between them. */
  lemma {:induction false} ProcessedSplit(cfg: Config, rows: seq<FlowRow>)
    requires forall k :: 0 <= k < |rows| ==> (rows[k].source == cfg.poi) != (rows[k].target == cfg.poi)
    ensures Processed(cfg, rows, true) + Processed(cfg, rows, false) == |rows|
  {
    if rows != [] {
      ProcessedSplit(cfg, rows[..|rows| - 1]);
    }
  }

  /** The palette `gen_color_palette` sizes from the rows and the attribute
      values always has room for the grouping nodes, so `node_colors[group_index]`
      never raises, when each row has exactly one end at the party of
      interest (the rows `clean_df` leaves for a party of the menu). */
  lemma BuildNeverFails(data: seq<FlowRow>, attribute: Option<string>, poi: string)
    requires KnownAttribute(attribute)
    requires forall k :: 0 <= k < |data| ==> (data[k].source == poi) != (data[k].target == poi)
    ensures !Build(data, attribute, poi).failed
  {
    var cfg := MakeConfig(data, attribute, poi);
    var st0 := Initial(cfg, |data|);
    ProcessedSplit(cfg, data);
    if attribute.None? {
      PassPlainNeverFails(cfg, st0, data, true);
      PassPlainNeverFails(cfg, Pass(cfg, st0, data, true), data, false);
    } else {
      var g := GroupLabels(cfg);
      forall k | 0 <= k < |data| ensures data[k].attr in cfg.attributeRange {
        assert Attrs(data)[k] == data[k].attr;
        assert data[k].attr in Elems(Attrs(data));
      }
      assert Excess(st0.labels, g) <= 1 by {
        assert |st0.labels| == 1;
      }
      PassFits(cfg, st0, data, true);
      var st1 := Pass(cfg, st0, data, true);
      PassFits(cfg, st1, data, false);
    }
  }
}
