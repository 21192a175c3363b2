/** The affiliation-event stream (`raw_edges` and `append_edges`,
    peru_party_switchers/code/sql/db_config.py:162-204). */
module RawEdges {
  import opened Wrappers
  import opened Ordering

  /** The year the scrape treats as the present. */
  const ObservationYear: int := 2020

  datatype EventType = Current | Party | Position | Resignation

  /** A candidate and the organization they run for now. */
  datatype CandidateRec = CandidateRec(idHdv: string, orgPol: string)

  /** A past party membership. */
  datatype PartyRec = PartyRec(idHdv: string, partyMemb: string, partyStart: Option<int>, partyEnd: Option<int>)

  /** A previously held elected position and the organization it was held for. */
  datatype PositionRec = PositionRec(idHdv: string, prevOrgPol: string, prevStart: Option<int>, prevEnd: Option<int>)

  /** A resignation from an organization. */
  datatype ResignRec = ResignRec(idHdv: string, resign: string, resignYear: Option<int>)

  /** One row of the `edges` table: the columns after renaming, the type
      tag and the per-candidate counter `edge_rec`. */
  datatype RawEdge = RawEdge(
    idHdv: string, orgPol: string, begin: Option<int>, end: Option<int>,
    kind: EventType, edgeRec: nat)

  // ---- the four renamings ----

  function FromCandidate(c: CandidateRec): RawEdge
  {
    RawEdge(c.idHdv, c.orgPol, None, Some(ObservationYear), Current, 0)
  }

  function FromParty(p: PartyRec): RawEdge
  {
    RawEdge(p.idHdv, p.partyMemb, p.partyStart, p.partyEnd, Party, 0)
  }

  function FromPosition(q: PositionRec): RawEdge
  {
    RawEdge(q.idHdv, q.prevOrgPol, q.prevStart, q.prevEnd, Position, 0)
  }

  /** `begin` is a copy of `resign_year`, which is also renamed to `end`. */
  function FromResign(r: ResignRec): RawEdge
  {
    RawEdge(r.idHdv, r.resign, r.resignYear, r.resignYear, Resignation, 0)
  }

  /** The concatenated stream, current rows first, before `edge_rec`. */
  function Stream(cs: seq<CandidateRec>, ps: seq<PartyRec>, qs: seq<PositionRec>, rs: seq<ResignRec>): seq<RawEdge>
  {
    seq(|cs|, i requires 0 <= i < |cs| => FromCandidate(cs[i]))
    + seq(|ps|, i requires 0 <= i < |ps| => FromParty(ps[i]))
    + seq(|qs|, i requires 0 <= i < |qs| => FromPosition(qs[i]))
    + seq(|rs|, i requires 0 <= i < |rs| => FromResign(rs[i]))
  }

  function Ids(es: seq<RawEdge>): (ids: seq<string>)
    ensures |ids| == |es| && forall i :: 0 <= i < |es| ==> ids[i] == es[i].idHdv
  {
    seq(|es|, i requires 0 <= i < |es| => es[i].idHdv)
  }

  /** The rows with `edge_rec = cumcount + 1` per candidate. */
  function Numbered(s: seq<RawEdge>): seq<RawEdge>
  {
    seq(|s|, i requires 0 <= i < |s| => s[i].(edgeRec := CumCount(Ids(s), i) + 1))
  }

  /** The `edges` table. */
  function RawEdgesTable(cs: seq<CandidateRec>, ps: seq<PartyRec>, qs: seq<PositionRec>, rs: seq<ResignRec>): seq<RawEdge>
  {
    Numbered(Stream(cs, ps, qs, rs))
  }

  /** `append_edges`: the renamed and tagged rows of one source table go
      after the rows collected so far. */
  function AppendEdges(edges: seq<RawEdge>, temp: seq<RawEdge>): seq<RawEdge>
  {
    edges + temp
  }

  /** `groupby('id_hdv').cumcount() + 1` computed in one pass with a running
      count per candidate. */
  method NumberRows(s: seq<RawEdge>) returns (edges: seq<RawEdge>)
    ensures edges == Numbered(s)
  {
    edges := [];
    var counts: map<string, nat> := map[];
    ghost var ids := Ids(s);
    for i := 0 to |s|
      invariant NumberedUpTo(s, ids, edges, i)
      invariant CountsAgree(ids, i, counts)
    {
      var id := s[i].idHdv;
      var c := if id in counts then counts[id] else 0;
      NumberStep(s, ids, edges, counts, i);
      edges := edges + [s[i].(edgeRec := c + 1)];
      counts := counts[id := c + 1];
    }
  }

  /** The first `i` rows of `edges` are those of `s` with their counter. */
  ghost predicate NumberedUpTo(s: seq<RawEdge>, ids: seq<string>, edges: seq<RawEdge>, i: nat)
  {
    && i <= |s| && ids == Ids(s) && |edges| == i
    && forall k :: 0 <= k < i ==> edges[k] == s[k].(edgeRec := CumCount(ids, k) + 1)
  }

  /** `counts` holds how often each key occurs among the first `i`. */
  ghost predicate CountsAgree(ids: seq<string>, i: nat, counts: map<string, nat>)
    requires i <= |ids|
  {
    forall x :: Count(ids[..i], x) == if x in counts then counts[x] else 0
  }

  /** One row of the pass keeps both invariants. */
  lemma NumberStep(s: seq<RawEdge>, ids: seq<string>, edges: seq<RawEdge>, counts: map<string, nat>, i: nat)
    requires i < |s| && NumberedUpTo(s, ids, edges, i) && CountsAgree(ids, i, counts)
    ensures var c := if s[i].idHdv in counts then counts[s[i].idHdv] else 0;
      && NumberedUpTo(s, ids, edges + [s[i].(edgeRec := c + 1)], i + 1)
      && CountsAgree(ids, i + 1, counts[s[i].idHdv := c + 1])
  {
    var c := if s[i].idHdv in counts then counts[s[i].idHdv] else 0;
    CountsStep(ids, i, counts);
    var e := s[i].(edgeRec := c + 1);
    forall k | 0 <= k < i + 1 ensures (edges + [e])[k] == s[k].(edgeRec := CumCount(ids, k) + 1) {
      if k < i {
        assert (edges + [e])[k] == edges[k];
      }
    }
  }

  /** One step of the running count: the count of the key so far is its
      `cumcount`, and adding one to it counts the next prefix. */
  lemma CountsStep(ids: seq<string>, i: nat, counts: map<string, nat>)
    requires i < |ids|
    requires CountsAgree(ids, i, counts)
    ensures var c := if ids[i] in counts then counts[ids[i]] else 0;
      && c == CumCount(ids, i)
      && CountsAgree(ids, i + 1, counts[ids[i] := c + 1])
  {
    CountSnoc(ids, i);
  }

  lemma CountSnoc<T>(keys: seq<T>, i: nat)
    requires i < |keys|
    ensures forall x :: Count(keys[..i + 1], x) == Count(keys[..i], x) + (if x == keys[i] then 1 else 0)
  {
    assert keys[..i + 1][..i] == keys[..i];
  }

  /** `raw_edges`: the current rows, then three appends, then the counter. */
  method BuildRawEdges(cs: seq<CandidateRec>, ps: seq<PartyRec>, qs: seq<PositionRec>, rs: seq<ResignRec>)
    returns (edges: seq<RawEdge>)
    ensures edges == RawEdgesTable(cs, ps, qs, rs)
  {
    edges := seq(|cs|, i requires 0 <= i < |cs| => FromCandidate(cs[i]));
    edges := AppendEdges(edges, seq(|ps|, i requires 0 <= i < |ps| => FromParty(ps[i])));
    edges := AppendEdges(edges, seq(|qs|, i requires 0 <= i < |qs| => FromPosition(qs[i])));
    edges := AppendEdges(edges, seq(|rs|, i requires 0 <= i < |rs| => FromResign(rs[i])));
    edges := NumberRows(edges);
  }

  // ---- properties of the table ----

  lemma NumberedKeeps(s: seq<RawEdge>, i: nat)
    requires i < |s|
    ensures |Numbered(s)| == |s|
    ensures Numbered(s)[i].(edgeRec := 0) == s[i].(edgeRec := 0)
  {
  }

  /** The table has one row per source record. */
  lemma RawEdgesCount(cs: seq<CandidateRec>, ps: seq<PartyRec>, qs: seq<PositionRec>, rs: seq<ResignRec>)
    ensures |RawEdgesTable(cs, ps, qs, rs)| == |cs| + |ps| + |qs| + |rs|
  {
  }

  /** The first rows are the current affiliations: no begin, end in the observation year. */
  lemma CurrentRows(cs: seq<CandidateRec>, ps: seq<PartyRec>, qs: seq<PositionRec>, rs: seq<ResignRec>, i: nat)
    requires i < |cs|
    ensures var e := RawEdgesTable(cs, ps, qs, rs)[i];
      e.kind == Current && e.idHdv == cs[i].idHdv && e.orgPol == cs[i].orgPol
      && e.begin == None && e.end == Some(ObservationYear)
  {
    NumberedKeeps(Stream(cs, ps, qs, rs), i);
  }

  /** Then the party memberships with their own start and end. */
  lemma PartyRows(cs: seq<CandidateRec>, ps: seq<PartyRec>, qs: seq<PositionRec>, rs: seq<ResignRec>, i: nat)
    requires i < |ps|
    ensures var e := RawEdgesTable(cs, ps, qs, rs)[|cs| + i];
      e.kind == Party && e.idHdv == ps[i].idHdv && e.orgPol == ps[i].partyMemb
      && e.begin == ps[i].partyStart && e.end == ps[i].partyEnd
  {
    NumberedKeeps(Stream(cs, ps, qs, rs), |cs| + i);
  }

  /** Then the previous positions with the organization they were held for. */
  lemma PositionRows(cs: seq<CandidateRec>, ps: seq<PartyRec>, qs: seq<PositionRec>, rs: seq<ResignRec>, i: nat)
    requires i < |qs|
    ensures var e := RawEdgesTable(cs, ps, qs, rs)[|cs| + |ps| + i];
      e.kind == Position && e.idHdv == qs[i].idHdv && e.orgPol == qs[i].prevOrgPol
      && e.begin == qs[i].prevStart && e.end == qs[i].prevEnd
  {
    NumberedKeeps(Stream(cs, ps, qs, rs), |cs| + |ps| + i);
  }

  /** Last the resignations, which begin and end in the resignation year. */
  lemma ResignationRows(cs: seq<CandidateRec>, ps: seq<PartyRec>, qs: seq<PositionRec>, rs: seq<ResignRec>, i: nat)
    requires i < |rs|
    ensures var e := RawEdgesTable(cs, ps, qs, rs)[|cs| + |ps| + |qs| + i];
      e.kind == Resignation && e.idHdv == rs[i].idHdv && e.orgPol == rs[i].resign
      && e.begin == rs[i].resignYear && e.end == rs[i].resignYear
  {
    NumberedKeeps(Stream(cs, ps, qs, rs), |cs| + |ps| + |qs| + i);
  }

  lemma IdsOfNumbered(s: seq<RawEdge>)
    ensures Ids(Numbered(s)) == Ids(s)
  {
  }

  lemma EdgeRecInRange(s: seq<RawEdge>)
    ensures var t := Numbered(s);
      forall i :: 0 <= i < |t| ==> 1 <= t[i].edgeRec <= Count(Ids(t), t[i].idHdv)
  {
    IdsOfNumbered(s);
    forall i | 0 <= i < |s| ensures CumCount(Ids(s), i) < Count(Ids(s), s[i].idHdv) {
      CumCountBound(Ids(s), i);
    }
  }

  lemma EdgeRecIncreasing(s: seq<RawEdge>)
    ensures var t := Numbered(s);
      forall i, j :: 0 <= i < j < |t| && t[i].idHdv == t[j].idHdv ==> t[i].edgeRec < t[j].edgeRec
  {
    forall i, j | 0 <= i < j < |s| && s[i].idHdv == s[j].idHdv
      ensures CumCount(Ids(s), i) < CumCount(Ids(s), j)
    {
      CumCountIncreasing(Ids(s), i, j);
    }
  }

  /** The `edge_rec` values of one candidate's rows. */
  function RecsOf(t: seq<RawEdge>, c: string): set<nat>
  {
    set i | 0 <= i < |t| && t[i].idHdv == c :: t[i].edgeRec
  }

  /** The counter values `1 .. k`. */
  function OneTo(k: nat): (r: set<nat>)
    ensures forall x :: x in r <==> 1 <= x <= k
  {
    if k == 0 then {} else OneTo(k - 1) + {k}
  }

  lemma EdgeRecOnto(s: seq<RawEdge>, c: string)
    ensures RecsOf(Numbered(s), c) == OneTo(Count(Ids(Numbered(s)), c))
  {
    var t := Numbered(s);
    var ids := Ids(s);
    IdsOfNumbered(s);
    forall r | r in OneTo(Count(ids, c)) ensures r in RecsOf(t, c) {
      CumCountOnto(ids, c, r - 1);
      var i :| 0 <= i < |ids| && ids[i] == c && CumCount(ids, i) == r - 1;
      assert t[i].idHdv == c && t[i].edgeRec == r;
    }
    forall r | r in RecsOf(t, c) ensures r in OneTo(Count(ids, c)) {
      var i :| 0 <= i < |t| && t[i].idHdv == c && t[i].edgeRec == r;
      CumCountBound(ids, i);
    }
  }

  /** `edge_rec` numbers each candidate's rows `1 .. k`, where `k` is the
      number of rows of that candidate: every value is in range, later rows
      of one candidate get larger values, and every value in range is used. */
  lemma EdgeRecNumbering(cs: seq<CandidateRec>, ps: seq<PartyRec>, qs: seq<PositionRec>, rs: seq<ResignRec>)
    ensures var t := RawEdgesTable(cs, ps, qs, rs);
      && (forall i :: 0 <= i < |t| ==> 1 <= t[i].edgeRec <= Count(Ids(t), t[i].idHdv))
      && (forall i, j :: 0 <= i < j < |t| && t[i].idHdv == t[j].idHdv ==> t[i].edgeRec < t[j].edgeRec)
      && (forall c :: RecsOf(t, c) == OneTo(Count(Ids(t), c)))
  {
    var s := Stream(cs, ps, qs, rs);
    EdgeRecInRange(s);
    EdgeRecIncreasing(s);
    forall c ensures RecsOf(Numbered(s), c) == OneTo(Count(Ids(Numbered(s)), c)) {
      EdgeRecOnto(s, c);
    }
  }
}
