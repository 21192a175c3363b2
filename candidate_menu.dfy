/** The index columns of the candidate menu
    (`update_candidate_menu`, peru_party_switchers/code/vis/nodes_coordinates.py:102-126). */
module CandidateMenu {
  import opened Ordering

  /** A row of the `candidates` query. */
  datatype Candidate = Candidate(nombres: string, apePat: string, apeMat: string, elecDist: string, pName: string)

  /** A row of `candidate_menu`: the query row and the four derived columns. */
  datatype MenuRow = MenuRow(cand: Candidate, name: string, distId: nat, partyId: nat, candId: nat)

  /** `nombres + ' ' + ape_pat + ' ' + ape_mat`. */
  function FullName(c: Candidate): string
  {
    c.nombres + " " + c.apePat + " " + c.apeMat
  }

  function Districts(cs: seq<Candidate>): (ds: seq<string>)
    ensures |ds| == |cs| && forall i :: 0 <= i < |cs| ==> ds[i] == cs[i].elecDist
  {
    seq(|cs|, i requires 0 <= i < |cs| => cs[i].elecDist)
  }

  /** `rank(method='dense') - 1` of a district among all districts. */
  function DistId(all: seq<string>, d: string): nat
  {
    Rank(all, StrLt, d)
  }

  /** `df.loc[df.dist_id > 0]`, each kept row with its `dist_id`, which was
      ranked over all rows before the filter. */
  function Kept(cs: seq<Candidate>, all: seq<string>): (ks: seq<(Candidate, nat)>)
    ensures |ks| <= |cs|
    ensures forall i :: 0 <= i < |ks| ==> ks[i].0 in cs && ks[i].1 == DistId(all, ks[i].0.elecDist) && ks[i].1 > 0
  {
    if cs == [] then []
    else
      var d := DistId(all, cs[0].elecDist);
      (if d > 0 then [(cs[0], d)] else []) + Kept(cs[1..], all)
  }

  /** Every row whose district is not the lowest is kept. */
  lemma {:induction false} KeptCovers(cs: seq<Candidate>, all: seq<string>, k: nat)
    requires k < |cs| && DistId(all, cs[k].elecDist) > 0
    ensures exists i :: 0 <= i < |Kept(cs, all)| && Kept(cs, all)[i].0 == cs[k]
  {
    var d := DistId(all, cs[0].elecDist);
    var head: seq<(Candidate, nat)> := if d > 0 then [(cs[0], d)] else [];
    var rest := Kept(cs[1..], all);
    assert Kept(cs, all) == head + rest;
    if k == 0 {
      assert Kept(cs, all)[0].0 == cs[0];
    } else {
      KeptCovers(cs[1..], all, k - 1);
      var i :| 0 <= i < |rest| && rest[i].0 == cs[1..][k - 1];
      AfterHead(head, rest, i);
    }
  }

  lemma AfterHead(head: seq<(Candidate, nat)>, rest: seq<(Candidate, nat)>, i: nat)
    requires i < |rest|
    ensures |head| + i < |head + rest| && (head + rest)[|head| + i] == rest[i]
  {
  }

  /** A row is dropped exactly when its district is the lowest one. */
  lemma DroppedIffLowest(all: seq<string>, d: string)
    ensures DistId(all, d) == 0 <==> forall x :: x in all ==> !StrLt(x, d)
  {
    RankZero(all, StrLt, d);
  }

  function KeptParties(ks: seq<(Candidate, nat)>): (ps: seq<string>)
    ensures |ps| == |ks| && forall i :: 0 <= i < |ks| ==> ps[i] == ks[i].0.pName
  {
    seq(|ks|, i requires 0 <= i < |ks| => ks[i].0.pName)
  }

  /** `(dist_id, party_id)`, the pair that the string `groups` spells out. */
  function Groups(ks: seq<(Candidate, nat)>): (gs: seq<(nat, nat)>)
    ensures |gs| == |ks|
    ensures forall i :: 0 <= i < |ks| ==>
      gs[i] == (ks[i].1, Rank(KeptParties(ks), StrLt, ks[i].0.pName) + 1)
  {
    var ps := KeptParties(ks);
    seq(|ks|, i requires 0 <= i < |ks| => (ks[i].1, Rank(ps, StrLt, ks[i].0.pName) + 1))
  }

  /** `update_candidate_menu`: the table it uploads. */
  function Menu(cs: seq<Candidate>): seq<MenuRow>
  {
    MenuOf(Kept(cs, Districts(cs)))
  }

  /** The menu rows of the kept rows: full name, group and `cand_id`. */
  function MenuOf(ks: seq<(Candidate, nat)>): seq<MenuRow>
  {
    var gs := Groups(ks);
    seq(|ks|, i requires 0 <= i < |ks| =>
      MenuRow(ks[i].0, FullName(ks[i].0), gs[i].0, gs[i].1, CumCount(gs, i) + 1))
  }

  /** Row `i` of the menu, column by column. */
  lemma MenuAt(ks: seq<(Candidate, nat)>, i: nat)
    requires i < |ks|
    ensures var gs := Groups(ks);
      && |MenuOf(ks)| == |ks| && gs[i] == (ks[i].1, Rank(KeptParties(ks), StrLt, ks[i].0.pName) + 1)
      && MenuOf(ks)[i] == MenuRow(ks[i].0, FullName(ks[i].0), gs[i].0, gs[i].1, CumCount(gs, i) + 1)
  {
  }

  // ---- properties ----

  /** Each menu row is a query row of a district other than the lowest, with
      its full name and its district's dense rank; every such query row is in
      the menu. */
  lemma MenuRows(cs: seq<Candidate>)
    ensures forall i :: 0 <= i < |Menu(cs)| ==>
      var m := Menu(cs)[i];
      && m.cand in cs
      && m.name == m.cand.nombres + " " + m.cand.apePat + " " + m.cand.apeMat
      && m.distId == Rank(Districts(cs), StrLt, m.cand.elecDist)
      && m.distId >= 1
    ensures forall k :: 0 <= k < |cs| && DistId(Districts(cs), cs[k].elecDist) > 0 ==>
      exists i :: 0 <= i < |Menu(cs)| && Menu(cs)[i].cand == cs[k]
  {
    var ks := Kept(cs, Districts(cs));
    forall k | 0 <= k < |cs| && DistId(Districts(cs), cs[k].elecDist) > 0
      ensures exists i :: 0 <= i < |Menu(cs)| && Menu(cs)[i].cand == cs[k]
    {
      KeptCovers(cs, Districts(cs), k);
      var i :| 0 <= i < |ks| && ks[i].0 == cs[k];
      assert Menu(cs)[i].cand == cs[k];
    }
  }

  /** `party_id` is the 1-based dense rank of the party among the kept rows:
      equal ids exactly for equal parties, ids in name order, and every id
      from 1 to the number of kept parties in use. */
  lemma PartyIds(cs: seq<Candidate>, i: nat, j: nat)
    requires i < |Menu(cs)| && j < |Menu(cs)|
    ensures var m := Menu(cs); var ps := KeptParties(Kept(cs, Districts(cs)));
      && 1 <= m[i].partyId <= |Elems(ps)|
      && (m[i].partyId == m[j].partyId <==> m[i].cand.pName == m[j].cand.pName)
      && (m[i].partyId < m[j].partyId <==> StrLt(m[i].cand.pName, m[j].cand.pName))
  {
    var ks := Kept(cs, Districts(cs));
    var ps := KeptParties(ks);
    StrLtIsStrictTotalOrder();
    assert ps[i] == ks[i].0.pName && ps[j] == ks[j].0.pName;
    RankOrder(ps, StrLt, ps[i], ps[j]);
    RankDense(ps, StrLt);
  }

  /** Every party id from 1 to the number of parties is used by some of the
      menu rows of `ks`. */
  lemma PartyIdsOntoOf(ks: seq<(Candidate, nat)>, p: nat)
    requires 1 <= p <= |Elems(KeptParties(ks))|
    ensures exists i :: 0 <= i < |MenuOf(ks)| && MenuOf(ks)[i].partyId == p
  {
    var ps := KeptParties(ks);
    StrLtIsStrictTotalOrder();
    RankDense(ps, StrLt);
    assert p - 1 in Ranks(ps, StrLt);
    var v :| v in ps && Rank(ps, StrLt, v) == p - 1;
    var i :| 0 <= i < |ps| && ps[i] == v;
    MenuAt(ks, i);
    assert ks[i].0.pName == v;
  }

  lemma PartyIdsOnto(cs: seq<Candidate>, p: nat)
    requires 1 <= p <= |Elems(KeptParties(Kept(cs, Districts(cs))))|
    ensures exists i :: 0 <= i < |Menu(cs)| && Menu(cs)[i].partyId == p
  {
    var ks := Kept(cs, Districts(cs));
    PartyIdsOntoOf(ks, p);
    var i :| 0 <= i < |MenuOf(ks)| && MenuOf(ks)[i].partyId == p;
    assert Menu(cs)[i] == MenuOf(ks)[i];
  }

  /** `cand_id` numbers the rows of each (district, party) group 1, 2, ...
      in row order, so the triple tells menu rows apart. */
  lemma CandIds(cs: seq<Candidate>, i: nat, j: nat)
    requires i < j < |Menu(cs)|
    ensures var m := Menu(cs);
      && m[i].candId >= 1
      && (m[i].distId, m[i].partyId, m[i].candId) != (m[j].distId, m[j].partyId, m[j].candId)
      && (m[i].distId == m[j].distId && m[i].partyId == m[j].partyId ==> m[i].candId < m[j].candId)
  {
    var gs := Groups(Kept(cs, Districts(cs)));
    if gs[i] == gs[j] {
      CumCountIncreasing(gs, i, j);
    }
  }

  /** A group of `k` rows uses exactly the ids `1 .. k`. */
  lemma CandIdsOntoOf(ks: seq<(Candidate, nat)>, i: nat, n: nat)
    requires i < |ks|
    requires 1 <= n <= Count(Groups(ks), Groups(ks)[i])
    ensures exists j :: 0 <= j < |MenuOf(ks)| && MenuOf(ks)[j].distId == MenuOf(ks)[i].distId && MenuOf(ks)[j].partyId == MenuOf(ks)[i].partyId && MenuOf(ks)[j].candId == n
  {
    var gs := Groups(ks);
    CumCountOnto(gs, gs[i], n - 1);
    var j :| 0 <= j < |gs| && gs[j] == gs[i] && CumCount(gs, j) == n - 1;
    MenuAt(ks, i);
    MenuAt(ks, j);
  }

  lemma CandIdsOnto(cs: seq<Candidate>, i: nat, n: nat)
    requires i < |Menu(cs)|
    requires 1 <= n <= Count(Groups(Kept(cs, Districts(cs))), Groups(Kept(cs, Districts(cs)))[i])
    ensures exists j :: 0 <= j < |Menu(cs)| && Menu(cs)[j].distId == Menu(cs)[i].distId && Menu(cs)[j].partyId == Menu(cs)[i].partyId && Menu(cs)[j].candId == n
  {
    CandIdsOntoOf(Kept(cs, Districts(cs)), i, n);
  }

  lemma CandIdBound(cs: seq<Candidate>, i: nat)
    requires i < |Menu(cs)|
    ensures Menu(cs)[i].candId <= Count(Groups(Kept(cs, Districts(cs))), Groups(Kept(cs, Districts(cs)))[i])
  {
    CumCountBound(Groups(Kept(cs, Districts(cs))), i);
  }
}
