/**
 The firing rule used by the reachability analyser: when a transition is
 enabled in a marking, and the marking it produces when it fires. Both are
 pure: firing returns a fresh marking and leaves its argument as it was.
 */
module Firing {
  import opened Net

  /** One input arc's condition. A normal arc needs at least `weight` tokens
      on its position; an inhibitor arc needs fewer than `weight`. */
  predicate ArcHolds(arc: Arc, m: Marking)
  {
    var tokens := TokensIn(m, arc.positionId);
    (arc.isInhibitor && tokens < arc.weight) || (!arc.isInhibitor && tokens >= arc.weight)
  }

  /** The arcs `ids` all hold, tested left to right as `every` does. */
  function AllHold(arcs: map<ArcId, Arc>, ids: seq<ArcId>, m: Marking): (r: bool)
    requires Resolves(arcs, ids)
    ensures r <==> forall i :: 0 <= i < |ids| ==> ArcHolds(arcs[ids[i]], m)
    decreases |ids|
  {
    if |ids| == 0 then true
    else if !ArcHolds(arcs[ids[0]], m) then false
    else
      var rest := AllHold(arcs, ids[1..], m);
      assert forall i :: 1 <= i < |ids| ==> ids[i] == ids[1..][i - 1];
      rest
  }

  /** A transition is enabled when every input arc holds; one with no input
      arcs is always enabled. */
  function Enabled(arcs: map<ArcId, Arc>, t: Transition, m: Marking): (r: bool)
    requires Resolves(arcs, t.input)
    ensures r <==> forall i :: 0 <= i < |t.input| ==> ArcHolds(arcs[t.input[i]], m)
    ensures |t.input| == 0 ==> r
  {
    AllHold(arcs, t.input, m)
  }

  /** The positions the arcs `ids` sit on. */
  function Targets(arcs: map<ArcId, Arc>, ids: seq<ArcId>): set<PosId>
    requires Resolves(arcs, ids)
  {
    set i | 0 <= i < |ids| :: arcs[ids[i]].positionId
  }

  /** Total weight the normal (non-inhibitor) arcs of `ids` take from `p`. */
  function ConsumedOn(arcs: map<ArcId, Arc>, ids: seq<ArcId>, p: PosId): int
    requires Resolves(arcs, ids)
    decreases |ids|
  {
    if |ids| == 0 then 0
    else
      var arc := arcs[ids[0]];
      (if arc.positionId == p && !arc.isInhibitor then arc.weight else 0) + ConsumedOn(arcs, ids[1..], p)
  }

  /** Total weight the arcs of `ids` put on `p`. */
  function ProducedOn(arcs: map<ArcId, Arc>, ids: seq<ArcId>, p: PosId): int
    requires Resolves(arcs, ids)
    decreases |ids|
  {
    if |ids| == 0 then 0
    else
      var arc := arcs[ids[0]];
      (if arc.positionId == p then arc.weight else 0) + ProducedOn(arcs, ids[1..], p)
  }

  /** The input pass of firing: each normal arc takes its weight from its
      position, but only when the marking names that position. */
  function Withdraw(arcs: map<ArcId, Arc>, ids: seq<ArcId>, m: Marking): (r: Marking)
    requires Resolves(arcs, ids)
    ensures r.Keys == m.Keys
    ensures forall p :: p in r ==> r[p] == m[p] - ConsumedOn(arcs, ids, p)
    decreases |ids|
  {
    if |ids| == 0 then m
    else
      var arc := arcs[ids[0]];
      var p := arc.positionId;
      var m1 := if p in m && !arc.isInhibitor then m[p := m[p] - arc.weight] else m;
      Withdraw(arcs, ids[1..], m1)
  }

  /** The output pass of firing: each arc adds its weight to its position,
      which starts from 0 when the marking does not name it. */
  function Deposit(arcs: map<ArcId, Arc>, ids: seq<ArcId>, m: Marking): (r: Marking)
    requires Resolves(arcs, ids)
    ensures r.Keys == m.Keys + Targets(arcs, ids)
    ensures forall p :: p in r ==> r[p] == TokensIn(m, p) + ProducedOn(arcs, ids, p)
    decreases |ids|
  {
    if |ids| == 0 then m
    else
      var arc := arcs[ids[0]];
      var p := arc.positionId;
      TargetsCons(arcs, ids);
      Deposit(arcs, ids[1..], m[p := TokensIn(m, p) + arc.weight])
  }

  lemma TargetsCons(arcs: map<ArcId, Arc>, ids: seq<ArcId>)
    requires Resolves(arcs, ids) && |ids| > 0
    ensures Targets(arcs, ids) == {arcs[ids[0]].positionId} + Targets(arcs, ids[1..])
  {
    var p := arcs[ids[0]].positionId;
    forall q | q in Targets(arcs, ids) ensures q in {p} + Targets(arcs, ids[1..]) {
      var i :| 0 <= i < |ids| && arcs[ids[i]].positionId == q;
      if i > 0 { assert ids[1..][i - 1] == ids[i]; }
    }
    forall q | q in Targets(arcs, ids[1..]) ensures q in Targets(arcs, ids) {
      var i :| 0 <= i < |ids[1..]| && arcs[ids[1..][i]].positionId == q;
      assert ids[i + 1] == ids[1..][i];
    }
  }

  /** The marking after `t` fires in `m`, as a fresh map. */
  function Fire(arcs: map<ArcId, Arc>, t: Transition, m: Marking): Marking
    requires Resolves(arcs, t.input) && Resolves(arcs, t.output)
  {
    Deposit(arcs, t.output, Withdraw(arcs, t.input, m))
  }

  /** The effect of firing, position by position: a position's new count is
      its old count less what the normal input arcs take (only when the
      marking names it) plus what the output arcs add; the positions of the
      output arcs are added to the marking. */
  lemma FireEffect(arcs: map<ArcId, Arc>, t: Transition, m: Marking)
    requires Resolves(arcs, t.input) && Resolves(arcs, t.output)
    ensures Fire(arcs, t, m).Keys == m.Keys + Targets(arcs, t.output)
    ensures forall p :: p in Fire(arcs, t, m) ==>
      Fire(arcs, t, m)[p] == (if p in m then m[p] - ConsumedOn(arcs, t.input, p) else 0) + ProducedOn(arcs, t.output, p)
  {
  }

  lemma {:induction false} ConsumedOffTarget(arcs: map<ArcId, Arc>, ids: seq<ArcId>, p: PosId)
    requires Resolves(arcs, ids)
    requires p !in Targets(arcs, ids)
    ensures ConsumedOn(arcs, ids, p) == 0
    decreases |ids|
  {
    if |ids| > 0 {
      assert arcs[ids[0]].positionId in Targets(arcs, ids);
      assert Targets(arcs, ids[1..]) <= Targets(arcs, ids) by {
        forall q | q in Targets(arcs, ids[1..]) ensures q in Targets(arcs, ids) {
          var i :| 0 <= i < |ids[1..]| && arcs[ids[1..][i]].positionId == q;
          assert ids[i + 1] == ids[1..][i];
        }
      }
      ConsumedOffTarget(arcs, ids[1..], p);
    }
  }

  lemma {:induction false} ProducedOffTarget(arcs: map<ArcId, Arc>, ids: seq<ArcId>, p: PosId)
    requires Resolves(arcs, ids)
    requires p !in Targets(arcs, ids)
    ensures ProducedOn(arcs, ids, p) == 0
    decreases |ids|
  {
    if |ids| > 0 {
      assert arcs[ids[0]].positionId in Targets(arcs, ids);
      assert Targets(arcs, ids[1..]) <= Targets(arcs, ids) by {
        forall q | q in Targets(arcs, ids[1..]) ensures q in Targets(arcs, ids) {
          var i :| 0 <= i < |ids[1..]| && arcs[ids[1..][i]].positionId == q;
          assert ids[i + 1] == ids[1..][i];
        }
      }
      ProducedOffTarget(arcs, ids[1..], p);
    }
  }

  /** Firing leaves every position that none of the transition's arcs names
      exactly as it was, present or absent. */
  lemma FireFrame(arcs: map<ArcId, Arc>, t: Transition, m: Marking, p: PosId)
    requires Resolves(arcs, t.input) && Resolves(arcs, t.output)
    requires p !in Targets(arcs, t.input) && p !in Targets(arcs, t.output)
    ensures p in Fire(arcs, t, m) <==> p in m
    ensures p in m ==> Fire(arcs, t, m)[p] == m[p]
  {
    ConsumedOffTarget(arcs, t.input, p);
    ProducedOffTarget(arcs, t.output, p);
  }

  /** Every normal arc of `ids` finds at least its weight on its position. */
  predicate SupplyCovered(arcs: map<ArcId, Arc>, ids: seq<ArcId>, m: Marking)
    requires Resolves(arcs, ids)
  {
    forall i :: 0 <= i < |ids| && !arcs[ids[i]].isInhibitor ==>
      TokensIn(m, arcs[ids[i]].positionId) >= arcs[ids[i]].weight
  }

  /** No two normal arcs of `ids` draw on the same position. */
  predicate DistinctSupply(arcs: map<ArcId, Arc>, ids: seq<ArcId>)
    requires Resolves(arcs, ids)
  {
    forall i, j :: 0 <= i < j < |ids| && !arcs[ids[i]].isInhibitor && !arcs[ids[j]].isInhibitor ==>
      arcs[ids[i]].positionId != arcs[ids[j]].positionId
  }

  predicate NonNegativeWeights(arcs: map<ArcId, Arc>, ids: seq<ArcId>)
    requires Resolves(arcs, ids)
  {
    forall i :: 0 <= i < |ids| ==> arcs[ids[i]].weight >= 0
  }

  lemma EnabledCoversSupply(arcs: map<ArcId, Arc>, t: Transition, m: Marking)
    requires Resolves(arcs, t.input)
    requires Enabled(arcs, t, m)
    ensures SupplyCovered(arcs, t.input, m)
  {
    forall i | 0 <= i < |t.input| && !arcs[t.input[i]].isInhibitor
      ensures TokensIn(m, arcs[t.input[i]].positionId) >= arcs[t.input[i]].weight
    {
      assert ArcHolds(arcs[t.input[i]], m);
    }
  }

  /** With at most one normal arc per position, the normal arcs never take
      more from a position than the check found there. */
  lemma {:induction false} ConsumptionBounded(arcs: map<ArcId, Arc>, ids: seq<ArcId>, m: Marking, p: PosId)
    requires Resolves(arcs, ids)
    requires NonNegative(m)
    requires SupplyCovered(arcs, ids, m) && DistinctSupply(arcs, ids)
    ensures ConsumedOn(arcs, ids, p) <= TokensIn(m, p)
    decreases |ids|
  {
    if |ids| > 0 {
      var rest := ids[1..];
      assert forall i :: 0 <= i < |rest| ==> rest[i] == ids[i + 1];
      var arc := arcs[ids[0]];
      assert ConsumedOn(arcs, ids, p) == (if arc.positionId == p && !arc.isInhibitor then arc.weight else 0) + ConsumedOn(arcs, rest, p);
      if arc.positionId == p && !arc.isInhibitor {
        NoOtherSupply(arcs, ids, p);
        assert TokensIn(m, p) >= arc.weight;
      } else {
        assert SupplyCovered(arcs, rest, m) && DistinctSupply(arcs, rest);
        ConsumptionBounded(arcs, rest, m, p);
      }
    }
  }

  /** When the first arc of `ids` is a normal arc on `p`, distinctness leaves
      nothing else to take from `p`. */
  lemma {:induction false} NoOtherSupply(arcs: map<ArcId, Arc>, ids: seq<ArcId>, p: PosId)
    requires Resolves(arcs, ids) && |ids| > 0
    requires DistinctSupply(arcs, ids)
    requires arcs[ids[0]].positionId == p && !arcs[ids[0]].isInhibitor
    ensures ConsumedOn(arcs, ids[1..], p) == 0
  {
    var rest := ids[1..];
    assert forall i :: 0 <= i < |rest| ==> rest[i] == ids[i + 1];
    NoSupplyOn(arcs, rest, p);
  }

  lemma {:induction false} NoSupplyOn(arcs: map<ArcId, Arc>, ids: seq<ArcId>, p: PosId)
    requires Resolves(arcs, ids)
    requires forall i :: 0 <= i < |ids| && !arcs[ids[i]].isInhibitor ==> arcs[ids[i]].positionId != p
    ensures ConsumedOn(arcs, ids, p) == 0
    decreases |ids|
  {
    if |ids| > 0 {
      var rest := ids[1..];
      assert forall i :: 0 <= i < |rest| ==> rest[i] == ids[i + 1];
      NoSupplyOn(arcs, rest, p);
    }
  }

  lemma {:induction false} ProducedNonNegative(arcs: map<ArcId, Arc>, ids: seq<ArcId>, p: PosId)
    requires Resolves(arcs, ids) && NonNegativeWeights(arcs, ids)
    ensures ProducedOn(arcs, ids, p) >= 0
    decreases |ids|
  {
    if |ids| > 0 {
      var rest := ids[1..];
      assert forall i :: 0 <= i < |rest| ==> rest[i] == ids[i + 1];
      ProducedNonNegative(arcs, rest, p);
    }
  }

  /** Firing a transition whose normal input arcs are covered and sit on
      pairwise distinct positions never drives a count below zero. */
  lemma FireKeepsNonNegative(arcs: map<ArcId, Arc>, t: Transition, m: Marking)
    requires Resolves(arcs, t.input) && Resolves(arcs, t.output)
    requires NonNegative(m)
    requires SupplyCovered(arcs, t.input, m)
    requires DistinctSupply(arcs, t.input)
    requires NonNegativeWeights(arcs, t.output)
    ensures NonNegative(Fire(arcs, t, m))
  {
    var r := Fire(arcs, t, m);
    forall p | p in r ensures r[p] >= 0 {
      ConsumptionBounded(arcs, t.input, m, p);
      ProducedNonNegative(arcs, t.output, p);
    }
  }

  /** An enabled transition with pairwise distinct supply positions keeps a
      non-negative marking non-negative. */
  lemma EnabledFireKeepsNonNegative(arcs: map<ArcId, Arc>, t: Transition, m: Marking)
    requires Resolves(arcs, t.input) && Resolves(arcs, t.output)
    requires NonNegative(m) && Enabled(arcs, t, m)
    requires DistinctSupply(arcs, t.input) && NonNegativeWeights(arcs, t.output)
    ensures NonNegative(Fire(arcs, t, m))
  {
    EnabledCoversSupply(arcs, t, m);
    FireKeepsNonNegative(arcs, t, m);
  }

  /** Without distinct supply positions the per-arc check overdraws: two
      weight-1 arcs on a position holding one token both pass, and firing
      leaves -1 there. */
  lemma OverdrawWithSharedSupply()
    ensures var arcs := map["a1" := Arc("p1", 1, false), "a2" := Arc("p1", 1, false)];
            var t := Transition("t1", "T1", ["a1", "a2"], []);
            var m := map["p1" := 1];
            Enabled(arcs, t, m) && !NonNegative(Fire(arcs, t, m))
  {
    var arcs := map["a1" := Arc("p1", 1, false), "a2" := Arc("p1", 1, false)];
    var t := Transition("t1", "T1", ["a1", "a2"], []);
    var m := map["p1" := 1];
    assert ArcHolds(arcs[t.input[0]], m) && ArcHolds(arcs[t.input[1]], m);
    assert Fire(arcs, t, m)["p1"] == -1;
  }
}
