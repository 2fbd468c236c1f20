/**
 The interactive simulator: the single step against the live token counts,
 the saved marking and its restore, the Idle/Running flag, and the token
 tool. The step has its own enablement test, which differs from the
 analyser's for inhibitor arcs and for missing positions.
 */
module Simulator {
  import opened Net
  import Firing

  /** The step's test for one input arc: the position must exist; an
      inhibitor arc needs it empty, a normal arc needs `weight` tokens. */
  predicate StepArcHolds(positions: map<PosId, Position>, arc: Arc)
  {
    && arc.positionId in positions
    && ((arc.isInhibitor && positions[arc.positionId].tokens == 0)
        || (!arc.isInhibitor && positions[arc.positionId].tokens >= arc.weight))
  }

  /** The arcs `ids` all pass the step's test, checked left to right. */
  function AllStepHold(positions: map<PosId, Position>, arcs: map<ArcId, Arc>, ids: seq<ArcId>): (r: bool)
    requires Resolves(arcs, ids)
    ensures r <==> forall i :: 0 <= i < |ids| ==> StepArcHolds(positions, arcs[ids[i]])
    decreases |ids|
  {
    if |ids| == 0 then true
    else if !StepArcHolds(positions, arcs[ids[0]]) then false
    else
      var rest := AllStepHold(positions, arcs, ids[1..]);
      assert forall i :: 1 <= i < |ids| ==> ids[i] == ids[1..][i - 1];
      rest
  }

  function StepEnabled(net: Net, t: Transition): bool
    requires Resolves(net.arcs, t.input)
  {
    AllStepHold(net.positions, net.arcs, t.input)
  }

  /** With unit-weight inhibitor arcs, existing positions and non-negative
      counts, the step's test and the analyser's test agree. */
  lemma StepTestAgrees(net: Net, t: Transition)
    requires Resolves(net.arcs, t.input)
    requires forall a :: a in t.input ==> net.arcs[a].positionId in net.positions
    requires forall a :: a in t.input && net.arcs[a].isInhibitor ==> net.arcs[a].weight == 1
    requires NonNegative(CurrentMarking(net))
    ensures StepEnabled(net, t) <==> Firing.Enabled(net.arcs, t, CurrentMarking(net))
  {
    var m := CurrentMarking(net);
    forall i | 0 <= i < |t.input|
      ensures StepArcHolds(net.positions, net.arcs[t.input[i]]) <==> Firing.ArcHolds(net.arcs[t.input[i]], m)
    {
      var arc := net.arcs[t.input[i]];
      assert arc.positionId in net.positions;
      assert TokensIn(m, arc.positionId) == net.positions[arc.positionId].tokens;
    }
  }

  /** The two tests differ otherwise: an inhibitor arc of weight 2 over one
      token passes the analyser's test and fails the step's, and an inhibitor
      arc on a missing position passes only the analyser's. */
  lemma StepTestDiffers()
    ensures var arcs := map["a1" := Arc("p1", 2, true)];
            var t := Transition("t1", "T1", ["a1"], []);
            var net := Net(map["p1" := Position("P1", 1)], [t], arcs);
            Firing.Enabled(arcs, t, CurrentMarking(net)) && !StepEnabled(net, t)
    ensures var arcs := map["a1" := Arc("p9", 1, true)];
            var t := Transition("t1", "T1", ["a1"], []);
            var net := Net(map[], [t], arcs);
            Firing.Enabled(arcs, t, CurrentMarking(net)) && !StepEnabled(net, t)
  {
    var arcs := map["a1" := Arc("p1", 2, true)];
    var t := Transition("t1", "T1", ["a1"], []);
    var net := Net(map["p1" := Position("P1", 1)], [t], arcs);
    assert Firing.ArcHolds(arcs[t.input[0]], CurrentMarking(net));
    var arcs2 := map["a1" := Arc("p9", 1, true)];
    var t2 := Transition("t1", "T1", ["a1"], []);
    var net2 := Net(map[], [t2], arcs2);
    assert Firing.ArcHolds(arcs2[t2.input[0]], CurrentMarking(net2));
  }

  /** Adds `delta` to the live count of `p`, when `p` exists. */
  function AddTokens(positions: map<PosId, Position>, p: PosId, delta: int): (r: map<PosId, Position>)
    ensures r.Keys == positions.Keys
    ensures forall q :: q in r ==> r[q].name == positions[q].name
    ensures forall q :: q in r ==> r[q].tokens == positions[q].tokens + (if q == p then delta else 0)
  {
    if p in positions then positions[p := positions[p].(tokens := positions[p].tokens + delta)] else positions
  }

  /** The step's input pass: each normal arc takes its weight from its live
      position, when that position exists. */
  function StepWithdraw(positions: map<PosId, Position>, arcs: map<ArcId, Arc>, ids: seq<ArcId>): (r: map<PosId, Position>)
    requires Resolves(arcs, ids)
    ensures r.Keys == positions.Keys
    ensures forall q :: q in r ==> r[q].name == positions[q].name
    ensures forall q :: q in r ==> r[q].tokens == positions[q].tokens - Firing.ConsumedOn(arcs, ids, q)
    decreases |ids|
  {
    if |ids| == 0 then positions
    else
      var arc := arcs[ids[0]];
      var next := if !arc.isInhibitor then AddTokens(positions, arc.positionId, -arc.weight) else positions;
      StepWithdraw(next, arcs, ids[1..])
  }

  /** The step's output pass: each arc adds its weight to its live position,
      when that position exists; a missing position is not created. */
  function StepDeposit(positions: map<PosId, Position>, arcs: map<ArcId, Arc>, ids: seq<ArcId>): (r: map<PosId, Position>)
    requires Resolves(arcs, ids)
    ensures r.Keys == positions.Keys
    ensures forall q :: q in r ==> r[q].name == positions[q].name
    ensures forall q :: q in r ==> r[q].tokens == positions[q].tokens + Firing.ProducedOn(arcs, ids, q)
    decreases |ids|
  {
    if |ids| == 0 then positions
    else
      var arc := arcs[ids[0]];
      StepDeposit(AddTokens(positions, arc.positionId, arc.weight), arcs, ids[1..])
  }

  /** Fires `t` against the live positions; nothing but token counts changes. */
  function StepFire(net: Net, t: Transition): (r: Net)
    requires Resolves(net.arcs, t.input) && Resolves(net.arcs, t.output)
    ensures r.transitions == net.transitions && r.arcs == net.arcs
    ensures r.positions.Keys == net.positions.Keys
  {
    net.(positions := StepDeposit(StepWithdraw(net.positions, net.arcs, t.input), net.arcs, t.output))
  }

  /** When every output arc of `t` sits on an existing position, the step's
      firing writes back exactly the marking the analyser's pure firing
      computes from the snapshot. */
  lemma StepFireMatchesFire(net: Net, t: Transition)
    requires Resolves(net.arcs, t.input) && Resolves(net.arcs, t.output)
    requires Firing.Targets(net.arcs, t.output) <= net.positions.Keys
    ensures CurrentMarking(StepFire(net, t)) == Firing.Fire(net.arcs, t, CurrentMarking(net))
  {
    var m := CurrentMarking(net);
    var a := CurrentMarking(StepFire(net, t));
    var b := Firing.Fire(net.arcs, t, m);
    Firing.FireEffect(net.arcs, t, m);
    assert a.Keys == b.Keys;
    forall p | p in a ensures a[p] == b[p] {
      var w := StepWithdraw(net.positions, net.arcs, t.input);
      assert StepFire(net, t).positions == StepDeposit(w, net.arcs, t.output);
    }
  }

  /** The index of the first transition of `ts`, from `from` on, that passes
      the step's test. */
  function FirstStepEnabled(net: Net, ts: seq<Transition>, from: nat): (r: Option<nat>)
    requires forall i :: 0 <= i < |ts| ==> Resolves(net.arcs, ts[i].input)
    requires from <= |ts|
    ensures r.Some? ==> from <= r.value < |ts| && StepEnabled(net, ts[r.value])
                        && forall j :: from <= j < r.value ==> !StepEnabled(net, ts[j])
    ensures r.None? ==> forall j :: from <= j < |ts| ==> !StepEnabled(net, ts[j])
    decreases |ts| - from
  {
    if from == |ts| then None
    else if StepEnabled(net, ts[from]) then Some(from)
    else FirstStepEnabled(net, ts, from + 1)
  }

  /** One simulation step: the first transition, in declaration order, that
      passes the step's test fires against the live marking; when none
      passes, the net is unchanged. */
  function Step(net: Net): (r: Net)
    requires ArcsResolve(net)
    ensures r.transitions == net.transitions && r.arcs == net.arcs
    ensures r.positions.Keys == net.positions.Keys
    ensures (forall i :: 0 <= i < |net.transitions| ==> !StepEnabled(net, net.transitions[i])) ==> r == net
    ensures forall i :: 0 <= i < |net.transitions| && StepEnabled(net, net.transitions[i])
                        && (forall j :: 0 <= j < i ==> !StepEnabled(net, net.transitions[j]))
                        ==> r == StepFire(net, net.transitions[i])
  {
    match FirstStepEnabled(net, net.transitions, 0)
    case None => net
    case Some(k) =>
      assert forall i :: (0 <= i < |net.transitions| && StepEnabled(net, net.transitions[i])
                          && (forall j :: 0 <= j < i ==> !StepEnabled(net, net.transitions[j]))) ==> i == k;
      StepFire(net, net.transitions[k])
  }

  /** A step changes only the counts of positions that the fired transition's
      arcs name. */
  lemma StepFrame(net: Net, i: nat, p: PosId)
    requires ArcsResolve(net)
    requires i < |net.transitions| && StepEnabled(net, net.transitions[i])
    requires forall j :: 0 <= j < i ==> !StepEnabled(net, net.transitions[j])
    requires p in net.positions
    requires p !in Firing.Targets(net.arcs, net.transitions[i].input)
    requires p !in Firing.Targets(net.arcs, net.transitions[i].output)
    ensures Step(net).positions[p] == net.positions[p]
  {
    Firing.ConsumedOffTarget(net.arcs, net.transitions[i].input, p);
    Firing.ProducedOffTarget(net.arcs, net.transitions[i].output, p);
  }

  /** When every transition draws on pairwise distinct positions through its
      normal arcs and has non-negative output weights, a step keeps every
      live count non-negative. */
  lemma StepKeepsNonNegative(net: Net)
    requires ArcsResolve(net)
    requires NonNegative(CurrentMarking(net))
    requires forall i :: 0 <= i < |net.transitions| ==>
      Firing.DistinctSupply(net.arcs, net.transitions[i].input) && Firing.NonNegativeWeights(net.arcs, net.transitions[i].output)
    ensures NonNegative(CurrentMarking(Step(net)))
  {
    var m := CurrentMarking(net);
    match FirstStepEnabled(net, net.transitions, 0)
    case None =>
    case Some(i) =>
      var t := net.transitions[i];
      assert Firing.SupplyCovered(net.arcs, t.input, m) by {
        forall k | 0 <= k < |t.input| && !net.arcs[t.input[k]].isInhibitor
          ensures TokensIn(m, net.arcs[t.input[k]].positionId) >= net.arcs[t.input[k]].weight
        {
          assert StepArcHolds(net.positions, net.arcs[t.input[k]]);
        }
      }
      var r := Step(net);
      forall p | p in r.positions ensures r.positions[p].tokens >= 0 {
        Firing.ConsumptionBounded(net.arcs, t.input, m, p);
        Firing.ProducedNonNegative(net.arcs, t.output, p);
      }
  }

  // ---------------------------------------------------------------------
  // Session: saved marking, restore, run flag

  datatype Mode = Idle | Running

  /** The simulator's state: the live net, the saved marking, and whether
      continuous running is on. */
  datatype Session = Session(net: Net, backup: map<PosId, int>, mode: Mode)

  /** The play button flips the run flag; nothing else changes. */
  function Toggle(s: Session): (r: Session)
    ensures r.net == s.net && r.backup == s.backup
    ensures r.mode != s.mode
  {
    s.(mode := if s.mode == Idle then Running else Idle)
  }

  /** Saving copies every live count into the saved marking, overwriting
      what was saved for those positions and keeping entries for positions
      that no longer exist. */
  function SaveMarking(s: Session): (r: Session)
    ensures r.net == s.net && r.mode == s.mode
    ensures r.backup.Keys == s.backup.Keys + s.net.positions.Keys
    ensures forall p :: p in s.net.positions ==> r.backup[p] == s.net.positions[p].tokens
    ensures forall p :: p in s.backup && p !in s.net.positions ==> r.backup[p] == s.backup[p]
  {
    s.(backup := s.backup + CurrentMarking(s.net))
  }

  /** Restore: only while Idle and only with a non-empty saved marking, every
      live position the saved marking names gets its saved count back; a
      position it does not name keeps its count. */
  function Reset(s: Session): (r: Session)
    ensures r.backup == s.backup && r.mode == s.mode
    ensures r.net.transitions == s.net.transitions && r.net.arcs == s.net.arcs
    ensures r.net.positions.Keys == s.net.positions.Keys
    ensures forall p :: p in r.net.positions ==> r.net.positions[p].name == s.net.positions[p].name
    ensures |s.backup| == 0 || s.mode == Running ==> r == s
    ensures |s.backup| > 0 && s.mode == Idle ==>
      forall p :: p in s.net.positions ==>
        r.net.positions[p].tokens == (if p in s.backup then s.backup[p] else s.net.positions[p].tokens)
  {
    if |s.backup| > 0 && s.mode == Idle then
      var ps := s.net.positions;
      s.(net := s.net.(positions := map p | p in ps ::
           if p in s.backup then ps[p].(tokens := s.backup[p]) else ps[p]))
    else s
  }

  /** Saving and then restoring while Idle brings back every count that was
      saved, whatever happened to the live counts in between, provided no
      position was added. */
  lemma SaveResetRoundTrip(s: Session, edited: Net)
    requires edited.positions.Keys <= s.net.positions.Keys
    ensures var r := Reset(Session(edited, SaveMarking(s).backup, Idle));
            forall p :: p in edited.positions ==> r.net.positions[p].tokens == s.net.positions[p].tokens
  {
    var b := SaveMarking(s).backup;
    if p :| p in edited.positions {
      assert p in b;
    }
  }

  /** The snapshot form of the round trip: with the same positions, the
      restored marking is the saved marking. */
  lemma SaveResetRestoresMarking(s: Session, edited: Net)
    requires edited.positions.Keys == s.net.positions.Keys
    ensures CurrentMarking(Reset(Session(edited, SaveMarking(s).backup, Idle)).net) == CurrentMarking(s.net)
  {
    SaveResetRoundTrip(s, edited);
  }

  // ---------------------------------------------------------------------
  // Token tool

  /** The token tool on position `p`: the left button (0) adds a token; the
      right button (2) removes one, but only from a position holding some. */
  function TokenClick(net: Net, p: PosId, button: int): (r: Net)
    requires p in net.positions
    ensures r.transitions == net.transitions && r.arcs == net.arcs
    ensures r.positions.Keys == net.positions.Keys
    ensures forall q :: q in net.positions && q != p ==> r.positions[q] == net.positions[q]
    ensures r.positions[p].name == net.positions[p].name
    ensures button == 0 ==> r.positions[p].tokens == net.positions[p].tokens + 1
    ensures button == 2 ==> net.positions[p].tokens - 1 <= r.positions[p].tokens <= net.positions[p].tokens
    ensures button == 2 ==> (r.positions[p].tokens == net.positions[p].tokens <==> net.positions[p].tokens <= 0)
    ensures button != 0 && button != 2 ==> r == net
    ensures NonNegative(CurrentMarking(net)) ==> NonNegative(CurrentMarking(r))
  {
    var tokens := net.positions[p].tokens;
    if button == 0 then net.(positions := AddTokens(net.positions, p, 1))
    else if button == 2 && tokens > 0 then net.(positions := AddTokens(net.positions, p, -1))
    else net
  }

  /** Removing a token right after adding one gives back the net, as long
      as the count was not negative. */
  lemma TokenClickRoundTrip(net: Net, p: PosId)
    requires p in net.positions && net.positions[p].tokens >= 0
    ensures TokenClick(TokenClick(net, p, 0), p, 2) == net
  {
    var r := TokenClick(TokenClick(net, p, 0), p, 2);
    assert r.positions == net.positions;
  }
}
