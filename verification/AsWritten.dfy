/**
 Two operations as the page's code performs them, kept beside the corrected
 definitions the rest of the model uses.

 The analyser: firing a transition in a marking changes that marking in
 place and returns it, so every entry the search pushes is the one marking
 object built for the start. The search therefore works on a single shared
 marking: each pending entry visits whatever that marking holds when the
 entry comes up, and testing the transitions of one visited marking fires
 each enabled one in turn on the same object.

 Resetting: every position takes the saved count of its id, and a position
 saved no count for is left without one.
 */
module AsWritten {
  import opened Net
  import Firing
  import Analysis
  import Simulator

  /** Tests the transitions from `from` on, in order, against the shared
      marking, firing each one that is enabled on it at that moment; returns
      the marking left, how many fired and how many were blocked. */
  function FireInPlace(net: Net, from: nat, cur: Marking): (r: (Marking, nat, nat))
    requires ArcsResolve(net) && from <= |net.transitions|
    ensures r.1 + r.2 == |net.transitions| - from
    decreases |net.transitions| - from
  {
    if from == |net.transitions| then (cur, 0, 0)
    else
      var t := net.transitions[from];
      if Firing.Enabled(net.arcs, t, cur) then
        var (m, fired, blocked) := FireInPlace(net, from + 1, Firing.Fire(net.arcs, t, cur));
        (m, fired + 1, blocked)
      else
        var (m, fired, blocked) := FireInPlace(net, from + 1, cur);
        (m, fired, blocked + 1)
  }

  /** What visiting one unvisited shared marking leaves behind. */
  function VisitShared(net: Net, cur: Marking, s: Analysis.Search): (r: (Analysis.Search, Marking, nat))
    requires ArcsResolve(net)
  {
    var (next, fired, blocked) := FireInPlace(net, 0, cur);
    (Analysis.Search(s.visited + {cur}, Analysis.RaiseMax(s.maximum, cur), s.blockages + blocked), next, fired)
  }

  /** Processes `count` pending entries, all of them the shared marking;
      `pushed` counts the entries pushed for the next level. */
  function AliasedVisit(net: Net, count: nat, cur: Marking, s: Analysis.Search, pushed: nat): (r: (Analysis.Search, Marking, nat))
    requires ArcsResolve(net)
    ensures s.visited <= r.0.visited
    ensures count > 0 ==> cur in r.0.visited
    decreases count
  {
    if count == 0 then (s, cur, pushed)
    else if cur in s.visited then AliasedVisit(net, count - 1, cur, s, pushed)
    else
      var v := VisitShared(net, cur, s);
      AliasedVisit(net, count - 1, v.1, v.0, pushed + v.2)
  }

  /** Where the search as written stopped: its state, the shared marking,
      the number of entries still pending, and the levels processed. */
  datatype Stop = Stop(search: Analysis.Search, cur: Marking, pending: nat, steps: nat)

  function AliasedExplore(net: Net, maxSteps: nat, count: nat, cur: Marking, s: Analysis.Search, steps: nat): (o: Stop)
    requires ArcsResolve(net) && steps <= maxSteps
    ensures steps <= o.steps <= maxSteps
    ensures o.steps < maxSteps ==> o.pending == 0
    ensures s.visited <= o.search.visited
    ensures count > 0 && steps < maxSteps ==> cur in o.search.visited
    decreases maxSteps - steps
  {
    if count > 0 && steps < maxSteps then
      var (s', cur', pushed) := AliasedVisit(net, count, cur, s, 0);
      AliasedExplore(net, maxSteps, pushed, cur', s', steps + 1)
    else Stop(s, cur, count, steps)
  }

  /** The shared marking only ever changes by firing an enabled transition,
      so it stays reachable. */
  lemma {:induction false} FireInPlaceReachable(net: Net, m0: Marking, from: nat, cur: Marking)
    requires ArcsResolve(net) && from <= |net.transitions|
    requires Analysis.Reachable(net, m0, cur)
    ensures Analysis.Reachable(net, m0, FireInPlace(net, from, cur).0)
    decreases |net.transitions| - from
  {
    if from < |net.transitions| {
      var t := net.transitions[from];
      if Firing.Enabled(net.arcs, t, cur) {
        Analysis.ReachableStep(net, m0, cur, from);
        FireInPlaceReachable(net, m0, from + 1, Firing.Fire(net.arcs, t, cur));
      } else {
        FireInPlaceReachable(net, m0, from + 1, cur);
      }
    }
  }

  ghost predicate Sound(net: Net, m0: Marking, cur: Marking, visited: set<Marking>)
    requires ArcsResolve(net)
  {
    Analysis.Reachable(net, m0, cur) && forall v :: v in visited ==> Analysis.Reachable(net, m0, v)
  }

  lemma VisitSharedSound(net: Net, m0: Marking, cur: Marking, s: Analysis.Search)
    requires ArcsResolve(net) && Sound(net, m0, cur, s.visited)
    ensures var r := VisitShared(net, cur, s); Sound(net, m0, r.1, r.0.visited)
  {
    FireInPlaceReachable(net, m0, 0, cur);
  }

  /** Visiting an unvisited shared marking, then the rest. */
  lemma AliasedVisitStep(net: Net, count: nat, cur: Marking, s: Analysis.Search, pushed: nat)
    requires ArcsResolve(net) && count > 0 && cur !in s.visited
    ensures var v := VisitShared(net, cur, s);
      AliasedVisit(net, count, cur, s, pushed) == AliasedVisit(net, count - 1, v.1, v.0, pushed + v.2)
  {
  }

  lemma {:induction false} AliasedVisitSound(net: Net, m0: Marking, count: nat, cur: Marking, s: Analysis.Search, pushed: nat)
    requires ArcsResolve(net) && Sound(net, m0, cur, s.visited)
    ensures var r := AliasedVisit(net, count, cur, s, pushed); Sound(net, m0, r.1, r.0.visited)
    decreases count
  {
    if count > 0 {
      if cur in s.visited {
        AliasedVisitSound(net, m0, count - 1, cur, s, pushed);
      } else {
        var v := VisitShared(net, cur, s);
        VisitSharedSound(net, m0, cur, s);
        AliasedVisitStep(net, count, cur, s, pushed);
        AliasedVisitSound(net, m0, count - 1, v.1, v.0, pushed + v.2);
      }
    }
  }

  lemma {:induction false} AliasedExploreSound(net: Net, m0: Marking, maxSteps: nat, count: nat, cur: Marking, s: Analysis.Search, steps: nat)
    requires ArcsResolve(net) && steps <= maxSteps && Sound(net, m0, cur, s.visited)
    ensures var o := AliasedExplore(net, maxSteps, count, cur, s, steps); Sound(net, m0, o.cur, o.search.visited)
    decreases maxSteps - steps
  {
    if count > 0 && steps < maxSteps {
      AliasedVisitSound(net, m0, count, cur, s, 0);
      var (s', cur', pushed) := AliasedVisit(net, count, cur, s, 0);
      AliasedExploreSound(net, m0, maxSteps, pushed, cur', s', steps + 1);
    }
  }

  /**
   The analyser as written. It keeps the corrected one's bounds, and every
   marking it visits is still reachable from `m0`; what it loses is
   completeness, which the producer-consumer example shows.
   */
  function SimulateAsWritten(net: Net, m0: Marking, maxSteps: nat): (rv: (Analysis.Report, set<Marking>))
    requires ArcsResolve(net)
    ensures var (r, visited) := rv;
      && r.steps <= maxSteps
      && (r.finish <==> r.steps < maxSteps)
      && (maxSteps > 0 ==> m0 in visited && r.steps >= 1)
      && r.len == |visited|
      && (forall m :: m in visited ==> Analysis.Reachable(net, m0, m))
  {
    var s0 := Analysis.Search({}, 0, 0);
    assert Analysis.Run(net, m0, []) == Some(m0);
    AliasedExploreSound(net, m0, maxSteps, 1, m0, s0, 0);
    var o := AliasedExplore(net, maxSteps, 1, m0, s0, 0);
    (Analysis.Report(o.search.maximum, o.steps < maxSteps, |o.search.visited|, o.search.blockages, o.steps), o.search.visited)
  }

  // ---------------------------------------------------------------------
  // Reset

  /** The count each position holds after a reset as written; `None` is a
      count left undefined. */
  function ResetAsWritten(s: Simulator.Session): (r: map<PosId, Option<int>>)
    ensures r.Keys == s.net.positions.Keys
    ensures |s.backup| == 0 || s.mode == Simulator.Running ==>
      forall p :: p in r ==> r[p] == Some(s.net.positions[p].tokens)
    ensures |s.backup| > 0 && s.mode == Simulator.Idle ==>
      forall p :: p in r ==> (r[p].None? <==> p !in s.backup)
    ensures |s.backup| > 0 && s.mode == Simulator.Idle ==>
      forall p :: p in r && p in s.backup ==> r[p] == Some(s.backup[p])
  {
    var ps := s.net.positions;
    if |s.backup| > 0 && s.mode == Simulator.Idle then
      map p | p in ps :: if p in s.backup then Some(s.backup[p]) else None
    else
      map p | p in ps :: Some(ps[p].tokens)
  }

  /** When every position has a saved count, the reset as written and the
      corrected one agree. */
  lemma ResetAgreesWhenAllSaved(s: Simulator.Session)
    requires s.net.positions.Keys <= s.backup.Keys
    ensures var r := Simulator.Reset(s);
      forall p :: p in ResetAsWritten(s) ==> ResetAsWritten(s)[p] == Some(r.net.positions[p].tokens)
  {
  }

  /** A position created after the last save loses its count on reset. */
  lemma ResetLosesNewPosition()
    ensures var net := Net(map["p1" := Position("P1", 1), "p2" := Position("P2", 3)], [], map[]);
      var s := Simulator.Session(net, map["p1" := 0], Simulator.Idle);
      && ResetAsWritten(s)["p2"].None?
      && Simulator.Reset(s).net.positions["p2"].tokens == 3
  {
  }
}
