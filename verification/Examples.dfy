/**
 The example nets the page offers (producer-consumer, fork-join and
 inhibitor), and what the model says about them.
 */
module Examples {
  import opened Net
  import Firing
  import Analysis
  import AsWritten

  function Normal(p: PosId): Arc
  {
    Arc(p, 1, false)
  }

  /** Two buffer states and two transitions that move the single token
      between them. */
  function ProducerConsumer(): Net
  {
    Net(map["p1" := Position("Буфер пуст", 1), "p2" := Position("Буфер полон", 0)],
        [Transition("t1", "Производить", ["a2"], ["a1"]), Transition("t2", "Потреблять", ["a1"], ["a2"])],
        map["a1" := Normal("p2"), "a2" := Normal("p1")])
  }

  function ForkJoin(): Net
  {
    Net(map["p1" := Position("P1", 1), "p2" := Position("P2", 0), "p3" := Position("P3", 0), "p4" := Position("P4", 0)],
        [Transition("t1", "Fork", ["a1"], ["a2", "a3"]), Transition("t2", "Join", ["a4", "a5"], ["a6"])],
        map["a1" := Normal("p1"), "a2" := Normal("p2"), "a3" := Normal("p3"),
            "a4" := Normal("p2"), "a5" := Normal("p3"), "a6" := Normal("p4")])
  }

  /** T1 and T2 compete for the token on P1; T2 is also inhibited by a token
      on P2, which T1 produces. */
  function InhibitorNet(): Net
  {
    Net(map["p1" := Position("P1", 1), "p2" := Position("P2", 0), "p3" := Position("P3", 0)],
        [Transition("t1", "T1", ["a1"], ["a2"]), Transition("t2", "T2", ["a3", "a4"], ["a5"])],
        map["a1" := Normal("p1"), "a2" := Normal("p2"), "a3" := Normal("p1"),
            "a4" := Arc("p2", 1, true), "a5" := Normal("p3")])
  }

  // ---------------------------------------------------------------------
  // Producer-consumer

  function Empty(): Marking { map["p1" := 1, "p2" := 0] }
  function Full(): Marking { map["p1" := 0, "p2" := 1] }

  lemma ProducerConsumerMarking()
    ensures CurrentMarking(ProducerConsumer()) == Empty()
  {
  }

  /** Firing a transition with one normal input arc on `p` and one normal
      output arc on `q`, both of weight 1. */
  lemma MoveOne(arcs: map<ArcId, Arc>, t: Transition, m: Marking, p: PosId, q: PosId, r: Marking)
    requires |t.input| == 1 && |t.output| == 1 && t.input[0] in arcs && t.output[0] in arcs
    requires arcs[t.input[0]] == Normal(p) && arcs[t.output[0]] == Normal(q) && p in m
    requires var w := m[p := m[p] - 1]; r == w[q := TokensIn(w, q) + 1]
    ensures Firing.Enabled(arcs, t, m) <==> m[p] >= 1
    ensures Firing.Fire(arcs, t, m) == r
  {
    var w := m[p := m[p] - 1];
    WithdrawOne(arcs, t.input, m, p);
    DepositOne(arcs, t.output, w, q);
  }

  lemma WithdrawOne(arcs: map<ArcId, Arc>, ids: seq<ArcId>, m: Marking, p: PosId)
    requires |ids| == 1 && ids[0] in arcs && arcs[ids[0]] == Normal(p) && p in m
    ensures Firing.Withdraw(arcs, ids, m) == m[p := m[p] - 1]
  {
    assert ids[1..] == [];
  }

  lemma DepositOne(arcs: map<ArcId, Arc>, ids: seq<ArcId>, m: Marking, q: PosId)
    requires |ids| == 1 && ids[0] in arcs && arcs[ids[0]] == Normal(q)
    ensures Firing.Deposit(arcs, ids, m) == m[q := TokensIn(m, q) + 1]
  {
    assert ids[1..] == [];
  }

  /** One step of the output pass. */
  lemma DepositFirst(arcs: map<ArcId, Arc>, ids: seq<ArcId>, m: Marking)
    requires |ids| > 0 && Resolves(arcs, ids)
    ensures var arc := arcs[ids[0]];
      Firing.Deposit(arcs, ids, m) == Firing.Deposit(arcs, ids[1..], m[arc.positionId := TokensIn(m, arc.positionId) + arc.weight])
  {
  }

  /** Firing a transition with one normal input arc on `p` and two normal
      output arcs on `q1` and `q2`, all of weight 1. */
  lemma MoveFork(arcs: map<ArcId, Arc>, t: Transition, m: Marking, p: PosId, q1: PosId, q2: PosId, r: Marking)
    requires |t.input| == 1 && |t.output| == 2 && t.input[0] in arcs && t.output[0] in arcs && t.output[1] in arcs
    requires arcs[t.input[0]] == Normal(p) && arcs[t.output[0]] == Normal(q1) && arcs[t.output[1]] == Normal(q2)
    requires p in m
    requires var w := m[p := m[p] - 1]; var w1 := w[q1 := TokensIn(w, q1) + 1];
      r == w1[q2 := TokensIn(w1, q2) + 1]
    ensures Firing.Enabled(arcs, t, m) <==> m[p] >= 1
    ensures Firing.Fire(arcs, t, m) == r
  {
    var w := m[p := m[p] - 1];
    var w1 := w[q1 := TokensIn(w, q1) + 1];
    WithdrawOne(arcs, t.input, m, p);
    DepositFirst(arcs, t.output, w);
    DepositOne(arcs, t.output[1..], w1, q2);
  }

  lemma ProduceInEmpty()
    ensures var net := ProducerConsumer();
      Firing.Enabled(net.arcs, net.transitions[0], Empty())
      && Firing.Fire(net.arcs, net.transitions[0], Empty()) == Full()
  {
    var net := ProducerConsumer();
    MoveOne(net.arcs, net.transitions[0], Empty(), "p1", "p2", Full());
  }

  lemma ConsumeInFull()
    ensures var net := ProducerConsumer();
      Firing.Enabled(net.arcs, net.transitions[1], Full())
      && Firing.Fire(net.arcs, net.transitions[1], Full()) == Empty()
  {
    var net := ProducerConsumer();
    MoveOne(net.arcs, net.transitions[1], Full(), "p2", "p1", Empty());
  }

  lemma NothingElseEnabled()
    ensures var net := ProducerConsumer();
      !Firing.Enabled(net.arcs, net.transitions[1], Empty()) && !Firing.Enabled(net.arcs, net.transitions[0], Full())
  {
    var net := ProducerConsumer();
    assert !Firing.ArcHolds(net.arcs[net.transitions[1].input[0]], Empty());
    assert !Firing.ArcHolds(net.arcs[net.transitions[0].input[0]], Full());
  }

  /** Producing empties the buffer-empty place and fills the other;
      consuming does the reverse; each is the only one enabled in its
      marking. */
  lemma ProducerConsumerFiring()
    ensures var net := ProducerConsumer();
      var t1, t2 := net.transitions[0], net.transitions[1];
      && Firing.Enabled(net.arcs, t1, Empty()) && !Firing.Enabled(net.arcs, t2, Empty())
      && Firing.Enabled(net.arcs, t2, Full()) && !Firing.Enabled(net.arcs, t1, Full())
      && Firing.Fire(net.arcs, t1, Empty()) == Full()
      && Firing.Fire(net.arcs, t2, Full()) == Empty()
  {
    ProduceInEmpty();
    ConsumeInFull();
    NothingElseEnabled();
  }

  /** Two transitions that swap between two markings `a` and `b`, each
      enabled in exactly one of them. */
  predicate Swaps(net: Net, a: Marking, b: Marking)
    requires ArcsResolve(net)
  {
    var ts := net.transitions;
    && |ts| == 2 && a != b
    && Firing.Enabled(net.arcs, ts[0], a) && Firing.Fire(net.arcs, ts[0], a) == b
    && !Firing.Enabled(net.arcs, ts[1], a)
    && Firing.Enabled(net.arcs, ts[1], b) && Firing.Fire(net.arcs, ts[1], b) == a
    && !Firing.Enabled(net.arcs, ts[0], b)
  }

  lemma SwapSuccessors(net: Net, a: Marking, b: Marking)
    requires ArcsResolve(net) && Swaps(net, a, b)
    ensures Analysis.Successors(net, a, 0) == [b] && Analysis.Successors(net, b, 0) == [a]
  {
    assert Analysis.Successors(net, a, 1) == [];
    assert Analysis.Successors(net, b, 2) == [];
    assert Analysis.Successors(net, b, 1) == [a];
  }

  lemma SwapBlocked(net: Net, a: Marking, b: Marking)
    requires ArcsResolve(net) && Swaps(net, a, b)
    ensures Analysis.Blocked(net, a, 0) == 1 && Analysis.Blocked(net, b, 0) == 1
  {
    assert Analysis.Blocked(net, a, 1) == 1;
    assert Analysis.Blocked(net, b, 1) == 0;
  }

  /** Visiting an unvisited marking alone records it and pushes its
      successors. */
  lemma VisitOne(net: Net, m: Marking, s: Analysis.Search)
    requires ArcsResolve(net) && m !in s.visited
    ensures Analysis.Visit(net, [m], s, []) == (Analysis.Record(net, s, m), Analysis.Successors(net, m, 0))
  {
    assert [m][1..] == [];
    assert [] + Analysis.Successors(net, m, 0) == Analysis.Successors(net, m, 0);
  }

  /** The corrected search on such a net: one level records `a`, the next
      records `b`, the third finds `a` again and pushes nothing. */
  lemma SwapExplore(net: Net, a: Marking, b: Marking)
    requires ArcsResolve(net) && a != b
    requires Analysis.Successors(net, a, 0) == [b] && Analysis.Successors(net, b, 0) == [a]
    ensures var s1 := Analysis.Record(net, Analysis.Search({}, 0, 0), a);
      Analysis.Explore(net, Analysis.MaxLevels, [a], Analysis.Search({}, 0, 0), 0)
        == Analysis.Outcome(Analysis.Record(net, s1, b), [], 3)
  {
    var s0 := Analysis.Search({}, 0, 0);
    var s1 := Analysis.Record(net, s0, a);
    var s2 := Analysis.Record(net, s1, b);
    VisitOne(net, a, s0);
    VisitOne(net, b, s1);
    assert [a][1..] == [];
    assert Analysis.Visit(net, [a], s2, []) == (s2, []);
    assert Analysis.Explore(net, 10, [a], s2, 2) == Analysis.Outcome(s2, [], 3);
    assert Analysis.Explore(net, 10, [b], s1, 1) == Analysis.Outcome(s2, [], 3);
  }

  /** The corrected analyser from `a`, when `a` and `b` are each other's only
      successor and each blocks one transition: both markings, two
      blockages, three levels. */
  lemma TwoCycleSearch(net: Net, a: Marking, b: Marking)
    requires ArcsResolve(net) && a != b
    requires Analysis.Blocked(net, a, 0) == 1 && Analysis.Blocked(net, b, 0) == 1
    requires var s1 := Analysis.Record(net, Analysis.Search({}, 0, 0), a);
      Analysis.Explore(net, Analysis.MaxLevels, [a], Analysis.Search({}, 0, 0), 0)
        == Analysis.Outcome(Analysis.Record(net, s1, b), [], 3)
    ensures var o := Analysis.Search0(net, a, Analysis.MaxLevels);
      o.search.visited == {a, b} && o.search.blockages == 2 && o.steps == 3
  {
    var s1 := Analysis.Record(net, Analysis.Search({}, 0, 0), a);
    TwoRecords(net, a, b);
    assert Analysis.Search0(net, a, Analysis.MaxLevels) == Analysis.Outcome(Analysis.Record(net, s1, b), [], 3);
  }

  lemma TwoRecords(net: Net, a: Marking, b: Marking)
    requires ArcsResolve(net)
    requires Analysis.Blocked(net, a, 0) == 1 && Analysis.Blocked(net, b, 0) == 1
    ensures var s2 := Analysis.Record(net, Analysis.Record(net, Analysis.Search({}, 0, 0), a), b);
      s2.visited == {a, b} && s2.blockages == 2
  {
  }

  lemma TwoCycleReport(net: Net, a: Marking, b: Marking)
    requires ArcsResolve(net) && a != b
    requires var o := Analysis.Search0(net, a, Analysis.MaxLevels);
      o.search.visited == {a, b} && o.search.blockages == 2 && o.steps == 3
    ensures var (r, visited) := Analysis.SimulateReachableStates(net, a, Analysis.MaxLevels);
      visited == {a, b} && r.len == 2 && r.blockages == 2 && r.steps == 3 && r.finish
  {
  }

  /** The corrected analyser on such a net visits both markings, counts one
      blockage in each and stops at the third level. */
  lemma SwapReport(net: Net, a: Marking, b: Marking)
    requires ArcsResolve(net) && Swaps(net, a, b)
    ensures var (r, visited) := Analysis.SimulateReachableStates(net, a, Analysis.MaxLevels);
      visited == {a, b} && r.len == 2 && r.blockages == 2 && r.steps == 3 && r.finish
  {
    SwapSuccessors(net, a, b);
    SwapBlocked(net, a, b);
    SwapExplore(net, a, b);
    TwoCycleSearch(net, a, b);
    TwoCycleReport(net, a, b);
  }

  lemma SwapFireInPlace(net: Net, a: Marking, b: Marking)
    requires ArcsResolve(net) && Swaps(net, a, b)
    ensures AsWritten.FireInPlace(net, 0, a) == (a, 2, 0)
  {
    assert AsWritten.FireInPlace(net, 2, a) == (a, 0, 0);
    assert AsWritten.FireInPlace(net, 1, b) == (a, 1, 0);
  }

  /** The analyser as written on such a net: testing the transitions of `a`
      fires both on the one shared marking, which ends back at `a`, so the
      search stops after two levels having seen `a` alone. */
  lemma SwapAsWritten(net: Net, a: Marking, b: Marking)
    requires ArcsResolve(net) && Swaps(net, a, b)
    ensures var (r, visited) := AsWritten.SimulateAsWritten(net, a, Analysis.MaxLevels);
      visited == {a} && r.len == 1 && r.blockages == 0 && r.steps == 2 && r.finish
  {
    SwapFireInPlace(net, a, b);
    var s0 := Analysis.Search({}, 0, 0);
    var s1 := Analysis.Search({a}, Analysis.RaiseMax(0, a), 0);
    assert s0.visited + {a} == {a};
    assert AsWritten.AliasedVisit(net, 0, a, s1, 2) == (s1, a, 2);
    assert AsWritten.AliasedVisit(net, 1, a, s0, 0) == (s1, a, 2);
    assert AsWritten.AliasedVisit(net, 0, a, s1, 0) == (s1, a, 0);
    assert AsWritten.AliasedVisit(net, 1, a, s1, 0) == (s1, a, 0);
    assert AsWritten.AliasedVisit(net, 2, a, s1, 0) == (s1, a, 0);
    assert AsWritten.AliasedExplore(net, 10, 0, a, s1, 2) == AsWritten.Stop(s1, a, 0, 2);
    assert AsWritten.AliasedExplore(net, 10, 2, a, s1, 1) == AsWritten.Stop(s1, a, 0, 2);
    assert AsWritten.AliasedExplore(net, 10, 1, a, s0, 0) == AsWritten.Stop(s1, a, 0, 2);
  }

  lemma ProducerConsumerResolves()
    ensures ArcsResolve(ProducerConsumer())
  {
  }

  lemma ProducerConsumerSwaps()
    ensures ArcsResolve(ProducerConsumer()) && Swaps(ProducerConsumer(), Empty(), Full())
  {
    ProducerConsumerResolves();
    ProducerConsumerFiring();
    assert Empty()["p1"] != Full()["p1"];
  }

  /** The corrected analyser on producer-consumer: two markings, one
      blockage in each, three levels, and the net is safe. */
  lemma ProducerConsumerReport()
    ensures var (r, visited) := Analysis.SimulateReachableStates(ProducerConsumer(), Empty(), Analysis.MaxLevels);
      && visited == {Empty(), Full()}
      && r.len == 2 && r.blockages == 2 && r.steps == 3 && r.finish && r.maximum == 1
  {
    ProducerConsumerSwaps();
    SwapReport(ProducerConsumer(), Empty(), Full());
    var (r, visited) := Analysis.SimulateReachableStates(ProducerConsumer(), Empty(), Analysis.MaxLevels);
    BufferMaximum(visited, r.maximum);
  }

  /** The page's verdict on producer-consumer: safe, the search finished,
      and quasi-live, because each buffer marking blocks one transition. */
  lemma ProducerConsumerVerdict()
    ensures ArcsResolve(ProducerConsumer())
    ensures var (r, v) := Analysis.PerformAnalysis(ProducerConsumer());
      r.len == 2 && r.blockages == 2 && v == Analysis.Verdict(true, true, Analysis.QuasiLive)
  {
    ProducerConsumerResolves();
    ProducerConsumerMarking();
    ProducerConsumerReport();
  }

  /** No count in either buffer marking exceeds one. */
  lemma BufferMaximum(visited: set<Marking>, maximum: int)
    requires visited == {Empty(), Full()} && Analysis.IsMaxCount(visited, maximum)
    ensures maximum == 1
  {
    assert Empty()["p1"] <= maximum;
    var m, p :| m in visited && p in m && m[p] == maximum;
    assert m == Empty() || m == Full();
  }

  /** The analyser as written on producer-consumer stops after two levels
      with one marking, although the full buffer is reachable. */
  lemma ProducerConsumerAsWritten()
    ensures var (r, visited) := AsWritten.SimulateAsWritten(ProducerConsumer(), Empty(), Analysis.MaxLevels);
      && visited == {Empty()} && r.len == 1 && r.blockages == 0 && r.steps == 2 && r.finish
      && Analysis.Reachable(ProducerConsumer(), Empty(), Full()) && Full() !in visited
  {
    ProducerConsumerSwaps();
    SwapAsWritten(ProducerConsumer(), Empty(), Full());
    SwapReport(ProducerConsumer(), Empty(), Full());
  }

  /** The finding in one statement: on producer-consumer the analyser as
      written reports a finished search that misses a reachable marking,
      and the corrected one visits exactly the reachable markings. */
  lemma AliasingLosesCompleteness()
    ensures var net := ProducerConsumer();
      var (w, wVisited) := AsWritten.SimulateAsWritten(net, Empty(), Analysis.MaxLevels);
      var (c, cVisited) := Analysis.SimulateReachableStates(net, Empty(), Analysis.MaxLevels);
      && w.finish && (exists m :: Analysis.Reachable(net, Empty(), m) && m !in wVisited)
      && c.finish && (forall m :: m in cVisited <==> Analysis.Reachable(net, Empty(), m))
      && w.len < c.len
  {
    ProducerConsumerAsWritten();
    ProducerConsumerReport();
  }

  // ---------------------------------------------------------------------
  // Fork-join and inhibitor

  function ForkStart(): Marking { map["p1" := 1, "p2" := 0, "p3" := 0, "p4" := 0] }
  function Forked(): Marking { map["p1" := 0, "p2" := 1, "p3" := 1, "p4" := 0] }

  lemma ForkJoinMarking()
    ensures CurrentMarking(ForkJoin()) == ForkStart()
  {
  }

  /** Fork takes the token from P1 and puts one on each branch. */
  lemma ForkFires()
    ensures var net := ForkJoin();
      && Firing.Enabled(net.arcs, net.transitions[0], ForkStart())
      && Firing.Fire(net.arcs, net.transitions[0], ForkStart()) == Forked()
  {
    var net := ForkJoin();
    MoveFork(net.arcs, net.transitions[0], ForkStart(), "p1", "p2", "p3", Forked());
  }

  /** Join waits for both branches: it is not enabled at the start, and is
      once Fork has fired. */
  lemma JoinWaits()
    ensures var net := ForkJoin();
      && !Firing.Enabled(net.arcs, net.transitions[1], ForkStart())
      && Firing.Enabled(net.arcs, net.transitions[1], Forked())
  {
    var net := ForkJoin();
    assert !Firing.ArcHolds(net.arcs["a4"], ForkStart());
    assert Firing.ArcHolds(net.arcs["a4"], Forked()) && Firing.ArcHolds(net.arcs["a5"], Forked());
  }

  function InhibitorStart(): Marking { map["p1" := 1, "p2" := 0, "p3" := 0] }
  function AfterT1(): Marking { map["p1" := 0, "p2" := 1, "p3" := 0] }

  lemma InhibitorMarking()
    ensures CurrentMarking(InhibitorNet()) == InhibitorStart()
  {
  }

  /** Both transitions are enabled at the start: P1 holds a token and P2,
      which inhibits T2, none. */
  lemma BothEnabledAtStart()
    ensures var net := InhibitorNet();
      && Firing.Enabled(net.arcs, net.transitions[0], InhibitorStart())
      && Firing.Enabled(net.arcs, net.transitions[1], InhibitorStart())
  {
    var net := InhibitorNet();
    assert Firing.ArcHolds(net.arcs["a3"], InhibitorStart()) && Firing.ArcHolds(net.arcs["a4"], InhibitorStart());
  }

  /** Firing T1 takes the token from P1 and puts one on P2. */
  lemma T1Fires()
    ensures var net := InhibitorNet();
      Firing.Fire(net.arcs, net.transitions[0], InhibitorStart()) == AfterT1()
  {
    var net := InhibitorNet();
    MoveOne(net.arcs, net.transitions[0], InhibitorStart(), "p1", "p2", AfterT1());
  }

  /** After T1, T2 is disabled twice over: P1 is empty and the inhibitor
      arc sees the token on P2. */
  lemma T1DisablesT2()
    ensures var net := InhibitorNet();
      && !Firing.ArcHolds(net.arcs["a3"], AfterT1())
      && !Firing.ArcHolds(net.arcs["a4"], AfterT1())
      && !Firing.Enabled(net.arcs, net.transitions[1], AfterT1())
  {
    var net := InhibitorNet();
    assert !Firing.ArcHolds(net.arcs["a3"], AfterT1());
  }
}
