/**
 The reachability analyser: a breadth-first search over markings, bounded
 by a number of levels, that records the distinct markings it visits, the
 largest token count it sees and how often a transition was found disabled;
 and the verdicts drawn from that report.
 */
module Analysis {
  import opened Net
  import Firing

  /** The level cap the analysis uses. */
  const MaxLevels: nat := 10

  // ---------------------------------------------------------------------
  // What the search is about: markings reachable by firing enabled
  // transitions.

  /** Fires the transitions whose indices `path` lists, in order, starting
      from `m0`; `None` once one of them is not enabled. */
  function Run(net: Net, m0: Marking, path: seq<nat>): Option<Marking>
    requires ArcsResolve(net)
    decreases |path|
  {
    if |path| == 0 then Some(m0)
    else match Run(net, m0, path[..|path| - 1])
      case None => None
      case Some(m) =>
        var i := path[|path| - 1];
        if i < |net.transitions| && Firing.Enabled(net.arcs, net.transitions[i], m)
        then Some(Firing.Fire(net.arcs, net.transitions[i], m))
        else None
  }

  ghost predicate Reachable(net: Net, m0: Marking, m: Marking)
    requires ArcsResolve(net)
  {
    exists path :: Run(net, m0, path) == Some(m)
  }

  lemma ReachableStep(net: Net, m0: Marking, m: Marking, i: nat)
    requires ArcsResolve(net) && Reachable(net, m0, m)
    requires i < |net.transitions| && Firing.Enabled(net.arcs, net.transitions[i], m)
    ensures Reachable(net, m0, Firing.Fire(net.arcs, net.transitions[i], m))
  {
    var path :| Run(net, m0, path) == Some(m);
    RunSnoc(net, m0, path, m, i);
  }

  /** Firing one more enabled transition extends a run. */
  lemma RunSnoc(net: Net, m0: Marking, path: seq<nat>, m: Marking, i: nat)
    requires ArcsResolve(net) && Run(net, m0, path) == Some(m)
    requires i < |net.transitions| && Firing.Enabled(net.arcs, net.transitions[i], m)
    ensures Run(net, m0, path + [i]) == Some(Firing.Fire(net.arcs, net.transitions[i], m))
  {
    var path' := path + [i];
    assert path'[..|path'| - 1] == path;
  }

  /** Every transition enabled in a marking of `visited` leads to a marking
      of `visited` or of `pending`. */
  predicate Closed(net: Net, visited: set<Marking>, pending: seq<Marking>)
    requires ArcsResolve(net)
  {
    forall m, i {:trigger Firing.Fire(net.arcs, net.transitions[i], m)} ::
      m in visited && 0 <= i < |net.transitions| && Firing.Enabled(net.arcs, net.transitions[i], m) ==>
      Firing.Fire(net.arcs, net.transitions[i], m) in visited || Firing.Fire(net.arcs, net.transitions[i], m) in pending
  }

  /** A set of markings that holds `m0` and is closed under firing holds
      every marking reachable from `m0`. */
  lemma {:induction false} ClosedHoldsReachable(net: Net, m0: Marking, visited: set<Marking>, path: seq<nat>)
    requires ArcsResolve(net)
    requires m0 in visited && Closed(net, visited, [])
    requires Run(net, m0, path).Some?
    ensures Run(net, m0, path).value in visited
    decreases |path|
  {
    if |path| > 0 {
      ClosedHoldsReachable(net, m0, visited, path[..|path| - 1]);
    }
  }

  /** `maximum` is the largest count in any marking of `visited`, and 0 when
      there is none above 0. */
  ghost predicate IsMaxCount(visited: set<Marking>, maximum: int)
  {
    && maximum >= 0
    && (forall m, p :: m in visited && p in m ==> m[p] <= maximum)
    && (maximum == 0 || exists m, p :: m in visited && p in m && m[p] == maximum)
  }

  predicate AllEnabledIn(net: Net, visited: set<Marking>)
    requires ArcsResolve(net)
  {
    forall m, i :: m in visited && 0 <= i < |net.transitions| ==> Firing.Enabled(net.arcs, net.transitions[i], m)
  }

  // ---------------------------------------------------------------------
  // One marking's share of the search

  /** `v` is the larger of `floor` and every count in `m`. */
  predicate IsRaisedMax(floor: int, m: Marking, v: int)
  {
    && v >= floor
    && (forall p :: p in m ==> m[p] <= v)
    && (v == floor || exists p :: p in m && m[p] == v)
  }

  lemma {:induction false} MaxExists(floor: int, m: Marking) returns (v: int)
    ensures IsRaisedMax(floor, m, v)
    decreases |m|
  {
    if |m| == 0 {
      v := floor;
    } else {
      var q :| q in m;
      var rest := m - {q};
      assert |rest| < |m|;
      var w := MaxExists(floor, rest);
      assert forall p :: p in m && p != q ==> p in rest && rest[p] == m[p];
      if m[q] > w {
        v := m[q];
      } else {
        v := w;
        if w != floor {
          var p :| p in rest && rest[p] == w;
          assert p in m && m[p] == v;
        }
      }
    }
  }

  lemma RaisedMaxExists(floor: int, m: Marking)
    ensures exists v :: IsRaisedMax(floor, m, v)
  {
    var v := MaxExists(floor, m);
  }

  /** The running maximum after scanning `m`: the larger of `floor` and every
      count in `m`. */
  function RaiseMax(floor: int, m: Marking): (r: int)
    ensures r >= floor
    ensures forall p :: p in m ==> m[p] <= r
    ensures r == floor || exists p :: p in m && m[p] == r
  {
    RaisedMaxExists(floor, m);
    var v :| IsRaisedMax(floor, m, v);
    v
  }

  /** The markings pushed for `m`: for each transition from `from` on, in
      order, the marking it produces when it is enabled. */
  function Successors(net: Net, m: Marking, from: nat): seq<Marking>
    requires ArcsResolve(net) && from <= |net.transitions|
    decreases |net.transitions| - from
  {
    if from == |net.transitions| then []
    else
      var t := net.transitions[from];
      (if Firing.Enabled(net.arcs, t, m) then [Firing.Fire(net.arcs, t, m)] else []) + Successors(net, m, from + 1)
  }

  /** Every enabled transition from `from` on has its marking pushed. */
  lemma {:induction false} SuccessorsComplete(net: Net, m: Marking, from: nat, i: nat)
    requires ArcsResolve(net) && from <= i < |net.transitions|
    requires Firing.Enabled(net.arcs, net.transitions[i], m)
    ensures Firing.Fire(net.arcs, net.transitions[i], m) in Successors(net, m, from)
    decreases i - from
  {
    var t := net.transitions[from];
    var head := if Firing.Enabled(net.arcs, t, m) then [Firing.Fire(net.arcs, t, m)] else [];
    var rest := Successors(net, m, from + 1);
    assert Successors(net, m, from) == head + rest;
    if i == from {
      assert Firing.Fire(net.arcs, net.transitions[i], m) in head;
    } else {
      SuccessorsComplete(net, m, from + 1, i);
    }
  }

  /** Nothing else is pushed: every pushed marking is what an enabled
      transition from `from` on produces. */
  lemma {:induction false} SuccessorsSound(net: Net, m: Marking, from: nat, x: Marking)
    requires ArcsResolve(net) && from <= |net.transitions|
    requires x in Successors(net, m, from)
    ensures IsSuccessor(net, m, from, x)
    decreases |net.transitions| - from
  {
    var t := net.transitions[from];
    var head := if Firing.Enabled(net.arcs, t, m) then [Firing.Fire(net.arcs, t, m)] else [];
    var rest := Successors(net, m, from + 1);
    assert Successors(net, m, from) == head + rest;
    if x in head {
      assert Firing.Enabled(net.arcs, net.transitions[from], m) && x == Firing.Fire(net.arcs, net.transitions[from], m);
    } else {
      SuccessorsSound(net, m, from + 1, x);
      var i :| from + 1 <= i < |net.transitions| && Firing.Enabled(net.arcs, net.transitions[i], m)
               && x == Firing.Fire(net.arcs, net.transitions[i], m);
    }
  }

  /** No transition from `from` on is enabled exactly when nothing is
      pushed. */
  lemma {:induction false} NoSuccessors(net: Net, m: Marking, from: nat)
    requires ArcsResolve(net) && from <= |net.transitions|
    ensures Successors(net, m, from) == [] <==>
      forall i :: from <= i < |net.transitions| ==> !Firing.Enabled(net.arcs, net.transitions[i], m)
    decreases |net.transitions| - from
  {
    if from < |net.transitions| {
      NoSuccessors(net, m, from + 1);
    }
  }

  /** `x` is what some transition from index `from` on, enabled in `m`,
      produces. */
  ghost predicate IsSuccessor(net: Net, m: Marking, from: nat, x: Marking)
    requires ArcsResolve(net)
  {
    exists i :: from <= i < |net.transitions| && Firing.Enabled(net.arcs, net.transitions[i], m)
                && x == Firing.Fire(net.arcs, net.transitions[i], m)
  }

  /** The number of transitions from `from` on that are disabled in `m`. */
  function Blocked(net: Net, m: Marking, from: nat): (r: nat)
    requires ArcsResolve(net) && from <= |net.transitions|
    ensures r <= |net.transitions| - from
    ensures r == 0 <==> forall i :: from <= i < |net.transitions| ==> Firing.Enabled(net.arcs, net.transitions[i], m)
    ensures (forall i :: from <= i < |net.transitions| ==> !Firing.Enabled(net.arcs, net.transitions[i], m)) ==>
      r == |net.transitions| - from
    decreases |net.transitions| - from
  {
    if from == |net.transitions| then 0
    else (if Firing.Enabled(net.arcs, net.transitions[from], m) then 0 else 1) + Blocked(net, m, from + 1)
  }

  /** The blockages the markings of `ms` add up to, each marking counting
      the transitions it disables. */
  ghost function BlockedTotal(net: Net, ms: set<Marking>): nat
    requires ArcsResolve(net)
    decreases ms
  {
    if ms == {} then 0
    else
      var m :| m in ms;
      Blocked(net, m, 0) + BlockedTotal(net, ms - {m})
  }

  /** The total does not depend on which marking is taken out first. */
  lemma {:induction false} BlockedTotalRemove(net: Net, ms: set<Marking>, m: Marking)
    requires ArcsResolve(net) && m in ms
    ensures BlockedTotal(net, ms) == Blocked(net, m, 0) + BlockedTotal(net, ms - {m})
    decreases ms
  {
    var x :| x in ms && BlockedTotal(net, ms) == Blocked(net, x, 0) + BlockedTotal(net, ms - {x});
    if x != m {
      BlockedTotalRemove(net, ms - {x}, m);
      BlockedTotalRemove(net, ms - {m}, x);
      assert ms - {x} - {m} == ms - {m} - {x};
    }
  }

  // ---------------------------------------------------------------------
  // The search

  /** The search's running state: the visited markings (compared as maps, so
      key order plays no part), the largest count seen, and the number of
      disabled-transition tests. */
  datatype Search = Search(visited: set<Marking>, maximum: int, blockages: nat)

  /** Processes one level's frontier from left to right, skipping markings
      already visited; returns the new state and the next frontier, which
      may hold duplicates. */
  function Visit(net: Net, frontier: seq<Marking>, s: Search, next: seq<Marking>): (r: (Search, seq<Marking>))
    requires ArcsResolve(net)
    ensures s.visited <= r.0.visited
    ensures forall k :: 0 <= k < |frontier| ==> frontier[k] in r.0.visited
    decreases |frontier|
  {
    if |frontier| == 0 then (s, next)
    else
      var m := frontier[0];
      var s' := if m in s.visited then s else Record(net, s, m);
      var next' := if m in s.visited then next else next + Successors(net, m, 0);
      assert m in s'.visited && s.visited <= s'.visited;
      var r := Visit(net, frontier[1..], s', next');
      assert forall k :: 1 <= k < |frontier| ==> frontier[k] == frontier[1..][k - 1];
      r
  }

  /** What the search keeps true about its state and the markings still
      pending: the visited set is closed up to the pending markings, all of
      them are reachable, the maximum is exact, and the blockages are the
      total over the visited markings, zero exactly when every visited
      marking enables every transition. */
  ghost predicate Inv(net: Net, m0: Marking, s: Search, pending: seq<Marking>)
    requires ArcsResolve(net)
  {
    && Closed(net, s.visited, pending)
    && (forall m :: m in s.visited ==> Reachable(net, m0, m))
    && (forall x :: x in pending ==> Reachable(net, m0, x))
    && IsMaxCount(s.visited, s.maximum)
    && (s.blockages == 0 <==> AllEnabledIn(net, s.visited))
    && s.blockages == BlockedTotal(net, s.visited)
  }

  /** The state after `m`, not yet visited, has been processed. */
  function Record(net: Net, s: Search, m: Marking): Search
    requires ArcsResolve(net)
  {
    Search(s.visited + {m}, RaiseMax(s.maximum, m), s.blockages + Blocked(net, m, 0))
  }

  lemma SkipKeepsInv(net: Net, m0: Marking, m: Marking, pending: seq<Marking>, s: Search)
    requires ArcsResolve(net)
    requires m in s.visited && Inv(net, m0, s, [m] + pending)
    ensures Inv(net, m0, s, pending)
  {
    assert forall x :: x in pending ==> x in [m] + pending;
  }

  lemma AddKeepsClosed(net: Net, m: Marking, pending: seq<Marking>, s: Search)
    requires ArcsResolve(net)
    requires Closed(net, s.visited, [m] + pending)
    ensures Closed(net, s.visited + {m}, pending + Successors(net, m, 0))
  {
    var succ := Successors(net, m, 0);
    forall v, i | v in s.visited + {m} && 0 <= i < |net.transitions| && Firing.Enabled(net.arcs, net.transitions[i], v)
      ensures Firing.Fire(net.arcs, net.transitions[i], v) in s.visited + {m}
              || Firing.Fire(net.arcs, net.transitions[i], v) in pending + succ
    {
      var f := Firing.Fire(net.arcs, net.transitions[i], v);
      if v == m {
        SuccessorsComplete(net, m, 0, i);
      } else {
        assert f in s.visited || f in [m] + pending;
      }
    }
  }

  lemma AddKeepsReachable(net: Net, m0: Marking, m: Marking, pending: seq<Marking>, s: Search)
    requires ArcsResolve(net)
    requires forall v :: v in s.visited ==> Reachable(net, m0, v)
    requires forall x :: x in [m] + pending ==> Reachable(net, m0, x)
    ensures forall v :: v in s.visited + {m} ==> Reachable(net, m0, v)
    ensures forall x :: x in pending + Successors(net, m, 0) ==> Reachable(net, m0, x)
  {
    var succ := Successors(net, m, 0);
    assert m in [m] + pending;
    forall x | x in pending + succ ensures Reachable(net, m0, x) {
      if x in pending {
        assert x in [m] + pending;
      } else {
        SuccessorsSound(net, m, 0, x);
        var i :| 0 <= i < |net.transitions| && Firing.Enabled(net.arcs, net.transitions[i], m)
                 && x == Firing.Fire(net.arcs, net.transitions[i], m);
        ReachableStep(net, m0, m, i);
      }
    }
  }

  lemma AddKeepsInv(net: Net, m0: Marking, m: Marking, pending: seq<Marking>, s: Search)
    requires ArcsResolve(net)
    requires m !in s.visited && Inv(net, m0, s, [m] + pending)
    ensures Inv(net, m0, Record(net, s, m), pending + Successors(net, m, 0))
  {
    AddKeepsClosed(net, m, pending, s);
    AddKeepsReachable(net, m0, m, pending, s);
    AddKeepsMax(s.visited, s.maximum, m);
    AddKeepsBlockages(net, s, m);
    AddKeepsTotal(net, s, m);
  }

  lemma AddKeepsMax(visited: set<Marking>, maximum: int, m: Marking)
    requires IsMaxCount(visited, maximum)
    ensures IsMaxCount(visited + {m}, RaiseMax(maximum, m))
  {
    var r := RaiseMax(maximum, m);
    if r != 0 && r == maximum {
      var v, p :| v in visited && p in v && v[p] == maximum;
      assert v in visited + {m};
    } else if r != 0 {
      var p :| p in m && m[p] == r;
      assert m in visited + {m};
    }
  }

  lemma AddKeepsBlockages(net: Net, s: Search, m: Marking)
    requires ArcsResolve(net)
    requires s.blockages == 0 <==> AllEnabledIn(net, s.visited)
    ensures Record(net, s, m).blockages == 0 <==> AllEnabledIn(net, s.visited + {m})
  {
    if AllEnabledIn(net, s.visited + {m}) {
      assert forall i :: 0 <= i < |net.transitions| ==> Firing.Enabled(net.arcs, net.transitions[i], m);
    }
  }

  /** Recording a new marking adds exactly its own blockages to the total. */
  lemma AddKeepsTotal(net: Net, s: Search, m: Marking)
    requires ArcsResolve(net)
    requires m !in s.visited && s.blockages == BlockedTotal(net, s.visited)
    ensures Record(net, s, m).blockages == BlockedTotal(net, s.visited + {m})
  {
    BlockedTotalRemove(net, s.visited + {m}, m);
    assert s.visited + {m} - {m} == s.visited;
  }

  lemma {:induction false} VisitKeepsInv(net: Net, m0: Marking, frontier: seq<Marking>, s: Search, next: seq<Marking>)
    requires ArcsResolve(net)
    requires Inv(net, m0, s, frontier + next)
    ensures Inv(net, m0, Visit(net, frontier, s, next).0, Visit(net, frontier, s, next).1)
    decreases |frontier|
  {
    if |frontier| > 0 {
      var m := frontier[0];
      var rest := frontier[1..];
      VisitUnfold(net, frontier, s, next);
      ConsSplit(frontier, next);
      if m in s.visited {
        SkipKeepsInv(net, m0, m, rest + next, s);
        VisitKeepsInv(net, m0, rest, s, next);
      } else {
        var succ := Successors(net, m, 0);
        AddKeepsInv(net, m0, m, rest + next, s);
        ConcatAssoc(rest, next, succ);
        VisitKeepsInv(net, m0, rest, Record(net, s, m), next + succ);
      }
    } else {
      assert frontier + next == next;
    }
  }

  /** One step of `Visit`. */
  lemma VisitUnfold(net: Net, frontier: seq<Marking>, s: Search, next: seq<Marking>)
    requires ArcsResolve(net) && |frontier| > 0
    ensures var m := frontier[0];
      Visit(net, frontier, s, next) ==
        if m in s.visited then Visit(net, frontier[1..], s, next)
        else Visit(net, frontier[1..], Record(net, s, m), next + Successors(net, m, 0))
  {
  }

  lemma ConsSplit<T>(a: seq<T>, b: seq<T>)
    requires |a| > 0
    ensures a + b == [a[0]] + (a[1..] + b)
  {
  }

  lemma ConcatAssoc<T>(a: seq<T>, b: seq<T>, c: seq<T>)
    ensures (a + b) + c == a + (b + c)
  {
  }

  /** Where the search stopped: its state, the frontier it stopped with, and
      the number of levels it processed. */
  datatype Outcome = Outcome(search: Search, frontier: seq<Marking>, steps: nat)

  /** Processes levels while the frontier is non-empty and fewer than
      `maxSteps` levels have been processed. */
  function Explore(net: Net, maxSteps: nat, frontier: seq<Marking>, s: Search, steps: nat): (o: Outcome)
    requires ArcsResolve(net) && steps <= maxSteps
    ensures steps <= o.steps <= maxSteps
    ensures o.steps < maxSteps ==> |o.frontier| == 0
    ensures s.visited <= o.search.visited
    ensures steps < maxSteps && |frontier| > 0 ==> forall k :: 0 <= k < |frontier| ==> frontier[k] in o.search.visited
    decreases maxSteps - steps
  {
    if |frontier| > 0 && steps < maxSteps then
      var (s', next) := Visit(net, frontier, s, []);
      Explore(net, maxSteps, next, s', steps + 1)
    else Outcome(s, frontier, steps)
  }

  lemma {:induction false} ExploreKeepsInv(net: Net, m0: Marking, maxSteps: nat, frontier: seq<Marking>, s: Search, steps: nat)
    requires ArcsResolve(net) && steps <= maxSteps
    requires Inv(net, m0, s, frontier)
    ensures var o := Explore(net, maxSteps, frontier, s, steps); Inv(net, m0, o.search, o.frontier)
    decreases maxSteps - steps
  {
    if |frontier| > 0 && steps < maxSteps {
      assert frontier + [] == frontier;
      VisitKeepsInv(net, m0, frontier, s, []);
      var (s', next) := Visit(net, frontier, s, []);
      ExploreKeepsInv(net, m0, maxSteps, next, s', steps + 1);
    }
  }

  // ---------------------------------------------------------------------
  // Levels: after `k` levels the search has visited exactly the markings
  // reachable by fewer than `k` firings, whether or not it hit the cap.

  /** `m` is reachable from `m0` by fewer than `k` firings. */
  ghost predicate Below(net: Net, m0: Marking, m: Marking, k: nat)
    requires ArcsResolve(net)
  {
    exists path :: |path| < k && Run(net, m0, path) == Some(m)
  }

  lemma BelowMore(net: Net, m0: Marking, m: Marking, k: nat)
    requires ArcsResolve(net) && Below(net, m0, m, k)
    ensures Below(net, m0, m, k + 1)
  {
    var path :| |path| < k && Run(net, m0, path) == Some(m);
  }

  lemma BelowStep(net: Net, m0: Marking, m: Marking, k: nat, i: nat)
    requires ArcsResolve(net) && Below(net, m0, m, k)
    requires i < |net.transitions| && Firing.Enabled(net.arcs, net.transitions[i], m)
    ensures Below(net, m0, Firing.Fire(net.arcs, net.transitions[i], m), k + 1)
  {
    var path :| |path| < k && Run(net, m0, path) == Some(m);
    RunSnoc(net, m0, path, m, i);
    assert |path + [i]| < k + 1;
  }

  /** The visited markings are exactly those below `k` firings. */
  ghost predicate VisitedBelow(net: Net, m0: Marking, visited: set<Marking>, k: nat)
    requires ArcsResolve(net)
  {
    forall m :: m in visited <==> Below(net, m0, m, k)
  }

  /** Every pending marking is below `k + 1` firings. */
  ghost predicate PendingWithin(net: Net, m0: Marking, pending: seq<Marking>, k: nat)
    requires ArcsResolve(net)
  {
    forall x :: x in pending ==> Below(net, m0, x, k + 1)
  }

  /** Every marking below `k + 1` firings is visited or pending. */
  ghost predicate Covered(net: Net, m0: Marking, visited: set<Marking>, pending: seq<Marking>, k: nat)
    requires ArcsResolve(net)
  {
    forall m :: Below(net, m0, m, k + 1) ==> m in visited || m in pending
  }

  /** The state after `k` levels, `frontier` being the next level. */
  ghost predicate LevelInv(net: Net, m0: Marking, visited: set<Marking>, frontier: seq<Marking>, k: nat)
    requires ArcsResolve(net)
  {
    VisitedBelow(net, m0, visited, k) && PendingWithin(net, m0, frontier, k) && Covered(net, m0, visited, frontier, k)
  }

  /** What one level adds: only markings of its frontier are visited, the
      pending markings are kept, everything pushed comes from a marking of
      the frontier, and every marking visited for the first time has all
      its successors pushed. */
  lemma {:induction false} VisitShape(net: Net, frontier: seq<Marking>, s: Search, next: seq<Marking>)
    requires ArcsResolve(net)
    ensures var r := Visit(net, frontier, s, next);
      && (forall m :: m in r.0.visited ==> m in s.visited || m in frontier)
      && (forall x :: x in next ==> x in r.1)
      && (forall x :: x in r.1 ==> x in next || exists p :: p in frontier && IsSuccessor(net, p, 0, x))
      && (forall p, x :: p in r.0.visited && p !in s.visited && x in Successors(net, p, 0) ==> x in r.1)
    decreases |frontier|
  {
    if |frontier| > 0 {
      var m := frontier[0];
      var rest := frontier[1..];
      VisitUnfold(net, frontier, s, next);
      assert forall q :: q in rest ==> q in frontier;
      if m in s.visited {
        VisitShape(net, rest, s, next);
      } else {
        var succ := Successors(net, m, 0);
        VisitShape(net, rest, Record(net, s, m), next + succ);
        var r := Visit(net, frontier, s, next);
        forall x | x in r.1 && x !in next
          ensures exists p :: p in frontier && IsSuccessor(net, p, 0, x)
        {
          if x in succ {
            SuccessorsSound(net, m, 0, x);
            assert m in frontier;
          } else {
            assert x !in next + succ;
          }
        }
      }
    }
  }

  lemma LevelStart(net: Net, m0: Marking)
    requires ArcsResolve(net)
    ensures LevelInv(net, m0, {}, [m0], 0)
  {
    assert Run(net, m0, []) == Some(m0);
    forall m | Below(net, m0, m, 1) ensures m in [m0] {
      var path :| |path| < 1 && Run(net, m0, path) == Some(m);
      assert path == [];
    }
  }

  /** What a level from `frontier` does to the visited set `before`,
      giving `v` and pending markings `n` (see `VisitShape`). */
  ghost predicate LevelAdds(net: Net, frontier: seq<Marking>, before: set<Marking>,
                            v: set<Marking>, n: seq<Marking>)
    requires ArcsResolve(net)
  {
    && before <= v
    && (forall m :: m in frontier ==> m in v)
    && (forall m :: m in v ==> m in before || m in frontier)
    && (forall x :: x in n ==> exists p :: p in frontier && IsSuccessor(net, p, 0, x))
    && (forall p, x :: p in v && p !in before && x in Successors(net, p, 0) ==> x in n)
  }

  lemma VisitAdds(net: Net, frontier: seq<Marking>, s: Search)
    requires ArcsResolve(net)
    ensures var r := Visit(net, frontier, s, []); LevelAdds(net, frontier, s.visited, r.0.visited, r.1)
  {
    VisitShape(net, frontier, s, []);
  }

  /** One level turns the state after `k` levels into the state after
      `k + 1`. */
  lemma LevelStep(net: Net, m0: Marking, frontier: seq<Marking>, s: Search, k: nat)
    requires ArcsResolve(net) && LevelInv(net, m0, s.visited, frontier, k)
    ensures var r := Visit(net, frontier, s, []); LevelInv(net, m0, r.0.visited, r.1, k + 1)
  {
    var r := Visit(net, frontier, s, []);
    VisitAdds(net, frontier, s);
    LevelNext(net, m0, frontier, s.visited, r.0.visited, r.1, k);
  }

  /** The level step in terms of what a level adds. */
  lemma LevelNext(net: Net, m0: Marking, frontier: seq<Marking>, before: set<Marking>,
                  v: set<Marking>, n: seq<Marking>, k: nat)
    requires ArcsResolve(net) && LevelInv(net, m0, before, frontier, k)
    requires LevelAdds(net, frontier, before, v, n)
    ensures LevelInv(net, m0, v, n, k + 1)
  {
    LevelVisited(net, m0, frontier, before, v, n, k);
    LevelPending(net, m0, frontier, before, v, n, k);
    LevelCovered(net, m0, frontier, before, v, n, k);
  }

  lemma LevelVisited(net: Net, m0: Marking, frontier: seq<Marking>, before: set<Marking>,
                     v: set<Marking>, n: seq<Marking>, k: nat)
    requires ArcsResolve(net) && LevelInv(net, m0, before, frontier, k)
    requires LevelAdds(net, frontier, before, v, n)
    ensures VisitedBelow(net, m0, v, k + 1)
  {
    forall m ensures m in v <==> Below(net, m0, m, k + 1) {
      if m in before {
        BelowMore(net, m0, m, k);
      }
    }
  }

  lemma LevelPending(net: Net, m0: Marking, frontier: seq<Marking>, before: set<Marking>,
                     v: set<Marking>, n: seq<Marking>, k: nat)
    requires ArcsResolve(net) && PendingWithin(net, m0, frontier, k)
    requires LevelAdds(net, frontier, before, v, n)
    ensures PendingWithin(net, m0, n, k + 1)
  {
    forall x | x in n ensures Below(net, m0, x, k + 2) {
      var p :| p in frontier && IsSuccessor(net, p, 0, x);
      LevelPushed(net, m0, p, x, k);
    }
  }

  lemma LevelPushed(net: Net, m0: Marking, p: Marking, x: Marking, k: nat)
    requires ArcsResolve(net) && Below(net, m0, p, k + 1) && IsSuccessor(net, p, 0, x)
    ensures Below(net, m0, x, k + 2)
  {
    var i :| 0 <= i < |net.transitions| && Firing.Enabled(net.arcs, net.transitions[i], p)
             && x == Firing.Fire(net.arcs, net.transitions[i], p);
    BelowStep(net, m0, p, k + 1, i);
  }

  lemma LevelCovered(net: Net, m0: Marking, frontier: seq<Marking>, before: set<Marking>,
                     v: set<Marking>, n: seq<Marking>, k: nat)
    requires ArcsResolve(net) && LevelInv(net, m0, before, frontier, k)
    requires LevelAdds(net, frontier, before, v, n)
    ensures Covered(net, m0, v, n, k + 1)
  {
    LevelVisited(net, m0, frontier, before, v, n, k);
    forall m | Below(net, m0, m, k + 2) ensures m in v || m in n {
      LevelLast(net, m0, m, k, before, v, n);
    }
  }

  /** A marking first reached by `k + 1` firings comes from a marking first
      reached at level `k`, which pushed it. */
  lemma LevelLast(net: Net, m0: Marking, m: Marking, k: nat, before: set<Marking>, v: set<Marking>, n: seq<Marking>)
    requires ArcsResolve(net) && Below(net, m0, m, k + 2)
    requires VisitedBelow(net, m0, before, k) && VisitedBelow(net, m0, v, k + 1)
    requires forall p, x :: p in v && p !in before && x in Successors(net, p, 0) ==> x in n
    ensures m in v || m in n
  {
    var path :| |path| < k + 2 && Run(net, m0, path) == Some(m);
    if |path| < k + 1 {
      assert Below(net, m0, m, k + 1);
    } else {
      var pre := path[..|path| - 1];
      var i := path[|path| - 1];
      var p := Run(net, m0, pre).value;
      assert Below(net, m0, p, k + 1);
      if p in before {
        BelowStep(net, m0, p, k, i);
      } else {
        SuccessorsComplete(net, p, 0, i);
      }
    }
  }

  lemma {:induction false} ExploreLevels(net: Net, m0: Marking, maxSteps: nat, frontier: seq<Marking>, s: Search, steps: nat)
    requires ArcsResolve(net) && steps <= maxSteps
    requires LevelInv(net, m0, s.visited, frontier, steps)
    ensures var o := Explore(net, maxSteps, frontier, s, steps); LevelInv(net, m0, o.search.visited, o.frontier, o.steps)
    decreases maxSteps - steps
  {
    if |frontier| > 0 && steps < maxSteps {
      LevelStep(net, m0, frontier, s, steps);
      var (s', next) := Visit(net, frontier, s, []);
      ExploreLevels(net, m0, maxSteps, next, s', steps + 1);
    }
  }

  /** The search from `m0`, starting with nothing visited. */
  function Search0(net: Net, m0: Marking, maxSteps: nat): (o: Outcome)
    requires ArcsResolve(net)
    ensures o.steps <= maxSteps
    ensures o.steps < maxSteps ==> |o.frontier| == 0
    ensures maxSteps > 0 ==> m0 in o.search.visited && o.steps >= 1
    ensures Inv(net, m0, o.search, o.frontier)
    ensures forall m :: m in o.search.visited <==> Below(net, m0, m, o.steps)
  {
    LevelStart(net, m0);
    ExploreLevels(net, m0, maxSteps, [m0], Search({}, 0, 0), 0);
    assert Run(net, m0, []) == Some(m0);
    assert Inv(net, m0, Search({}, 0, 0), [m0]);
    ExploreKeepsInv(net, m0, maxSteps, [m0], Search({}, 0, 0), 0);
    Explore(net, maxSteps, [m0], Search({}, 0, 0), 0)
  }

  /** The analyser's report. */
  datatype Report = Report(maximum: int, finish: bool, len: nat, blockages: nat, steps: nat)

  /**
   The bounded search from `m0` and its report.
   - at most `maxSteps` levels are processed, and `finish` holds exactly when
     the frontier ran out before the cap;
   - every visited marking is reachable from `m0`, and when the search
     finished every reachable marking was visited;
   - whether or not the cap was hit, the visited markings are exactly those
     reachable by fewer firings than the levels processed;
   - `len` counts the distinct visited markings;
   - `maximum` is the largest count in any visited marking (0 if none is
     larger);
   - `blockages` is the number of transitions each visited marking
     disables, summed over the distinct visited markings, so it is zero
     exactly when every visited marking enables every transition.
   */
  function SimulateReachableStates(net: Net, m0: Marking, maxSteps: nat): (rv: (Report, set<Marking>))
    requires ArcsResolve(net)
    ensures var (r, visited) := rv;
      && r.steps <= maxSteps
      && (r.finish <==> r.steps < maxSteps)
      && (maxSteps > 0 ==> m0 in visited && r.steps >= 1)
      && r.len == |visited|
      && (forall m :: m in visited ==> Reachable(net, m0, m))
      && (r.finish ==> forall m :: Reachable(net, m0, m) ==> m in visited)
      && IsMaxCount(visited, r.maximum)
      && (r.blockages == 0 <==> AllEnabledIn(net, visited))
      && r.blockages == BlockedTotal(net, visited)
      && (forall m :: m in visited <==> Below(net, m0, m, r.steps))
  {
    var o := Search0(net, m0, maxSteps);
    var r := Report(o.search.maximum, o.steps < maxSteps, |o.search.visited|, o.search.blockages, o.steps);
    FinishedIsComplete(net, m0, maxSteps, o);
    (r, o.search.visited)
  }

  lemma FinishedIsComplete(net: Net, m0: Marking, maxSteps: nat, o: Outcome)
    requires ArcsResolve(net)
    requires o.steps < maxSteps ==> |o.frontier| == 0
    requires maxSteps > 0 ==> m0 in o.search.visited
    requires Inv(net, m0, o.search, o.frontier)
    ensures o.steps < maxSteps ==> forall m :: Reachable(net, m0, m) ==> m in o.search.visited
  {
    if o.steps < maxSteps {
      forall m | Reachable(net, m0, m) ensures m in o.search.visited {
        var path :| Run(net, m0, path) == Some(m);
        ClosedHoldsReachable(net, m0, o.search.visited, path);
      }
    }
  }

  /** A net without transitions: one marking, no blockage, one level. */
  lemma NoTransitionsReport(net: Net, m0: Marking, maxSteps: nat)
    requires ArcsResolve(net) && |net.transitions| == 0 && maxSteps >= 2
    ensures var r := SimulateReachableStates(net, m0, maxSteps).0;
            r.len == 1 && r.blockages == 0 && r.steps == 1 && r.finish
  {
    var s1 := Search({m0}, RaiseMax(0, m0), Blocked(net, m0, 0));
    assert [m0][1..] == [];
    assert Successors(net, m0, 0) == [];
    var s0 := Search({}, 0, 0);
    assert s0.visited + {m0} == {m0} && s0.blockages + Blocked(net, m0, 0) == Blocked(net, m0, 0);
    assert Record(net, s0, m0) == s1;
    assert [] + Successors(net, m0, 0) == [];
    assert Visit(net, [m0], s0, []) == Visit(net, [], s1, []);
    assert Visit(net, [m0], Search({}, 0, 0), []) == (s1, []);
    assert Explore(net, maxSteps, [], s1, 1) == Outcome(s1, [], 1);
  }

  /** A marking in which no transition is enabled: the search stops after one
      level with one marking and one blockage per transition. */
  lemma DeadMarkingReport(net: Net, m0: Marking, maxSteps: nat)
    requires ArcsResolve(net) && maxSteps >= 2
    requires forall i :: 0 <= i < |net.transitions| ==> !Firing.Enabled(net.arcs, net.transitions[i], m0)
    ensures var r := SimulateReachableStates(net, m0, maxSteps).0;
            r.len == 1 && r.blockages == |net.transitions| && r.steps == 1 && r.finish
  {
    var s1 := Search({m0}, RaiseMax(0, m0), Blocked(net, m0, 0));
    assert [m0][1..] == [];
    NoSuccessors(net, m0, 0);
    var s0 := Search({}, 0, 0);
    assert s0.visited + {m0} == {m0} && s0.blockages + Blocked(net, m0, 0) == Blocked(net, m0, 0);
    assert Record(net, s0, m0) == s1;
    assert [] + Successors(net, m0, 0) == [];
    assert Visit(net, [m0], s0, []) == Visit(net, [], s1, []);
    assert Visit(net, [m0], Search({}, 0, 0), []) == (s1, []);
    assert Explore(net, maxSteps, [], s1, 1) == Outcome(s1, [], 1);
  }

  // ---------------------------------------------------------------------
  // Verdicts

  datatype Liveness = Dead | Live | QuasiLive

  /** `safe` drives the report's safe/unsafe style; `finished` selects the
      "bounded" or "may be unbounded" wording. */
  datatype Verdict = Verdict(safe: bool, finished: bool, liveness: Liveness)

  function Classify(transitionCount: nat, r: Report): (v: Verdict)
    ensures v.safe <==> r.maximum <= 1
    ensures v.finished == r.finish
    ensures v.liveness == Dead <==> transitionCount == 0
    ensures v.liveness == Live <==> transitionCount > 0 && r.blockages == 0
    ensures v.liveness == QuasiLive <==> transitionCount > 0 && r.blockages > 0
  {
    Verdict(r.maximum <= 1,
            r.finish,
            if transitionCount == 0 then Dead else if r.blockages == 0 then Live else QuasiLive)
  }

  /** The analysis of the net's current marking with the fixed level cap. */
  function PerformAnalysis(net: Net): (rv: (Report, Verdict))
    requires ArcsResolve(net)
    ensures rv.0.steps <= MaxLevels && (rv.0.finish <==> rv.0.steps < MaxLevels)
    ensures rv.0.len >= 1
    ensures rv.1.safe <==> rv.0.maximum <= 1
    ensures rv.1.finished == rv.0.finish
    ensures rv.1.liveness == Live <==> |net.transitions| > 0 && rv.0.blockages == 0
  {
    var r := SimulateReachableStates(net, CurrentMarking(net), MaxLevels).0;
    (r, Classify(|net.transitions|, r))
  }

  /**
   What the verdicts mean for the markings the analysis visited:
   - safe exactly when no visited marking holds more than one token on a
     position;
   - dead exactly when there is no transition;
   - live exactly when there are transitions and every visited marking
     enables all of them;
   - when the search finished, the visited markings are exactly the
     reachable ones.
   */
  lemma VerdictMeaning(net: Net)
    requires ArcsResolve(net)
    ensures var m0 := CurrentMarking(net);
            var (r, visited) := SimulateReachableStates(net, m0, MaxLevels);
            var v := PerformAnalysis(net).1;
            && (v.safe <==> forall m, p :: m in visited && p in m ==> m[p] <= 1)
            && (v.liveness == Dead <==> |net.transitions| == 0)
            && (v.liveness == Live <==> |net.transitions| > 0 && AllEnabledIn(net, visited))
            && (v.finished ==> forall m :: m in visited <==> Reachable(net, m0, m))
  {
    var m0 := CurrentMarking(net);
    var (r, visited) := SimulateReachableStates(net, m0, MaxLevels);
    var v := PerformAnalysis(net).1;
    if !v.safe {
      var m, p :| m in visited && p in m && m[p] == r.maximum;
    }
  }
}
