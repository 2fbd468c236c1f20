/**
 The structural edits of the editor: deleting a position, a transition or
 an arc with the cascade that keeps the net consistent, drawing an arc
 between two elements, starting a new net and loading one. The editor state
 is the net together with the counter new arc ids are drawn from.
 */
module Editing {
  import opened Net
  import opened ArcIds

  datatype Editor = Editor(net: Net, nextArcId: nat)

  /** The net is well formed and no id the counter will hand out is taken. */
  ghost predicate EditorInv(e: Editor)
  {
    && WellFormed(e.net)
    && e.nextArcId >= 1
    && forall n: nat :: n >= e.nextArcId ==> ArcKey(n) !in e.net.arcs
  }

  // ---------------------------------------------------------------------
  // Sequences without repetitions

  lemma NoDuplicatesCons<T>(h: T, s: seq<T>)
    ensures h !in s && NoDuplicates(s) ==> NoDuplicates([h] + s)
  {
    if h !in s && NoDuplicates(s) {
      NoDuplicatesConsBody(h, s);
    }
  }

  lemma NoDuplicatesConsBody<T>(h: T, s: seq<T>)
    requires h !in s && NoDuplicates(s)
    ensures NoDuplicates([h] + s)
  {
    forall i, j | 0 <= i < j < |[h] + s| ensures ([h] + s)[i] != ([h] + s)[j] {
      if i > 0 {
        assert ([h] + s)[i] == s[i - 1] && ([h] + s)[j] == s[j - 1];
      } else {
        assert ([h] + s)[j] == s[j - 1];
      }
    }
  }

  lemma NoDuplicatesTail<T>(s: seq<T>)
    requires |s| > 0
    ensures NoDuplicates(s) ==> s[0] !in s[1..] && NoDuplicates(s[1..])
  {
    if NoDuplicates(s) {
      NoDuplicatesTailBody(s);
    }
  }

  lemma NoDuplicatesTailBody<T>(s: seq<T>)
    requires |s| > 0 && NoDuplicates(s)
    ensures s[0] !in s[1..] && NoDuplicates(s[1..])
  {
    forall i, j | 0 <= i < j < |s[1..]| ensures s[1..][i] != s[1..][j] {
      assert s[1..][i] == s[i + 1] && s[1..][j] == s[j + 1];
    }
    forall k | 0 <= k < |s[1..]| ensures s[1..][k] != s[0] {
      assert s[1..][k] == s[k + 1];
    }
  }

  /** A concatenation has no repetitions exactly when neither part has and
      the parts share nothing. */
  lemma NoDuplicatesConcat<T>(a: seq<T>, b: seq<T>)
    ensures NoDuplicates(a + b) <==> NoDuplicates(a) && NoDuplicates(b) && forall x :: x in a ==> x !in b
  {
    var c := a + b;
    if NoDuplicates(c) {
      forall i, j | 0 <= i < j < |a| ensures a[i] != a[j] {
        assert c[i] == a[i] && c[j] == a[j];
      }
      forall i, j | 0 <= i < j < |b| ensures b[i] != b[j] {
        assert c[|a| + i] == b[i] && c[|a| + j] == b[j];
      }
      forall i, j | 0 <= i < |a| && 0 <= j < |b| ensures a[i] != b[j] {
        assert c[i] == a[i] && c[|a| + j] == b[j];
      }
    }
    if NoDuplicates(a) && NoDuplicates(b) && forall x :: x in a ==> x !in b {
      forall i, j | 0 <= i < j < |c| ensures c[i] != c[j] {
        if j < |a| {
          assert c[i] == a[i] && c[j] == a[j];
        } else if i >= |a| {
          assert c[i] == b[i - |a|] && c[j] == b[j - |a|];
        } else {
          assert c[i] == a[i] && c[j] == b[j - |a|];
          assert a[i] in a;
        }
      }
    }
  }

  /** `r`'s transitions are, in order, some of `net`'s transitions with some
      ids unlisted, without repetitions, and `r` holds the same arcs for the
      ids it lists, on positions it has. `f` maps each transition to the one
      it came from. */
  ghost predicate IsSubnet(net: Net, r: Net, f: seq<nat>)
  {
    && |f| == |r.transitions|
    && (forall i :: 0 <= i < |f| ==> f[i] < |net.transitions| && r.transitions[i].id == net.transitions[f[i]].id)
    && (forall i, j :: 0 <= i < |f| && 0 <= j < |f| && f[i] == f[j] ==> i == j)
    && (forall i :: 0 <= i < |f| ==> NoDuplicates(Refs(r.transitions[i])))
    && (forall i, a :: 0 <= i < |f| && a in r.transitions[i].input ==> a in net.transitions[f[i]].input)
    && (forall i, a :: 0 <= i < |f| && a in r.transitions[i].output ==> a in net.transitions[f[i]].output)
    && (forall i, a :: 0 <= i < |f| && a in Refs(r.transitions[i]) ==>
          a in r.arcs && a in net.arcs && r.arcs[a] == net.arcs[a] && net.arcs[a].positionId in r.positions)
  }

  /** A subnet of a well formed net is well formed. */
  lemma SubnetWellFormed(net: Net, r: Net, f: seq<nat>)
    requires WellFormed(net) && IsSubnet(net, r, f)
    ensures WellFormed(r)
  {
    var ts := net.transitions;
    var rs := r.transitions;
    forall i, a | 0 <= i < |rs| && a in Refs(rs[i]) ensures a in Refs(ts[f[i]]) {
      assert a in rs[i].input || a in rs[i].output;
    }
    assert ArcsResolve(r) by {
      forall i | 0 <= i < |rs| ensures Resolves(r.arcs, rs[i].input) && Resolves(r.arcs, rs[i].output) {
        assert forall a :: a in rs[i].input || a in rs[i].output ==> a in Refs(rs[i]);
      }
    }
    assert DistinctRefs(rs) by {
      forall i, j, a | 0 <= i < |rs| && 0 <= j < |rs| && i != j && a in Refs(rs[i]) ensures a !in Refs(rs[j]) {
        assert a in Refs(ts[f[i]]);
      }
    }
    forall i, a | 0 <= i < |rs| && a in rs[i].output && a in r.arcs ensures !r.arcs[a].isInhibitor {
      assert a in Refs(rs[i]);
      assert a in ts[f[i]].output;
    }
    forall i, j | 0 <= i < |rs| && 0 <= j < |rs| && rs[i].id == rs[j].id ensures i == j {
      assert ts[f[i]].id == ts[f[j]].id;
    }
  }

  /** The special case of whole transitions kept unchanged. */
  lemma SelectionWellFormed(net: Net, r: Net, f: seq<nat>)
    requires WellFormed(net)
    requires |f| == |r.transitions|
    requires forall i :: 0 <= i < |f| ==> f[i] < |net.transitions| && r.transitions[i] == net.transitions[f[i]]
    requires forall i, j :: 0 <= i < |f| && 0 <= j < |f| && i != j ==> f[i] != f[j]
    requires forall i, a :: 0 <= i < |f| && a in Refs(r.transitions[i]) ==>
      a in r.arcs && r.arcs[a] == net.arcs[a] && net.arcs[a].positionId in r.positions
    ensures WellFormed(r)
  {
    SubnetWellFormed(net, r, f);
  }

  /** `ids` with every occurrence of `a` removed, order kept. */
  function Without(ids: seq<ArcId>, a: ArcId): (r: seq<ArcId>)
    ensures forall x :: x in r <==> x in ids && x != a
    ensures NoDuplicates(ids) ==> NoDuplicates(r)
    ensures a !in ids ==> r == ids
    decreases |ids|
  {
    if |ids| == 0 then []
    else
      var rest := Without(ids[1..], a);
      NoDuplicatesTail(ids);
      assert forall x :: x in ids <==> x == ids[0] || x in ids[1..];
      if ids[0] == a then rest
      else
        NoDuplicatesCons(ids[0], rest);
        [ids[0]] + rest
  }

  // ---------------------------------------------------------------------
  // Deleting an arc

  /** `t'` is `t` with its id and name, listing exactly what `t` lists less
      `a`, and without repetitions in a list that had none. */
  ghost predicate Unlisted(t: Transition, t': Transition, a: ArcId)
  {
    && t'.id == t.id && t'.name == t.name
    && (forall x :: x in t'.input <==> x in t.input && x != a)
    && (forall x :: x in t'.output <==> x in t.output && x != a)
    && (NoDuplicates(t.input) ==> NoDuplicates(t'.input))
    && (NoDuplicates(t.output) ==> NoDuplicates(t'.output))
  }

  /** Drops `a` from every transition's input and output lists. */
  function UnlistArc(ts: seq<Transition>, a: ArcId): (r: seq<Transition>)
    ensures |r| == |ts|
    ensures forall i :: 0 <= i < |ts| ==> Unlisted(ts[i], r[i], a)
    ensures forall i :: 0 <= i < |ts| && a !in Refs(ts[i]) ==> r[i] == ts[i]
    decreases |ts|
  {
    if |ts| == 0 then []
    else
      var t := ts[0];
      [Transition(t.id, t.name, Without(t.input, a), Without(t.output, a))] + UnlistArc(ts[1..], a)
  }

  /** Deleting an arc: it leaves the arc table and every transition's lists. */
  function RemoveArc(net: Net, a: ArcId): (r: Net)
    ensures r.positions == net.positions
    ensures r.arcs == net.arcs - {a}
    ensures |r.transitions| == |net.transitions|
    ensures forall i :: 0 <= i < |net.transitions| ==> a !in Refs(r.transitions[i])
    ensures forall i :: 0 <= i < |net.transitions| && a !in Refs(net.transitions[i]) ==>
      r.transitions[i] == net.transitions[i]
  {
    Net(net.positions, UnlistArc(net.transitions, a), net.arcs - {a})
  }

  /** Deleting an arc keeps the net well formed, and each transition keeps
      its id and name and lists exactly the ids it listed before, less `a`;
      a transition that does not list `a` is left as it was. */
  lemma RemoveArcKeepsWellFormed(net: Net, a: ArcId)
    requires WellFormed(net)
    ensures var r := RemoveArc(net, a);
      && WellFormed(r)
      && forall i :: 0 <= i < |net.transitions| ==>
           && r.transitions[i].id == net.transitions[i].id
           && r.transitions[i].name == net.transitions[i].name
           && (forall x :: x in r.transitions[i].input <==> x in net.transitions[i].input && x != a)
           && (forall x :: x in r.transitions[i].output <==> x in net.transitions[i].output && x != a)
           && (a !in Refs(net.transitions[i]) ==> r.transitions[i] == net.transitions[i])
  {
    var f := RemovedArcSubnet(net, a);
    SubnetWellFormed(net, RemoveArc(net, a), f);
  }

  lemma RemovedArcSubnet(net: Net, a: ArcId) returns (f: seq<nat>)
    requires WellFormed(net)
    ensures IsSubnet(net, RemoveArc(net, a), f)
  {
    UnlistedRefs(net.transitions, a);
    UnlistedLists(net.transitions, a);
    RemovedArcTable(net, a);
    f := Identity(|net.transitions|);
  }

  /** After unlisting `a`, each transition keeps its id and lists only what
      it listed. */
  lemma UnlistedLists(ts: seq<Transition>, a: ArcId)
    ensures var rs := UnlistArc(ts, a);
      forall i :: 0 <= i < |ts| ==>
        && rs[i].id == ts[i].id
        && (forall x :: x in rs[i].input ==> x in ts[i].input)
        && (forall x :: x in rs[i].output ==> x in ts[i].output)
  {
    var rs := UnlistArc(ts, a);
    forall i | 0 <= i < |ts|
      ensures rs[i].id == ts[i].id
      ensures forall x :: x in rs[i].input ==> x in ts[i].input
      ensures forall x :: x in rs[i].output ==> x in ts[i].output
    {
      assert Unlisted(ts[i], rs[i], a);
    }
  }

  /** Every arc still listed after deleting `a` is in the table, unchanged,
      on an existing position. */
  lemma RemovedArcTable(net: Net, a: ArcId)
    requires WellFormed(net)
    ensures var r := RemoveArc(net, a);
      forall i, x :: 0 <= i < |r.transitions| && x in Refs(r.transitions[i]) ==>
        x in r.arcs && x in net.arcs && r.arcs[x] == net.arcs[x] && net.arcs[x].positionId in r.positions
  {
    var ts := net.transitions;
    var r := RemoveArc(net, a);
    UnlistedRefs(ts, a);
    forall i, x | 0 <= i < |r.transitions| && x in Refs(r.transitions[i])
      ensures x in r.arcs && x in net.arcs && r.arcs[x] == net.arcs[x] && net.arcs[x].positionId in r.positions
    {
      assert x in Refs(ts[i]) && x != a;
    }
  }

  /** After unlisting `a`, each transition refers to what it did less `a`,
      still without repetitions. */
  lemma UnlistedRefs(ts: seq<Transition>, a: ArcId)
    requires forall i :: 0 <= i < |ts| ==> NoDuplicates(Refs(ts[i]))
    ensures var rs := UnlistArc(ts, a);
      forall i :: 0 <= i < |rs| ==>
        && NoDuplicates(Refs(rs[i]))
        && forall x :: x in Refs(rs[i]) ==> x in Refs(ts[i]) && x != a
  {
    var rs := UnlistArc(ts, a);
    forall i | 0 <= i < |rs|
      ensures NoDuplicates(Refs(rs[i]))
      ensures forall x :: x in Refs(rs[i]) ==> x in Refs(ts[i]) && x != a
    {
      NoDuplicatesConcat(ts[i].input, ts[i].output);
      NoDuplicatesConcat(rs[i].input, rs[i].output);
    }
  }

  lemma Identity(n: nat) returns (f: seq<nat>)
    ensures |f| == n && forall i :: 0 <= i < n ==> f[i] == i
  {
    f := seq(n, i => i);
  }

  // ---------------------------------------------------------------------
  // Deleting a transition

  /** The transitions whose id is not `id`, order kept. */
  function DropTransition(ts: seq<Transition>, id: TransId): (r: seq<Transition>)
    ensures forall t :: t in r <==> t in ts && t.id != id
    decreases |ts|
  {
    if |ts| == 0 then []
    else if ts[0].id == id then DropTransition(ts[1..], id)
    else [ts[0]] + DropTransition(ts[1..], id)
  }

  /** No two transitions share an id. */
  predicate UniqueIds(ts: seq<Transition>)
  {
    forall i, j :: 0 <= i < |ts| && 0 <= j < |ts| && ts[i].id == ts[j].id ==> i == j
  }

  /** With unique ids, dropping the id of the transition at `k` removes just
      that one. */
  lemma {:induction false} DropUniqueTransition(ts: seq<Transition>, k: nat)
    requires k < |ts| && UniqueIds(ts)
    ensures DropTransition(ts, ts[k].id) == ts[..k] + ts[k + 1..]
    decreases |ts|
  {
    if k == 0 {
      FirstIdUnique(ts);
      DropNone(ts[1..], ts[0].id);
    } else {
      UniqueIdsTail(ts);
      DropUniqueTransition(ts[1..], k - 1);
      assert ts[1..][k - 1] == ts[k];
      assert ts[0].id != ts[k].id;
      CutCons(ts, k);
    }
  }

  lemma FirstIdUnique(ts: seq<Transition>)
    requires |ts| > 0 && UniqueIds(ts)
    ensures forall t :: t in ts[1..] ==> t.id != ts[0].id
  {
    forall t | t in ts[1..] ensures t.id != ts[0].id {
      var j :| 0 <= j < |ts[1..]| && ts[1..][j] == t;
      assert ts[j + 1] == t;
    }
  }

  lemma UniqueIdsTail(ts: seq<Transition>)
    requires |ts| > 0 && UniqueIds(ts)
    ensures UniqueIds(ts[1..])
  {
    var tail := ts[1..];
    forall i, j | 0 <= i < |tail| && 0 <= j < |tail| && tail[i].id == tail[j].id ensures i == j {
      assert tail[i] == ts[i + 1] && tail[j] == ts[j + 1];
    }
  }

  /** Cutting out the element at `k > 0` commutes with taking the head off. */
  lemma CutCons<T>(s: seq<T>, k: nat)
    requires 0 < k < |s|
    ensures [s[0]] + (s[1..][..k - 1] + s[1..][k..]) == s[..k] + s[k + 1..]
  {
    assert s[1..][..k - 1] == s[1..k] && s[1..][k..] == s[k + 1..];
    assert [s[0]] + s[1..k] == s[..k];
  }

  lemma {:induction false} DropNone(ts: seq<Transition>, id: TransId)
    requires forall t :: t in ts ==> t.id != id
    ensures DropTransition(ts, id) == ts
    decreases |ts|
  {
    if |ts| > 0 {
      assert ts[0] in ts;
      assert forall t :: t in ts[1..] ==> t in ts;
      DropNone(ts[1..], id);
      assert [ts[0]] + ts[1..] == ts;
    }
  }

  /** The arc table without the ids in `ids`. */
  function DeleteArcs(arcs: map<ArcId, Arc>, ids: seq<ArcId>): (r: map<ArcId, Arc>)
    ensures forall a :: a in r <==> a in arcs && a !in ids
    ensures forall a :: a in r ==> r[a] == arcs[a]
  {
    map a | a in arcs && a !in ids :: arcs[a]
  }

  /** Deleting the transition at `k`: every transition with its id goes, and
      so do the arcs it lists. */
  function RemoveTransition(net: Net, k: nat): (r: Net)
    requires k < |net.transitions|
    ensures r.positions == net.positions
    ensures forall t :: t in r.transitions <==> t in net.transitions && t.id != net.transitions[k].id
    ensures forall a :: a in r.arcs <==> a in net.arcs && a !in Refs(net.transitions[k])
    ensures forall a :: a in r.arcs ==> r.arcs[a] == net.arcs[a]
  {
    var t := net.transitions[k];
    Net(net.positions, DropTransition(net.transitions, t.id), DeleteArcs(net.arcs, Refs(t)))
  }

  /** In a well formed net, deleting a transition removes exactly that
      transition and exactly its own arcs, leaves the other transitions as
      they were, in order, and keeps the net well formed. */
  lemma RemoveTransitionKeepsWellFormed(net: Net, k: nat)
    requires WellFormed(net) && k < |net.transitions|
    ensures var r := RemoveTransition(net, k);
      && WellFormed(r)
      && r.transitions == net.transitions[..k] + net.transitions[k + 1..]
      && r.arcs.Keys == net.arcs.Keys - set a | a in Refs(net.transitions[k])
  {
    DropUniqueTransition(net.transitions, k);
    CutKeepsWellFormed(net, k, RemoveTransition(net, k));
  }

  /** Cutting the transition at `k` out of a well formed net, together with
      exactly its arcs, leaves a well formed net. */
  lemma CutKeepsWellFormed(net: Net, k: nat, r: Net)
    requires WellFormed(net) && k < |net.transitions|
    requires r.positions == net.positions && r.transitions == net.transitions[..k] + net.transitions[k + 1..]
    requires forall a :: a in r.arcs <==> a in net.arcs && a !in Refs(net.transitions[k])
    requires forall a :: a in r.arcs ==> r.arcs[a] == net.arcs[a]
    ensures WellFormed(r)
  {
    var ts := net.transitions;
    var f := SkipIndices(ts, k, r.transitions);
    forall i, a | 0 <= i < |f| && a in Refs(r.transitions[i])
      ensures a in r.arcs && r.arcs[a] == net.arcs[a] && net.arcs[a].positionId in r.positions
    {
      assert a in Refs(ts[f[i]]);
      assert a !in Refs(ts[k]);
    }
    SelectionWellFormed(net, r, f);
  }

  /** Where each element of `s` with the one at `k` cut out came from. */
  lemma SkipIndices<T>(s: seq<T>, k: nat, rs: seq<T>) returns (f: seq<nat>)
    requires k < |s| && rs == s[..k] + s[k + 1..]
    ensures |f| == |rs|
    ensures forall i :: 0 <= i < |f| ==> f[i] < |s| && rs[i] == s[f[i]] && f[i] != k
    ensures forall i, j :: 0 <= i < |f| && 0 <= j < |f| && i != j ==> f[i] != f[j]
  {
    f := seq(|rs|, i => if i < k then i else i + 1);
    forall i | 0 <= i < |rs| ensures rs[i] == s[f[i]] {
      SkipAt(s, k, i);
    }
  }

  /** The element at `i` once the one at `k` is cut out. */
  lemma SkipAt<T>(s: seq<T>, k: nat, i: nat)
    requires k < |s| && i < |s| - 1
    ensures (s[..k] + s[k + 1..])[i] == s[if i < k then i else i + 1]
  {
    if i < k {
      assert (s[..k] + s[k + 1..])[i] == s[..k][i];
    } else {
      assert (s[..k] + s[k + 1..])[i] == s[k + 1..][i - k];
    }
  }

  // ---------------------------------------------------------------------
  // Deleting a position

  /**
   Filters one arc list for the deletion of position `p`, threading the arc
   table through: an id whose arc is still in the table and sits on `p` is
   dropped from the list and its arc deleted; any other id stays.
   */
  function Sweep(ids: seq<ArcId>, arcs: map<ArcId, Arc>, p: PosId): (r: (seq<ArcId>, map<ArcId, Arc>))
    ensures forall a :: a in r.0 ==> a in ids
    ensures forall a :: a in ids && !(a in arcs && arcs[a].positionId == p) ==> a in r.0
    ensures forall a :: a in r.1 ==> a in arcs && r.1[a] == arcs[a]
    ensures forall a :: a in arcs && arcs[a].positionId != p ==> a in r.1
    ensures forall a :: a in arcs && a !in ids ==> a in r.1
    ensures forall a :: a in ids && a in arcs && arcs[a].positionId == p ==> a !in r.1
    ensures NoDuplicates(ids) ==>
      NoDuplicates(r.0) && forall a :: a in r.0 && a in arcs ==> arcs[a].positionId != p
    decreases |ids|
  {
    if |ids| == 0 then ([], arcs)
    else
      var a := ids[0];
      assert forall x :: x in ids <==> x == a || x in ids[1..];
      NoDuplicatesTail(ids);
      if a in arcs && arcs[a].positionId == p then
        Sweep(ids[1..], arcs - {a}, p)
      else
        var rest := Sweep(ids[1..], arcs, p);
        NoDuplicatesCons(a, rest.0);
        ([a] + rest.0, rest.1)
  }

  /** A list naming no arc on `p` is swept to itself, the table unchanged. */
  lemma {:induction false} SweepUntouched(ids: seq<ArcId>, arcs: map<ArcId, Arc>, p: PosId)
    requires forall a :: a in ids && a in arcs ==> arcs[a].positionId != p
    ensures Sweep(ids, arcs, p) == (ids, arcs)
    decreases |ids|
  {
    if |ids| > 0 {
      assert forall a :: a in ids[1..] ==> a in ids;
      SweepUntouched(ids[1..], arcs, p);
      assert [ids[0]] + ids[1..] == ids;
    }
  }

  /** Sweeps one transition's input list and then its output list. */
  function SweepOne(t: Transition, arcs: map<ArcId, Arc>, p: PosId): (r: (Transition, map<ArcId, Arc>))
    ensures r.0.id == t.id && r.0.name == t.name
    ensures forall a :: a in Refs(r.0) ==> a in Refs(t)
    ensures forall a :: a in r.0.input ==> a in t.input
    ensures forall a :: a in r.0.output ==> a in t.output
    ensures forall a :: a in t.input && !(a in arcs && arcs[a].positionId == p) ==> a in r.0.input
    ensures forall a :: a in t.output && !(a in arcs && arcs[a].positionId == p) ==> a in r.0.output
    ensures forall a :: a in r.1 ==> a in arcs && r.1[a] == arcs[a]
    ensures forall a :: a in arcs && arcs[a].positionId != p ==> a in r.1
    ensures forall a :: a in arcs && a !in Refs(t) ==> a in r.1
    ensures forall a :: a in Refs(t) && a in arcs && arcs[a].positionId == p ==> a !in r.1
    ensures NoDuplicates(Refs(t)) ==>
      NoDuplicates(Refs(r.0)) && forall a :: a in Refs(r.0) && a in arcs ==> arcs[a].positionId != p
    ensures Untouched(t, arcs, p) ==> r == (t, arcs)
  {
    var (input, arcs1) := Sweep(t.input, arcs, p);
    var (output, arcs2) := Sweep(t.output, arcs1, p);
    var t' := Transition(t.id, t.name, input, output);
    SweepOneFacts(t, arcs, p, input, arcs1, output, arcs2);
    (t', arcs2)
  }

  lemma SweepOneFacts(t: Transition, arcs: map<ArcId, Arc>, p: PosId,
                      input: seq<ArcId>, arcs1: map<ArcId, Arc>, output: seq<ArcId>, arcs2: map<ArcId, Arc>)
    requires (input, arcs1) == Sweep(t.input, arcs, p)
    requires (output, arcs2) == Sweep(t.output, arcs1, p)
    ensures forall a :: a in input + output ==> a in Refs(t)
    ensures forall a :: a in t.output && !(a in arcs && arcs[a].positionId == p) ==> a in output
    ensures forall a :: a in arcs && a !in Refs(t) ==> a in arcs2
    ensures forall a :: a in Refs(t) && a in arcs && arcs[a].positionId == p ==> a !in arcs2
    ensures NoDuplicates(Refs(t)) ==>
      NoDuplicates(input + output) && forall a :: a in input + output && a in arcs ==> arcs[a].positionId != p
    ensures Untouched(t, arcs, p) ==> input == t.input && output == t.output && arcs2 == arcs
  {
    if Untouched(t, arcs, p) {
      assert forall a :: a in t.input || a in t.output ==> a in Refs(t);
      SweepUntouched(t.input, arcs, p);
      SweepUntouched(t.output, arcs, p);
    }
    forall a | a in t.output && !(a in arcs && arcs[a].positionId == p) ensures a in output {
      assert !(a in arcs1 && arcs1[a].positionId == p);
    }
    forall a | a in Refs(t) && a in arcs && arcs[a].positionId == p ensures a !in arcs2 {
      assert a in t.input || a in t.output;
    }
    if NoDuplicates(Refs(t)) {
      NoDuplicatesConcat(t.input, t.output);
      NoDuplicatesConcat(input, output);
      forall a | a in input + output && a in arcs ensures arcs[a].positionId != p {
        assert a in input || a in output;
        if a !in input {
          assert a in t.output && a !in t.input;
          assert a in arcs1;
        }
      }
    }
  }

  /** Sweeps every transition in order, threading the arc table through. */
  function SweepAll(ts: seq<Transition>, arcs: map<ArcId, Arc>, p: PosId): (r: (seq<Transition>, map<ArcId, Arc>))
    ensures |r.0| == |ts|
    decreases |ts|
  {
    if |ts| == 0 then ([], arcs)
    else
      var (t', arcs1) := SweepOne(ts[0], arcs, p);
      var (rest, arcs2) := SweepAll(ts[1..], arcs1, p);
      ([t'] + rest, arcs2)
  }

  /** The `i`-th transition after the sweep is the `i`-th transition swept
      with the table as the earlier transitions left it. */
  lemma {:induction false} SweepAllAt(ts: seq<Transition>, arcs: map<ArcId, Arc>, p: PosId, i: nat)
    requires i < |ts|
    ensures SweepAll(ts, arcs, p).0[i] == SweepOne(ts[i], SweepAll(ts[..i], arcs, p).1, p).0
    decreases i
  {
    if i > 0 {
      SweepAllAt(ts[1..], SweepOne(ts[0], arcs, p).1, p, i - 1);
      SweepAllTail(ts, arcs, p, i);
      SweepAllPrefix(ts, arcs, p, i);
    }
  }

  /** The `i`-th transition after the sweep, for `i > 0`, comes from sweeping
      the rest with the table the first one left. */
  lemma SweepAllTail(ts: seq<Transition>, arcs: map<ArcId, Arc>, p: PosId, i: nat)
    requires 0 < i < |ts|
    ensures SweepAll(ts, arcs, p).0[i] == SweepAll(ts[1..], SweepOne(ts[0], arcs, p).1, p).0[i - 1]
  {
    var o := SweepOne(ts[0], arcs, p);
    var rest := SweepAll(ts[1..], o.1, p);
    assert SweepAll(ts, arcs, p) == ([o.0] + rest.0, rest.1);
    assert ([o.0] + rest.0)[i] == rest.0[i - 1];
  }

  /** The table left by the first `i` transitions is the table left by the
      next `i - 1` after the first one. */
  lemma SweepAllPrefix(ts: seq<Transition>, arcs: map<ArcId, Arc>, p: PosId, i: nat)
    requires 0 < i < |ts|
    ensures SweepAll(ts[..i], arcs, p).1 == SweepAll(ts[1..][..i - 1], SweepOne(ts[0], arcs, p).1, p).1
  {
    var prefix := ts[..i];
    assert prefix[0] == ts[0] && prefix[1..] == ts[1..][..i - 1];
  }

  /** The table only loses entries, and arcs on other positions all stay. */
  lemma {:induction false} SweepAllShrinks(ts: seq<Transition>, arcs: map<ArcId, Arc>, p: PosId)
    ensures var arcs' := SweepAll(ts, arcs, p).1;
      && (forall a :: a in arcs' ==> a in arcs && arcs'[a] == arcs[a])
      && (forall a :: a in arcs && arcs[a].positionId != p ==> a in arcs')
    decreases |ts|
  {
    if |ts| > 0 {
      SweepAllShrinks(ts[1..], SweepOne(ts[0], arcs, p).1, p);
    }
  }

  /** An arc that no transition lists stays in the table. */
  lemma {:induction false} SweepAllKeepsUnlisted(ts: seq<Transition>, arcs: map<ArcId, Arc>, p: PosId, a: ArcId)
    requires a in arcs && forall i :: 0 <= i < |ts| ==> a !in Refs(ts[i])
    ensures a in SweepAll(ts, arcs, p).1
    decreases |ts|
  {
    if |ts| > 0 {
      assert a !in Refs(ts[0]);
      forall i | 0 <= i < |ts[1..]| ensures a !in Refs(ts[1..][i]) {
        assert ts[1..][i] == ts[i + 1];
      }
      SweepAllKeepsUnlisted(ts[1..], SweepOne(ts[0], arcs, p).1, p, a);
    }
  }

  /** A listed arc on `p` leaves the table. */
  lemma {:induction false} SweepAllDeletes(ts: seq<Transition>, arcs: map<ArcId, Arc>, p: PosId, i: nat, a: ArcId)
    requires i < |ts| && a in Refs(ts[i]) && a in arcs && arcs[a].positionId == p
    ensures a !in SweepAll(ts, arcs, p).1
    decreases |ts|
  {
    var arcs1 := SweepOne(ts[0], arcs, p).1;
    var final := SweepAll(ts[1..], arcs1, p).1;
    assert SweepAll(ts, arcs, p).1 == final;
    if a !in arcs1 {
      SweepAllShrinks(ts[1..], arcs1, p);
      assert a !in final;
    } else {
      assert i != 0;
      assert ts[1..][i - 1] == ts[i];
      SweepAllDeletes(ts[1..], arcs1, p, i - 1, a);
    }
  }

  /** `t` lists no arc of the table that is on `p`. */
  ghost predicate Untouched(t: Transition, arcs: map<ArcId, Arc>, p: PosId)
  {
    forall a :: a in Refs(t) && a in arcs ==> arcs[a].positionId != p
  }

  /** The sweep leaves a transition that lists no arc on `p` as it was. */
  lemma SweepAllUntouched(ts: seq<Transition>, arcs: map<ArcId, Arc>, p: PosId, i: nat)
    requires i < |ts| && Untouched(ts[i], arcs, p)
    ensures SweepAll(ts, arcs, p).0[i] == ts[i]
  {
    var before := SweepAll(ts[..i], arcs, p).1;
    SweepAllAt(ts, arcs, p, i);
    SweepAllShrinks(ts[..i], arcs, p);
    assert forall a :: a in Refs(ts[i]) && a in before ==> before[a].positionId != p;
  }

  lemma SweepAllKeepsUntouched(ts: seq<Transition>, arcs: map<ArcId, Arc>, p: PosId)
    ensures forall i :: 0 <= i < |ts| && Untouched(ts[i], arcs, p) ==> SweepAll(ts, arcs, p).0[i] == ts[i]
  {
    forall i | 0 <= i < |ts| && Untouched(ts[i], arcs, p) ensures SweepAll(ts, arcs, p).0[i] == ts[i] {
      SweepAllUntouched(ts, arcs, p, i);
    }
  }

  /** The table before the `i`-th transition is swept agrees with the
      original on every id that transition lists, when no id is listed by
      two transitions. */
  lemma SweepAllBefore(ts: seq<Transition>, arcs: map<ArcId, Arc>, p: PosId, i: nat, a: ArcId)
    requires DistinctRefs(ts) && i < |ts| && a in Refs(ts[i]) && a in arcs
    ensures var before := SweepAll(ts[..i], arcs, p).1; a in before && before[a] == arcs[a]
  {
    var prefix := ts[..i];
    forall j | 0 <= j < |prefix| ensures a !in Refs(prefix[j]) {
      assert prefix[j] == ts[j];
    }
    SweepAllKeepsUnlisted(prefix, arcs, p, a);
    SweepAllShrinks(prefix, arcs, p);
  }

  /** Deleting position `p`: the position goes, and every arc on it that a
      transition lists is unlisted and deleted. */
  function RemovePosition(net: Net, p: PosId): (r: Net)
    ensures r.positions == net.positions - {p}
    ensures |r.transitions| == |net.transitions|
    ensures forall i :: 0 <= i < |net.transitions| && Untouched(net.transitions[i], net.arcs, p) ==>
      r.transitions[i] == net.transitions[i]
  {
    SweepAllKeepsUntouched(net.transitions, net.arcs, p);
    var (ts, arcs) := SweepAll(net.transitions, net.arcs, p);
    Net(net.positions - {p}, ts, arcs)
  }

  /** What the sweep for position `p` does to the `i`-th transition, when no
      id is listed twice and the `i`-th transition's arcs all exist: it keeps
      its id, its name and exactly the ids of arcs on other positions. */
  lemma RemovedPositionTransition(ts: seq<Transition>, arcs: map<ArcId, Arc>, p: PosId, i: nat)
    requires i < |ts| && DistinctRefs(ts)
    requires forall a :: a in Refs(ts[i]) ==> a in arcs
    ensures KeptOffPosition(ts[i], SweepAll(ts, arcs, p).0[i], arcs, p)
    ensures Untouched(ts[i], arcs, p) ==> SweepAll(ts, arcs, p).0[i] == ts[i]
  {
    if Untouched(ts[i], arcs, p) {
      SweepAllUntouched(ts, arcs, p, i);
    }
    var before := SweepAll(ts[..i], arcs, p).1;
    SweepAllAt(ts, arcs, p, i);
    forall a | a in Refs(ts[i]) ensures a in before && before[a] == arcs[a] {
      SweepAllBefore(ts, arcs, p, i, a);
    }
    SweptTransition(ts[i], before, arcs, p);
  }

  /** `t'` is `t` keeping its id, its name and exactly its ids of arcs on
      positions other than `p`, with no repetition. */
  ghost predicate KeptOffPosition(t: Transition, t': Transition, arcs: map<ArcId, Arc>, p: PosId)
    requires forall a :: a in Refs(t) ==> a in arcs
  {
    && t'.id == t.id && t'.name == t.name
    && (forall a :: a in t'.input <==> a in t.input && arcs[a].positionId != p)
    && (forall a :: a in t'.output <==> a in t.output && arcs[a].positionId != p)
    && NoDuplicates(Refs(t'))
  }

  /** Sweeping a transition without repeated ids, against a table that
      agrees with `arcs` on all of them, keeps exactly its ids of arcs on
      other positions. */
  lemma SweptTransition(t: Transition, before: map<ArcId, Arc>, arcs: map<ArcId, Arc>, p: PosId)
    requires NoDuplicates(Refs(t))
    requires forall a :: a in Refs(t) ==> a in arcs && a in before && before[a] == arcs[a]
    ensures KeptOffPosition(t, SweepOne(t, before, p).0, arcs, p)
  {
    assert forall a :: a in t.input ==> a in Refs(t);
    assert forall a :: a in t.output ==> a in Refs(t);
  }

  /** In a well formed net, deleting a position keeps the net well formed;
      no transition lists an arc on the position any more; the arcs deleted
      are exactly the listed arcs on the position; each transition keeps
      its id, its name and every id of an arc on another position; and a
      transition that lists no arc on the position is left as it was. */
  lemma RemovePositionKeepsWellFormed(net: Net, p: PosId)
    requires WellFormed(net)
    ensures var r := RemovePosition(net, p);
      var ts := net.transitions;
      && WellFormed(r)
      && (forall i, a :: 0 <= i < |ts| && a in Refs(r.transitions[i]) ==> r.arcs[a].positionId != p)
      && (forall a :: a in r.arcs <==> a in net.arcs && !(net.arcs[a].positionId == p && exists i :: 0 <= i < |ts| && a in Refs(ts[i])))
      && (forall i :: 0 <= i < |ts| ==>
            && r.transitions[i].id == ts[i].id && r.transitions[i].name == ts[i].name
            && (forall a :: a in r.transitions[i].input <==> a in ts[i].input && net.arcs[a].positionId != p)
            && (forall a :: a in r.transitions[i].output <==> a in ts[i].output && net.arcs[a].positionId != p))
      && (forall i :: 0 <= i < |ts| && Untouched(ts[i], net.arcs, p) ==> r.transitions[i] == ts[i])
  {
    var f := RemovedPositionSubnet(net, p);
    RemovedPositionArcs(net, p);
    SubnetWellFormed(net, RemovePosition(net, p), f);
  }

  lemma RemovedPositionSubnet(net: Net, p: PosId) returns (f: seq<nat>)
    requires WellFormed(net)
    ensures IsSubnet(net, RemovePosition(net, p), f)
    ensures var r := RemovePosition(net, p);
      var ts := net.transitions;
      forall i :: 0 <= i < |ts| ==>
        && r.transitions[i].id == ts[i].id && r.transitions[i].name == ts[i].name
        && (forall a :: a in r.transitions[i].input <==> a in ts[i].input && net.arcs[a].positionId != p)
        && (forall a :: a in r.transitions[i].output <==> a in ts[i].output && net.arcs[a].positionId != p)
        && (forall a :: a in Refs(r.transitions[i]) ==> r.arcs[a].positionId != p)
  {
    RemovedPositionLists(net, p);
    f := Identity(|net.transitions|);
  }

  lemma RemovedPositionLists(net: Net, p: PosId)
    requires WellFormed(net)
    ensures var r := RemovePosition(net, p);
      var ts := net.transitions;
      forall i :: 0 <= i < |ts| ==>
        && r.transitions[i].id == ts[i].id && r.transitions[i].name == ts[i].name
        && (forall a :: a in r.transitions[i].input <==> a in ts[i].input && net.arcs[a].positionId != p)
        && (forall a :: a in r.transitions[i].output <==> a in ts[i].output && net.arcs[a].positionId != p)
        && NoDuplicates(Refs(r.transitions[i]))
        && (forall a :: a in Refs(r.transitions[i]) ==>
              a in Refs(ts[i]) && a in r.arcs && r.arcs[a] == net.arcs[a] && net.arcs[a].positionId != p)
  {
    var ts := net.transitions;
    var r := RemovePosition(net, p);
    var rs := r.transitions;
    SweepAllShrinks(ts, net.arcs, p);
    forall i | 0 <= i < |ts|
      ensures rs[i].id == ts[i].id && rs[i].name == ts[i].name
      ensures forall a :: a in rs[i].input <==> a in ts[i].input && net.arcs[a].positionId != p
      ensures forall a :: a in rs[i].output <==> a in ts[i].output && net.arcs[a].positionId != p
      ensures NoDuplicates(Refs(rs[i]))
      ensures forall a :: a in Refs(rs[i]) ==> a in Refs(ts[i]) && a in r.arcs && r.arcs[a] == net.arcs[a] && net.arcs[a].positionId != p
    {
      RemovedPositionTransition(ts, net.arcs, p, i);
      assert forall a :: a in Refs(rs[i]) <==> a in rs[i].input || a in rs[i].output;
      assert forall a :: a in Refs(ts[i]) <==> a in ts[i].input || a in ts[i].output;
    }
  }

  lemma RemovedPositionArcs(net: Net, p: PosId)
    requires WellFormed(net)
    ensures var r := RemovePosition(net, p);
      var ts := net.transitions;
      forall a :: a in r.arcs <==> a in net.arcs && !(net.arcs[a].positionId == p && exists i :: 0 <= i < |ts| && a in Refs(ts[i]))
  {
    var ts := net.transitions;
    var r := RemovePosition(net, p);
    SweepAllShrinks(ts, net.arcs, p);
    forall a | a in net.arcs ensures a in r.arcs <==> !(net.arcs[a].positionId == p && exists i :: 0 <= i < |ts| && a in Refs(ts[i])) {
      if net.arcs[a].positionId == p {
        if exists i :: 0 <= i < |ts| && a in Refs(ts[i]) {
          var i :| 0 <= i < |ts| && a in Refs(ts[i]);
          SweepAllDeletes(ts, net.arcs, p, i, a);
        } else {
          SweepAllKeepsUnlisted(ts, net.arcs, p, a);
        }
      }
    }
  }

  // ---------------------------------------------------------------------
  // Drawing an arc

  /** The element under the pointer when the arc tool is pressed or
      released. */
  datatype Hit = PositionHit(id: PosId) | TransitionHit(id: TransId) | ArcHit(id: ArcId)

  /** Hit-testing only ever reports elements of the net. */
  predicate HitExists(net: Net, h: Hit)
  {
    match h
    case PositionHit(id) => id in net.positions
    case TransitionHit(id) => exists i :: 0 <= i < |net.transitions| && net.transitions[i].id == id
    case ArcHit(id) => id in net.arcs
  }

  datatype ArcOutcome =
    | Ignored             // released on nothing, or on the element it started from
    | Rejected            // neither or both ends are positions
    | Created(id: ArcId)

  /** The weight field as read: NaN and 0 fall back to 1. */
  function ArcWeight(field: Option<int>): (w: int)
    ensures w != 0
    ensures field.Some? && field.value != 0 ==> w == field.value
    ensures field.None? || field.value == 0 ==> w == 1
  {
    if field.None? || field.value == 0 then 1 else field.value
  }

  /** Appends `a` to the input (or output) list of the first transition with
      id `tid`; no change when there is none. */
  function Attach(ts: seq<Transition>, tid: TransId, a: ArcId, toInput: bool): (r: seq<Transition>)
    ensures |r| == |ts|
    ensures match FindTransition(ts, tid)
      case None => r == ts
      case Some(k) =>
        && (forall i :: 0 <= i < |ts| && i != k ==> r[i] == ts[i])
        && r[k].id == ts[k].id && r[k].name == ts[k].name
        && (toInput ==> r[k].input == ts[k].input + [a] && r[k].output == ts[k].output)
        && (!toInput ==> r[k].output == ts[k].output + [a] && r[k].input == ts[k].input)
  {
    match FindTransition(ts, tid)
    case None => ts
    case Some(k) =>
      var t := ts[k];
      ts[k := if toInput then t.(input := t.input + [a]) else t.(output := t.output + [a])]
  }

  /**
   Releasing the arc tool over `to`, having pressed it over `from`. An arc is
   created only between a position and something that is not a position; it
   takes the next counter id, sits on the position end, is an inhibitor only
   if one was chosen and it leaves a position, and is listed as an input of
   the transition it enters or an output of the transition it leaves.
   */
  function CreateArc(e: Editor, from: Hit, to: Option<Hit>, weightField: Option<int>, inhibitorChosen: bool): (r: (Editor, ArcOutcome))
    requires HitExists(e.net, from) && (to.Some? ==> HitExists(e.net, to.value))
  {
    if to.None? || to.value.id == from.id then (e, Ignored)
    else
      var fromIsPosition := from.PositionHit?;
      var toIsPosition := to.value.PositionHit?;
      if fromIsPosition == toIsPosition then (e, Rejected)
      else
        var id := ArcKey(e.nextArcId);
        var arc := Arc(if fromIsPosition then from.id else to.value.id, ArcWeight(weightField), inhibitorChosen && fromIsPosition);
        var ts := if fromIsPosition then Attach(e.net.transitions, to.value.id, id, true)
                  else Attach(e.net.transitions, from.id, id, false);
        (Editor(Net(e.net.positions, ts, e.net.arcs[id := arc]), e.nextArcId + 1), Created(id))
  }

  /** When an arc is created: which arc, and nothing else in the net
      changes but the one list it joins. */
  lemma CreateArcEffect(e: Editor, from: Hit, to: Option<Hit>, weightField: Option<int>, inhibitorChosen: bool)
    requires HitExists(e.net, from) && (to.Some? ==> HitExists(e.net, to.value))
    ensures var (e', out) := CreateArc(e, from, to, weightField, inhibitorChosen);
      && (out.Created? <==> to.Some? && to.value.id != from.id && (from.PositionHit? != to.value.PositionHit?))
      && (!out.Created? ==> e' == e)
      && (out.Rejected? <==> to.Some? && to.value.id != from.id && (from.PositionHit? == to.value.PositionHit?))
      && (out.Created? ==>
            && out.id == ArcKey(e.nextArcId) && e'.nextArcId == e.nextArcId + 1
            && e'.net.positions == e.net.positions
            && e'.net.arcs == e.net.arcs[out.id := Arc(if from.PositionHit? then from.id else to.value.id,
                                                       ArcWeight(weightField),
                                                       inhibitorChosen && from.PositionHit?)]
            && e'.net.arcs[out.id].positionId in e.net.positions
            && (e'.net.arcs[out.id].isInhibitor ==> from.PositionHit?))
  {
  }

  /** A created arc joining a transition is listed as its input when it
      enters the transition and as its output when it leaves it. */
  lemma CreateArcListed(e: Editor, from: Hit, to: Hit, weightField: Option<int>, inhibitorChosen: bool)
    requires HitExists(e.net, from) && HitExists(e.net, to)
    requires from.PositionHit? != to.PositionHit? && to.id != from.id
    ensures var (e', out) := CreateArc(e, from, Some(to), weightField, inhibitorChosen);
      var ts := e.net.transitions;
      && out.Created?
      && (from.PositionHit? && to.TransitionHit? ==>
            exists k :: 0 <= k < |ts| && ts[k].id == to.id && e'.net.transitions[k].input == ts[k].input + [out.id])
      && (from.TransitionHit? ==>
            exists k :: 0 <= k < |ts| && ts[k].id == from.id && e'.net.transitions[k].output == ts[k].output + [out.id])
  {
    var ts := e.net.transitions;
    if from.PositionHit? && to.TransitionHit? {
      var k := FindTransition(ts, to.id).value;
      assert ts[k].id == to.id;
    } else if from.TransitionHit? {
      var k := FindTransition(ts, from.id).value;
      assert ts[k].id == from.id;
    }
  }

  /** Drawing an arc keeps the editor invariant: the new id is fresh, so the
      arc is listed once; its position exists; and an output arc is never an
      inhibitor. */
  lemma CreateArcKeepsInv(e: Editor, from: Hit, to: Option<Hit>, weightField: Option<int>, inhibitorChosen: bool)
    requires EditorInv(e)
    requires HitExists(e.net, from) && (to.Some? ==> HitExists(e.net, to.value))
    ensures EditorInv(CreateArc(e, from, to, weightField, inhibitorChosen).0)
  {
    var (e', out) := CreateArc(e, from, to, weightField, inhibitorChosen);
    if out.Created? {
      var net := e.net;
      var id := out.id;
      var toInput := from.PositionHit?;
      var tid := if toInput then to.value.id else from.id;
      var k := match FindTransition(net.transitions, tid) case None => |net.transitions| case Some(k) => k;
      AttachedWellFormed(net, e'.net, id, e'.net.arcs[id], k, toInput);
      forall n: nat | n >= e'.nextArcId ensures ArcKey(n) !in e'.net.arcs {
        if ArcKey(n) == id {
          ArcKeyInjective(n, e.nextArcId);
        }
      }
    }
  }

  /** Adding a fresh arc to the table, and listing it in at most one
      transition (the `k`-th, if there is one), keeps a net well formed when
      the arc sits on an existing position and is no inhibitor if it is an
      output. */
  lemma AttachedWellFormed(net: Net, r: Net, id: ArcId, arc: Arc, k: nat, toInput: bool)
    requires WellFormed(net) && id !in net.arcs
    requires r.positions == net.positions && r.arcs == net.arcs[id := arc]
    requires |r.transitions| == |net.transitions|
    requires forall i :: 0 <= i < |net.transitions| && i != k ==> r.transitions[i] == net.transitions[i]
    requires k < |net.transitions| ==>
      var t, t' := net.transitions[k], r.transitions[k];
      && t'.id == t.id && arc.positionId in net.positions
      && (toInput ==> t'.input == t.input + [id] && t'.output == t.output)
      && (!toInput ==> t'.output == t.output + [id] && t'.input == t.input && !arc.isInhibitor)
    ensures WellFormed(r)
  {
    var ts := net.transitions;
    var rs := r.transitions;
    assert forall i :: 0 <= i < |ts| ==> id !in Refs(ts[i]);
    AttachedLists(ts, rs, id, k, toInput);
    assert ArcsResolve(r) by {
      forall i | 0 <= i < |rs| ensures Resolves(r.arcs, rs[i].input) && Resolves(r.arcs, rs[i].output) {
        assert forall a :: a in rs[i].input || a in rs[i].output ==> a in Refs(rs[i]);
      }
    }
    assert DistinctRefs(rs) by {
      forall i, j, a | 0 <= i < |rs| && 0 <= j < |rs| && i != j && a in Refs(rs[i]) ensures a !in Refs(rs[j]) {
        assert a in Refs(ts[i]) || (i == k && a == id);
      }
    }
    forall i, a | 0 <= i < |rs| && a in rs[i].output && a in r.arcs ensures !r.arcs[a].isInhibitor {
      if a != id {
        assert a in ts[i].output;
      }
    }
    forall i, a | 0 <= i < |rs| && a in Refs(rs[i]) ensures a in r.arcs && r.arcs[a].positionId in r.positions {
      assert a in Refs(ts[i]) || (i == k && a == id);
    }
  }

  /** The lists after appending a fresh `id` to one list of the `k`-th
      transition: each lists what it did, plus `id` at `k`, still without
      repetitions. */
  lemma AttachedLists(ts: seq<Transition>, rs: seq<Transition>, id: ArcId, k: nat, toInput: bool)
    requires forall i :: 0 <= i < |ts| ==> NoDuplicates(Refs(ts[i])) && id !in Refs(ts[i])
    requires |rs| == |ts|
    requires forall i :: 0 <= i < |ts| && i != k ==> rs[i] == ts[i]
    requires k < |ts| ==>
      var t, t' := ts[k], rs[k];
      && t'.id == t.id
      && (toInput ==> t'.input == t.input + [id] && t'.output == t.output)
      && (!toInput ==> t'.output == t.output + [id] && t'.input == t.input)
    ensures forall i :: 0 <= i < |rs| ==> NoDuplicates(Refs(rs[i]))
    ensures forall i, a :: 0 <= i < |rs| && a in Refs(rs[i]) ==> a in Refs(ts[i]) || (i == k && a == id)
    ensures forall i, a :: 0 <= i < |rs| && a in rs[i].output ==> a in ts[i].output || (i == k && a == id && !toInput)
  {
    if k < |ts| {
      var t, t' := ts[k], rs[k];
      NoDuplicatesConcat(t.input, t.output);
      NoDuplicatesConcat(t.input, [id]);
      NoDuplicatesConcat(t.output, [id]);
      NoDuplicatesConcat(t'.input, t'.output);
      assert forall a :: a in Refs(t') <==> a in Refs(t) || a == id;
    }
  }

  // ---------------------------------------------------------------------
  // Property editors

  /** The token-count field of the selected position: the number read from
      the field, or 0 when none is read. */
  function SetTokens(net: Net, p: PosId, field: Option<int>): (r: Net)
    requires p in net.positions
    ensures r.transitions == net.transitions && r.arcs == net.arcs
    ensures r.positions.Keys == net.positions.Keys
    ensures forall q :: q in net.positions && q != p ==> r.positions[q] == net.positions[q]
    ensures r.positions[p].name == net.positions[p].name
    ensures field.Some? ==> r.positions[p].tokens == field.value
    ensures field.None? ==> r.positions[p].tokens == 0
  {
    var count := if field.Some? then field.value else 0;
    net.(positions := net.positions[p := net.positions[p].(tokens := count)])
  }

  /** The weight field of the selected arc, read as when the arc is drawn. */
  function SetWeight(net: Net, a: ArcId, field: Option<int>): (r: Net)
    requires a in net.arcs
    ensures r.positions == net.positions && r.transitions == net.transitions
    ensures r.arcs.Keys == net.arcs.Keys
    ensures forall b :: b in net.arcs && b != a ==> r.arcs[b] == net.arcs[b]
    ensures r.arcs[a].positionId == net.arcs[a].positionId && r.arcs[a].isInhibitor == net.arcs[a].isInhibitor
    ensures r.arcs[a].weight == ArcWeight(field) && r.arcs[a].weight != 0
  {
    net.(arcs := net.arcs[a := net.arcs[a].(weight := ArcWeight(field))])
  }

  /** The type selector of the selected arc: choosing the red type makes it
      an inhibitor arc, any other choice a normal one. It does not look at
      which list the arc is on. */
  function SetArcType(net: Net, a: ArcId, red: bool): (r: Net)
    requires a in net.arcs
    ensures r.positions == net.positions && r.transitions == net.transitions
    ensures r.arcs.Keys == net.arcs.Keys
    ensures forall b :: b in net.arcs && b != a ==> r.arcs[b] == net.arcs[b]
    ensures r.arcs[a].positionId == net.arcs[a].positionId && r.arcs[a].weight == net.arcs[a].weight
    ensures r.arcs[a].isInhibitor <==> red
  {
    net.(arcs := net.arcs[a := net.arcs[a].(isInhibitor := red)])
  }

  /** Editing a token count or an arc weight keeps the editor invariant. */
  lemma PropertyEditsKeepInv(e: Editor, p: PosId, tokens: Option<int>, a: ArcId, weight: Option<int>)
    requires EditorInv(e)
    ensures p in e.net.positions ==> EditorInv(Editor(SetTokens(e.net, p, tokens), e.nextArcId))
    ensures a in e.net.arcs ==> EditorInv(Editor(SetWeight(e.net, a, weight), e.nextArcId))
  {
  }

  /** The type selector keeps the net well formed exactly when it does not
      make an output arc an inhibitor arc. */
  lemma ArcTypeWellFormed(net: Net, a: ArcId, red: bool)
    requires WellFormed(net) && a in net.arcs
    ensures WellFormed(SetArcType(net, a, red)) <==>
      !red || forall i :: 0 <= i < |net.transitions| ==> a !in net.transitions[i].output
  {
    var r := SetArcType(net, a, red);
    if red && !(forall i :: 0 <= i < |net.transitions| ==> a !in net.transitions[i].output) {
      var i :| 0 <= i < |net.transitions| && a in net.transitions[i].output;
      assert r.arcs[a].isInhibitor;
    }
  }

  // ---------------------------------------------------------------------
  // Whole-net operations

  /** A new, empty net; the counter restarts at 1. */
  function NewNetwork(): (e: Editor)
    ensures EditorInv(e)
    ensures |e.net.positions| == 0 && |e.net.transitions| == 0 && |e.net.arcs| == 0
  {
    Editor(Net(map[], [], map[]), 1)
  }

  /** Loading a net: it replaces the current one as it is, and the counter
      is recomputed from its arc ids, so every id the counter hands out is
      fresh; a well formed net gives a consistent editor. */
  method Load(net: Net) returns (e: Editor)
    ensures e.net == net
    ensures IsNextArcId(net.arcs.Keys, e.nextArcId)
    ensures forall n: nat :: n >= e.nextArcId ==> ArcKey(n) !in e.net.arcs
    ensures WellFormed(net) ==> EditorInv(e)
  {
    var next := RecomputeNextArcId(net.arcs);
    e := Editor(net, next as nat);
    forall n: nat | n >= e.nextArcId ensures ArcKey(n) !in e.net.arcs {
      FreshAfterRecompute(net.arcs, next, n);
    }
  }

  /** Every deletion keeps the editor invariant: arcs only leave the table. */
  lemma RemovalsKeepInv(e: Editor, p: PosId, k: nat, a: ArcId)
    requires EditorInv(e)
    ensures EditorInv(Editor(RemovePosition(e.net, p), e.nextArcId))
    ensures k < |e.net.transitions| ==> EditorInv(Editor(RemoveTransition(e.net, k), e.nextArcId))
    ensures EditorInv(Editor(RemoveArc(e.net, a), e.nextArcId))
  {
    RemovePositionKeepsWellFormed(e.net, p);
    if k < |e.net.transitions| {
      RemoveTransitionKeepsWellFormed(e.net, k);
    }
    RemoveArcKeepsWellFormed(e.net, a);
  }
}
