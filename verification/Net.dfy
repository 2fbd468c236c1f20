/**
 The data model of a Petri net as the editor keeps it: a table of positions
 (places), an ordered list of transitions that refer to arcs by id, and a
 table of arcs. Canvas coordinates, guards and delays are presentation-only
 and are not part of the model.
 */
module Net {

  type PosId = string
  type ArcId = string
  type TransId = string

  /** A position's token count is an `int` because the engine's arithmetic is
      unchecked; `NonNegative` states when no count has gone below zero. */
  datatype Position = Position(name: string, tokens: int)

  /** A transition refers to its arcs by id, in insertion order. */
  datatype Transition = Transition(id: TransId, name: string, input: seq<ArcId>, output: seq<ArcId>)

  /** The transition end of an arc is implicit: it is the transition whose
      input or output list holds the arc's id. */
  datatype Arc = Arc(positionId: PosId, weight: int, isInhibitor: bool)

  datatype Net = Net(positions: map<PosId, Position>, transitions: seq<Transition>, arcs: map<ArcId, Arc>)

  /** A marking assigns a token count to each position id it names. */
  type Marking = map<PosId, int>

  /** A position absent from a marking holds no tokens. */
  function TokensIn(m: Marking, p: PosId): int
  {
    if p in m then m[p] else 0
  }

  predicate NonNegative(m: Marking)
  {
    forall p :: p in m ==> m[p] >= 0
  }

  /** Every arc id in `ids` names an arc of the table. */
  predicate Resolves(arcs: map<ArcId, Arc>, ids: seq<ArcId>)
  {
    forall a :: a in ids ==> a in arcs
  }

  /** Every arc id any transition lists is in the arc table; the engine
      dereferences these ids without a check. */
  predicate ArcsResolve(net: Net)
  {
    forall i :: 0 <= i < |net.transitions| ==>
      Resolves(net.arcs, net.transitions[i].input) && Resolves(net.arcs, net.transitions[i].output)
  }

  /** All arc ids a transition refers to, inputs first. */
  function Refs(t: Transition): seq<ArcId>
  {
    t.input + t.output
  }

  predicate NoDuplicates<T(==)>(s: seq<T>)
  {
    forall i, j :: 0 <= i < j < |s| ==> s[i] != s[j]
  }

  /** Every arc id is listed at most once, by at most one transition. */
  predicate DistinctRefs(ts: seq<Transition>)
  {
    && (forall i :: 0 <= i < |ts| ==> NoDuplicates(Refs(ts[i])))
    && (forall i, j, a :: 0 <= i < |ts| && 0 <= j < |ts| && i != j && a in Refs(ts[i]) ==> a !in Refs(ts[j]))
  }

  /**
   The structural invariant that drawing and deleting elements keep:
   - every referenced arc exists and sits on an existing position;
   - every arc is owned by one transition, and listed there once;
   - transition ids are unique;
   - an inhibitor arc is never an output arc. The arc tool only draws
     inhibitor arcs out of positions, but the arc-type editor can set the
     flag on any arc; firing ignores it on output arcs.
   */
  predicate WellFormed(net: Net)
  {
    var ts := net.transitions;
    && ArcsResolve(net)
    && (forall i, a :: 0 <= i < |ts| && a in Refs(ts[i]) ==> a in net.arcs && net.arcs[a].positionId in net.positions)
    && DistinctRefs(ts)
    && (forall i, j :: 0 <= i < |ts| && 0 <= j < |ts| && ts[i].id == ts[j].id ==> i == j)
    && (forall i, a :: 0 <= i < |ts| && a in ts[i].output && a in net.arcs ==> !net.arcs[a].isInhibitor)
  }

  /** The snapshot of the live token counts, keyed by position id. */
  function CurrentMarking(net: Net): (m: Marking)
    ensures m.Keys == net.positions.Keys
    ensures forall p :: p in m ==> m[p] == net.positions[p].tokens
  {
    map p | p in net.positions :: net.positions[p].tokens
  }

  /** The index of the first transition with the given id, as `find` returns it. */
  function FindTransition(ts: seq<Transition>, id: TransId): (r: Option<nat>)
    ensures r.Some? ==> r.value < |ts| && ts[r.value].id == id
                        && forall j :: 0 <= j < r.value ==> ts[j].id != id
    ensures r.None? <==> forall j :: 0 <= j < |ts| ==> ts[j].id != id
  {
    if |ts| == 0 then None
    else if ts[0].id == id then Some(0)
    else match FindTransition(ts[1..], id)
      case None => None
      case Some(k) => Some(k + 1)
  }

  datatype Option<T> = None | Some(value: T)

  datatype Element = PositionElement(position: Position) | TransitionElement(transition: Transition) | NotFound

  /** Resolves an id to a position first, and otherwise to the first
      transition carrying that id. */
  function FindElement(net: Net, id: string): (e: Element)
    ensures id in net.positions ==> e == PositionElement(net.positions[id])
    ensures id !in net.positions && e.TransitionElement? ==>
      exists i :: 0 <= i < |net.transitions| && net.transitions[i] == e.transition && e.transition.id == id
                  && forall j :: 0 <= j < i ==> net.transitions[j].id != id
    ensures e.NotFound? <==> id !in net.positions && forall j :: 0 <= j < |net.transitions| ==> net.transitions[j].id != id
  {
    if id in net.positions then PositionElement(net.positions[id])
    else match FindTransition(net.transitions, id)
      case None => NotFound
      case Some(i) => TransitionElement(net.transitions[i])
  }
}
