# Petri-net engine model

A Dafny model of the Petri-net editor and simulator in `static/js/script.js`.
A net is a table of positions, each holding a token count. It also has an
ordered list of transitions, each listing input and output arc ids, and a
table of arcs. Each arc has a position, a weight and an inhibitor flag. The
model covers the engine that works on that data:

- `Net.dfy`: the data model, the snapshot of the live marking, lookup by id,
  and the structural invariant `WellFormed` that drawing and deleting keep.
  The arc-type editor can break one part of it by making an output arc an
  inhibitor (`Editing.ArcTypeWellFormed`); firing ignores that flag on
  output arcs.
- `Firing.dfy`: the analyser's enablement test and firing rule, as pure
  functions on markings (`map<PosId, int>`).
- `Simulator.dfy`: the single step against the live counts, with its own
  enablement test. Also the saved marking and its restore, the Idle/Running
  flag, and the token tool.
- `Analysis.dfy`: the bounded breadth-first search over markings, its
  report, and the safe/live verdicts drawn from it.
- `Editing.dfy`: deleting a position, a transition or an arc with its
  cascade, drawing an arc, the property editors, a new net, and loading a
  net.
- `ArcIds.dfy`: arc ids `"a" + n`, how the page reads a number back from an
  id, and the counter recomputed after loading.
- `AsWritten.dfy`: the analyser and the restore exactly as the page performs
  them, kept beside the corrected definitions (see Findings).
- `Examples.dfy`: the three example nets the page offers, and what the model
  proves about them.

Token counts are unbounded integers, which matches JavaScript numbers for
these values. They may go negative, because the page does not prevent it;
`Firing.FireKeepsNonNegative` states when they cannot.

## Model

| member | source | states |
|---|---|---|
| Net.CurrentMarking | static/js/script.js:267-273 | the snapshot names exactly the live positions, each with its live token count |
| Net.FindTransition | static/js/script.js:874-881 | the index found holds the id and no earlier transition does; none is found exactly when no transition has the id |
| Net.FindElement | static/js/script.js:745-750 | a position with the id wins; otherwise the first transition carrying the id is found; nothing is found exactly when neither exists |
| Firing.AllHold | static/js/script.js:277-282 | the left-to-right test succeeds exactly when every arc of the list holds |
| Firing.Enabled | static/js/script.js:276-283 | a transition is enabled iff each input arc holds: a normal arc needs at least its weight, an inhibitor arc fewer than its weight, an absent position counts 0; no inputs means enabled |
| Firing.Withdraw | static/js/script.js:289-296 | the input pass keeps the same positions and lowers each by the total weight of normal input arcs on it |
| Firing.Deposit | static/js/script.js:298-304 | the output pass adds the output positions to the marking and raises each by the total output weight on it, an absent position starting at 0 |
| Firing.FireEffect | static/js/script.js:286-307 | after firing, a position's count is its old count less what normal inputs take (only if it was present) plus what outputs add |
| Firing.FireFrame | static/js/script.js:286-307 | a position that no arc of the transition names is left exactly as it was, present or absent |
| Firing.ConsumptionBounded | static/js/script.js:277-296 | when each position feeds at most one normal arc and every check passed, no position loses more than it held |
| Firing.FireKeepsNonNegative | static/js/script.js:286-307 | with covered, pairwise distinct supply positions and non-negative output weights, firing keeps every count non-negative |
| Firing.EnabledFireKeepsNonNegative | static/js/script.js:276-307 | an enabled transition with pairwise distinct supply positions keeps a non-negative marking non-negative |
| Firing.OverdrawWithSharedSupply | static/js/script.js:277-296 | two weight-1 arcs on one position holding one token both pass the check, and firing leaves -1 there |
| Simulator.AllStepHold | static/js/script.js:1199-1206 | the step's test succeeds exactly when every input arc's position exists and is empty (inhibitor) or holds the weight (normal) |
| Simulator.StepTestAgrees | static/js/script.js:1199-1206 | with existing positions, unit-weight inhibitor arcs and non-negative counts, the step's test and the analyser's test agree |
| Simulator.StepTestDiffers | static/js/script.js:1202-1205 | an inhibitor arc of weight 2 over one token, or on a missing position, passes the analyser's test and fails the step's |
| Simulator.StepWithdraw | static/js/script.js:1212-1218 | the step's input pass keeps every position and its name and lowers each live count by the weight of the normal input arcs on it |
| Simulator.StepDeposit | static/js/script.js:1220-1226 | the step's output pass raises each existing position by the output weight on it and creates no position |
| Simulator.StepFireMatchesFire | static/js/script.js:1209-1226 | when every output arc sits on an existing position, the step writes back exactly the marking the analyser's firing computes |
| Simulator.FirstStepEnabled | static/js/script.js:1198-1210 | the index chosen passes the step's test and no earlier one does; none is chosen exactly when none passes |
| Simulator.Step | static/js/script.js:1197-1230 | the step fires the first transition in declaration order that passes its test, changes only counts, and leaves the net unchanged when none passes |
| Simulator.StepFrame | static/js/script.js:1209-1226 | a step leaves the count of every position the fired transition's arcs do not name unchanged |
| Simulator.StepKeepsNonNegative | static/js/script.js:1197-1230 | when supply positions are pairwise distinct per transition and output weights are non-negative, a step keeps every live count non-negative |
| Simulator.Toggle | static/js/script.js:1240-1249 | the play button flips Idle and Running and changes nothing else |
| Simulator.SaveMarking | static/js/script.js:1233-1237 | saving overwrites the saved count of every live position and keeps the saved counts of positions no longer live |
| Simulator.Reset | static/js/script.js:1184-1194 | restore acts only while Idle with a non-empty saved marking; every live position with a saved count gets it back, the others keep theirs, and nothing else changes |
| Simulator.SaveResetRoundTrip | static/js/script.js:1184-1194 | save, any edits of the counts, then restore while Idle gives every position back its saved count, provided no position was added |
| Simulator.SaveResetRestoresMarking | static/js/script.js:1233-1237 | with the same positions, the restored snapshot equals the saved snapshot |
| Simulator.TokenClick | static/js/script.js:779-788 | the left button adds one token; the right button removes one exactly when the position holds some; other buttons and other positions are left unchanged |
| Simulator.TokenClickRoundTrip | static/js/script.js:782-786 | removing a token right after adding one restores the net |
| Analysis.ClosedHoldsReachable | static/js/script.js:236-262 | a set of markings holding the start and closed under firing holds every reachable marking |
| Analysis.RaiseMax | static/js/script.js:244-249 | the running maximum after a marking is at least the old one, bounds every count in the marking, and is attained |
| Analysis.SuccessorsComplete | static/js/script.js:251-254 | every enabled transition's resulting marking is pushed |
| Analysis.SuccessorsSound | static/js/script.js:251-254 | every pushed marking is the result of some enabled transition |
| Analysis.NoSuccessors | static/js/script.js:251-258 | nothing is pushed exactly when no transition is enabled |
| Analysis.Blocked | static/js/script.js:251-258 | the blockages one marking adds are at most the transition count, zero iff every transition is enabled, and all of them when none is |
| Analysis.AddKeepsMax | static/js/script.js:244-249 | recording a marking keeps the maximum exact over the visited markings |
| Analysis.AddKeepsBlockages | static/js/script.js:251-258 | recording a marking keeps "no blockage" equivalent to "every visited marking enables every transition" |
| Analysis.Visit | static/js/script.js:238-259 | one level visits every marking of its frontier and never forgets a visited marking |
| Analysis.VisitKeepsInv | static/js/script.js:238-259 | one level keeps the visited set closed up to the pending markings, everything reachable, the maximum exact and the blockage meaning |
| Analysis.Explore | static/js/script.js:236-262 | the level loop stops within the cap, and stops early only with an empty frontier |
| Analysis.ExploreKeepsInv | static/js/script.js:236-262 | the level loop preserves the search invariant |
| Analysis.LevelStep | static/js/script.js:236-262 | one level turns the markings reachable by fewer than k firings, with the next level pending, into those reachable by fewer than k + 1 firings |
| Analysis.ExploreLevels | static/js/script.js:236-262 | after the level loop, however it stopped, the visited markings are exactly those reachable by fewer firings than the levels processed |
| Analysis.VisitShape | static/js/script.js:238-259 | one level visits only markings of its frontier, and pushes exactly successors of frontier markings, all successors of each marking it visits for the first time |
| Analysis.SimulateReachableStates | static/js/script.js:229-264 | at most the cap of levels; finish iff fewer levels than the cap; the start is visited; len counts the distinct visited markings, all reachable, and all reachable ones when finished; whether or not the cap was hit, the visited markings are exactly those reachable by fewer firings than the levels processed; maximum is the largest count seen; blockages is the number of transitions each distinct visited marking disables, summed over them, so zero iff every visited marking enables every transition |
| Analysis.FinishedIsComplete | static/js/script.js:236-263 | a search that finished before the cap has visited every reachable marking |
| Analysis.NoTransitionsReport | static/js/script.js:229-264 | a net without transitions reports one marking, no blockage, one level, finished |
| Analysis.DeadMarkingReport | static/js/script.js:229-264 | a start marking enabling nothing reports one marking, one blockage per transition, one level, finished |
| Analysis.AddKeepsTotal | static/js/script.js:251-258 | recording a marking not yet visited adds exactly the transitions it disables to the blockage total |
| Analysis.PerformAnalysis | static/js/script.js:167-224 | the analysis of the current marking runs at most 10 levels, visits at least the start marking, reports finished iff it stopped before the cap, safe iff the maximum is at most 1, and live iff there are transitions and no blockage |
| Analysis.Classify | static/js/script.js:171-196 | safe iff maximum at most 1; dead iff no transitions; live iff transitions and no blockage; quasi-live iff transitions and some blockage |
| Analysis.VerdictMeaning | static/js/script.js:171-196 | safe iff no visited marking holds more than one token anywhere; live iff every visited marking enables every transition; a finished search visited exactly the reachable markings |
| ArcIds.ParseInt | static/js/script.js:397 | no number is read exactly when no digit follows the optional sign; otherwise the value of the leading digits, negated after a minus sign |
| ArcIds.DropFirstA | static/js/script.js:397 | an id without an `a` is unchanged; otherwise exactly its first `a` is cut out and everything else kept in order |
| ArcIds.ArcKeyNumber | static/js/script.js:859 | reading back the number of the id made from counter value n gives n |
| ArcIds.ArcKeyInjective | static/js/script.js:859 | distinct counter values make distinct ids |
| ArcIds.RecomputeNextArcId | static/js/script.js:395-402 | the recomputed counter is at least 1, above every number read from an id, and 1 or one more than such a number |
| ArcIds.RecomputeOver | static/js/script.js:457-464 | for any reading of numbers from ids, the loop over the ids in whatever order it picks them yields a value at least 1, above every number read, and 1 or one more than such a number |
| ArcIds.RecomputeStep | static/js/script.js:398-400 | one id's turn keeps the running value right for the ids seen so far |
| ArcIds.FreshAfterRecompute | static/js/script.js:395-402 | after recomputation no id the counter will hand out is already taken |
| ArcIds.NextArcIdIsLeast | static/js/script.js:395-402 | the recomputed counter is the least value of at least 1 above every number read from an id |
| Editing.Without | static/js/script.js:997-998 | filtering out an id keeps exactly the other ids, without creating repetitions; a list without the id comes back as it was |
| Editing.UnlistArc | static/js/script.js:996-999 | every transition keeps its id and name and lists exactly what it listed, less the deleted arc; a transition that did not list the arc is unchanged |
| Editing.RemoveArc | static/js/script.js:993-999 | deleting an arc removes it from the table and from every transition, keeps the positions, and leaves every transition that did not list it unchanged |
| Editing.RemoveArcKeepsWellFormed | static/js/script.js:993-999 | deleting an arc keeps the net well formed, each transition keeps its id, name and every other arc id, and a transition that did not list it is unchanged |
| Editing.DropTransition | static/js/script.js:985 | the kept transitions are exactly those with another id |
| Editing.DropUniqueTransition | static/js/script.js:985 | with unique ids, filtering out one transition's id removes exactly that transition and keeps the order |
| Editing.DeleteArcs | static/js/script.js:987-992 | the table keeps exactly the arcs not listed, unchanged |
| Editing.RemoveTransition | static/js/script.js:984-992 | deleting a transition removes every transition with its id and exactly its own arcs, and keeps the other arcs unchanged |
| Editing.RemoveTransitionKeepsWellFormed | static/js/script.js:984-992 | in a well formed net, deleting a transition removes exactly it and its arcs, keeps the others in order, and keeps the net well formed |
| Editing.Sweep | static/js/script.js:966-973 | filtering one list drops exactly the ids of arcs still in the table on the position, deletes those arcs and no others |
| Editing.SweepUntouched | static/js/script.js:966-980 | a list naming no arc on the position is filtered to itself, and no arc is deleted |
| Editing.SweepOne | static/js/script.js:965-983 | a transition keeps its id, name and every id of an arc not on the position; only its listed arcs on the position leave the table; a transition listing no arc on the position comes back unchanged with the table unchanged |
| Editing.SweepAllAt | static/js/script.js:965-983 | each transition is swept with the table as the earlier transitions left it |
| Editing.SweepAllShrinks | static/js/script.js:965-983 | the table only loses arcs, and never an arc on another position |
| Editing.SweepAllKeepsUnlisted | static/js/script.js:965-983 | an arc no transition lists stays in the table |
| Editing.SweepAllDeletes | static/js/script.js:965-983 | a listed arc on the deleted position leaves the table |
| Editing.SweepAllUntouched | static/js/script.js:965-983 | the sweep over all transitions leaves a transition listing no arc on the position as it was |
| Editing.RemovedPositionTransition | static/js/script.js:965-983 | each transition keeps its id, name and exactly its ids of arcs on other positions, without repetition, and is unchanged when it lists no arc on the position |
| Editing.RemovePositionKeepsWellFormed | static/js/script.js:961-983 | deleting a position keeps the net well formed; no transition lists an arc on it; the arcs deleted are exactly the listed arcs on it; each transition keeps every other arc id; a transition listing no arc on it is unchanged |
| Editing.ArcWeight | static/js/script.js:856 | the weight read is never 0; a non-zero number is kept, and NaN or 0 becomes 1 |
| Editing.Attach | static/js/script.js:873-883 | the new id joins the input (or output) list of the first transition with the id, at the end; no other transition changes; nothing changes when there is none |
| Editing.CreateArcEffect | static/js/script.js:849-871 | an arc is created iff the ends differ and exactly one is a position; it gets the counter's id, sits on the position end, is an inhibitor only when chosen and leaving a position; otherwise the editor is unchanged |
| Editing.CreateArcListed | static/js/script.js:873-883 | the new arc becomes an input of the transition it enters or an output of the transition it leaves |
| Editing.CreateArcKeepsInv | static/js/script.js:849-883 | drawing an arc keeps the net well formed and keeps every id the counter will hand out free |
| Editing.AttachedWellFormed | static/js/script.js:871-883 | adding a fresh arc on an existing position and listing it once keeps the net well formed when an output arc is no inhibitor |
| Editing.SetTokens | static/js/script.js:500-505 | the token field sets the selected position's count to the number read, or 0 when none is read, and changes nothing else |
| Editing.SetWeight | static/js/script.js:528-533 | the weight field sets the selected arc's weight as the arc tool reads it, never 0, and changes nothing else |
| Editing.SetArcType | static/js/script.js:535-540 | the type selector makes the selected arc an inhibitor iff red is chosen, whichever list the arc is on, and changes nothing else |
| Editing.PropertyEditsKeepInv | static/js/script.js:499-533 | editing a token count or an arc weight keeps the editor invariant |
| Editing.ArcTypeWellFormed | static/js/script.js:535-540 | the type selector keeps the net well formed exactly when it does not make an output arc an inhibitor |
| Editing.NewNetwork | static/js/script.js:1170-1174 | a new net has no positions, transitions or arcs and satisfies the editor invariant |
| Editing.Load | static/js/script.js:454-464 | loading keeps the net as given and recomputes the counter so every id it hands out is free; a well formed net gives a consistent editor |
| Editing.RemovalsKeepInv | static/js/script.js:961-1001 | every deletion keeps the editor invariant |
| AsWritten.FireInPlace | static/js/script.js:251-258 | testing the transitions against one shared marking fires or blocks each of them exactly once |
| AsWritten.AliasedVisit | static/js/script.js:238-259 | processing entries of the shared marking never forgets a visited marking and visits the current one |
| AsWritten.AliasedExplore | static/js/script.js:236-262 | the aliased level loop stops within the cap, and early only with nothing pending |
| AsWritten.FireInPlaceReachable | static/js/script.js:286-307 | the shared marking only changes by firing enabled transitions, so it stays reachable |
| AsWritten.AliasedExploreSound | static/js/script.js:236-262 | every marking the aliased search visits is reachable |
| AsWritten.SimulateAsWritten | static/js/script.js:229-264 | the search as written keeps the level bounds and the finish meaning, and visits only reachable markings |
| AsWritten.ResetAsWritten | static/js/script.js:1184-1194 | while Idle with a non-empty saved marking, the restore as written gives every live position its saved count and leaves the count undefined exactly for a position without one; otherwise every count is kept |
| AsWritten.ResetAgreesWhenAllSaved | static/js/script.js:1188-1191 | when every live position has a saved count, the restore as written and the corrected one agree |
| AsWritten.ResetLosesNewPosition | static/js/script.js:1190 | a position created after the save loses its count on restore as written and keeps it in the corrected one |
| Examples.ProducerConsumerMarking | static/js/script.js:326-341 | producer-consumer starts with the buffer empty |
| Examples.ProducerConsumerFiring | static/js/script.js:326-341 | producing moves the token to the full buffer, consuming moves it back, and each is the only transition enabled in its marking |
| Examples.SwapReport | static/js/script.js:229-264 | on any net whose two transitions swap two markings, the search visits both, counts two blockages and stops at the third level |
| Examples.SwapAsWritten | static/js/script.js:229-264 | on such a net the search as written visits only the start marking, counts no blockage and reports a finished search after two levels |
| Examples.ProducerConsumerReport | static/js/script.js:326-341 | the corrected analysis of producer-consumer: two markings, two blockages, three levels, finished, maximum 1 |
| Examples.ProducerConsumerVerdict | static/js/script.js:171-196 | producer-consumer is judged safe and quasi-live |
| Examples.ProducerConsumerAsWritten | static/js/script.js:286-307 | the analysis as written reports one marking and a finished search, although the full buffer is reachable |
| Examples.AliasingLosesCompleteness | static/js/script.js:287 | on producer-consumer the search as written finishes yet misses a reachable marking; the corrected search visits exactly the reachable ones |
| Examples.ForkJoinMarking | static/js/script.js:343-364 | fork-join starts with one token on P1 |
| Examples.ForkFires | static/js/script.js:343-364 | Fork takes the token from P1 and puts one on each branch |
| Examples.JoinWaits | static/js/script.js:343-364 | Join is disabled at the start and enabled once both branches hold a token |
| Examples.InhibitorMarking | static/js/script.js:366-385 | the inhibitor example starts with one token on P1 |
| Examples.BothEnabledAtStart | static/js/script.js:366-385 | at the start both T1 and T2 are enabled |
| Examples.T1Fires | static/js/script.js:366-385 | T1 moves the token from P1 to P2 |
| Examples.T1DisablesT2 | static/js/script.js:366-385 | after T1, T2 is disabled both by the empty P1 and by the inhibitor arc on P2 |

## Left out

- Canvas rendering, hit-testing and dragging: floating-point geometry and drawing calls. The element under the pointer is an input (`Editing.Hit`).
- DOM wiring, modals, the theme toggle and the example menu glue: presentation only. The property editors that change the net are modelled (`Editing.SetTokens`, `Editing.SetWeight`, `Editing.SetArcType`).
- The continuous-run timer and its speed table: only the Idle/Running flag is modelled (`Simulator.Toggle`).
- The position and transition creation tools: their ids come from the clock, and they only add an unreferenced element.
- Guards, delays, coordinates and the position type, and their editors (script.js:507-526): the engine never evaluates them.
- Own id fields of positions and arcs: the page keeps an `id` inside each position and arc object and uses it when deleting and when drawing arcs (script.js:849, 862, 963, 968, 977, 994-998). The model identifies each position and arc with its key in the table. The two agree for nets built in the editor (script.js:793, 859-861) and for the examples (script.js:329-382). A net loaded from a file (script.js:454-456) whose own ids differ from their keys is outside the model.
- Token counts and arc weights are integers in the model. A loaded file that stores another JSON value there (a fraction, a string, `null`) is outside the model.
- Saving a net to a file, and the file reading and JSON validation of loading: browser I/O. Only the counter recomputation and the replacement of the net are modelled (`Editing.Load`).
- The debug `alert` in the search loop, and the alerts of the arc tool: they show messages and change nothing.
- Visited markings compared through `JSON.stringify`: the model compares markings as maps. Two markings with the same counts in a different key order are therefore one marking here, as the search intends.
- Dangling arc ids: the page reads `network.arcs[arcId].positionId` without a check and throws on a missing arc. The firing, step and search functions therefore require every listed arc id to resolve (`ArcsResolve`). They do not model the throw.
- Simulator.Toggle: the page also snapshots nothing on start. Saving is a separate button (`Simulator.SaveMarking`), so starting a run does not save the marking.
- ArcIds.ParseInt: does not model leading whitespace, a `0x` prefix or other `parseInt` details. Ids the editor creates never have them.
- ArcIds.FreshAfterRecompute: holds for unbounded integers only. JavaScript numbers lose precision above 2^53, where reading an id and adding 1 can give back the same number, so a loaded net with such an id is outside the model.
- Editing.Load: does not model that loading, from a file (script.js:472) or an example (script.js:412), clears the saved marking, because the editor state holds no saved marking.
- Analysis.Successors: carries no contract of its own. What it pushes is stated by `Analysis.SuccessorsComplete`, `Analysis.SuccessorsSound` and `Analysis.NoSuccessors`.

## Findings

| source | as written | input that shows it | evidently intended | confidence | as-written member | corrected member |
|---|---|---|---|---|---|---|
| static/js/script.js:286-307 | firing changes the marking it is given and returns that same object, so every marking the search pushes is the start marking object, fired on again and again | producer-consumer from its start marking: the search stops after 2 levels with 1 marking and no blockage, although the full buffer is reachable | each pushed marking is an independent copy; the search visits both buffer markings | not executed | Examples.ProducerConsumerAsWritten | Analysis.SimulateReachableStates |
| static/js/script.js:1184-1194 | restoring writes the saved count of every live position, even for a position with no saved count, whose count becomes `undefined` | save with position p1 only, add p2 holding 3 tokens, restore while idle: p2's count is lost | a position without a saved count keeps its count | not executed | AsWritten.ResetLosesNewPosition | Simulator.Reset |
