/**
 Keyboard highlight in the Drilldown (`handleOptionHighlight` and the "highlight
 first / last option" requests): which active option gets the highlight, stepping one
 position up or down the active option ids, wrapping around with `rotateFocus`.
 */
module DrilldownHighlight {
  import opened Base
  import opened OrderedMap
  import opened DrilldownModel
  import opened DrilldownNavigation
  import opened DrilldownRender

  /** `direction`: -1 or 1. */
  datatype Direction = Previous | Next

  function Step(d: Direction): int {
    match d
    case Previous => -1
    case Next => 1
  }

  /** `activeOptionIds`: the keys of the active options map, in insertion order. */
  function ActiveIds(st: State): seq<Key> {
    Keys(st.active)
  }

  /**
   The id `handleOptionHighlight` moves the highlight to, `None` when it leaves the
   state alone: a given id naming an active option wins; with nothing highlighted the
   first active id is taken; otherwise a direction steps from the highlighted id's
   position, `undefined` off either end unless `rotateFocus` wraps it. Only a truthy
   result is applied.
   */
  function HighlightTarget(cfg: Config, st: State, id: Option<string>, dir: Option<Direction>)
    : (r: Option<string>)
    ensures r.Some? ==> r.value != "" && HasKey(st.active, r.value)
    ensures IsActive(st.active, id) ==> r == id
    ensures !IsActive(st.active, id) && !Truthy(st.highlighted) ==>
              r == (if |ActiveIds(st)| > 0 && ActiveIds(st)[0] != "" then Some(ActiveIds(st)[0]) else None)
    ensures !IsActive(st.active, id) && Truthy(st.highlighted) && dir.None? ==> r.None?
  {
    var ids := ActiveIds(st);
    var target :=
      if IsActive(st.active, id) then id
      else if !Truthy(st.highlighted) then At(ids, 0)
      else if dir.Some? then Stepped(ids, IndexOf(ids, st.highlighted.value), dir.value, cfg.rotateFocus)
      else None;
    if Truthy(target) then target else None
  }

  /**
   The id one step from position `index` (-1 when the highlighted id is not among
   `ids`): `undefined` without a position or off an end, unless `rotate` sends a step
   below 0 to the last id and a step past the end to the first.
   */
  function Stepped(ids: seq<Key>, index: int, d: Direction, rotate: bool): (r: Option<Key>)
    ensures r.Some? ==> r.value in ids
  {
    var newIndex := index + Step(d);
    var stepped := if index > -1 then At(ids, newIndex) else None;
    if rotate then
      var lastOptionsIndex := |ids| - 1;
      var low := if newIndex < 0 then At(ids, lastOptionsIndex) else stepped;
      if newIndex > lastOptionsIndex then At(ids, 0) else low
    else stepped
  }

  /** `handleOptionHighlight`. */
  function HandleOptionHighlight(cfg: Config, st: State, id: Option<string>, dir: Option<Direction>)
    : (r: State)
    ensures r == st.(highlighted := r.highlighted)
    ensures Truthy(r.highlighted) && r.highlighted != st.highlighted ==> IsActive(st.active, r.highlighted)
  {
    match HighlightTarget(cfg, st, id, dir)
    case None => st
    case Some(t) => st.(highlighted := Some(t))
  }

  /**
   The neighbour of position `i` one step in direction `d`: the adjacent id, nothing
   off an end, or, when wrapping, the id at the other end.
   */
  function Neighbour(ids: seq<Key>, i: int, d: Direction, rotate: bool): (r: Option<Key>)
    requires 0 <= i < |ids|
    ensures r.Some? ==> r.value in ids
  {
    var j := i + Step(d);
    if 0 <= j < |ids| then Some(ids[j])
    else if rotate then Some(ids[(j + |ids|) % |ids|])
    else None
  }

  /** From a position in the ids, the JavaScript stepping agrees with the neighbour. */
  lemma SteppedIsNeighbour(ids: seq<Key>, i: int, d: Direction, rotate: bool)
    requires 0 <= i < |ids|
    ensures Stepped(ids, i, d, rotate) == Neighbour(ids, i, d, rotate)
  {
    var n := |ids|;
    var j := i + Step(d);
    if j < 0 {
      assert (j + n) % n == n - 1;
    } else if j >= n {
      assert (j + n) % n == 0;
    }
  }

  /**
   Stepping from the highlighted id moves to its neighbour in the active ids (when
   that neighbour's id is truthy), and leaves the highlight alone when there is none.
   */
  lemma StepMovesToNeighbour(cfg: Config, st: State, id: Option<string>, d: Direction, i: int)
    requires Wf(st.active) && !IsActive(st.active, id)
    requires 0 <= i < |ActiveIds(st)| && st.highlighted == Some(ActiveIds(st)[i]) && ActiveIds(st)[i] != ""
    ensures var n := Neighbour(ActiveIds(st), i, d, cfg.rotateFocus);
      HighlightTarget(cfg, st, id, Some(d)) == (if n.Some? && n.value != "" then n else None)
  {
    var ids := ActiveIds(st);
    IndexOfFirst(ids, ids[i], i);
    SteppedIsNeighbour(ids, i, d, cfg.rotateFocus);
  }

  /**
   With `rotateFocus`, or away from the last id, stepping down and then up returns
   the highlight to where it was, when every active id is truthy.
   */
  lemma NextThenPrevious(cfg: Config, st: State, i: int)
    requires Wf(st.active)
    requires forall k :: k in ActiveIds(st) ==> k != ""
    requires 0 <= i < |ActiveIds(st)| && st.highlighted == Some(ActiveIds(st)[i])
    requires cfg.rotateFocus || i < |ActiveIds(st)| - 1
    ensures var down := HandleOptionHighlight(cfg, st, None, Some(Next));
      HandleOptionHighlight(cfg, down, None, Some(Previous)).highlighted == st.highlighted
  {
    var ids := ActiveIds(st);
    var j := if i + 1 < |ids| then i + 1 else 0;
    assert ids[i] in ids && ids[j] in ids;
    StepMovesToNeighbour(cfg, st, None, Next, i);
    var down := HandleOptionHighlight(cfg, st, None, Some(Next));
    assert down.highlighted == Some(ids[j]);
    StepMovesToNeighbour(cfg, down, None, Previous, j);
  }

  /**
   A highlighted id that is no longer active has no position: stepping down leaves
   the highlight alone, while stepping up with `rotateFocus` lands on the last id.
   */
  lemma StaleHighlightSteps(cfg: Config, st: State)
    requires Truthy(st.highlighted) && !HasKey(st.active, st.highlighted.value)
    requires cfg.rotateFocus && |ActiveIds(st)| > 0 && ActiveIds(st)[|ActiveIds(st)| - 1] != ""
    ensures HighlightTarget(cfg, st, None, Some(Next)).None?
    ensures HighlightTarget(cfg, st, None, Some(Previous)) == Some(ActiveIds(st)[|ActiveIds(st)| - 1])
  {
  }

  /** The "highlight first option" request: `handleOptionHighlight` with the first active id. */
  function HighlightFirst(cfg: Config, st: State): (r: State)
    ensures r == st.(highlighted := r.highlighted)
    ensures r.highlighted ==
      (if |ActiveIds(st)| > 0 && ActiveIds(st)[0] != "" then Some(ActiveIds(st)[0]) else st.highlighted)
  {
    HandleOptionHighlight(cfg, st, At(ActiveIds(st), 0), None)
  }

  /** The "highlight last option" request: `handleOptionHighlight` with the last active id. */
  function HighlightLast(cfg: Config, st: State): (r: State)
    ensures r == st.(highlighted := r.highlighted)
    ensures var ids := ActiveIds(st);
      r.highlighted ==
        (if |ids| > 0 && ids[|ids| - 1] != "" then Some(ids[|ids| - 1])
         else if |ids| > 0 && !Truthy(st.highlighted) && ids[0] != "" then Some(ids[0])
         else st.highlighted)
  {
    HandleOptionHighlight(cfg, st, At(ActiveIds(st), |ActiveIds(st)| - 1), None)
  }

  /** After a render pass on a page with a previous page, "highlight first" lands on the back option. */
  lemma HighlightFirstIsBack(cfg: Config, st: State)
    requires HeaderIdsOk(cfg.headerIds)
    requires CurrentPage(cfg, st).Some? && PreviousPage(cfg, st.history).Some?
    ensures HighlightFirst(cfg, Render(cfg, st)).highlighted == Some(cfg.headerIds.back)
  {
    BackOptionFirst(cfg, st);
  }
}
