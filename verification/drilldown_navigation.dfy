/**
 The page registry and the navigation history of the Drilldown: looking pages up by
 id, `goToPage`, `goToPreviousPage`, and the recovery `componentDidUpdate` performs
 when the active page disappears from the props.
 */
module DrilldownNavigation {
  import opened Base
  import opened OrderedMap
  import opened DrilldownModel

  /**
   The page the page map holds under `id`. The map is filled in declaration order
   with `map[props.id] = …`, so among pages sharing an id the last one wins.
   */
  function FindPage(pages: seq<DrilldownPage>, id: string): (r: Option<DrilldownPage>)
    ensures r.Some? <==> exists i :: 0 <= i < |pages| && pages[i].id == id
    ensures r.Some? ==> r.value.id == id
    ensures r.Some? ==> exists i :: 0 <= i < |pages| && pages[i] == r.value
                                  && forall j :: i < j < |pages| ==> pages[j].id != id
    decreases |pages|
  {
    if |pages| == 0 then None
    else if pages[|pages| - 1].id == id then Some(pages[|pages| - 1])
    else
      var r := FindPage(pages[..|pages| - 1], id);
      assert forall i :: 0 <= i < |pages| - 1 ==> pages[..|pages| - 1][i] == pages[i];
      r
  }

  /** `getPageById`: a falsy id finds nothing. */
  function GetPageById(pages: seq<DrilldownPage>, id: Option<string>): (r: Option<DrilldownPage>)
    ensures r.Some? <==> Truthy(id) && exists i :: 0 <= i < |pages| && pages[i].id == id.value
    ensures r.Some? ==> r.value.id == id.value && r.value.id != ""
  {
    if Truthy(id) then FindPage(pages, id.value) else None
  }

  predicate PageExists(cfg: Config, id: string) {
    GetPageById(cfg.pages, Some(id)).Some?
  }

  /** `history[length - 2]`, which is `undefined` for a history of one entry. */
  function PreviousPageId(h: History): (r: Option<string>)
    ensures r.Some? <==> |h| >= 2
    ensures r.Some? ==> r.value == h[|h| - 2]
  {
    At(h, |h| - 2)
  }

  function CurrentPage(cfg: Config, st: State): Option<DrilldownPage> {
    GetPageById(cfg.pages, Some(st.activePageId))
  }

  function PreviousPage(cfg: Config, h: History): Option<DrilldownPage> {
    GetPageById(cfg.pages, PreviousPageId(h))
  }

  /** The value `goToPage` returns on success. */
  datatype PageChange = PageChange(prevPageId: string, newPageId: string)

  datatype Navigated = Navigated(state: State, change: PageChange)

  /**
   `goToPage`. `None` is the `undefined` returned, with nothing changed, for a falsy
   id or an id no declared page has. Otherwise an id already in the history cuts the
   history back to its first occurrence, a new id is pushed, the page becomes active
   and the highlight is cleared.
   */
  function GoToPage(cfg: Config, st: State, newPageId: string): (r: Option<Navigated>)
    ensures r.None? <==> newPageId == "" || !PageExists(cfg, newPageId)
    ensures r.Some? ==> var h := r.value.state.history;
      && Last(h) == newPageId
      && (newPageId !in st.history ==> h == st.history + [newPageId])
      && (newPageId in st.history ==>
            && |h| <= |st.history| && h == st.history[..|h|]
            && newPageId !in h[..|h| - 1])
    ensures r.Some? ==> r.value.state == st.(history := r.value.state.history,
                                             activePageId := newPageId,
                                             highlighted := None)
    ensures r.Some? ==> r.value.change == PageChange(Last(st.history), newPageId)
  {
    if newPageId == "" || !PageExists(cfg, newPageId) then None
    else
      var idx := IndexOf(st.history, newPageId);
      var h: History := if idx < 0 then st.history + [newPageId] else st.history[..idx + 1];
      assert idx >= 0 ==> forall j :: 0 <= j < |h| - 1 ==> h[j] == st.history[j];
      Some(Navigated(st.(history := h, activePageId := newPageId, highlighted := None),
                     PageChange(Last(st.history), newPageId)))
  }

  /**
   `goToPreviousPage`: `None` when `history[length - 2]` is not a declared page;
   otherwise it goes to that page, reporting it as the new page and the last entry as
   the previous one.
   */
  function GoToPreviousPage(cfg: Config, st: State): (r: Option<Navigated>)
    ensures r.None? <==> PreviousPage(cfg, st.history).None?
    ensures r.Some? ==> |st.history| >= 2
    ensures r.Some? ==> r.value.change == PageChange(Last(st.history), st.history[|st.history| - 2])
    ensures r.Some? ==> r.value.state.activePageId == st.history[|st.history| - 2]
    ensures r.Some? && Distinct(st.history) ==>
              r.value.state.history == st.history[..|st.history| - 1]
    ensures r.Some? ==> r.value.state == st.(history := r.value.state.history,
                                             activePageId := r.value.state.activePageId,
                                             highlighted := None)
  {
    match PreviousPage(cfg, st.history)
    case None => None
    case Some(p) =>
      var h := st.history;
      var r := GoToPage(cfg, st, p.id);
      assert r.Some?;
      assert Distinct(h) ==> r.value.state.history == h[..|h| - 1] by {
        if Distinct(h) {
          IndexOfFirst(h, h[|h| - 2], |h| - 2);
        }
      }
      r
  }

  /** What the history always satisfies: the root first, and no page twice. */
  predicate ValidHistory(cfg: Config, h: History) {
    h[0] == cfg.rootPageId && Distinct(h)
  }

  function InitialHistory(cfg: Config): (h: History)
    ensures ValidHistory(cfg, h)
  {
    [cfg.rootPageId]
  }

  /** `goToPage` keeps the root at the front and never repeats a page. */
  lemma GoToPageKeepsHistoryValid(cfg: Config, st: State, id: string)
    requires ValidHistory(cfg, st.history)
    requires GoToPage(cfg, st, id).Some?
    ensures ValidHistory(cfg, GoToPage(cfg, st, id).value.state.history)
  {
    var h := GoToPage(cfg, st, id).value.state.history;
    if id in st.history {
      assert h[0] == st.history[0];
    } else {
      assert h == st.history + [id];
    }
  }

  /** The state after a sequence of `goToPage` calls, failed ones changing nothing. */
  function GoToPages(cfg: Config, st: State, ids: seq<string>): State
    decreases |ids|
  {
    if |ids| == 0 then st
    else
      var next := match GoToPage(cfg, st, ids[0])
        case None => st
        case Some(n) => n.state;
      GoToPages(cfg, next, ids[1..])
  }

  /** Whatever pages are visited, the history starts with the root and repeats no page. */
  lemma {:induction false} GoToPagesKeepsHistoryValid(cfg: Config, st: State, ids: seq<string>)
    requires ValidHistory(cfg, st.history)
    ensures ValidHistory(cfg, GoToPages(cfg, st, ids).history)
    decreases |ids|
  {
    if |ids| > 0 {
      var r := GoToPage(cfg, st, ids[0]);
      if r.Some? {
        GoToPageKeepsHistoryValid(cfg, st, ids[0]);
        GoToPagesKeepsHistoryValid(cfg, r.value.state, ids[1..]);
      } else {
        GoToPagesKeepsHistoryValid(cfg, st, ids[1..]);
      }
    }
  }

  /** Visiting an ancestor again is the same as going back to it: the history is cut there. */
  lemma RevisitTruncates(cfg: Config, st: State, i: int)
    requires Distinct(st.history)
    requires 0 <= i < |st.history|
    requires PageExists(cfg, st.history[i])
    ensures GoToPage(cfg, st, st.history[i]).Some?
    ensures GoToPage(cfg, st, st.history[i]).value.state.history == st.history[..i + 1]
  {
    IndexOfFirst(st.history, st.history[i], i);
  }

  /**
   The recovery in `componentDidUpdate`: when the active page is no longer declared,
   go back to the previous page if there is one, otherwise to the root page; then
   drop a highlight that no longer names an active option.
   */
  function RecoverAfterUpdate(cfg: Config, st: State): (r: State)
    ensures CurrentPage(cfg, st).Some? ==>
              r.history == st.history && r.activePageId == st.activePageId
    ensures CurrentPage(cfg, st).None? && PreviousPage(cfg, st.history).Some? ==>
              r.activePageId == st.history[|st.history| - 2] && CurrentPage(cfg, r).Some?
    ensures CurrentPage(cfg, st).None? && PreviousPage(cfg, st.history).None?
            && PageExists(cfg, cfg.rootPageId) && ValidHistory(cfg, st.history) ==>
              r.activePageId == cfg.rootPageId && r.history == [cfg.rootPageId]
    ensures Truthy(r.highlighted) ==> IsActive(r.active, r.highlighted)
    ensures r.active == st.active && r.selected == st.selected
  {
    var moved :=
      if CurrentPage(cfg, st).Some? then st
      else if PreviousPage(cfg, st.history).Some? then GoToPreviousPage(cfg, st).value.state
      else match GoToPage(cfg, st, cfg.rootPageId)
        case None => st
        case Some(n) => n.state;
    assert CurrentPage(cfg, st).None? && PreviousPage(cfg, st.history).None?
           && PageExists(cfg, cfg.rootPageId) && ValidHistory(cfg, st.history) ==>
             moved.history == [cfg.rootPageId] by {
      if CurrentPage(cfg, st).None? && PreviousPage(cfg, st.history).None?
         && PageExists(cfg, cfg.rootPageId) && ValidHistory(cfg, st.history) {
        RevisitTruncates(cfg, st, 0);
      }
    }
    if Truthy(moved.highlighted) && !IsActive(moved.active, moved.highlighted) then
      moved.(highlighted := None)
    else moved
  }
}
