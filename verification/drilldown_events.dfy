/**
 The Drilldown's state as it starts, and the events that change it between render
 passes: `reset`, `hide` and `handleOptionSelect`.
 */
module DrilldownEvents {
  import opened Base
  import opened OrderedMap
  import opened DrilldownModel
  import opened DrilldownNavigation
  import opened DrilldownSelection
  import opened DrilldownRender
  import opened DrilldownHighlight

  /**
   The constructor: the root page active and alone in the history, nothing
   highlighted or active, the selection maps seeded; the popover shows only when a
   trigger is given and `show` is set.
   */
  function Init(cfg: Config, show: bool): (st: State)
    ensures ValidHistory(cfg, st.history) && st.activePageId == Last(st.history)
    ensures SelectionWf(st.selected)
    ensures st.isShowingPopover <==> cfg.hasTrigger && show
  {
    SetDefaultSelectedWf(cfg.pages);
    State(InitialHistory(cfg), cfg.rootPageId, None, [], SetDefaultSelected(cfg.pages),
          cfg.hasTrigger && show, None)
  }

  /** `reset`: the active options map is emptied and the highlight cleared. */
  function Reset(st: State): State {
    st.(active := [], highlighted := None)
  }

  /** Until the next render pass, no request can highlight anything. */
  lemma ResetBlocksHighlight(cfg: Config, st: State, id: Option<string>, dir: Option<Direction>)
    ensures HandleOptionHighlight(cfg, Reset(st), id, dir) == Reset(st)
  {
  }

  /** The new state and the callbacks invoked on the way, in order. */
  datatype Outcome = Outcome(state: State, notices: seq<Notice>)

  /**
   `hide`: only a Drilldown with a trigger (and so a popover) hides; it asks the
   popover to hide, records that it is not showing and resets.
   */
  function Hide(cfg: Config, st: State): (r: Outcome)
    ensures !cfg.hasTrigger ==> r == Outcome(st, [])
    ensures cfg.hasTrigger ==>
              && r.notices == [Hidden] && !r.state.isShowingPopover
              && r.state.active == [] && r.state.highlighted.None?
              && r.state.history == st.history && r.state.activePageId == st.activePageId
              && r.state.selected == st.selected
  {
    if cfg.hasTrigger then Outcome(Reset(st).(isShowingPopover := false), [Hidden])
    else Outcome(st, [])
  }

  /** The entry stored under an active id. */
  function EntryOf(st: State, id: string): (e: ActiveEntry)
    requires HasKey(st.active, id)
  {
    Get(st.active, id).value
  }

  /** After selecting `id`, the Drilldown closes unless the option opens a page or is the back option. */
  predicate HidesAfterSelect(cfg: Config, id: string, o: DrilldownOption) {
    cfg.shouldHideOnSelect && !Truthy(o.subPageId) && id != cfg.headerIds.back
  }

  /** The `onOptionClick` step: the option's own handler, the back button, or the header action. */
  function ClickStep(cfg: Config, st: State, id: string, o: DrilldownOption): (r: Outcome)
    requires o.onOptionClick == BackHandler ==> PreviousPage(cfg, st.history).Some?
    ensures r.state.selected == st.selected && r.state.active == st.active
    ensures r.state.isShowingPopover == st.isShowingPopover
    ensures o.onOptionClick != BackHandler ==> r.state == st
    ensures Hidden !in r.notices
    ensures o.onOptionClick == UserHandler ==> r.notices == [OptionClicked(id)]
  {
    match o.onOptionClick
    case NoHandler => Outcome(st, [])
    case UserHandler => Outcome(st, [OptionClicked(id)])
    case BackHandler =>
      var nav := GoToPreviousPage(cfg, st).value;
      Outcome(nav.state,
              if cfg.hasOnBackButtonClicked then [BackButtonClicked(nav.change.newPageId, nav.change.prevPageId)]
              else [])
    case HeaderActionHandler(callsPageHandler) =>
      Outcome(st, if callsPageHandler then [HeaderActionClicked] else [])
  }

  /** The `subPageId` step: go to the option's page; a failed `goToPage` changes nothing. */
  function SubPageStep(cfg: Config, r: Outcome, o: DrilldownOption): (s: Outcome)
    ensures s.notices == r.notices
    ensures s.state.selected == r.state.selected && s.state.active == r.state.active
    ensures s.state.isShowingPopover == r.state.isShowingPopover
  {
    if Truthy(o.subPageId) then
      match GoToPage(cfg, r.state, o.subPageId.value)
      case None => r
      case Some(n) => Outcome(n.state, r.notices)
    else r
  }

  /** The selection step: a group toggle, or the component's `onSelect` with the option's value. */
  function SelectStep(cfg: Config, r: Outcome, id: string, e: ActiveEntry): (s: Outcome)
    requires Selectable(e.group) ==> HasKey(r.state.selected, e.group.value.id)
    ensures s.state.history == r.state.history && s.state.activePageId == r.state.activePageId
    ensures s.state.isShowingPopover == r.state.isShowingPopover
    ensures |s.notices| >= |r.notices| && s.notices[..|r.notices|] == r.notices
    ensures Hidden !in r.notices ==> Hidden !in s.notices
    ensures Selectable(e.group) ==> s.state == HandleGroupOptionSelected(cfg, r.state, e).state
    ensures !Selectable(e.group) ==> s.state == r.state
    ensures !Selectable(e.group) && cfg.hasOnSelect ==> SelectValue(e.option.value, id) in s.notices
  {
    if Selectable(e.group) then
      var sel := HandleGroupOptionSelected(cfg, r.state, e);
      Outcome(sel.state, r.notices + sel.notices)
    else
      Outcome(r.state, r.notices + (if cfg.hasOnSelect then [SelectValue(e.option.value, id)] else []))
  }

  /**
   What selecting the active entry `e` stored under `key` does: the option's click
   handler runs, its sub page is opened, it is toggled in its group or reported to
   `onSelect`, and the Drilldown hides when `shouldHideOnSelect` asks for it and the
   option neither opens a page nor is the back option.
   */
  function SelectEntry(cfg: Config, st: State, key: string, e: ActiveEntry): (r: Outcome)
    requires e.option.onOptionClick == BackHandler ==> PreviousPage(cfg, st.history).Some?
    requires Selectable(e.group) ==> HasKey(st.selected, e.group.value.id)
    ensures var hides := HidesAfterSelect(cfg, key, e.option) && cfg.hasTrigger;
      && (hides <==> Hidden in r.notices)
      && (hides ==> !r.state.isShowingPopover && r.state.active == [] && r.state.highlighted.None?)
      && (!hides ==> r.state.isShowingPopover == st.isShowingPopover && r.state.active == st.active)
  {
    var o := e.option;
    var clicked := ClickStep(cfg, st, key, o);
    var moved := SubPageStep(cfg, clicked, o);
    var selected := SelectStep(cfg, moved, key, e);
    if HidesAfterSelect(cfg, key, o) && cfg.hasTrigger then
      var h := Hide(cfg, selected.state);
      Outcome(h.state, selected.notices + h.notices)
    else selected
  }

  /** The option's own click handler is called first. */
  lemma SelectEntryClicksFirst(cfg: Config, st: State, key: string, e: ActiveEntry)
    requires e.option.onOptionClick == UserHandler
    requires Selectable(e.group) ==> HasKey(st.selected, e.group.value.id)
    ensures var r := SelectEntry(cfg, st, key, e); |r.notices| > 0 && r.notices[0] == OptionClicked(key)
  {
  }

  /** An option with a declared sub page opens it. */
  lemma SelectEntryOpensSubPage(cfg: Config, st: State, key: string, e: ActiveEntry)
    requires e.option.onOptionClick == BackHandler ==> PreviousPage(cfg, st.history).Some?
    requires Selectable(e.group) ==> HasKey(st.selected, e.group.value.id)
    requires Truthy(e.option.subPageId) && PageExists(cfg, e.option.subPageId.value)
    ensures var r := SelectEntry(cfg, st, key, e);
      r.state.activePageId == e.option.subPageId.value && Last(r.state.history) == e.option.subPageId.value
  {
  }

  /**
   An option outside a selectable group is reported to `onSelect` with its value —
   also when it opens a sub page — and leaves the selections alone; an option of a
   selectable group is toggled there.
   */
  lemma SelectEntrySelects(cfg: Config, st: State, key: string, e: ActiveEntry)
    requires e.option.onOptionClick == BackHandler ==> PreviousPage(cfg, st.history).Some?
    requires Selectable(e.group) ==> HasKey(st.selected, e.group.value.id)
    ensures var r := SelectEntry(cfg, st, key, e);
      && (!Selectable(e.group) && cfg.hasOnSelect ==> SelectValue(e.option.value, key) in r.notices)
      && (!Selectable(e.group) ==> r.state.selected == st.selected)
      && (Selectable(e.group) ==> r.state.selected == HandleGroupOptionSelected(cfg, st, e).state.selected)
  {
    var moved := SubPageStep(cfg, ClickStep(cfg, st, key, e.option), e.option);
    SelectEntryAfterSelect(cfg, st, key, e);
    if Selectable(e.group) {
      GroupToggleReadsSelection(cfg, moved.state, st, e);
    }
  }

  /** The group toggle's new selection depends only on the selection it starts from. */
  lemma GroupToggleReadsSelection(cfg: Config, a: State, b: State, e: ActiveEntry)
    requires Selectable(e.group) && HasKey(a.selected, e.group.value.id) && a.selected == b.selected
    ensures HandleGroupOptionSelected(cfg, a, e).state.selected == HandleGroupOptionSelected(cfg, b, e).state.selected
  {
  }

  /** Hiding after the selection step changes neither the selection nor the page, and only adds notices. */
  lemma SelectEntryAfterSelect(cfg: Config, st: State, key: string, e: ActiveEntry)
    requires e.option.onOptionClick == BackHandler ==> PreviousPage(cfg, st.history).Some?
    requires Selectable(e.group) ==> HasKey(st.selected, e.group.value.id)
    ensures var s := SelectStep(cfg, SubPageStep(cfg, ClickStep(cfg, st, key, e.option), e.option), key, e);
      var r := SelectEntry(cfg, st, key, e);
      && r.state.selected == s.state.selected
      && r.state.history == s.state.history && r.state.activePageId == s.state.activePageId
      && forall x :: x in s.notices ==> x in r.notices
  {
    var s := SelectStep(cfg, SubPageStep(cfg, ClickStep(cfg, st, key, e.option), e.option), key, e);
    if HidesAfterSelect(cfg, key, e.option) && cfg.hasTrigger {
      var h := Hide(cfg, s.state);
      assert SelectEntry(cfg, st, key, e) == Outcome(h.state, s.notices + h.notices);
    }
  }

  /**
   `handleOptionSelect`: an id that names no active option is ignored. Otherwise the
   option stored under it, which is the option with that id, is selected: the
   Drilldown hides exactly when that option asks for it and there is a trigger, an
   option of a selectable group is toggled there, and any other option is reported to
   `onSelect` with its value and leaves the selections alone.
   */
  function HandleOptionSelect(cfg: Config, st: State, id: Option<string>): (r: Outcome)
    requires Coherent(cfg, st)
    ensures !IsActive(st.active, id) ==> r == Outcome(st, [])
    ensures IsActive(st.active, id) ==>
              var e := EntryOf(st, id.value);
              && e.option.id == id.value
              && (Hidden in r.notices <==> HidesAfterSelect(cfg, id.value, e.option) && cfg.hasTrigger)
              && (Selectable(e.group) ==> r.state.selected == HandleGroupOptionSelected(cfg, st, e).state.selected)
              && (!Selectable(e.group) ==> r.state.selected == st.selected)
              && (!Selectable(e.group) && cfg.hasOnSelect ==> SelectValue(e.option.value, id.value) in r.notices)
  {
    if !IsActive(st.active, id) then Outcome(st, [])
    else
      var key := id.value;
      EntryIsStoredUnderId(st, key);
      SelectEntrySelects(cfg, st, key, EntryOf(st, key));
      SelectEntry(cfg, st, key, EntryOf(st, key))
  }

  /** In a coherent state, the entry under an id is that id's option, with what its handlers need. */
  lemma EntryIsStoredUnderId(st: State, id: string)
    requires Wf(st.active) && HasKey(st.active, id)
    requires forall p :: p in st.active ==> p.0 == p.1.option.id
    ensures EntryOf(st, id).option.id == id
    ensures (id, EntryOf(st, id)) in st.active
  {
    var i := IndexOf(Keys(st.active), id);
    assert st.active[i] in st.active;
  }

  /**
   A non-group option with a sub page both opens the page and is reported to
   `onSelect`.
   */
  lemma SubPageOptionAlsoSelects(cfg: Config, st: State, key: string, e: ActiveEntry)
    requires e.option.onOptionClick == BackHandler ==> PreviousPage(cfg, st.history).Some?
    requires !Selectable(e.group) && cfg.hasOnSelect
    requires Truthy(e.option.subPageId) && PageExists(cfg, e.option.subPageId.value)
    ensures var r := SelectEntry(cfg, st, key, e);
      && r.state.activePageId == e.option.subPageId.value
      && SelectValue(e.option.value, key) in r.notices
      && Hidden !in r.notices
  {
    SelectEntryOpensSubPage(cfg, st, key, e);
    SelectEntrySelects(cfg, st, key, e);
  }

  /**
   Selecting the back option goes to the previous page, dropping the last history
   entry, reports the move to `onBackButtonClicked`, and never hides the Drilldown.
   */
  lemma BackOptionGoesBack(cfg: Config, st: State)
    requires Distinct(st.history) && PreviousPage(cfg, st.history).Some?
    ensures var h := st.history; var r := SelectEntry(cfg, st, cfg.headerIds.back, ActiveEntry(BackOption(cfg), None));
      && r.state.history == h[..|h| - 1]
      && r.state.activePageId == h[|h| - 2]
      && (cfg.hasOnBackButtonClicked <==> BackButtonClicked(h[|h| - 2], Last(h)) in r.notices)
      && Hidden !in r.notices
  {
  }

  /**
   What holds between events: the history starts with the root and repeats no page,
   its last entry is the active page, which is declared, and the selection maps are
   well formed.
   */
  predicate Settled(cfg: Config, st: State) {
    && ValidHistory(cfg, st.history)
    && st.activePageId == Last(st.history)
    && CurrentPage(cfg, st).Some?
    && SelectionWf(st.selected)
  }

  /** The initial state is settled when the root page is declared. */
  lemma InitSettled(cfg: Config, show: bool)
    requires PageExists(cfg, cfg.rootPageId)
    ensures Settled(cfg, Init(cfg, show))
  {
  }

  /** A render pass keeps the state settled and makes it coherent. */
  lemma RenderKeepsSettled(cfg: Config, st: State)
    requires DeclaredOptionsOk(cfg) && Settled(cfg, st)
    ensures Settled(cfg, Render(cfg, st)) && Coherent(cfg, Render(cfg, st))
  {
    RenderCoherent(cfg, st);
  }

  lemma ClickStepSettled(cfg: Config, st: State, key: string, o: DrilldownOption)
    requires Settled(cfg, st)
    requires o.onOptionClick == BackHandler ==> PreviousPage(cfg, st.history).Some?
    ensures Settled(cfg, ClickStep(cfg, st, key, o).state)
  {
    if o.onOptionClick == BackHandler {
      GoToPageKeepsHistoryValid(cfg, st, PreviousPage(cfg, st.history).value.id);
    }
  }

  lemma SubPageStepSettled(cfg: Config, r: Outcome, o: DrilldownOption)
    requires Settled(cfg, r.state)
    ensures Settled(cfg, SubPageStep(cfg, r, o).state)
  {
    if Truthy(o.subPageId) && GoToPage(cfg, r.state, o.subPageId.value).Some? {
      GoToPageKeepsHistoryValid(cfg, r.state, o.subPageId.value);
    }
  }

  /** Selecting an option keeps the state settled, so the next render pass is coherent again. */
  lemma SelectKeepsSettled(cfg: Config, st: State, id: Option<string>)
    requires Settled(cfg, st) && Coherent(cfg, st)
    ensures Settled(cfg, HandleOptionSelect(cfg, st, id).state)
  {
    if IsActive(st.active, id) {
      var key := id.value;
      EntryIsStoredUnderId(st, key);
      var e := EntryOf(st, key);
      var clicked := ClickStep(cfg, st, key, e.option);
      ClickStepSettled(cfg, st, key, e.option);
      var moved := SubPageStep(cfg, clicked, e.option);
      SubPageStepSettled(cfg, clicked, e.option);
      if Selectable(e.group) {
        GroupOptionSelectedWf(cfg, moved.state, e);
      }
      var s := SelectStep(cfg, moved, key, e);
      assert Settled(cfg, s.state);
      SelectEntryAfterSelect(cfg, st, key, e);
    }
  }
}
