/**
 One render pass of the Drilldown's active page, reduced to the decisions it makes:
 which header items exist (`headerChildren`), where group separators go and which
 separators are suppressed (`renderList`, `hasGroupFirstSeparator`,
 `hasGroupLastSeparator`), and which options enter the active options map, in which
 order (`renderOption`). The map is emptied at the start of `render`.
 */
module DrilldownRender {
  import opened Base
  import opened OrderedMap
  import opened DrilldownModel
  import opened DrilldownNavigation

  // ---------------------------------------------------------------- header

  function BackOption(cfg: Config): DrilldownOption {
    DrilldownOption(cfg.headerIds.back, true, None, false, None, false, BackHandler)
  }

  function TitleOption(cfg: Config): DrilldownOption {
    DrilldownOption(cfg.headerIds.title, true, None, false, None, false, NoHandler)
  }

  /** The action option's label is whatever `renderActionLabel` renders, possibly nothing. */
  function ActionOption(cfg: Config, page: DrilldownPage): DrilldownOption {
    DrilldownOption(cfg.headerIds.action, page.actionLabel.ActionLabel? && page.actionLabel.nonEmpty,
                    None, false, None, false, HeaderActionHandler(page.hasOnHeaderActionClicked))
  }

  /** Position of a header item: back, title, action, separator. */
  function HeaderRank(cfg: Config, c: PageChild): int {
    if c.PageSeparator? then 3
    else if c.PageOption? && c.option.id == cfg.headerIds.back then 0
    else if c.PageOption? && c.option.id == cfg.headerIds.title then 1
    else 2
  }

  /** The header items of `page`, with the back option when `hasBack`. */
  function HeaderItems(cfg: Config, page: DrilldownPage, hasBack: bool): seq<PageChild> {
    (if hasBack then [PageOption(BackOption(cfg))] else [])
    + (if page.hasTitle then [PageOption(TitleOption(cfg))] else [])
    + (if page.actionLabel.ActionLabel? then [PageOption(ActionOption(cfg, page))] else [])
  }

  /** The header items followed, when the page has children, by the header separator. */
  function HeaderOf(cfg: Config, page: DrilldownPage, hasBack: bool): seq<PageChild> {
    var items := HeaderItems(cfg, page, hasBack);
    if |items| > 0 && |page.children| > 0 && !page.withoutHeaderSeparators then
      items + [PageSeparator(DrilldownSeparator(cfg.headerIds.separator))]
    else items
  }

  /** `headerChildren`: the back option is there when there is a previous page. */
  function HeaderChildren(cfg: Config, st: State): seq<PageChild> {
    match CurrentPage(cfg, st)
    case None => []
    case Some(page) => HeaderOf(cfg, page, PreviousPage(cfg, st.history).Some?)
  }

  /**
   The header holds the back option exactly when there is a previous page, the title
   exactly when the page has one, the action exactly when the page has an action label.
   */
  lemma HeaderMembers(cfg: Config, page: DrilldownPage, hasBack: bool)
    requires HeaderIdsOk(cfg.headerIds)
    ensures PageOption(BackOption(cfg)) in HeaderOf(cfg, page, hasBack) <==> hasBack
    ensures PageOption(TitleOption(cfg)) in HeaderOf(cfg, page, hasBack) <==> page.hasTitle
    ensures PageOption(ActionOption(cfg, page)) in HeaderOf(cfg, page, hasBack) <==> page.actionLabel.ActionLabel?
    ensures forall c :: c in HeaderOf(cfg, page, hasBack) ==> !c.PageGroup?
  {
    var items := HeaderItems(cfg, page, hasBack);
    assert HeaderOf(cfg, page, hasBack) == items
        || HeaderOf(cfg, page, hasBack) == items + [PageSeparator(DrilldownSeparator(cfg.headerIds.separator))];
  }

  /**
   The header items come in the order back, title, action, and the header ends with a
   separator exactly when it holds an item, the page has children and header
   separators are not switched off.
   */
  lemma HeaderOrder(cfg: Config, page: DrilldownPage, hasBack: bool)
    requires HeaderIdsOk(cfg.headerIds)
    ensures var h := HeaderOf(cfg, page, hasBack);
      forall i, j :: 0 <= i < j < |h| ==> HeaderRank(cfg, h[i]) < HeaderRank(cfg, h[j])
    ensures var h := HeaderOf(cfg, page, hasBack);
      (exists i :: 0 <= i < |h| && h[i].PageSeparator?) <==>
        (hasBack || page.hasTitle || page.actionLabel.ActionLabel?)
        && |page.children| > 0 && !page.withoutHeaderSeparators
  {
    var items := HeaderItems(cfg, page, hasBack);
    var h := HeaderOf(cfg, page, hasBack);
    assert forall i :: 0 <= i < |items| ==> items[i].PageOption? && HeaderRank(cfg, items[i]) < 3;
    assert forall i, j :: 0 <= i < j < |items| ==> HeaderRank(cfg, items[i]) < HeaderRank(cfg, items[j]);
    if |items| > 0 && |page.children| > 0 && !page.withoutHeaderSeparators {
      assert h[|items|].PageSeparator?;
    } else {
      assert h == items;
    }
  }

  // ---------------------------------------------------------------- separators

  /** `hasGroupFirstSeparator`. */
  predicate HasGroupFirstSeparator(g: DrilldownGroup, isFirstChild: bool, afterSeparator: bool) {
    !g.withoutSeparators && !isFirstChild && !afterSeparator
  }

  /** `hasGroupLastSeparator`. */
  predicate HasGroupLastSeparator(g: DrilldownGroup, isLastChild: bool) {
    !g.withoutSeparators && !isLastChild
  }

  // ---------------------------------------------------------------- options

  /** What a render pass reads besides the active map and the selection. */
  datatype RenderCtx = RenderCtx(cfg: Config, page: DrilldownPage, highlighted: Option<string>)

  /**
   The disabled cascade: the component, the page, the group or the option itself —
   except the header back option, which is never disabled.
   */
  predicate IsOptionDisabled(ctx: RenderCtx, v: ActiveEntry) {
    && v.option.id != ctx.cfg.headerIds.back
    && (ctx.cfg.isDisabled || ctx.page.isDisabled
        || (v.group.Some? && v.group.value.isDisabled) || v.option.isDisabled)
  }

  /** An option is tracked as active when it is not disabled and is not the header title. */
  predicate Eligible(ctx: RenderCtx, v: ActiveEntry) {
    !IsOptionDisabled(ctx, v) && v.option.id != ctx.cfg.headerIds.title
  }

  /**
   The active-map side of `renderOption`: an option whose id already names an active
   option is dropped; otherwise an eligible option is stored under its id. This happens
   before the label is rendered, so an option with an empty label is still stored.
   */
  function Register(ctx: RenderCtx, active: ActiveMap, v: ActiveEntry): ActiveMap {
    if IsActive(active, Some(v.option.id)) then active
    else if Eligible(ctx, v) then Put(active, v.option.id, v)
    else active
  }

  datatype Variant = Default | Disabled | Highlighted

  datatype RenderedOption = RenderedOption(id: string, variant: Variant, isSelected: bool)

  /** `renderOption`: what is rendered for the option (`None`: nothing) and the new active map. */
  function RenderOption(ctx: RenderCtx, active: ActiveMap, selected: SelectionMap, v: ActiveEntry)
    : (r: (Option<RenderedOption>, ActiveMap))
    ensures r.1 == Register(ctx, active, v)
    ensures r.0.Some? ==> v.option.hasLabel && !IsActive(active, Some(v.option.id))
    ensures r.0.Some? ==> (r.0.value.variant == Highlighted <==> ctx.highlighted == Some(v.option.id))
    ensures r.0.Some? && r.0.value.variant == Default ==> Eligible(ctx, v) || v.option.id == ctx.cfg.headerIds.title
  {
    if IsActive(active, Some(v.option.id)) then (None, active)
    else
      var disabled := IsOptionDisabled(ctx, v);
      var isSelected := Selectable(v.group) &&
        match Get(selected, v.group.value.id)
        case None => false
        case Some(m) => HasKey(m, v.option.id);
      var variant :=
        if ctx.highlighted == Some(v.option.id) then Highlighted
        else if disabled then Disabled
        else Default;
      (if v.option.hasLabel then Some(RenderedOption(v.option.id, variant, isSelected)) else None,
       Register(ctx, active, v))
  }

  // ---------------------------------------------------------------- groups

  datatype GroupItem = ItemOption(rendered: Option<RenderedOption>) | ItemSeparator

  /** The children of a group: separators are always rendered, options go through `renderOption`. */
  function RenderGroupItems(ctx: RenderCtx, g: DrilldownGroup, cs: seq<GroupChild>,
                            active: ActiveMap, selected: SelectionMap)
    : (r: (seq<GroupItem>, ActiveMap))
    ensures |r.0| == |cs|
    decreases |cs|
  {
    if |cs| == 0 then ([], active)
    else
      var n := |cs| - 1;
      var front := RenderGroupItems(ctx, g, cs[..n], active, selected);
      match cs[n]
      case GroupSeparator(_) => (front.0 + [ItemSeparator], front.1)
      case GroupOption(o) =>
        var ro := RenderOption(ctx, front.1, selected, ActiveEntry(o, Some(g)));
        (front.0 + [ItemOption(ro.0)], ro.1)
  }

  datatype Slot =
    | OptionSlot(rendered: Option<RenderedOption>)   // None: dropped (duplicate id or empty label)
    | SeparatorSlot(shown: bool)                      // false: suppressed after a separator
    | GroupSlot(groupId: string, leadingSeparator: bool, body: Option<seq<GroupItem>>,
                trailingSeparator: bool)              // body None: the group has no children

  /** The state threaded through `renderList`. */
  datatype Pass = Pass(active: ActiveMap, selected: SelectionMap, lastItemWasSeparator: bool, slots: seq<Slot>)

  /**
   `renderGroup`: nothing is rendered without children; otherwise a selectable group
   gets an empty selection map if it has none yet, then its children are rendered.
   */
  function RenderGroup(ctx: RenderCtx, g: DrilldownGroup, lead: bool, trail: bool,
                       active: ActiveMap, selected: SelectionMap)
    : (r: (Slot, ActiveMap, SelectionMap))
  {
    match g.children
    case None => (GroupSlot(g.id, lead, None, trail), active, selected)
    case Some(cs) =>
      var sel := if g.selectableType != NotSelectable && !HasKey(selected, g.id) then Put(selected, g.id, [])
                 else selected;
      var items := RenderGroupItems(ctx, g, cs, active, sel);
      (GroupSlot(g.id, lead, Some(items.0), trail), items.1, sel)
  }

  /**
   One step of `renderList` for the child at `index` of the combined header-and-body
   list. A group is "last" when its index in the combined list equals the number of the
   page's own children minus one.
   */
  function RenderChild(ctx: RenderCtx, list: seq<PageChild>, index: int, acc: Pass): (r: Pass)
    requires 0 <= index < |list|
    ensures |r.slots| == |acc.slots| + 1 && r.slots[..|acc.slots|] == acc.slots
  {
    match list[index]
    case PageGroup(g) =>
      var isFirstChild := index == 0;
      var isLastChild := index == |ctx.page.children| - 1;
      var lead := HasGroupFirstSeparator(g, isFirstChild, acc.lastItemWasSeparator);
      var trail := HasGroupLastSeparator(g, isLastChild);
      var rg := RenderGroup(ctx, g, lead, trail, acc.active, acc.selected);
      Pass(rg.1, rg.2, trail, acc.slots + [rg.0])
    case PageSeparator(_) =>
      if acc.lastItemWasSeparator then acc.(slots := acc.slots + [SeparatorSlot(false)])
      else acc.(lastItemWasSeparator := true, slots := acc.slots + [SeparatorSlot(true)])
    case PageOption(o) =>
      var ro := RenderOption(ctx, acc.active, acc.selected, ActiveEntry(o, None));
      Pass(ro.1, acc.selected, false, acc.slots + [OptionSlot(ro.0)])
  }

  /** One step of `renderList` as a loop body over the indices of the list. */
  function Step(ctx: RenderCtx, list: seq<PageChild>): (Pass, nat) -> Pass {
    (acc: Pass, i: nat) => if i < |list| then RenderChild(ctx, list, i, acc) else acc
  }

  lemma StepIsRenderChild(ctx: RenderCtx, list: seq<PageChild>, acc: Pass, i: nat)
    requires i < |list|
    ensures Step(ctx, list)(acc, i) == RenderChild(ctx, list, i, acc)
  {
  }

  /** `renderList` over the first `n` children of the combined list. */
  function RenderPrefix(ctx: RenderCtx, list: seq<PageChild>, n: int, init: Pass): (r: Pass)
    requires 0 <= n <= |list|
    ensures |r.slots| == |init.slots| + n
  {
    SlotCount(ctx, list, n, init);
    Iterate(Step(ctx, list), init, n)
  }

  /** Each step draws exactly one slot. */
  lemma SlotCount(ctx: RenderCtx, list: seq<PageChild>, n: nat, init: Pass)
    requires n <= |list|
    ensures |Iterate(Step(ctx, list), init, n).slots| == |init.slots| + n
  {
    var inv := (a: Pass, i: nat) => |a.slots| == |init.slots| + i;
    forall a: Pass, i: nat {:trigger Step(ctx, list)(a, i)} | i < n && inv(a, i)
      ensures inv(Step(ctx, list)(a, i), i + 1)
    {
      StepIsRenderChild(ctx, list, a, i);
    }
    IterateInvariant(Step(ctx, list), inv, init, n);
  }

  /** The walk over one more child renders that child after the shorter walk. */
  lemma RenderPrefixSnoc(ctx: RenderCtx, list: seq<PageChild>, n: int, init: Pass)
    requires 0 <= n < |list|
    ensures RenderPrefix(ctx, list, n + 1, init) == RenderChild(ctx, list, n, RenderPrefix(ctx, list, n, init))
  {
    StepIsRenderChild(ctx, list, RenderPrefix(ctx, list, n, init), n);
  }

  /** What one render pass leaves behind. `list` is `None` when there is no current page. */
  datatype RenderResult = RenderResult(list: Option<seq<Slot>>, active: ActiveMap, selected: SelectionMap)

  function ContextOf(cfg: Config, st: State, page: DrilldownPage): RenderCtx {
    RenderCtx(cfg, page, st.highlighted)
  }

  /** The combined list `renderList` walks: header items, then the page's children. */
  function PageList(cfg: Config, st: State, page: DrilldownPage): seq<PageChild> {
    HeaderChildren(cfg, st) + page.children
  }

  /** `render` followed by `renderList`: the active map starts empty. */
  function RenderPass(cfg: Config, st: State): (r: RenderResult)
    ensures CurrentPage(cfg, st).None? ==> r.list.None? && r.active == [] && r.selected == st.selected
    ensures CurrentPage(cfg, st).Some? ==>
              r.list.Some? && |r.list.value| == |PageList(cfg, st, CurrentPage(cfg, st).value)|
  {
    match CurrentPage(cfg, st)
    case None => RenderResult(None, [], st.selected)
    case Some(page) =>
      var list := PageList(cfg, st, page);
      var p := RenderPrefix(ContextOf(cfg, st, page), list, |list|, Pass([], st.selected, false, []));
      RenderResult(Some(p.slots), p.active, p.selected)
  }

  /** The controller state after a render pass. */
  function Render(cfg: Config, st: State): State {
    var r := RenderPass(cfg, st);
    st.(active := r.active, selected := r.selected)
  }

  // ---------------------------------------------------------------- the active map

  /** The options of a group's children, with the group's props, in order. */
  function GroupVisits(g: DrilldownGroup, cs: seq<GroupChild>): seq<ActiveEntry>
    decreases |cs|
  {
    if |cs| == 0 then []
    else
      var n := |cs| - 1;
      GroupVisits(g, cs[..n]) +
        match cs[n]
        case GroupOption(o) => [ActiveEntry(o, Some(g))]
        case GroupSeparator(_) => []
  }

  lemma {:induction false} GroupVisitsMembers(g: DrilldownGroup, cs: seq<GroupChild>, v: ActiveEntry)
    ensures v in GroupVisits(g, cs) <==> v.group == Some(g) && GroupOption(v.option) in cs
    decreases |cs|
  {
    if |cs| > 0 {
      var n := |cs| - 1;
      assert cs == cs[..n] + [cs[n]];
      GroupVisitsMembers(g, cs[..n], v);
    }
  }

  /** The options `renderOption` is called with for one child of the list. */
  function ChildVisits(c: PageChild): seq<ActiveEntry> {
    match c
    case PageOption(o) => [ActiveEntry(o, None)]
    case PageSeparator(_) => []
    case PageGroup(g) =>
      match g.children
      case None => []
      case Some(cs) => GroupVisits(g, cs)
  }

  /** The options `renderOption` is called with for a list, in call order. */
  function Visits(list: seq<PageChild>): seq<ActiveEntry> {
    Flatten(ChildVisits, list)
  }

  lemma VisitsSnoc(list: seq<PageChild>, c: PageChild)
    ensures Visits(list + [c]) == Visits(list) + ChildVisits(c)
  {
    var l := list + [c];
    assert l[..|l| - 1] == list;
  }

  lemma VisitsMembers(list: seq<PageChild>, v: ActiveEntry)
    ensures v in Visits(list) <==> exists i :: 0 <= i < |list| && v in ChildVisits(list[i])
  {
    FlattenMembers(ChildVisits, list, v);
  }

  lemma VisitsAppend(a: seq<PageChild>, b: seq<PageChild>)
    ensures Visits(a + b) == Visits(a) + Visits(b)
  {
    FlattenAppend(ChildVisits, a, b);
  }

  /** The active map after `renderOption` is called with each of `vs` in turn. */
  function RegisterAll(ctx: RenderCtx, active: ActiveMap, vs: seq<ActiveEntry>): ActiveMap
    decreases |vs|
  {
    if |vs| == 0 then active else Register(ctx, RegisterAll(ctx, active, vs[..|vs| - 1]), vs[|vs| - 1])
  }

  lemma {:induction false} RegisterAllAppend(ctx: RenderCtx, a: ActiveMap, xs: seq<ActiveEntry>, ys: seq<ActiveEntry>)
    ensures RegisterAll(ctx, a, xs + ys) == RegisterAll(ctx, RegisterAll(ctx, a, xs), ys)
    decreases |ys|
  {
    if |ys| == 0 {
      assert xs + ys == xs;
    } else {
      var n := |ys| - 1;
      assert (xs + ys)[..|xs| + n] == xs + ys[..n];
      RegisterAllAppend(ctx, a, xs, ys[..n]);
    }
  }

  /**
   The ids that enter the map, in order: each eligible option whose id is not among
   the ids already there (`seen`) or entered before it.
   */
  function FreshIds(ctx: RenderCtx, seen: seq<Key>, vs: seq<ActiveEntry>): seq<Key>
    decreases |vs|
  {
    if |vs| == 0 then []
    else
      var f := FreshIds(ctx, seen, vs[..|vs| - 1]);
      var v := vs[|vs| - 1];
      f + (if Eligible(ctx, v) && v.option.id !in seen + f then [v.option.id] else [])
  }

  lemma {:induction false} FreshIdsMembers(ctx: RenderCtx, seen: seq<Key>, vs: seq<ActiveEntry>, k: Key)
    ensures k in FreshIds(ctx, seen, vs) <==>
              k !in seen && exists i :: 0 <= i < |vs| && Eligible(ctx, vs[i]) && vs[i].option.id == k
    decreases |vs|
  {
    if |vs| > 0 {
      var n := |vs| - 1;
      FreshIdsMembers(ctx, seen, vs[..n], k);
      assert forall i :: 0 <= i < n ==> vs[..n][i] == vs[i];
    }
  }

  /** The first id to enter is the first visit's, when that one is eligible and new. */
  lemma {:induction false} FreshIdsHead(ctx: RenderCtx, seen: seq<Key>, vs: seq<ActiveEntry>)
    requires |vs| > 0 && Eligible(ctx, vs[0]) && vs[0].option.id !in seen
    ensures |FreshIds(ctx, seen, vs)| > 0 && FreshIds(ctx, seen, vs)[0] == vs[0].option.id
    decreases |vs|
  {
    var n := |vs| - 1;
    if n > 0 {
      assert vs[..n][0] == vs[0];
      FreshIdsHead(ctx, seen, vs[..n]);
    }
  }

  /** Every entry is stored under its option's id and is an eligible option. */
  predicate EntriesOk(ctx: RenderCtx, m: ActiveMap) {
    forall p :: p in m ==> p.0 == p.1.option.id && Eligible(ctx, p.1)
  }

  /**
   Registering options keeps the map well formed and its entries eligible, appends
   exactly the fresh ids, and stores nothing but the options visited.
   */
  lemma {:induction false} RegisterAllShape(ctx: RenderCtx, m: ActiveMap, vs: seq<ActiveEntry>)
    requires Wf(m) && EntriesOk(ctx, m)
    ensures var r := RegisterAll(ctx, m, vs);
      && Wf(r) && EntriesOk(ctx, r)
      && Keys(r) == Keys(m) + FreshIds(ctx, Keys(m), vs)
      && forall p :: p in r ==> p in m || p.1 in vs
    decreases |vs|
  {
    if |vs| > 0 {
      var n := |vs| - 1;
      var front := vs[..n];
      RegisterAllShape(ctx, m, front);
      var a := RegisterAll(ctx, m, front);
      var f := FreshIds(ctx, Keys(m), front);
      RegisterShape(ctx, a, vs[n]);
      var r := RegisterAll(ctx, m, vs);
      assert r == Register(ctx, a, vs[n]);
      var x := if Eligible(ctx, vs[n]) && vs[n].option.id !in Keys(m) + f then [vs[n].option.id] else [];
      assert FreshIds(ctx, Keys(m), vs) == f + x;
      assert Keys(r) == (Keys(m) + f) + x;
      assert (Keys(m) + f) + x == Keys(m) + (f + x);
      assert forall p :: p in r ==> p in m || p.1 in vs by {
        assert forall y :: y in front ==> y in vs;
      }
    }
  }

  /**
   Registering one option keeps the map well formed and its entries eligible, appends
   the option's id exactly when the option is eligible and its id is new, and stores
   nothing but that option.
   */
  lemma RegisterShape(ctx: RenderCtx, a: ActiveMap, v: ActiveEntry)
    requires Wf(a) && EntriesOk(ctx, a)
    ensures var r := Register(ctx, a, v);
      && Wf(r) && EntriesOk(ctx, r)
      && Keys(r) == Keys(a) + (if Eligible(ctx, v) && v.option.id !in Keys(a) then [v.option.id] else [])
      && forall p :: p in r ==> p in a || p.1 == v
  {
    var id := v.option.id;
    if !IsActive(a, Some(id)) && Eligible(ctx, v) {
      var r := Put(a, id, v);
      if HasKey(a, id) {
        assert Keys(r) == Keys(a);
      }
    } else {
      assert Register(ctx, a, v) == a;
      assert Keys(a) + [] == Keys(a);
    }
  }

  /**
   The first eligible option with a given non-empty id is the one stored under it:
   later options with the same id are duplicates and are dropped.
   */
  lemma {:induction false} RegisterAllFirstWins(ctx: RenderCtx, m: ActiveMap, vs: seq<ActiveEntry>, i: int)
    requires Wf(m) && EntriesOk(ctx, m)
    requires 0 <= i < |vs| && Eligible(ctx, vs[i]) && vs[i].option.id != ""
    requires !HasKey(m, vs[i].option.id)
    requires forall j :: 0 <= j < i ==> !(Eligible(ctx, vs[j]) && vs[j].option.id == vs[i].option.id)
    ensures Get(RegisterAll(ctx, m, vs), vs[i].option.id) == Some(vs[i])
    decreases |vs|
  {
    var n := |vs| - 1;
    var front := vs[..n];
    var k := vs[i].option.id;
    var a := RegisterAll(ctx, m, front);
    if i == n {
      RegisterAllShape(ctx, m, front);
      FreshIdsMembers(ctx, Keys(m), front, k);
      assert !HasKey(a, k);
    } else {
      assert forall j :: 0 <= j < n ==> front[j] == vs[j];
      RegisterAllFirstWins(ctx, m, front, i);
    }
  }

  lemma {:induction false} GroupItemsActive(ctx: RenderCtx, g: DrilldownGroup, cs: seq<GroupChild>,
                                            active: ActiveMap, selected: SelectionMap)
    ensures RenderGroupItems(ctx, g, cs, active, selected).1 == RegisterAll(ctx, active, GroupVisits(g, cs))
    decreases |cs|
  {
    if |cs| > 0 {
      var n := |cs| - 1;
      GroupItemsActive(ctx, g, cs[..n], active, selected);
      var front := GroupVisits(g, cs[..n]);
      match cs[n]
      case GroupOption(o) =>
        RegisterAllAppend(ctx, active, front, [ActiveEntry(o, Some(g))]);
        assert [ActiveEntry(o, Some(g))][..0] == [];
      case GroupSeparator(_) =>
        assert GroupVisits(g, cs) == front;
        assert RenderGroupItems(ctx, g, cs, active, selected).1 == RenderGroupItems(ctx, g, cs[..n], active, selected).1;
    }
  }

  /** One child registers exactly the options it visits. */
  lemma RenderChildActive(ctx: RenderCtx, list: seq<PageChild>, index: int, acc: Pass)
    requires 0 <= index < |list|
    ensures RenderChild(ctx, list, index, acc).active == RegisterAll(ctx, acc.active, ChildVisits(list[index]))
  {
    match list[index]
    case PageOption(o) =>
      assert [ActiveEntry(o, None)][..0] == [];
    case PageSeparator(_) =>
    case PageGroup(g) =>
      match g.children
      case None =>
      case Some(cs) =>
        var sel := if g.selectableType != NotSelectable && !HasKey(acc.selected, g.id)
                   then Put(acc.selected, g.id, []) else acc.selected;
        GroupItemsActive(ctx, g, cs, acc.active, sel);
  }

  /** The active map after the first `i` children: `start` with their visits registered. */
  predicate ActiveSoFar(ctx: RenderCtx, list: seq<PageChild>, i: int, start: ActiveMap, active: ActiveMap)
    requires 0 <= i <= |list|
  {
    active == RegisterAll(ctx, start, Visits(list[..i]))
  }

  lemma ActiveStep(ctx: RenderCtx, list: seq<PageChild>, i: int, acc: Pass, start: ActiveMap)
    requires 0 <= i < |list|
    requires ActiveSoFar(ctx, list, i, start, acc.active)
    ensures ActiveSoFar(ctx, list, i + 1, start, RenderChild(ctx, list, i, acc).active)
  {
    var before := Visits(list[..i]);
    assert list[..i + 1] == list[..i] + [list[i]];
    VisitsSnoc(list[..i], list[i]);
    RegisterAllAppend(ctx, start, before, ChildVisits(list[i]));
    RenderChildActive(ctx, list, i, acc);
  }

  lemma IterateActive(ctx: RenderCtx, list: seq<PageChild>, n: int, init: Pass)
    requires 0 <= n <= |list|
    ensures ActiveSoFar(ctx, list, n, init.active, Iterate(Step(ctx, list), init, n).active)
  {
    var inv := (acc: Pass, i: nat) => i <= |list| && ActiveSoFar(ctx, list, i, init.active, acc.active);
    assert inv(init, 0) by {
      assert list[..0] == [];
    }
    forall acc: Pass, i: nat {:trigger Step(ctx, list)(acc, i)} | i < n && inv(acc, i)
      ensures inv(Step(ctx, list)(acc, i), i + 1)
    {
      ActiveStep(ctx, list, i, acc, init.active);
    }
    IterateInvariant(Step(ctx, list), inv, init, n);
  }

  /** The active map a render pass builds is the one `renderOption` builds over the visits in order. */
  lemma RenderPrefixActive(ctx: RenderCtx, list: seq<PageChild>, n: int, init: Pass)
    requires 0 <= n <= |list|
    ensures RenderPrefix(ctx, list, n, init).active == RegisterAll(ctx, init.active, Visits(list[..n]))
  {
    IterateActive(ctx, list, n, init);
  }

  // ---------------------------------------------------------------- selection maps

  /** A child for which `renderGroup` makes sure a selection map exists. */
  predicate SeedsGroup(c: PageChild, k: Key) {
    c.PageGroup? && c.group.id == k && c.group.children.Some? && c.group.selectableType != NotSelectable
  }

  /** The selection maps after one child: `renderGroup` adds an empty map for a new selectable group. */
  function SeedStep(c: PageChild, sel: SelectionMap): SelectionMap {
    if c.PageGroup? && SeedsGroup(c, c.group.id) && !HasKey(sel, c.group.id) then Put(sel, c.group.id, [])
    else sel
  }

  /** One child only ever adds an empty selection map, for a selectable group with children. */
  lemma SeedStepFacts(c: PageChild, sel: SelectionMap, k: Key)
    requires SelectionWf(sel)
    ensures var r := SeedStep(c, sel);
      && SelectionWf(r)
      && (HasKey(r, k) <==> HasKey(sel, k) || SeedsGroup(c, k))
      && (HasKey(sel, k) ==> Get(r, k) == Get(sel, k))
      && (!HasKey(sel, k) && HasKey(r, k) ==> Get(r, k) == Some([]))
  {
    var r := SeedStep(c, sel);
    if c.PageGroup? && SeedsGroup(c, c.group.id) && !HasKey(sel, c.group.id) {
      var id := c.group.id;
      assert Wf<Option<OptionValue>>([]);
      assert forall p :: p in r ==> p in sel || p == (id, []);
      if k == id {
        assert Get(r, k) == Some([]);
      } else {
        assert Get(r, k) == Get(sel, k);
        assert !SeedsGroup(c, k);
      }
    } else {
      assert SeedsGroup(c, k) ==> HasKey(sel, k);
    }
  }

  lemma RenderChildSelected(ctx: RenderCtx, list: seq<PageChild>, index: int, acc: Pass)
    requires 0 <= index < |list|
    ensures RenderChild(ctx, list, index, acc).selected == SeedStep(list[index], acc.selected)
  {
    if list[index].PageGroup? {
      var g := list[index].group;
      var lead := HasGroupFirstSeparator(g, index == 0, acc.lastItemWasSeparator);
      var trail := HasGroupLastSeparator(g, index == |ctx.page.children| - 1);
      RenderGroupSelected(ctx, g, lead, trail, acc.active, acc.selected);
    }
  }

  lemma RenderGroupSelected(ctx: RenderCtx, g: DrilldownGroup, lead: bool, trail: bool,
                            active: ActiveMap, selected: SelectionMap)
    ensures RenderGroup(ctx, g, lead, trail, active, selected).2 == SeedStep(PageGroup(g), selected)
  {
  }

  /**
   The selection maps after the first `i` children, compared with the ones before
   them (`start`), as far as the key `k` goes.
   */
  predicate SelectedSoFar(list: seq<PageChild>, i: int, start: SelectionMap, sel: SelectionMap, k: Key)
    requires 0 <= i <= |list|
  {
    && SelectionWf(sel)
    && (HasKey(sel, k) <==> HasKey(start, k) || exists j :: 0 <= j < i && SeedsGroup(list[j], k))
    && (HasKey(start, k) ==> Get(sel, k) == Get(start, k))
    && (!HasKey(start, k) && HasKey(sel, k) ==> Get(sel, k) == Some([]))
  }

  lemma SelectedStep(ctx: RenderCtx, list: seq<PageChild>, i: int, acc: Pass, start: SelectionMap, k: Key)
    requires 0 <= i < |list|
    requires SelectedSoFar(list, i, start, acc.selected, k)
    ensures SelectedSoFar(list, i + 1, start, RenderChild(ctx, list, i, acc).selected, k)
  {
    RenderChildSelected(ctx, list, i, acc);
    SeedStepFacts(list[i], acc.selected, k);
    assert (exists j :: 0 <= j < i + 1 && SeedsGroup(list[j], k)) <==>
           (exists j :: 0 <= j < i && SeedsGroup(list[j], k)) || SeedsGroup(list[i], k);
  }

  /**
   A render pass only adds selection maps: an empty one for each selectable group with
   children that has none, leaving every existing selection as it was.
   */
  lemma RenderPrefixSelected(ctx: RenderCtx, list: seq<PageChild>, n: int, init: Pass, k: Key)
    requires 0 <= n <= |list|
    requires SelectionWf(init.selected)
    ensures var r := RenderPrefix(ctx, list, n, init).selected;
      && SelectionWf(r)
      && (HasKey(r, k) <==> HasKey(init.selected, k) || exists j :: 0 <= j < n && SeedsGroup(list[j], k))
      && (HasKey(init.selected, k) ==> Get(r, k) == Get(init.selected, k))
      && (!HasKey(init.selected, k) && HasKey(r, k) ==> Get(r, k) == Some([]))
  {
    var inv := (acc: Pass, i: nat) => i <= |list| && SelectedSoFar(list, i, init.selected, acc.selected, k);
    forall acc: Pass, i: nat {:trigger Step(ctx, list)(acc, i)} | i < n && inv(acc, i)
      ensures inv(Step(ctx, list)(acc, i), i + 1)
    {
      SelectedStep(ctx, list, i, acc, init.selected, k);
    }
    IterateInvariant(Step(ctx, list), inv, init, n);
  }

  // ---------------------------------------------------------------- what a render pass guarantees

  /**
   What the click handlers rely on: the maps are well formed, each active option is
   stored under its id, a selectable group's option has its group's selection map, and
   the back option is only active while there is a previous page.
   */
  predicate Coherent(cfg: Config, st: State) {
    && Wf(st.active)
    && SelectionWf(st.selected)
    && forall p :: p in st.active ==>
         && p.0 == p.1.option.id
         && (Selectable(p.1.group) ==> HasKey(st.selected, p.1.group.value.id))
         && (p.1.option.onOptionClick == BackHandler ==> PreviousPage(cfg, st.history).Some?)
  }

  /**
   The active map after a render pass: well formed, every entry an eligible option of
   the page stored under its own id (so never the title, nor a disabled option), the
   ids in the order they are first met among eligible options.
   */
  lemma RenderPassActive(cfg: Config, st: State)
    requires CurrentPage(cfg, st).Some?
    ensures var page := CurrentPage(cfg, st).value; var ctx := ContextOf(cfg, st, page);
      var vs := Visits(PageList(cfg, st, page)); var r := RenderPass(cfg, st);
      && Wf(r.active)
      && EntriesOk(ctx, r.active)
      && Keys(r.active) == FreshIds(ctx, [], vs)
      && (forall p :: p in r.active ==> p.1 in vs)
      && !HasKey(r.active, cfg.headerIds.title)
  {
    var page := CurrentPage(cfg, st).value;
    var ctx := ContextOf(cfg, st, page);
    var list := PageList(cfg, st, page);
    var init := Pass([], st.selected, false, []);
    RenderPrefixActive(ctx, list, |list|, init);
    assert list[..|list|] == list;
    RegisterAllShape(ctx, [], Visits(list));
    assert Keys<ActiveEntry>([]) == [];
    NoTitleEntry(ctx, RenderPass(cfg, st).active);
  }

  /** The header title is never an active option. */
  lemma NoTitleEntry(ctx: RenderCtx, r: ActiveMap)
    requires EntriesOk(ctx, r)
    ensures !HasKey(r, ctx.cfg.headerIds.title)
  {
    forall i | 0 <= i < |r|
      ensures Keys(r)[i] != ctx.cfg.headerIds.title
    {
      assert r[i] in r;
    }
  }

  /**
   Among the options a render pass meets, the first eligible one with a given
   non-empty id is the one the active map holds under that id.
   */
  lemma RenderPassFirstWins(cfg: Config, st: State, i: int)
    requires CurrentPage(cfg, st).Some?
    requires var page := CurrentPage(cfg, st).value; var vs := Visits(PageList(cfg, st, page));
      && 0 <= i < |vs| && Eligible(ContextOf(cfg, st, page), vs[i]) && vs[i].option.id != ""
      && forall j :: 0 <= j < i ==>
           !(Eligible(ContextOf(cfg, st, page), vs[j]) && vs[j].option.id == vs[i].option.id)
    ensures var vs := Visits(PageList(cfg, st, CurrentPage(cfg, st).value));
      Get(RenderPass(cfg, st).active, vs[i].option.id) == Some(vs[i])
  {
    var page := CurrentPage(cfg, st).value;
    var ctx := ContextOf(cfg, st, page);
    var list := PageList(cfg, st, page);
    RenderPrefixActive(ctx, list, |list|, Pass([], st.selected, false, []));
    assert list[..|list|] == list;
    RegisterAllFirstWins(ctx, [], Visits(list), i);
  }

  /** With a previous page, the back option is the first active option. */
  lemma BackOptionFirst(cfg: Config, st: State)
    requires HeaderIdsOk(cfg.headerIds)
    requires CurrentPage(cfg, st).Some? && PreviousPage(cfg, st.history).Some?
    ensures var r := RenderPass(cfg, st).active;
      |r| > 0 && r[0] == (cfg.headerIds.back, ActiveEntry(BackOption(cfg), None))
  {
    var page := CurrentPage(cfg, st).value;
    var ctx := ContextOf(cfg, st, page);
    var header := HeaderChildren(cfg, st);
    var list := PageList(cfg, st, page);
    var back := PageOption(BackOption(cfg));
    assert header == [back] + header[1..];
    assert list == [back] + (header[1..] + page.children);
    VisitsAppend([back], header[1..] + page.children);
    assert Visits([back]) == [ActiveEntry(BackOption(cfg), None)] by {
      VisitsSnoc([], back);
      assert [] + [back] == [back];
    }
    var vs := Visits(list);
    assert vs[0] == ActiveEntry(BackOption(cfg), None);
    RenderPassActive(cfg, st);
    FreshIdsHead(ctx, [], vs);
    RenderPassFirstWins(cfg, st, 0);
    var r := RenderPass(cfg, st).active;
    assert r[0] in r;
  }

  /** Only the header's back option carries the back handler, and it is there only with a previous page. */
  lemma HeaderHandlers(cfg: Config, page: DrilldownPage, hasBack: bool, c: PageChild)
    requires c in HeaderOf(cfg, page, hasBack)
    ensures c.PageOption? || c.PageSeparator?
    ensures c.PageOption? && c.option.onOptionClick == BackHandler ==> hasBack
  {
  }

  /** An option a render pass meets in a selectable group has that group's selection map afterwards. */
  lemma VisitedGroupSeeded(cfg: Config, st: State, v: ActiveEntry)
    requires SelectionWf(st.selected)
    requires CurrentPage(cfg, st).Some?
    requires v in Visits(PageList(cfg, st, CurrentPage(cfg, st).value))
    requires Selectable(v.group)
    ensures HasKey(RenderPass(cfg, st).selected, v.group.value.id)
  {
    var page := CurrentPage(cfg, st).value;
    var ctx := ContextOf(cfg, st, page);
    var list := PageList(cfg, st, page);
    VisitsMembers(list, v);
    var i :| 0 <= i < |list| && v in ChildVisits(list[i]);
    var g := list[i].group;
    GroupVisitsMembers(g, g.children.value, v);
    assert SeedsGroup(list[i], g.id);
    RenderPrefixSelected(ctx, list, |list|, Pass([], st.selected, false, []), g.id);
  }

  /** The options met in a declared child are declared options. */
  lemma DeclaredChildVisits(c: PageChild, v: ActiveEntry)
    requires ChildDeclared(c) && v in ChildVisits(c)
    ensures DeclaredHandler(v.option)
  {
    if c.PageGroup? {
      GroupVisitsMembers(c.group, c.group.children.value, v);
      assert v.option in GroupOptions(c.group);
    }
  }

  /** An option a render pass meets with the back handler is the header's back option. */
  lemma VisitedBackHandler(cfg: Config, st: State, v: ActiveEntry)
    requires DeclaredOptionsOk(cfg)
    requires CurrentPage(cfg, st).Some?
    requires v in Visits(PageList(cfg, st, CurrentPage(cfg, st).value))
    requires v.option.onOptionClick == BackHandler
    ensures PreviousPage(cfg, st.history).Some?
  {
    var page := CurrentPage(cfg, st).value;
    var header := HeaderChildren(cfg, st);
    VisitsAppend(header, page.children);
    if v in Visits(header) {
      VisitsMembers(header, v);
      var i :| 0 <= i < |header| && v in ChildVisits(header[i]);
      HeaderHandlers(cfg, page, PreviousPage(cfg, st.history).Some?, header[i]);
    } else {
      VisitsMembers(page.children, v);
      var i :| 0 <= i < |page.children| && v in ChildVisits(page.children[i]);
      var pi :| 0 <= pi < |cfg.pages| && cfg.pages[pi] == page;
      assert page.children[i] in cfg.pages[pi].children;
      DeclaredChildVisits(page.children[i], v);
    }
  }

  /** A render pass establishes what the click handlers rely on. */
  lemma RenderCoherent(cfg: Config, st: State)
    requires DeclaredOptionsOk(cfg)
    requires SelectionWf(st.selected)
    requires CurrentPage(cfg, st).Some?
    ensures Coherent(cfg, Render(cfg, st))
  {
    var page := CurrentPage(cfg, st).value;
    var ctx := ContextOf(cfg, st, page);
    var list := PageList(cfg, st, page);
    var st' := Render(cfg, st);
    RenderPassActive(cfg, st);
    assert list[..|list|] == list;
    RenderPrefixSelected(ctx, list, |list|, Pass([], st.selected, false, []), "");
    forall p | p in st'.active
      ensures Selectable(p.1.group) ==> HasKey(st'.selected, p.1.group.value.id)
      ensures p.1.option.onOptionClick == BackHandler ==> PreviousPage(cfg, st'.history).Some?
    {
      if Selectable(p.1.group) {
        VisitedGroupSeeded(cfg, st, p.1);
      }
      if p.1.option.onOptionClick == BackHandler {
        VisitedBackHandler(cfg, st, p.1);
      }
    }
  }

  // ---------------------------------------------------------------- slots and separators

  /** A pass whose slots begin with `prefix`. */
  predicate KeepsPrefix(acc: Pass, prefix: seq<Slot>) {
    |prefix| <= |acc.slots| && acc.slots[..|prefix|] == prefix
  }

  /** Steps of the walk never change the slots already there. */
  lemma ShiftKeepsPrefix(ctx: RenderCtx, list: seq<PageChild>, m: nat, k: nat, start: Pass)
    ensures KeepsPrefix(Iterate(Shift(Step(ctx, list), m), start, k), start.slots)
  {
    var prefix := start.slots;
    var inv := (acc: Pass, i: nat) => KeepsPrefix(acc, prefix);
    assert inv(start, 0) by {
      assert start.slots[..|prefix|] == start.slots;
    }
    forall acc: Pass, i: nat {:trigger Shift(Step(ctx, list), m)(acc, i)} | i < k && inv(acc, i)
      ensures inv(Shift(Step(ctx, list), m)(acc, i), i + 1)
    {
      if i + m < |list| {
        var r := RenderChild(ctx, list, i + m, acc);
        PrefixOfPrefix(acc.slots, r.slots, |prefix|);
      }
    }
    IterateInvariant(Shift(Step(ctx, list), m), inv, start, k);
  }

  /** Later children only append slots: the walk over a longer prefix extends the walk over a shorter one. */
  lemma RenderPrefixStable(ctx: RenderCtx, list: seq<PageChild>, m: int, n: int, init: Pass)
    requires 0 <= m <= n <= |list|
    ensures RenderPrefix(ctx, list, n, init).slots[..|init.slots| + m] == RenderPrefix(ctx, list, m, init).slots
  {
    var start := RenderPrefix(ctx, list, m, init);
    var whole := RenderPrefix(ctx, list, n, init);
    IterateSplit(Step(ctx, list), init, m, n);
    ShiftKeepsPrefix(ctx, list, m, n - m, start);
  }

  /**
   The slot of the child at `j`, given the walk over the children before it: an option
   is drawn only with a label; a separator is shown exactly when the walk did not just
   pass a separator; a group slot is empty exactly when the group has no children, has
   a leading separator exactly when separators are on, it is not the first child and
   the walk did not just pass a separator, and has a trailing one exactly when
   separators are on and `j` is not the page's own child count minus one. After the
   child, the walk has just passed a separator exactly when the child was a separator
   or a group with a trailing separator.
   */
  lemma SlotAt(ctx: RenderCtx, list: seq<PageChild>, j: int, init: Pass)
    requires 0 <= j < |list|
    ensures var s := RenderPrefix(ctx, list, |list|, init).slots[|init.slots| + j];
      var before := RenderPrefix(ctx, list, j, init);
      && (list[j].PageOption? ==>
            s.OptionSlot? && (s.rendered.Some? ==> list[j].option.hasLabel && s.rendered.value.id == list[j].option.id))
      && (list[j].PageSeparator? ==> s.SeparatorSlot? && s.shown == !before.lastItemWasSeparator)
      && (list[j].PageGroup? ==>
            && s.GroupSlot? && s.groupId == list[j].group.id
            && (s.body.None? <==> list[j].group.children.None?)
            && s.leadingSeparator == (!list[j].group.withoutSeparators && j != 0 && !before.lastItemWasSeparator)
            && s.trailingSeparator == (!list[j].group.withoutSeparators && j != |ctx.page.children| - 1))
    ensures var after := RenderPrefix(ctx, list, j + 1, init);
      && (list[j].PageOption? ==> !after.lastItemWasSeparator)
      && (list[j].PageSeparator? ==> after.lastItemWasSeparator)
      && (list[j].PageGroup? ==>
            after.lastItemWasSeparator == (!list[j].group.withoutSeparators && j != |ctx.page.children| - 1))
  {
    RenderPrefixStable(ctx, list, j + 1, |list|, init);
    var before := RenderPrefix(ctx, list, j, init);
    var after := RenderPrefix(ctx, list, j + 1, init);
    RenderPrefixSnoc(ctx, list, j, init);
    assert after.slots[|init.slots| + j] == RenderPrefix(ctx, list, |list|, init).slots[|init.slots| + j];
  }

  /**
   Because `isLastChild` compares an index of the header-and-body list with the body's
   length, a page whose header is not empty and whose last child is a group with
   separators ends with a trailing separator after that group.
   */
  lemma LastGroupAfterHeaderKeepsTrailingSeparator(cfg: Config, st: State)
    requires CurrentPage(cfg, st).Some?
    requires var page := CurrentPage(cfg, st).value;
      && |HeaderChildren(cfg, st)| > 0 && |page.children| > 0
      && page.children[|page.children| - 1].PageGroup?
      && !page.children[|page.children| - 1].group.withoutSeparators
    ensures var slots := RenderPass(cfg, st).list.value;
      |slots| > 0 && slots[|slots| - 1].GroupSlot? && slots[|slots| - 1].trailingSeparator
  {
    var page := CurrentPage(cfg, st).value;
    var list := PageList(cfg, st, page);
    SlotAt(ContextOf(cfg, st, page), list, |list| - 1, Pass([], st.selected, false, []));
  }

  datatype Token = SeparatorToken | ItemToken

  /**
   A slot as `renderList` walks it: every option and every group is an item, whether
   or not anything is drawn for it; a group with children brings its own separators.
   */
  function WalkTokens(s: Slot): seq<Token> {
    match s
    case OptionSlot(_) => [ItemToken]
    case SeparatorSlot(shown) => if shown then [SeparatorToken] else []
    case GroupSlot(_, lead, body, trail) =>
      if body.None? then [ItemToken]
      else (if lead then [SeparatorToken] else []) + [ItemToken] + (if trail then [SeparatorToken] else [])
  }

  /** A slot as drawn: a dropped option and a group without children draw nothing. */
  function DrawnTokens(s: Slot): seq<Token> {
    match s
    case OptionSlot(r) => if r.Some? then [ItemToken] else []
    case GroupSlot(_, _, None, _) => []
    case _ => WalkTokens(s)
  }

  /** The stream `renderList` walks through. */
  function Walked(slots: seq<Slot>): seq<Token> {
    Flatten(WalkTokens, slots)
  }

  /** The stream as drawn. */
  function Drawn(slots: seq<Slot>): seq<Token> {
    Flatten(DrawnTokens, slots)
  }

  /** No separator token is directly followed by another. */
  predicate NoAdjacentSeparators(ts: seq<Token>) {
    forall i, j :: 0 <= i < |ts| && 0 <= j < |ts| && j == i + 1 ==> !(ts[i] == SeparatorToken && ts[j] == SeparatorToken)
  }

  predicate EndsWithSeparator(ts: seq<Token>) {
    |ts| > 0 && ts[|ts| - 1] == SeparatorToken
  }

  /** `lastItemWasSeparator` is set whenever the walked stream ends with a separator. */
  predicate SeparatorInvariant(acc: Pass) {
    var ts := Walked(acc.slots);
    NoAdjacentSeparators(ts) && (EndsWithSeparator(ts) ==> acc.lastItemWasSeparator)
  }

  /**
   What one step of the walk must respect: the walked tokens it adds have no adjacent
   separators, start with a separator only when the flag is clear, and leave the flag
   set when they end with a separator (or keep it when they add nothing).
   */
  predicate StepOk(flag: bool, ws: seq<Token>, newFlag: bool) {
    && NoAdjacentSeparators(ws)
    && (|ws| > 0 && ws[0] == SeparatorToken ==> !flag)
    && (EndsWithSeparator(ws) ==> newFlag)
    && (|ws| == 0 ==> newFlag == flag)
  }

  lemma StepKeepsInvariant(ts: seq<Token>, flag: bool, ws: seq<Token>, newFlag: bool)
    requires NoAdjacentSeparators(ts) && (EndsWithSeparator(ts) ==> flag)
    requires StepOk(flag, ws, newFlag)
    ensures NoAdjacentSeparators(ts + ws) && (EndsWithSeparator(ts + ws) ==> newFlag)
  {
    var all := ts + ws;
    forall i, j | 0 <= i < |all| && 0 <= j < |all| && j == i + 1
      ensures !(all[i] == SeparatorToken && all[j] == SeparatorToken)
    {
      if j < |ts| {
        assert all[i] == ts[i] && all[j] == ts[j];
      } else if i >= |ts| {
        assert all[i] == ws[i - |ts|] && all[j] == ws[j - |ts|];
      } else {
        assert all[i] == ts[|ts| - 1] && all[j] == ws[0];
      }
    }
    if |ws| == 0 {
      assert all == ts;
    } else {
      assert all[|all| - 1] == ws[|ws| - 1];
    }
  }

  /** Each child of the walk respects the step rule. */
  lemma RenderChildStep(ctx: RenderCtx, list: seq<PageChild>, index: int, acc: Pass)
    requires 0 <= index < |list|
    ensures var r := RenderChild(ctx, list, index, acc);
      StepOk(acc.lastItemWasSeparator, WalkTokens(r.slots[|r.slots| - 1]), r.lastItemWasSeparator)
  {
    var r := RenderChild(ctx, list, index, acc);
    var s := r.slots[|r.slots| - 1];
    match list[index]
    case PageGroup(g) =>
      var ws := WalkTokens(s);
      if s.body.Some? {
        assert ws == (if s.leadingSeparator then [SeparatorToken] else []) + [ItemToken]
                     + (if s.trailingSeparator then [SeparatorToken] else []);
      }
    case PageSeparator(_) =>
    case PageOption(_) =>
  }

  lemma RenderChildSeparators(ctx: RenderCtx, list: seq<PageChild>, index: int, acc: Pass)
    requires 0 <= index < |list|
    requires SeparatorInvariant(acc)
    ensures SeparatorInvariant(RenderChild(ctx, list, index, acc))
  {
    var r := RenderChild(ctx, list, index, acc);
    var s := r.slots[|r.slots| - 1];
    assert r.slots[..|r.slots| - 1] == acc.slots;
    var ts := Walked(acc.slots);
    assert Walked(r.slots) == ts + WalkTokens(s);
    RenderChildStep(ctx, list, index, acc);
    StepKeepsInvariant(ts, acc.lastItemWasSeparator, WalkTokens(s), r.lastItemWasSeparator);
  }

  lemma RenderPrefixSeparators(ctx: RenderCtx, list: seq<PageChild>, n: int, init: Pass)
    requires 0 <= n <= |list|
    requires SeparatorInvariant(init)
    ensures SeparatorInvariant(RenderPrefix(ctx, list, n, init))
  {
    var inv := (acc: Pass, i: nat) => SeparatorInvariant(acc);
    forall acc: Pass, i: nat {:trigger Step(ctx, list)(acc, i)} | i < n && inv(acc, i)
      ensures inv(Step(ctx, list)(acc, i), i + 1)
    {
      RenderChildSeparators(ctx, list, i, acc);
    }
    IterateInvariant(Step(ctx, list), inv, init, n);
  }

  /**
   In the list `renderList` walks — header and body, groups with their own separators,
   each option and group counted as an item — no two separators are adjacent.
   */
  lemma RenderPassSeparators(cfg: Config, st: State)
    requires CurrentPage(cfg, st).Some?
    ensures NoAdjacentSeparators(Walked(RenderPass(cfg, st).list.value))
  {
    var page := CurrentPage(cfg, st).value;
    RenderPrefixSeparators(ContextOf(cfg, st, page), PageList(cfg, st, page), |PageList(cfg, st, page)|,
                           Pass([], st.selected, false, []));
  }

  /**
   The suppression looks at what was walked, not at what was drawn: an option that
   draws nothing between two separators leaves both separators drawn side by side.
   */
  lemma DroppedOptionBetweenSeparators(ctx: RenderCtx, s1: DrilldownSeparator, o: DrilldownOption,
                                       s2: DrilldownSeparator, active: ActiveMap, selected: SelectionMap)
    requires !o.hasLabel
    ensures var list := [PageSeparator(s1), PageOption(o), PageSeparator(s2)];
      Drawn(RenderPrefix(ctx, list, 3, Pass(active, selected, false, [])).slots)
        == [SeparatorToken, SeparatorToken]
  {
    var list := [PageSeparator(s1), PageOption(o), PageSeparator(s2)];
    var init := Pass(active, selected, false, []);
    var p1 := RenderChild(ctx, list, 0, init);
    var p2 := RenderChild(ctx, list, 1, p1);
    var p3 := RenderChild(ctx, list, 2, p2);
    RenderPrefixSnoc(ctx, list, 0, init);
    RenderPrefixSnoc(ctx, list, 1, init);
    RenderPrefixSnoc(ctx, list, 2, init);
    assert p1.slots == [SeparatorSlot(true)] && p1.lastItemWasSeparator;
    assert p2.slots == [SeparatorSlot(true), OptionSlot(None)] && !p2.lastItemWasSeparator;
    assert p3.slots == p2.slots + [SeparatorSlot(true)];
    DrawnSnoc([], SeparatorSlot(true));
    DrawnSnoc([SeparatorSlot(true)], OptionSlot(None));
    DrawnSnoc(p2.slots, SeparatorSlot(true));
  }

  lemma DrawnSnoc(slots: seq<Slot>, s: Slot)
    ensures Drawn(slots + [s]) == Drawn(slots) + DrawnTokens(s)
  {
    var l := slots + [s];
    assert l[..|l| - 1] == slots;
  }
}
