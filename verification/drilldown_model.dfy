/**
 The declared shapes of a Drilldown and the state its controller keeps.

 Pages, groups, options and separators are the props of `Drilldown.Page`,
 `Drilldown.Group`, `Drilldown.Option` and `Drilldown.Separator`, with everything
 that only affects styling or markup left out. Render props are reduced to what the
 controller observes of them: whether they are given (truthy) and, for labels,
 whether what they render is empty.
 */
module DrilldownModel {
  import opened Base
  import opened OrderedMap

  /** `DrilldownOptionValue` without `undefined` (an absent value is `None`). */
  datatype OptionValue = StringValue(s: string) | NumberValue(n: int)

  /** A group's `selectableType`: absent, `'single'` (radio) or `'multiple'` (checkbox). */
  datatype SelectableType = NotSelectable | Single | Multiple

  /**
   What an option's `onOptionClick` does. Declared options either have a handler of
   their own or none; the header back and action options get the controller's
   handlers (`handleBackButtonClick`, and the closure that calls the page's
   `onHeaderActionClicked` when there is one).
   */
  datatype ClickHandler =
    | NoHandler
    | UserHandler
    | BackHandler
    | HeaderActionHandler(callsPageHandler: bool)

  datatype DrilldownOption = DrilldownOption(
    id: string,
    hasLabel: bool,              // whether `children` renders a truthy label
    subPageId: Option<string>,
    isDisabled: bool,
    value: Option<OptionValue>,
    defaultSelected: bool,
    onOptionClick: ClickHandler)

  datatype DrilldownSeparator = DrilldownSeparator(id: string)

  /** A group holds options and separators only. */
  datatype GroupChild =
    | GroupOption(option: DrilldownOption)
    | GroupSeparator(separator: DrilldownSeparator)

  datatype DrilldownGroup = DrilldownGroup(
    id: string,
    children: Option<seq<GroupChild>>,   // `None`: the prop is not given
    withoutSeparators: bool,
    isDisabled: bool,
    selectableType: SelectableType,
    defaultSelected: seq<Option<OptionValue>>,
    hasOnSelect: bool)

  datatype PageChild =
    | PageOption(option: DrilldownOption)
    | PageSeparator(separator: DrilldownSeparator)
    | PageGroup(group: DrilldownGroup)

  /** `renderActionLabel`: absent, or given and rendering an empty or non-empty label. */
  datatype ActionLabel = NoActionLabel | ActionLabel(nonEmpty: bool)

  datatype DrilldownPage = DrilldownPage(
    id: string,
    children: seq<PageChild>,
    hasTitle: bool,                      // `renderTitle` is given
    actionLabel: ActionLabel,
    hasOnHeaderActionClicked: bool,
    withoutHeaderSeparators: bool,
    isDisabled: bool)

  /** The ids the component draws from `uid` for its header items. */
  datatype HeaderIds = HeaderIds(back: string, title: string, action: string, separator: string)

  /** The props of the Drilldown that the controller logic reads. */
  datatype Config = Config(
    rootPageId: string,
    pages: seq<DrilldownPage>,
    isDisabled: bool,
    rotateFocus: bool,
    shouldHideOnSelect: bool,
    hasTrigger: bool,
    hasOnSelect: bool,
    hasOnBackButtonClicked: bool,
    headerIds: HeaderIds)

  /** Generated ids are non-empty and different from each other. */
  predicate HeaderIdsOk(h: HeaderIds) {
    && h.back != "" && h.title != "" && h.action != ""
    && h.back != h.title && h.back != h.action && h.title != h.action
  }

  /** An entry of the active options map: the option and the props of its group. */
  datatype ActiveEntry = ActiveEntry(option: DrilldownOption, group: Option<DrilldownGroup>)

  type ActiveMap = OMap<ActiveEntry>

  /** The selected options of one group, option id to option value. */
  type GroupSelection = OMap<Option<OptionValue>>

  /** `_selectedGroupOptionIds`: group id to the group's selection. */
  type SelectionMap = OMap<GroupSelection>

  /** The page history is never empty: it starts as `[rootPageId]` and is only cut after an entry. */
  type History = h: seq<string> | |h| > 0 witness [""]

  function Last(h: History): string {
    h[|h| - 1]
  }

  datatype State = State(
    history: History,
    activePageId: string,
    highlighted: Option<string>,
    active: ActiveMap,
    selected: SelectionMap,
    isShowingPopover: bool,
    lastSelectedId: Option<string>)

  /** The callbacks the controller invokes, in the order it invokes them. */
  datatype Notice =
    | OptionClicked(optionId: string)
    | BackButtonClicked(newPageId: string, prevPageId: string)
    | HeaderActionClicked
    | GroupSelect(groupId: string, values: seq<Option<OptionValue>>, isSelected: bool, optionId: string)
    | Select(values: seq<Option<OptionValue>>, isSelected: bool, optionId: string)
    | SelectValue(value: Option<OptionValue>, optionId: string)
    | Hidden

  /** A group whose options can be selected. */
  predicate Selectable(g: Option<DrilldownGroup>) {
    g.Some? && g.value.selectableType != NotSelectable
  }

  /** `getPageChildById`: an id names an active option when it is truthy and a key of the map. */
  predicate IsActive(active: ActiveMap, id: Option<string>) {
    Truthy(id) && HasKey(active, id.value)
  }

  /** The options of a group, in declaration order (none when `children` is not given). */
  function GroupOptions(g: DrilldownGroup): (r: seq<DrilldownOption>)
    ensures g.children.None? ==> r == []
    ensures g.children.Some? ==> forall o :: o in r <==> GroupOption(o) in g.children.value
  {
    match g.children
    case None => []
    case Some(cs) => OptionsOf(cs)
  }

  function OptionsOf(cs: seq<GroupChild>): (r: seq<DrilldownOption>)
    ensures forall o :: o in r <==> GroupOption(o) in cs
  {
    if |cs| == 0 then []
    else
      var rest := OptionsOf(cs[1..]);
      assert forall c :: c in cs <==> c == cs[0] || c in cs[1..];
      match cs[0]
      case GroupOption(o) => [o] + rest
      case GroupSeparator(_) => rest
  }

  /** Declared options have a handler of their own or none; the other handlers belong to the header. */
  predicate DeclaredHandler(o: DrilldownOption) {
    o.onOptionClick == NoHandler || o.onOptionClick == UserHandler
  }

  predicate ChildDeclared(c: PageChild) {
    match c
    case PageOption(o) => DeclaredHandler(o)
    case PageSeparator(_) => true
    case PageGroup(g) => forall o :: o in GroupOptions(g) ==> DeclaredHandler(o)
  }

  /** Every option declared in the pages' children is a declared option. */
  predicate DeclaredOptionsOk(cfg: Config) {
    forall i, c :: 0 <= i < |cfg.pages| && c in cfg.pages[i].children ==> ChildDeclared(c)
  }

  /** The selection maps are well formed, and so is each group's. */
  predicate SelectionWf(sel: SelectionMap) {
    Wf(sel) && forall p :: p in sel ==> Wf(p.1)
  }
}
