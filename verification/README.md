# Drilldown controller, prop combinations, theme table and prop filter — a Dafny model

This project models four pieces of logic from the Instructure UI component library,
each as immutable datatypes with pure functions (and a few methods with loops), and
proves what each promises.

1. **The `Drilldown` controller** (`packages/ui-drilldown/src/Drilldown/index.tsx`).
   Its state is the page history, the active page, the highlighted option, the
   active-option map and the per-group selection maps. The model covers:
   - navigation: `goToPage`, `goToPreviousPage`, and the recovery in
     `componentDidUpdate` when the current page disappears;
   - group selection: seeding the maps in `setDefaultSelected`, and the radio/checkbox
     toggle in `handleGroupOptionSelected`;
   - the keyboard highlight: `handleOptionHighlight`, and the "highlight first/last"
     requests;
   - option selection: `handleOptionSelect`, including click handlers, sub-page
     navigation and hiding the popover;
   - the render pass (`render` + `renderList` + `renderGroup` + `renderOption`), as far
     as it decides state. It builds the header (`headerChildren`), places the group
     separators (`hasGroupFirstSeparator`, `hasGroupLastSeparator`, the
     `lastItemWasSeparator` walk), and fills the active-option map. In that map,
     duplicates are dropped, disabled status cascades, and the title is excluded.
   Module layout:
   - `DrilldownModel`: the datatypes.
   - `DrilldownNavigation`, `DrilldownSelection`, `DrilldownRender`,
     `DrilldownHighlight`: one module per concern.
   - `DrilldownEvents`: the user-facing handlers, and the `Settled` invariant they
     preserve.
2. **`generatePropCombinations`** (`packages/ui-test-utils`). This is the Cartesian
   product of prop value lists, built by mutating combinations in place and appending
   copies. The method `PropCombinations.GeneratePropCombinations` follows the source's
   loops. It is proved equal to the reference `PropCombinations.Product`, about which
   the length, key, membership, completeness and order lemmas are stated.
3. **`ComponentTheme`** (`packages/__docs__`). Covers the first-wins inverse colour map
   `mapColors`, and how `renderRows`/`render` classify a theme value by its `#` or
   `rgb` prefix.
4. **`passthroughProps`** (`packages/ui-react-utils`). The HTML/SVG prop check
   `isPropValid` is a function parameter.

Shared pieces:
- `Base` has `Option` (JavaScript `undefined`), `Result` (a thrown error), `indexOf`
  and out-of-range array reads.
- `OrderedMap` models JavaScript objects and `Map`s: a sequence of key/value pairs that
  keeps insertion order, with distinct keys.

Two behaviours of the code worth stating plainly:
- Duplicate page ids: the page map keeps the **last** page with a given id, because
  building it assigns `map[props.id]` for every page in turn (`index.tsx:295`).
- Options with a sub-page: an option with `subPageId` that is not in a selectable group
  both navigates **and** reports `onSelect` (`index.tsx:968-978`).

Quirks reproduced on purpose, each with a lemma:
- An option is stored in the active map before its label is checked. So an option with
  an empty label is active but draws nothing (`RenderOption`).
- `isLastChild` compares the position in the header-plus-children list with the number
  of page children. So on a page with a header, the last group keeps its trailing
  separator (`LastGroupAfterHeaderKeepsTrailingSeparator`).
- The "no two separators in a row" rule holds for the walked list, in which a dropped
  option still counts as an item. The drawn output can show two separators in a row
  (`DroppedOptionBetweenSeparators`).

## Model

| member | source | states |
|---|---|---|
| Base.IndexOf | packages/ui-drilldown/src/Drilldown/index.tsx:847 | `indexOf` gives the first position of the element, and -1 exactly when it is absent |
| Base.At | packages/ui-drilldown/src/Drilldown/index.tsx:797 | an array read gives the element for an index in range and `undefined` for any other index |
| OrderedMap.Get | packages/ui-drilldown/src/Drilldown/index.tsx:317-319 | a lookup finds a value exactly when the key is present, and in a well-formed map it is the value stored under that key |
| OrderedMap.Put | packages/ui-drilldown/src/Drilldown/index.tsx:680-682 | assigning a present key keeps the key order and assigning a new key appends it; afterwards the key reads the new value, every other key reads what it did before, and keys stay distinct |
| OrderedMap.Remove | packages/ui-drilldown/src/Drilldown/index.tsx:909-910 | `Map.delete` takes the key out, keeps the other keys in order, and leaves their values unchanged |
| OrderedMap.PutAllGetLast | packages/ui-drilldown/src/Drilldown/index.tsx:355-374 | after a run of assignments, a key reads the value of its last assignment |
| OrderedMap.PutAllGetUntouched | packages/ui-drilldown/src/Drilldown/index.tsx:355-374 | a key that no assignment of the run names keeps its old value |
| OrderedMap.PutAllHasKey | packages/ui-drilldown/src/Drilldown/index.tsx:355-374 | after a run of assignments, the keys are the old keys plus the assigned ones |
| DrilldownNavigation.FindPage | packages/ui-drilldown/src/Drilldown/index.tsx:282-302 | the page map finds a page exactly when some declared page has the id, and then the last such page |
| DrilldownNavigation.GetPageById | packages/ui-drilldown/src/Drilldown/index.tsx:313-315 | a falsy id finds no page; otherwise a page is found exactly when one is declared with that id |
| DrilldownNavigation.PreviousPageId | packages/ui-drilldown/src/Drilldown/index.tsx:308-311 | the previous page id is the second-to-last history entry, and `undefined` for a history of one entry |
| DrilldownNavigation.GoToPage | packages/ui-drilldown/src/Drilldown/index.tsx:831-869 | fails with no effect exactly for an empty or undeclared id. On success: a new id is pushed; a known id cuts the history back to its first occurrence; the id ends the history and becomes active; the highlight is cleared; the result is the old last entry and the new id; nothing else changes |
| DrilldownNavigation.GoToPreviousPage | packages/ui-drilldown/src/Drilldown/index.tsx:871-883 | fails exactly when there is no declared previous page. Otherwise the second-to-last entry becomes active, the last entry is removed, and the result is the old last entry and the new page |
| DrilldownNavigation.InitialHistory | packages/ui-drilldown/src/Drilldown/index.tsx:226 | the history starts as the root page alone, which is a valid history |
| DrilldownNavigation.GoToPageKeepsHistoryValid | packages/ui-drilldown/src/Drilldown/index.tsx:845-856 | a successful `goToPage` keeps the root page first and the entries pairwise distinct |
| DrilldownNavigation.GoToPagesKeepsHistoryValid | packages/ui-drilldown/src/Drilldown/index.tsx:845-856 | any sequence of `goToPage` calls keeps the history valid |
| DrilldownNavigation.RevisitTruncates | packages/ui-drilldown/src/Drilldown/index.tsx:852-856 | going to the page at history position i leaves exactly the first i+1 entries |
| DrilldownNavigation.RecoverAfterUpdate | packages/ui-drilldown/src/Drilldown/index.tsx:241-261 | a current page that still exists is kept; a removed one falls back to the previous page, else to the root page; a highlight survives only on an active option |
| DrilldownSelection.DefaultPairs | packages/ui-drilldown/src/Drilldown/index.tsx:357-377 | a group option starts selected exactly when it is `defaultSelected` or its defined value is among the group's default values |
| DrilldownSelection.SelectableGroups | packages/ui-drilldown/src/Drilldown/index.tsx:334-352 | only groups with a `selectableType`, across all pages, are seeded |
| DrilldownSelection.SetDefaultSelectedKeys | packages/ui-drilldown/src/Drilldown/index.tsx:333-381 | the seeded selection has a map for exactly the selectable groups |
| DrilldownSelection.SetDefaultSelectedGroup | packages/ui-drilldown/src/Drilldown/index.tsx:355-377 | a selectable group's seeded map holds exactly its default-selected options |
| DrilldownSelection.SetDefaultSelectedWf | packages/ui-drilldown/src/Drilldown/index.tsx:333-381 | the seeded selection maps have distinct keys at both levels |
| DrilldownSelection.HandleGroupOptionSelected | packages/ui-drilldown/src/Drilldown/index.tsx:896-947 | re-selecting a selected option removes it. A new option is added in a `multiple` group, keeping the rest, and becomes the whole map in a `single` group. No other group changes. The reported `isSelected` is membership after the toggle, reported to the group's and then the component's `onSelect` |
| DrilldownSelection.SingleGroupStaysSingle | packages/ui-drilldown/src/Drilldown/index.tsx:915-918 | a radio group never holds more than one selected option |
| DrilldownSelection.MultipleToggleTwice | packages/ui-drilldown/src/Drilldown/index.tsx:909-914 | selecting an option of a checkbox group twice restores the group's selection |
| DrilldownSelection.GroupOptionSelectedWf | packages/ui-drilldown/src/Drilldown/index.tsx:909-919 | the toggle keeps the selection maps' keys distinct |
| DrilldownSelection.SelectedOptionIds | packages/ui-drilldown/src/Drilldown/index.tsx:383-387 | the selected option ids are exactly the keys of all group maps |
| DrilldownRender.HeaderMembers | packages/ui-drilldown/src/Drilldown/index.tsx:389-467 | the header has the back option exactly when there is a previous page, the title exactly when the page has one, and the action exactly when the page has an action label; it never holds a group |
| DrilldownRender.HeaderOrder | packages/ui-drilldown/src/Drilldown/index.tsx:389-467 | header items come in the order back, title, action, separator, and the separator is present exactly when the header is non-empty, the page has children and header separators are not switched off |
| DrilldownRender.RenderOption | packages/ui-drilldown/src/Drilldown/index.tsx:608-776 | an option is drawn only when it has a label and its id is not yet active; it is highlighted exactly when its id is the highlighted id; and it is registered before the label check |
| DrilldownRender.GroupVisitsMembers | packages/ui-drilldown/src/Drilldown/index.tsx:532-593 | a group renders exactly its own options, each carrying the group's props |
| DrilldownRender.RegisterAllShape | packages/ui-drilldown/src/Drilldown/index.tsx:633-682 | registering options appends exactly the eligible ids not seen before, keeps the ids distinct, stores each option under its own id, and stores only visited options |
| DrilldownRender.RegisterAllFirstWins | packages/ui-drilldown/src/Drilldown/index.tsx:633-639 | the first eligible option with an id is the one stored under it |
| DrilldownRender.FreshIdsMembers | packages/ui-drilldown/src/Drilldown/index.tsx:666-682 | an id becomes active exactly when some visited option with that id is neither disabled (the cascade, which spares the back option) nor the title |
| DrilldownRender.RenderPrefixActive | packages/ui-drilldown/src/Drilldown/index.tsx:985-1049 | the walk over the list registers exactly the options it visits, in order |
| DrilldownRender.RenderPrefixSelected | packages/ui-drilldown/src/Drilldown/index.tsx:556-558 | rendering only adds an empty selection map for a selectable group that has none, and leaves existing selections unchanged |
| DrilldownRender.RenderPassActive | packages/ui-drilldown/src/Drilldown/index.tsx:1197-1199 | starting from a cleared map, the active map of a render pass has distinct ids in first-met order, holds only eligible visited options under their own ids, and never the title |
| DrilldownRender.RenderPassFirstWins | packages/ui-drilldown/src/Drilldown/index.tsx:633-639 | in a render pass, the first eligible option with an id is the one the map keeps |
| DrilldownRender.BackOptionFirst | packages/ui-drilldown/src/Drilldown/index.tsx:408-425 | with a previous page, the back option is the first active option, even on a disabled component |
| DrilldownRender.RenderCoherent | packages/ui-drilldown/src/Drilldown/index.tsx:532-593 | after a render pass, every active option of a selectable group has its group's selection map, and a back option is active only when there is a previous page |
| DrilldownRender.SlotAt | packages/ui-drilldown/src/Drilldown/index.tsx:1000-1049 | each child is drawn in its own slot. A page separator is shown exactly when the walk has not just passed a separator. A group has a leading separator exactly when separators are on, it is not the first child and the walk has not just passed a separator (`hasGroupFirstSeparator`). It has a trailing separator exactly when separators are on and it is not at the position `children.length - 1`. After a separator, and after a group exactly when it has a trailing separator, the walk has just passed a separator; after an option it has not |
| DrilldownRender.LastGroupAfterHeaderKeepsTrailingSeparator | packages/ui-drilldown/src/Drilldown/index.tsx:1007 | with a header, the last group of the page still gets a trailing separator, because `isLastChild` compares positions in the combined list |
| DrilldownRender.RenderPassSeparators | packages/ui-drilldown/src/Drilldown/index.tsx:1001-1046 | in the walked list, no separator directly follows another |
| DrilldownRender.DroppedOptionBetweenSeparators | packages/ui-drilldown/src/Drilldown/index.tsx:1033-1046 | an unlabelled option between two separators resets `lastItemWasSeparator`, so both separators are drawn next to each other |
| DrilldownHighlight.HighlightTarget | packages/ui-drilldown/src/Drilldown/index.tsx:778-818 | a given active id wins. Otherwise, with nothing highlighted, the first active id is taken. With no direction nothing moves. Only a truthy active id is ever chosen |
| DrilldownHighlight.HandleOptionHighlight | packages/ui-drilldown/src/Drilldown/index.tsx:813-817 | only the highlight changes, and only to an active option |
| DrilldownHighlight.SteppedIsNeighbour | packages/ui-drilldown/src/Drilldown/index.tsx:794-808 | the index arithmetic with its `rotateFocus` corrections is the neighbour one step away: wrapping from before the first to the last and from past the last to the first, and undefined off an end without rotation |
| DrilldownHighlight.StepMovesToNeighbour | packages/ui-drilldown/src/Drilldown/index.tsx:793-812 | a step moves the highlight to the neighbouring active id, and leaves it alone off an end without `rotateFocus` |
| DrilldownHighlight.NextThenPrevious | packages/ui-drilldown/src/Drilldown/index.tsx:793-812 | stepping down and then up returns the highlight to where it was |
| DrilldownHighlight.StaleHighlightSteps | packages/ui-drilldown/src/Drilldown/index.tsx:794-806 | a highlighted id that is no longer active does not move down, but moving up with rotation lands on the last id |
| DrilldownHighlight.HighlightFirst | packages/ui-drilldown/src/Drilldown/index.tsx:1082-1085 | the highlight-first request highlights the first active id |
| DrilldownHighlight.HighlightLast | packages/ui-drilldown/src/Drilldown/index.tsx:1086-1090 | the highlight-last request highlights the last active id |
| DrilldownHighlight.HighlightFirstIsBack | packages/ui-drilldown/src/Drilldown/index.tsx:1082-1085 | after a render with a previous page, highlight-first lands on the back option |
| DrilldownEvents.Init | packages/ui-drilldown/src/Drilldown/index.tsx:216-235 | the initial state has a valid history ending at the active root page and well-formed seeded selections, and shows the popover exactly when there is a trigger and `show` is set |
| DrilldownEvents.ResetBlocksHighlight | packages/ui-drilldown/src/Drilldown/index.tsx:488-491 | after `reset` the active map is empty, so no highlight request changes anything |
| DrilldownEvents.Hide | packages/ui-drilldown/src/Drilldown/index.tsx:480-486 | with a trigger, hiding closes the popover, empties the active map and clears the highlight, keeping navigation and selection; without a trigger nothing happens |
| DrilldownEvents.SelectEntry | packages/ui-drilldown/src/Drilldown/index.tsx:960-982 | the popover hides exactly when hiding on select is on, the option has no sub-page, it is not the back option, and there is a trigger; otherwise the popover state and active map are kept |
| DrilldownEvents.HandleOptionSelect | packages/ui-drilldown/src/Drilldown/index.tsx:949-983 | an id that names no active option changes nothing. Otherwise the option stored under the id is the option with that id. The Drilldown hides exactly when `shouldHideOnSelect` is set, the option has no `subPageId`, it is not the back option and there is a trigger. A selectable group's option is toggled in its group; any other option leaves the selections alone and is reported to `onSelect` with its value |
| DrilldownEvents.SelectEntryClicksFirst | packages/ui-drilldown/src/Drilldown/index.tsx:964-966 | an option's own click handler is called before anything else |
| DrilldownEvents.SelectEntryOpensSubPage | packages/ui-drilldown/src/Drilldown/index.tsx:968-970 | an option with a declared sub-page navigates to it |
| DrilldownEvents.SelectEntrySelects | packages/ui-drilldown/src/Drilldown/index.tsx:972-978 | a group option goes through the group toggle; any other option leaves the selection alone and reports its value to `onSelect` |
| DrilldownEvents.SubPageOptionAlsoSelects | packages/ui-drilldown/src/Drilldown/index.tsx:968-978 | a non-group option with a sub-page both navigates and reports `onSelect`, and does not hide |
| DrilldownEvents.BackOptionGoesBack | packages/ui-drilldown/src/Drilldown/index.tsx:885-894 | the back option removes the last page, reports both ids to `onBackButtonClicked` when given, and never hides |
| DrilldownEvents.InitSettled | packages/ui-drilldown/src/Drilldown/index.tsx:216-235 | the initial state is settled when the root page is declared |
| DrilldownEvents.RenderKeepsSettled | packages/ui-drilldown/src/Drilldown/index.tsx:1197-1199 | a render pass keeps the state settled and makes it coherent for the handlers |
| DrilldownEvents.SelectKeepsSettled | packages/ui-drilldown/src/Drilldown/index.tsx:949-983 | selecting an option keeps a settled, coherent state settled |
| PropCombinations.GeneratePropCombinations | packages/ui-test-utils/src/utils/generatePropCombinations.ts:38-82 | no props give an empty list. It fails exactly when some prop's values are not a non-empty array, naming the first such prop. Otherwise the result is the product of the value lists |
| PropCombinations.SpreadValue | packages/ui-test-utils/src/utils/generatePropCombinations.ts:63-74 | for combinations lacking the prop, the value is set in place; for combinations having it, copies with the value replaced are appended |
| PropCombinations.SpreadProp | packages/ui-test-utils/src/utils/generatePropCombinations.ts:57-79 | one prop's pass extends the combinations with one block per value, in value order |
| PropCombinations.SpreadOne | packages/ui-test-utils/src/utils/generatePropCombinations.ts:64-73 | a combination without the prop gets it as its last key, in place and without changing the list length; a combination with the prop stays, and a copy with the prop replaced is pushed at the end |
| PropCombinations.BlocksFirst | packages/ui-test-utils/src/utils/generatePropCombinations.ts:60-74 | once the first value is spread, the first `numCombos` combinations are the old ones extended with that value |
| PropCombinations.CopiesAreBlock | packages/ui-test-utils/src/utils/generatePropCombinations.ts:71-73 | copying the first block with a later value replaced gives the old combinations extended with that later value |
| PropCombinations.ProductLength | packages/ui-test-utils/src/utils/generatePropCombinations.ts:57-79 | there are as many combinations as the product of the list lengths |
| PropCombinations.ProductMembers | packages/ui-test-utils/src/utils/generatePropCombinations.ts:60-77 | every combination has exactly the prop names as keys, in order, and each value comes from that prop's list |
| PropCombinations.ProductAt | packages/ui-test-utils/src/utils/generatePropCombinations.ts:60-77 | every choice of one value per prop appears, at the position given by a mixed-radix number whose lowest digit is the first prop |
| ComponentTheme.MapColorsFirstName | packages/__docs__/src/ComponentTheme/index.tsx:42-51 | the inverse map knows exactly the colour values of the theme, and maps each to the first name, in key order, that has it |
| ComponentTheme.MapColorsRoundTrip | packages/__docs__/src/ComponentTheme/index.tsx:45-47 | looking up the name the inverse map gives a value yields that value again |
| ComponentTheme.MapColorsCovers | packages/__docs__/src/ComponentTheme/index.tsx:42-51 | every colour value of the theme is a key of the inverse map |
| ComponentTheme.ColorSource | packages/__docs__/src/ComponentTheme/index.tsx:55-57 | the colours come from `colors.values` when present, otherwise from `colors` |
| ComponentTheme.ShownValue | packages/__docs__/src/ComponentTheme/index.tsx:61 | a falsy value is shown as "undefined"; a truthy value is shown as it is |
| ComponentTheme.CellOf | packages/__docs__/src/ComponentTheme/index.tsx:62-86 | a value starting with `#` is a swatch named through the inverse map; one starting with `rgb` is a swatch with the raw value; anything else is plain text |
| ComponentTheme.RowMeaning | packages/__docs__/src/ComponentTheme/index.tsx:60-90 | each row shows its own variable's value, and a hex colour's name is a name the theme gives that colour |
| ComponentTheme.ThemeColorsAreNamed | packages/__docs__/src/ComponentTheme/index.tsx:62-78 | a hex value that the theme defines is always shown with a name |
| ComponentTheme.Render | packages/__docs__/src/ComponentTheme/index.tsx:93-109 | the table is drawn exactly when the component theme exists and has a variable, with one row per variable in key order |
| PassthroughProps.Passthrough | packages/ui-react-utils/src/passthroughProps.ts:35-54 | the result is the filter of the props. It has distinct keys. A key reads the prop's value when the name passes `isPropValid` and is not one of the six excluded names, and nothing otherwise |
| PassthroughProps.KeptMembers | packages/ui-react-utils/src/passthroughProps.ts:37-52 | a prop is kept exactly when it is one of the input props, its name passes `isPropValid`, and the name is not excluded. Kept values are unchanged |
| PassthroughProps.KeptKeys | packages/ui-react-utils/src/passthroughProps.ts:37-50 | the kept names are the allowed input names in their original order |
| PassthroughProps.KeptGet | packages/ui-react-utils/src/passthroughProps.ts:37-52 | on distinct names, a kept name reads the input value and any other name reads nothing |
| PassthroughProps.KeptIdempotent | packages/ui-react-utils/src/passthroughProps.ts:37-53 | filtering twice gives the same result as filtering once |

## Left out

- Rendering proper: JSX, emotion styles, the `Popover`/`Options` components and
  `callRenderProp` are left out. Labels are reduced to "has a label or not", and a
  rendered option to its id, variant and selected flag.
- DOM focus (`focus`, `focusOption`, `focused`) and the blur and mouse-leave handlers
  are left out. They depend on the live DOM.
- `uid` generation is left out. The header ids are parameters, assumed pairwise distinct
  (`HeaderIdsOk`).
- `setState` is modelled as an immediate update. Its callbacks (focusing after
  navigation) are left out.
- `show`, `handleToggle` and the `onToggle` / `onDismiss` callbacks are left out. They
  only flip `isShowingPopover` and hand the history to user code. The popover state
  is modelled at construction and in `hide`.
- Callback payloads: callbacks are recorded as notices carrying the data they receive.
  The event objects and option elements they also receive are left out.
- JavaScript's ordering of integer-like object keys ahead of other keys is left out.
  Every ordered map keeps plain insertion order.
- Inherited object properties (`constructor`, `toString`, `__proto__`, …) used as keys
  of a plain object are left out: every lookup in the model sees only the keys that
  were stored. This affects:
  - colour values: `mapColors` would never map such a value, because `typeof map[hex]`
    is not `'undefined'` for them;
  - prop names in `passthroughProps`;
  - page ids in the page map (`index.tsx:314`, `index.tsx:837`): in the component,
    `goToPage("constructor")` passes the existence check, while `GoToPage` returns
    `None`;
  - option ids in the active-option map (`index.tsx:318`, `index.tsx:633`,
    `index.tsx:681`): in the component, an option with id `"toString"` counts as a
    duplicate and is never registered, while `Register` stores it;
  - group ids in the selection maps (`index.tsx:355`, `index.tsx:556`): in the
    component, the check at `index.tsx:556` finds an inherited value for such an id, so
    an unseeded group with it gets no map there. An id `__proto__` is never stored
    at all. In the model, both lines store a map under the id.
- ComponentTheme values are left out in three ways:
  - Numbers are shown as text without modelling `toString`. A number's text never
    starts with `#` or `rgb`, so numbers are always plain cells.
  - Nested colour objects in `themeVariables.colors` are left out; colours are
    name-to-string maps.
  - `null`/`false` values are treated like `undefined`.
- The `isPropValid` word list is left out. It is a parameter of the filter.
- DrilldownNavigation.GoToPreviousPage: "exactly the last entry is removed" is stated
  only for a history without repeats. Every reachable history is such a history
  (`GoToPagesKeepsHistoryValid`).
- DrilldownEvents.HandleOptionSelect: requires the coherence that a render pass
  establishes (`RenderCoherent`). That is, every active option of a selectable group
  has a selection map, and a back option is only active with a previous page. The
  component would throw outside such states, and it never reaches them.
- DrilldownRender.RenderPassSeparators: the no-adjacent-separators property is stated
  on the walked list, in which dropped options and childless groups count as items.
  The drawn list can break it (`DroppedOptionBetweenSeparators`). The token streams
  also treat a group's body as a single item:
  - A group whose `children` is present but draws nothing still counts as a drawn
    item. Examples are `children: []`, which is truthy, so `renderGroup` draws both
    separators around an empty `<Options>` (`index.tsx:543-590`), and a group whose
    options are all dropped. So two separators can be drawn with nothing between them.
  - Separators inside a group are not part of either stream, so the property says
    nothing about them.
- PropCombinations.GeneratePropCombinations: requires distinct prop names, which
  `Object.keys` always gives. The thrown error is reduced to the offending prop's
  name.
- DrilldownSelection.HandleGroupOptionSelected: requires the group's selection map to
  exist, which `Coherent` guarantees for every active group option.
