/**
 Group selection in the Drilldown: the selection maps seeded from `defaultSelected`
 (`setDefaultSelected`) and the radio/checkbox toggle of `handleGroupOptionSelected`.
 */
module DrilldownSelection {
  import opened Base
  import opened OrderedMap
  import opened DrilldownModel

  /**
   An option starts selected when it says so itself, or when it has a value and that
   value is among its group's `defaultSelected` values (`undefined` entries ignored).
   */
  predicate IsDefaultSelected(g: DrilldownGroup, o: DrilldownOption) {
    o.defaultSelected || (o.value.Some? && Some(o.value.value) in g.defaultSelected)
  }

  /** The options of `opts` that start selected, as option id / value pairs, in order. */
  function DefaultPairs(g: DrilldownGroup, opts: seq<DrilldownOption>): (r: seq<(Key, Option<OptionValue>)>)
    ensures forall p :: p in r <==> exists o :: o in opts && IsDefaultSelected(g, o) && p == (o.id, o.value)
    decreases |opts|
  {
    if |opts| == 0 then []
    else
      var rest := DefaultPairs(g, opts[1..]);
      assert forall o :: o in opts <==> o == opts[0] || o in opts[1..];
      if IsDefaultSelected(g, opts[0]) then [(opts[0].id, opts[0].value)] + rest else rest
  }

  /** The fresh `Map` of one group, filled with its default-selected options. */
  function SeedGroup(g: DrilldownGroup): GroupSelection {
    PutAll([], DefaultPairs(g, GroupOptions(g)))
  }

  /** The groups of a page's children that have a `selectableType`, in order. */
  function SelectableGroupsOf(children: seq<PageChild>): (r: seq<DrilldownGroup>)
    ensures forall g :: g in r <==> PageGroup(g) in children && g.selectableType != NotSelectable
    decreases |children|
  {
    if |children| == 0 then []
    else
      var rest := SelectableGroupsOf(children[1..]);
      assert forall c :: c in children <==> c == children[0] || c in children[1..];
      match children[0]
      case PageGroup(g) => if g.selectableType != NotSelectable then [g] + rest else rest
      case _ => rest
  }

  function SelectableGroups(pages: seq<DrilldownPage>): (r: seq<DrilldownGroup>)
    ensures forall g :: g in r <==>
      exists i :: 0 <= i < |pages| && PageGroup(g) in pages[i].children && g.selectableType != NotSelectable
    decreases |pages|
  {
    if |pages| == 0 then []
    else
      var rest := SelectableGroups(pages[1..]);
      assert forall g :: (exists i :: 1 <= i < |pages| && PageGroup(g) in pages[i].children
                                          && g.selectableType != NotSelectable) ==>
                          exists i :: 0 <= i < |pages[1..]| && PageGroup(g) in pages[1..][i].children
                                      && g.selectableType != NotSelectable by {
        forall g | exists i :: 1 <= i < |pages| && PageGroup(g) in pages[i].children
                                 && g.selectableType != NotSelectable
          ensures exists i :: 0 <= i < |pages[1..]| && PageGroup(g) in pages[1..][i].children
                              && g.selectableType != NotSelectable
        {
          var i :| 1 <= i < |pages| && PageGroup(g) in pages[i].children && g.selectableType != NotSelectable;
          assert pages[1..][i - 1] == pages[i];
        }
      }
      SelectableGroupsOf(pages[0].children) + rest
  }

  function SeedPairs(groups: seq<DrilldownGroup>): (r: seq<(Key, GroupSelection)>)
    ensures |r| == |groups|
    ensures forall i | 0 <= i < |groups| :: r[i] == (groups[i].id, SeedGroup(groups[i]))
  {
    seq(|groups|, i requires 0 <= i < |groups| => (groups[i].id, SeedGroup(groups[i])))
  }

  /**
   `setDefaultSelected`: every selectable group of every page gets `new Map()` under
   its id, filled with its default-selected options. A later group with the same id
   replaces the earlier map.
   */
  function SetDefaultSelected(pages: seq<DrilldownPage>): SelectionMap {
    PutAll([], SeedPairs(SelectableGroups(pages)))
  }

  /** The seeded selection map has a well-formed map for exactly the selectable groups. */
  lemma SetDefaultSelectedKeys(pages: seq<DrilldownPage>, gid: Key)
    ensures Wf(SetDefaultSelected(pages))
    ensures HasKey(SetDefaultSelected(pages), gid) <==>
              exists g :: g in SelectableGroups(pages) && g.id == gid
  {
    var gs := SelectableGroups(pages);
    var kvs := SeedPairs(gs);
    PutAllWf([], kvs);
    PutAllHasKey([], kvs, gid);
    SeedPairsHasKey(gs, gid);
  }

  /** A group id is seeded exactly when some group has it. */
  lemma SeedPairsHasKey(gs: seq<DrilldownGroup>, gid: Key)
    ensures HasKey(SeedPairs(gs), gid) <==> exists g :: g in gs && g.id == gid
  {
    var kvs := SeedPairs(gs);
    if HasKey(kvs, gid) {
      var i := IndexOf(Keys(kvs), gid);
      assert gs[i] in gs && gs[i].id == gid;
    }
    if exists g :: g in gs && g.id == gid {
      var g :| g in gs && g.id == gid;
      var i :| 0 <= i < |gs| && gs[i] == g;
      assert Keys(kvs)[i] == gid;
    }
  }

  /**
   The seeded map of a group is the one of the last selectable group with that id,
   and holds exactly the options that start selected.
   */
  lemma SetDefaultSelectedGroup(pages: seq<DrilldownPage>, i: int, oid: Key)
    requires 0 <= i < |SelectableGroups(pages)|
    requires forall j | i < j < |SelectableGroups(pages)| ::
               SelectableGroups(pages)[j].id != SelectableGroups(pages)[i].id
    ensures var g := SelectableGroups(pages)[i];
      && Get(SetDefaultSelected(pages), g.id) == Some(SeedGroup(g))
      && (HasKey(SeedGroup(g), oid) <==>
            exists o :: o in GroupOptions(g) && o.id == oid && IsDefaultSelected(g, o))
  {
    var gs := SelectableGroups(pages);
    var g := gs[i];
    PutAllGetLast([], SeedPairs(gs), i);
    PutAllHasKey([], DefaultPairs(g, GroupOptions(g)), oid);
    DefaultPairsHasKey(g, GroupOptions(g), oid);
  }

  /** An option id is among the default pairs exactly when a default-selected option has it. */
  lemma DefaultPairsHasKey(g: DrilldownGroup, opts: seq<DrilldownOption>, oid: Key)
    ensures HasKey(DefaultPairs(g, opts), oid) <==> exists o :: o in opts && o.id == oid && IsDefaultSelected(g, o)
  {
    var ps := DefaultPairs(g, opts);
    if exists o :: o in opts && o.id == oid && IsDefaultSelected(g, o) {
      var o :| o in opts && o.id == oid && IsDefaultSelected(g, o);
      assert (o.id, o.value) in ps;
      var j :| 0 <= j < |ps| && ps[j] == (o.id, o.value);
      assert Keys(ps)[j] == oid;
    }
    if HasKey(ps, oid) {
      var j := IndexOf(Keys(ps), oid);
      assert ps[j] in ps;
    }
  }

  /** The group selection of `g` before a toggle. */
  function GroupSelectionOf(sel: SelectionMap, gid: Key): GroupSelection
    requires HasKey(sel, gid)
  {
    Get(sel, gid).value
  }

  datatype Selected = Selected(state: State, notices: seq<Notice>)

  /**
   `handleGroupOptionSelected`: an option already selected is deselected, whatever the
   group type; otherwise a `'multiple'` group adds it and a `'single'` group keeps it
   alone. The group's and the component's `onSelect` are called with the group's
   selected values and whether the option ends up selected.
   */
  function HandleGroupOptionSelected(cfg: Config, st: State, e: ActiveEntry): (r: Selected)
    requires Selectable(e.group)
    requires HasKey(st.selected, e.group.value.id)
    ensures var g := e.group.value; var oid := e.option.id;
      var before := GroupSelectionOf(st.selected, g.id);
      var after := Get(r.state.selected, g.id);
      && after.Some?
      && (HasKey(before, oid) ==> !HasKey(after.value, oid))
      && (HasKey(before, oid) && Wf(before) ==>
            forall k | k != oid :: Get(after.value, k) == Get(before, k))
      && (!HasKey(before, oid) && g.selectableType == Multiple ==>
            && Get(after.value, oid) == Some(e.option.value)
            && forall k | k != oid :: Get(after.value, k) == Get(before, k))
      && (!HasKey(before, oid) && g.selectableType == Single ==>
            after.value == [(oid, e.option.value)])
      && (Wf(before) ==> Wf(after.value))
    ensures var gid := e.group.value.id;
      && Keys(r.state.selected) == Keys(st.selected)
      && forall k | k != gid :: Get(r.state.selected, k) == Get(st.selected, k)
    ensures r.state == st.(selected := r.state.selected, lastSelectedId := Some(e.option.id))
    ensures var g := e.group.value; var oid := e.option.id;
      var before := GroupSelectionOf(st.selected, g.id);
      var after := GroupSelectionOf(r.state.selected, g.id);
      && |r.notices| == (if g.hasOnSelect then 1 else 0) + (if cfg.hasOnSelect then 1 else 0)
      && (g.hasOnSelect ==> r.notices[0] == GroupSelect(g.id, Values(after), !HasKey(before, oid), oid))
      && (cfg.hasOnSelect ==> r.notices[|r.notices| - 1] == Select(Values(after), !HasKey(before, oid), oid))
      && (!HasKey(before, oid) <==> HasKey(after, oid))
  {
    var g := e.group.value;
    var oid := e.option.id;
    var before := GroupSelectionOf(st.selected, g.id);
    var after :=
      if HasKey(before, oid) then Remove(before, oid)
      else if g.selectableType == Multiple then Put(before, oid, e.option.value)
      else [(oid, e.option.value)];
    assert Keys([(oid, e.option.value)]) == [oid];
    var sel := Put(st.selected, g.id, after);
    var values := Values(after);
    var isSelected := HasKey(after, oid);
    var notices :=
      (if g.hasOnSelect then [GroupSelect(g.id, values, isSelected, oid)] else [])
      + (if cfg.hasOnSelect then [Select(values, isSelected, oid)] else []);
    Selected(st.(selected := sel, lastSelectedId := Some(oid)), notices)
  }

  /** A radio group never gets a second selected option from a toggle. */
  lemma SingleGroupStaysSingle(cfg: Config, st: State, e: ActiveEntry)
    requires Selectable(e.group) && e.group.value.selectableType == Single
    requires HasKey(st.selected, e.group.value.id)
    requires |GroupSelectionOf(st.selected, e.group.value.id)| <= 1
    ensures |GroupSelectionOf(HandleGroupOptionSelected(cfg, st, e).state.selected, e.group.value.id)| <= 1
  {
    var before := GroupSelectionOf(st.selected, e.group.value.id);
    if HasKey(before, e.option.id) {
      assert |Keys(Remove(before, e.option.id))| <= |Keys(before)|;
    }
  }

  /** Toggling the same option twice in a checkbox group restores its selection. */
  lemma MultipleToggleTwice(cfg: Config, st: State, e: ActiveEntry)
    requires Selectable(e.group) && e.group.value.selectableType == Multiple
    requires HasKey(st.selected, e.group.value.id)
    requires Wf(GroupSelectionOf(st.selected, e.group.value.id))
    requires !HasKey(GroupSelectionOf(st.selected, e.group.value.id), e.option.id)
    ensures var st2 := HandleGroupOptionSelected(cfg, HandleGroupOptionSelected(cfg, st, e).state, e).state;
      forall k :: Get(GroupSelectionOf(st2.selected, e.group.value.id), k)
                  == Get(GroupSelectionOf(st.selected, e.group.value.id), k)
  {
  }

  /**
   `selectedGroupOptionIds`: the ids of the selected options of all groups, in
   group order and then selection order.
   */
  function SelectedOptionIds(sel: SelectionMap): (r: seq<Key>)
    ensures forall k :: k in r <==> exists i :: 0 <= i < |sel| && HasKey(sel[i].1, k)
    decreases |sel|
  {
    if |sel| == 0 then []
    else
      var rest := SelectedOptionIds(sel[1..]);
      assert forall i :: 0 <= i < |sel[1..]| ==> sel[1..][i] == sel[i + 1];
      Keys(sel[0].1) + rest
  }

  /** The seeded selection maps are well formed, and so is every group's map. */
  lemma SetDefaultSelectedWf(pages: seq<DrilldownPage>)
    ensures SelectionWf(SetDefaultSelected(pages))
  {
    var gs := SelectableGroups(pages);
    var kvs := SeedPairs(gs);
    PutAllWf([], kvs);
    PutAllEntries([], kvs);
    forall p | p in SetDefaultSelected(pages) ensures Wf(p.1) {
      var i :| 0 <= i < |kvs| && kvs[i] == p;
      PutAllWf([], DefaultPairs(gs[i], GroupOptions(gs[i])));
    }
  }

  /** A toggle keeps the selection maps well formed. */
  lemma GroupOptionSelectedWf(cfg: Config, st: State, e: ActiveEntry)
    requires Selectable(e.group)
    requires HasKey(st.selected, e.group.value.id)
    requires SelectionWf(st.selected)
    ensures SelectionWf(HandleGroupOptionSelected(cfg, st, e).state.selected)
  {
    var gid := e.group.value.id;
    var i := IndexOf(Keys(st.selected), gid);
    assert st.selected[i] in st.selected;
  }
}
