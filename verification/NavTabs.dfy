/** The tab list of NavService: which tabs are open and which one is shown. */
module NavTabs {
  import opened Text

  /** A tab object. guarded tells that its view asks before it is closed. */
  datatype Tab = Tab(id: nat, action: string, isPopup: bool, closable: Option<bool>, guarded: bool)

  /** flagged holds the tab objects whose selected property is set, also those no longer listed. */
  datatype Nav = Nav(tabs: seq<Tab>, popups: seq<Tab>, selected: Option<Tab>, flagged: set<Tab>)

  function Members(tabs: seq<Tab>): set<Tab> {
    set t | t in tabs
  }

  function FindTab(tabs: seq<Tab>, action: string): (r: Option<Tab>)
    ensures r.Some? ==> r.value in tabs && r.value.action == action
    ensures r.None? ==> forall t :: t in tabs ==> t.action != action
  {
    if tabs == [] then None
    else if tabs[0].action == action then Some(tabs[0])
    else
      assert tabs == [tabs[0]] + tabs[1..];
      FindTab(tabs[1..], action)
  }

  function IndexOfTab(tabs: seq<Tab>, tab: Tab): (r: int)
    ensures -1 <= r < |tabs|
    ensures r == -1 <==> tab !in tabs
    ensures r >= 0 ==> tabs[r] == tab && tab !in tabs[..r]
  {
    if tabs == [] then -1
    else if tabs[0] == tab then 0
    else
      assert tabs == [tabs[0]] + tabs[1..];
      var r := IndexOfTab(tabs[1..], tab);
      assert r >= 0 ==> tabs[..r + 1] == [tabs[0]] + tabs[1..][..r];
      if r == -1 then -1 else r + 1
  }

  /** Array.splice(index, 1), where a negative index counts from the end. */
  function SpliceOne(tabs: seq<Tab>, index: int): seq<Tab>
    requires -1 <= index < |tabs|
  {
    var i := if index < 0 then |tabs| - 1 else index;
    if i < 0 then tabs else tabs[..i] + tabs[i + 1..]
  }

  // ---------- opening and closing one tab ----------

  /** openTab, with its option to put a new tab first. */
  function OpenTab(nav: Nav, tab: Tab, prepend: bool): Nav {
    if tab.isPopup then nav.(popups := nav.popups + [tab])
    else
      var found := FindTab(nav.tabs, tab.action);
      var tabs := if found.Some? then nav.tabs else if prepend then [tab] + nav.tabs else nav.tabs + [tab];
      var shown := if found.Some? then found.value else tab;
      nav.(tabs := tabs, selected := Some(shown), flagged := nav.flagged - Members(tabs) + {shown})
  }

  /** __closeTab. */
  function RemoveTab(nav: Nav, tab: Tab): Nav {
    if tab.isPopup then
      var nav1 := nav.(popups := SpliceOne(nav.popups, IndexOfTab(nav.popups, tab)));
      if nav1.tabs == [] then nav1.(selected := None) else nav1
    else
      var index := IndexOfTab(nav.tabs, tab);
      var tabs := SpliceOne(nav.tabs, index);
      var nav1 := nav.(tabs := tabs, selected := if tabs == [] then None else nav.selected);
      if tab !in nav.flagged then nav1
      else
        var next := if index == |tabs| then index - 1 else index;
        var nav2 := nav1.(flagged := nav.flagged - Members(tabs));
        if 0 <= next < |tabs| then OpenTab(nav2.(flagged := nav2.flagged + {tabs[next]}), tabs[next], false) else nav2
  }

  /** closeTab: a guarded tab is closed only when the user agrees. */
  function CloseTab(nav: Nav, tab: Tab, agreed: bool): Nav {
    if tab.guarded && !agreed then nav else RemoveTab(nav, tab)
  }

  // ---------- the invariant ----------

  ghost predicate DistinctActions(tabs: seq<Tab>) {
    forall i, j :: 0 <= i < j < |tabs| ==> tabs[i].action != tabs[j].action
  }

  ghost predicate OnlyTabs(tabs: seq<Tab>) {
    forall i :: 0 <= i < |tabs| ==> !tabs[i].isPopup
  }

  ghost predicate OnlyFlag(nav: Nav, t: Tab) {
    forall u :: u in nav.tabs ==> (u in nav.flagged <==> u == t)
  }

  /** Tab actions are distinct; nothing is selected exactly when there are no tabs; otherwise the selected
      tab is listed and is the only listed one that is flagged. */
  ghost predicate Consistent(nav: Nav) {
    && DistinctActions(nav.tabs) && OnlyTabs(nav.tabs)
    && (nav.selected == None <==> nav.tabs == [])
    && (nav.selected.Some? ==> nav.selected.value in nav.tabs && OnlyFlag(nav, nav.selected.value))
  }

  /** Opening adds the tab at the asked end unless one of its action is listed; a popup changes no tab. */
  lemma OpenTabAddsAtMostOne(nav: Nav, tab: Tab, prepend: bool)
    ensures var end := OpenTab(nav, tab, prepend);
            && end.popups == (if tab.isPopup then nav.popups + [tab] else nav.popups)
            && (tab.isPopup ==> end.selected == nav.selected && end.flagged == nav.flagged)
            && end.tabs == if tab.isPopup || (exists t :: t in nav.tabs && t.action == tab.action) then nav.tabs
                           else if prepend then [tab] + nav.tabs else nav.tabs + [tab]
  {
  }

  lemma OpenTabConsistent(nav: Nav, tab: Tab, prepend: bool)
    requires Consistent(nav)
    ensures Consistent(OpenTab(nav, tab, prepend))
    ensures !tab.isPopup ==> OpenTab(nav, tab, prepend).selected.value.action == tab.action
  {
  }

  /** Opening a listed tab shows it, whatever was selected and flagged before. */
  lemma ShowTab(nav: Nav, tab: Tab)
    requires DistinctActions(nav.tabs) && OnlyTabs(nav.tabs) && tab in nav.tabs
    ensures OpenTab(nav, tab, false) == nav.(selected := Some(tab), flagged := nav.flagged - Members(nav.tabs) + {tab})
    ensures Consistent(OpenTab(nav, tab, false))
  {
  }

  lemma SpliceDistinct(tabs: seq<Tab>, index: int)
    requires -1 <= index < |tabs| && DistinctActions(tabs) && OnlyTabs(tabs)
    ensures DistinctActions(SpliceOne(tabs, index)) && OnlyTabs(SpliceOne(tabs, index))
    ensures 0 <= index ==> forall t :: t in SpliceOne(tabs, index) <==> t in tabs && t != tabs[index]
  {
    var rest := SpliceOne(tabs, index);
    if 0 <= index {
      forall t
        ensures t in rest <==> t in tabs && t != tabs[index]
      {
        if t in tabs && t != tabs[index] {
          var k :| 0 <= k < |tabs| && tabs[k] == t;
          assert k < index ==> rest[k] == t;
          assert k > index ==> rest[k - 1] == t;
        }
      }
    }
  }

  /** Closing a tab of the list, or a popup, keeps the invariant. */
  lemma RemoveTabConsistent(nav: Nav, tab: Tab)
    requires Consistent(nav) && (tab.isPopup || tab in nav.tabs)
    ensures Consistent(RemoveTab(nav, tab))
    ensures tab.isPopup ==> RemoveTab(nav, tab).tabs == nav.tabs && RemoveTab(nav, tab).flagged == nav.flagged
    ensures !tab.isPopup ==> RemoveTab(nav, tab).popups == nav.popups
    ensures !tab.isPopup ==> RemoveTab(nav, tab).tabs == SpliceOne(nav.tabs, IndexOfTab(nav.tabs, tab))
    ensures nav.selected != Some(tab) ==> RemoveTab(nav, tab).selected == nav.selected
  {
    if !tab.isPopup {
      var index := IndexOfTab(nav.tabs, tab);
      var tabs := SpliceOne(nav.tabs, index);
      SpliceDistinct(nav.tabs, index);
      if tab in nav.flagged && tabs != [] {
        var next := if index == |tabs| then index - 1 else index;
        ShowTab(nav.(tabs := tabs, flagged := nav.flagged - Members(tabs) + {tabs[next]}), tabs[next]);
      }
    }
  }

  /** When the selected tab is closed, the tab that takes its place in the list is selected, or the last one. */
  lemma ClosingSelectsTheNeighbour(nav: Nav, tab: Tab)
    requires Consistent(nav) && nav.selected == Some(tab)
    ensures var (at, left) := (IndexOfTab(nav.tabs, tab), RemoveTab(nav, tab).tabs);
            RemoveTab(nav, tab).selected ==
              if left == [] then None else if at < |left| then Some(left[at]) else Some(left[|left| - 1])
  {
    var index := IndexOfTab(nav.tabs, tab);
    var tabs := SpliceOne(nav.tabs, index);
    SpliceDistinct(nav.tabs, index);
    if tabs != [] {
      var next := if index == |tabs| then index - 1 else index;
      ShowTab(nav.(tabs := tabs, flagged := nav.flagged - Members(tabs) + {tabs[next]}), tabs[next]);
    }
  }

  // ---------- runs ----------

  datatype Action =
    | Open(tab: Tab, prepend: bool)
    | Close(tab: Tab, agreed: bool)
    | CloseOthers(current: Option<Tab>, agrees: Tab -> bool)

  /** The interface offers to close what is open. */
  predicate Offered(nav: Nav, a: Action) {
    match a
    case Open(_, _) => true
    case Close(tab, _) => tab.isPopup || tab in nav.tabs
    case CloseOthers(current, _) => current.None? || current.value in nav.tabs
  }

  function Do(nav: Nav, a: Action): Nav
    requires Offered(nav, a)
  {
    match a
    case Open(tab, prepend) => OpenTab(nav, tab, prepend)
    case Close(tab, agreed) => CloseTab(nav, tab, agreed)
    case CloseOthers(current, agrees) => CloseTabOthers(nav, current, agrees)
  }

  const NO_TABS := Nav([], [], None, {})

  predicate Legal(nav: Nav, actions: seq<Action>)
    decreases |actions|
  {
    actions == [] || (Offered(nav, actions[0]) && Legal(Do(nav, actions[0]), actions[1..]))
  }

  function Run(nav: Nav, actions: seq<Action>): Nav
    requires Legal(nav, actions)
    decreases |actions|
  {
    if actions == [] then nav else Run(Do(nav, actions[0]), actions[1..])
  }

  // ---------- closing several tabs ----------

  function Without(tabs: seq<Tab>, tab: Tab): (r: seq<Tab>)
    ensures |r| <= |tabs| && (tab in tabs ==> |r| < |tabs|)
    ensures forall t :: t in r <==> t in tabs && t != tab
  {
    if tabs == [] then []
    else
      assert tabs == [tabs[0]] + tabs[1..];
      (if tabs[0] == tab then [] else [tabs[0]]) + Without(tabs[1..], tab)
  }

  /** A guarded tab is shown before the user is asked about it. */
  function ShowIfHidden(nav: Nav, tab: Tab): Nav {
    if tab in nav.flagged then nav else OpenTab(nav.(flagged := nav.flagged + {tab}), tab, false)
  }

  function Unlist(nav: Nav, tab: Tab): Nav {
    var at := IndexOfTab(nav.tabs, tab);
    if at > -1 then nav.(tabs := SpliceOne(nav.tabs, at)) else nav
  }

  /** closeTabs, once nothing is left to close. */
  function Settle(nav: Nav): Nav {
    var nav1 := if nav.selected.Some? && nav.selected.value in nav.tabs then nav else nav.(selected := None);
    if nav1.selected.Some? then OpenTab(nav1, nav1.selected.value, false)
    else if nav1.tabs != [] && nav1.tabs[0] !in nav1.flagged then OpenTab(nav1, nav1.tabs[0], false)
    else nav1
  }

  /** The two steps that closeTabs takes for one tab. */
  function AfterOne(nav: Nav, tab: Tab, agrees: Tab -> bool): Nav {
    var shown := if tab.guarded then ShowIfHidden(nav, tab) else nav;
    if tab.guarded && !agrees(tab) then shown else Unlist(shown, tab)
  }

  /** closeTabs. agrees tells what the user answers about each guarded tab. */
  function CloseTabs(nav: Nav, selection: seq<Tab>, agrees: Tab -> bool): Nav
    decreases |selection|
  {
    if selection == [] then Settle(nav)
    else
      var nav2 := CloseTabs(AfterOne(nav, selection[0], agrees), Without(selection, selection[0]), agrees);
      if nav2.tabs == [] then nav2.(selected := None) else nav2
  }

  predicate CanClose(tab: Tab) {
    tab.closable.None? || tab.closable.value
  }

  function Others(tabs: seq<Tab>, current: Option<Tab>): (r: seq<Tab>)
    ensures forall t :: t in r <==> t in tabs && CanClose(t) && Some(t) != current
  {
    if tabs == [] then []
    else
      assert tabs == [tabs[0]] + tabs[1..];
      (if CanClose(tabs[0]) && Some(tabs[0]) != current then [tabs[0]] else []) + Others(tabs[1..], current)
  }

  function CloseTabOthers(nav: Nav, current: Option<Tab>, agrees: Tab -> bool): Nav {
    var rest := Others(nav.tabs, current);
    var nav1 := if current.Some? then ShowIfHidden(nav, current.value) else nav;
    CloseTabs(nav1, rest, agrees)
  }

  /** The tabs that a call of closeTabs takes away. */
  predicate IsClosed(selection: seq<Tab>, agrees: Tab -> bool, t: Tab) {
    t in selection && (!t.guarded || agrees(t))
  }

  /** What is left of the list. */
  function Remaining(tabs: seq<Tab>, selection: seq<Tab>, agrees: Tab -> bool): seq<Tab> {
    if tabs == [] then []
    else (if IsClosed(selection, agrees, tabs[0]) then [] else [tabs[0]]) + Remaining(tabs[1..], selection, agrees)
  }

  /** While several tabs are closed, the selected one may be unlisted; then no listed tab is flagged. */
  ghost predicate Loose(nav: Nav) {
    && DistinctActions(nav.tabs) && OnlyTabs(nav.tabs)
    && (if nav.selected.Some? && nav.selected.value in nav.tabs then OnlyFlag(nav, nav.selected.value)
        else forall t :: t in nav.tabs ==> t !in nav.flagged)
  }

  lemma ShowIfHiddenLoose(nav: Nav, tab: Tab)
    requires Loose(nav) && tab in nav.tabs
    ensures var nav1 := ShowIfHidden(nav, tab);
            Loose(nav1) && nav1.tabs == nav.tabs && nav1.selected == Some(tab)
  {
    if tab !in nav.flagged {
      ShowTab(nav.(flagged := nav.flagged + {tab}), tab);
    }
  }

  lemma UnlistLoose(nav: Nav, tab: Tab)
    requires Loose(nav) && tab in nav.tabs
    ensures var nav1 := Unlist(nav, tab);
            && Loose(nav1) && nav1.selected == nav.selected
            && nav1.tabs == SpliceOne(nav.tabs, IndexOfTab(nav.tabs, tab))
            && forall t :: t in nav1.tabs <==> t in nav.tabs && t != tab
  {
    SpliceDistinct(nav.tabs, IndexOfTab(nav.tabs, tab));
  }

  /** closeTabs leaves the list alone for a tab that is not in it. */
  lemma {:induction false} UnlistAbsent(nav: Nav, tab: Tab)
    requires tab !in nav.tabs
    ensures Unlist(nav, tab) == nav
  {
  }

  lemma SettleConsistent(nav: Nav)
    requires Loose(nav)
    ensures Consistent(Settle(nav)) && Settle(nav).tabs == nav.tabs
    ensures Settle(nav).selected == if nav.selected.Some? && nav.selected.value in nav.tabs then nav.selected
                                    else if nav.tabs == [] then None else Some(nav.tabs[0])
  {
    if nav.selected.Some? && nav.selected.value in nav.tabs {
      ShowTab(nav, nav.selected.value);
    } else if nav.tabs != [] {
      ShowTab(nav.(selected := None), nav.tabs[0]);
    }
  }

  lemma {:induction false} RemainingSame(tabs: seq<Tab>, s1: seq<Tab>, s2: seq<Tab>, agrees: Tab -> bool)
    requires forall t :: t in tabs ==> (IsClosed(s1, agrees, t) <==> IsClosed(s2, agrees, t))
    ensures Remaining(tabs, s1, agrees) == Remaining(tabs, s2, agrees)
  {
    if tabs != [] {
      assert tabs == [tabs[0]] + tabs[1..];
      RemainingSame(tabs[1..], s1, s2, agrees);
    }
  }

  lemma {:induction false} RemainingSpliced(tabs: seq<Tab>, at: nat, selection: seq<Tab>, agrees: Tab -> bool)
    requires at < |tabs| && IsClosed(selection, agrees, tabs[at])
    ensures Remaining(SpliceOne(tabs, at), selection, agrees) == Remaining(tabs, selection, agrees)
  {
    if at == 0 {
      assert SpliceOne(tabs, 0) == tabs[1..];
    } else {
      assert SpliceOne(tabs, at) == [tabs[0]] + SpliceOne(tabs[1..], at - 1);
      RemainingSpliced(tabs[1..], at - 1, selection, agrees);
    }
  }

  lemma {:induction false} RemainingAll(tabs: seq<Tab>, agrees: Tab -> bool)
    ensures Remaining(tabs, [], agrees) == tabs
  {
    if tabs != [] {
      RemainingAll(tabs[1..], agrees);
    }
  }

  /** The last guarded tab of a list: the last one that the user is asked about. */
  function LastGuarded(selection: seq<Tab>): Option<Tab> {
    if selection == [] then None
    else
      var later := LastGuarded(selection[1..]);
      if later.Some? then later else if selection[0].guarded then Some(selection[0]) else None
  }

  /** The tab shown in the end: the last one asked about if it stays, else the first that is left;
      without questions, the one selected before if it stays. */
  function ShownInTheEnd(nav: Nav, selection: seq<Tab>, agrees: Tab -> bool): Option<Tab> {
    ShownAmong(Remaining(nav.tabs, selection, agrees), LastGuarded(selection), nav.selected)
  }

  function ShownAmong(left: seq<Tab>, last: Option<Tab>, selected: Option<Tab>): Option<Tab> {
    var wanted := if last.Some? then last else selected;
    if wanted.Some? && wanted.value in left then wanted
    else if left == [] then None
    else Some(left[0])
  }

  lemma AfterOneLoose(nav: Nav, selection: seq<Tab>, agrees: Tab -> bool)
    requires Loose(nav) && selection != [] && forall t :: t in selection ==> t in nav.tabs
    ensures var (tab, rest) := (selection[0], Without(selection, selection[0]));
            var nav1 := AfterOne(nav, tab, agrees);
            && Loose(nav1)
            && (forall t :: t in rest ==> t in nav1.tabs)
            && Remaining(nav1.tabs, rest, agrees) == Remaining(nav.tabs, selection, agrees)
            && nav1.selected == if tab.guarded then Some(tab) else nav.selected
  {
    var tab, rest := selection[0], Without(selection, selection[0]);
    var shown := if tab.guarded then ShowIfHidden(nav, tab) else nav;
    if tab.guarded {
      ShowIfHiddenLoose(nav, tab);
    }
    if tab.guarded && !agrees(tab) {
      RemainingSame(nav.tabs, selection, rest, agrees);
    } else {
      UnlistLoose(shown, tab);
      RemainingSpliced(nav.tabs, IndexOfTab(nav.tabs, tab), selection, agrees);
      RemainingSame(Unlist(shown, tab).tabs, selection, rest, agrees);
    }
  }

  ghost predicate DistinctSeq(s: seq<Tab>) {
    forall i, j :: 0 <= i < j < |s| ==> s[i] != s[j]
  }

  lemma {:induction false} WithoutAbsent(tabs: seq<Tab>, tab: Tab)
    requires tab !in tabs
    ensures Without(tabs, tab) == tabs
  {
    if tabs != [] {
      WithoutAbsent(tabs[1..], tab);
    }
  }

  lemma WithoutFirst(selection: seq<Tab>)
    requires DistinctSeq(selection) && selection != []
    ensures Without(selection, selection[0]) == selection[1..] && DistinctSeq(selection[1..])
  {
    assert selection[0] !in selection[1..];
    WithoutAbsent(selection[1..], selection[0]);
  }

  lemma {:induction false} ShownAfterOne(nav: Nav, selection: seq<Tab>, agrees: Tab -> bool)
    requires Loose(nav) && DistinctSeq(selection) && selection != [] && forall t :: t in selection ==> t in nav.tabs
    ensures ShownInTheEnd(AfterOne(nav, selection[0], agrees), selection[1..], agrees)
         == ShownInTheEnd(nav, selection, agrees)
  {
    WithoutFirst(selection);
    AfterOneLoose(nav, selection, agrees);
  }

  /** closeTabs, whatever the answers: it leaves the old list without the tabs that are closed, in order,
      the invariant holds again, and the tab shown is the one foretold. */
  lemma {:induction false} CloseTabsKeepsTheRest(nav: Nav, selection: seq<Tab>, agrees: Tab -> bool)
    requires Loose(nav) && DistinctSeq(selection) && forall t :: t in selection ==> t in nav.tabs
    ensures var end := CloseTabs(nav, selection, agrees);
            && Consistent(end)
            && end.tabs == Remaining(nav.tabs, selection, agrees)
            && end.selected == ShownInTheEnd(nav, selection, agrees)
    decreases |selection|
  {
    if selection == [] {
      SettleConsistent(nav);
      RemainingAll(nav.tabs, agrees);
    } else {
      WithoutFirst(selection);
      AfterOneLoose(nav, selection, agrees);
      ShownAfterOne(nav, selection, agrees);
      CloseTabsKeepsTheRest(AfterOne(nav, selection[0], agrees), selection[1..], agrees);
    }
  }

  lemma {:induction false} OthersDistinct(tabs: seq<Tab>, current: Option<Tab>)
    requires DistinctSeq(tabs)
    ensures DistinctSeq(Others(tabs, current))
  {
    if tabs != [] {
      assert forall i, j :: 0 <= i < j < |tabs[1..]| ==> tabs[1..][i] == tabs[i + 1] && tabs[1..][j] == tabs[j + 1];
      OthersDistinct(tabs[1..], current);
      var rest := Others(tabs[1..], current);
      assert tabs[0] !in tabs[1..];
      assert forall i :: 0 <= i < |rest| ==> rest[i] in rest;
    }
  }

  /** Closing the others keeps the current tab, every tab that may not be closed, and every guarded tab
      that the user keeps, in order. The current tab is shown in the end exactly when the user was not asked,
      or agreed to the last question and the current tab comes first of those that are left. */
  lemma CloseOthersKeepsCurrent(nav: Nav, current: Option<Tab>, agrees: Tab -> bool)
    requires Consistent(nav) && (current.Some? ==> current.value in nav.tabs)
    ensures var (end, others) := (CloseTabOthers(nav, current, agrees), Others(nav.tabs, current));
            && Consistent(end)
            && end.tabs == Remaining(nav.tabs, others, agrees)
            && (LastGuarded(others).Some? && !agrees(LastGuarded(others).value) ==> end.selected == LastGuarded(others))
            && (current.Some? ==>
                  (end.selected == current <==>
                     LastGuarded(others).None? || (agrees(LastGuarded(others).value) && [current.value] <= end.tabs)))
  {
    var others := Others(nav.tabs, current);
    assert DistinctSeq(nav.tabs);
    OthersDistinct(nav.tabs, current);
    var nav1 := if current.Some? then ShowIfHidden(nav, current.value) else nav;
    if current.Some? {
      ShowIfHiddenLoose(nav, current.value);
      RemainingHas(nav.tabs, others, agrees, current.value);
    }
    CloseTabsKeepsTheRest(nav1, others, agrees);
    if LastGuarded(others).Some? {
      LastGuardedIn(others);
      RemainingHas(nav.tabs, others, agrees, LastGuarded(others).value);
    }
  }

  lemma {:induction false} LastGuardedIn(selection: seq<Tab>)
    requires LastGuarded(selection).Some?
    ensures LastGuarded(selection).value in selection && LastGuarded(selection).value.guarded
  {
    if LastGuarded(selection[1..]).Some? {
      LastGuardedIn(selection[1..]);
    }
  }

  lemma {:induction false} RemainingHas(tabs: seq<Tab>, selection: seq<Tab>, agrees: Tab -> bool, t: Tab)
    ensures t in Remaining(tabs, selection, agrees) <==> t in tabs && !IsClosed(selection, agrees, t)
  {
    if tabs != [] {
      assert tabs == [tabs[0]] + tabs[1..];
      RemainingHas(tabs[1..], selection, agrees, t);
    }
  }

  // ---------- what a step takes away ----------

  /** The list with one tab taken out, the others in order. */
  ghost predicate IsWithout(left: seq<Tab>, tabs: seq<Tab>, tab: Tab) {
    exists k :: 0 <= k < |tabs| && tabs[k] == tab && tab !in tabs[..k] && left == tabs[..k] + tabs[k + 1..]
  }

  lemma {:induction false} SpliceIsWithout(tabs: seq<Tab>, tab: Tab)
    requires tab in tabs
    ensures IsWithout(SpliceOne(tabs, IndexOfTab(tabs, tab)), tabs, tab)
  {
    var k := IndexOfTab(tabs, tab);
    assert tabs[k] == tab && SpliceOne(tabs, k) == tabs[..k] + tabs[k + 1..];
  }

  /** When the user refuses nothing changes; otherwise the tab is gone, and only it. */
  lemma {:induction false} CloseTabEffect(nav: Nav, tab: Tab, agreed: bool)
    requires Consistent(nav) && tab in if tab.isPopup then nav.popups else nav.tabs
    ensures var end := CloseTab(nav, tab, agreed);
            if tab.guarded && !agreed then end == nav
            else if tab.isPopup then end.tabs == nav.tabs && IsWithout(end.popups, nav.popups, tab)
            else end.popups == nav.popups && IsWithout(end.tabs, nav.tabs, tab)
  {
    SpliceIsWithout(if tab.isPopup then nav.popups else nav.tabs, tab);
    RemoveTabConsistent(nav, tab);
  }

  /** The action takes the tab away: the user closes it, and agrees when the tab asks. */
  predicate Takes(a: Action, t: Tab) {
    match a
    case Open(_, _) => false
    case Close(tab, agreed) => tab == t && (t.guarded ==> agreed)
    case CloseOthers(current, agrees) =>
      current != Some(t) && t.closable != Some(false) && (t.guarded ==> agrees(t))
  }

  lemma {:induction false} CloseLeavesIff(nav: Nav, tab: Tab, agreed: bool, t: Tab)
    requires Consistent(nav) && (tab.isPopup || tab in nav.tabs) && t in nav.tabs
    ensures t !in CloseTab(nav, tab, agreed).tabs <==> tab == t && (t.guarded ==> agreed)
  {
    if !(tab.guarded && !agreed) {
      RemoveTabConsistent(nav, tab);
      if !tab.isPopup {
        SpliceDistinct(nav.tabs, IndexOfTab(nav.tabs, tab));
      }
    }
  }

  /** A listed tab leaves the list in a step exactly when the step takes it away. */
  lemma {:induction false} LeavesIff(nav: Nav, a: Action, t: Tab)
    requires Consistent(nav) && Offered(nav, a) && t in nav.tabs
    ensures t !in Do(nav, a).tabs <==> Takes(a, t)
  {
    match a
    case Open(tab, prepend) => OpenTabAddsAtMostOne(nav, tab, prepend);
    case Close(tab, agreed) => CloseLeavesIff(nav, tab, agreed, t);
    case CloseOthers(current, agrees) =>
      CloseOthersKeepsCurrent(nav, current, agrees);
      RemainingHas(nav.tabs, Others(nav.tabs, current), agrees, t);
  }

  /** In every run, a tab that has left the list was taken away by a step; a guarded one with the user's consent. */
  lemma {:induction false} LeftByAStep(nav: Nav, actions: seq<Action>, t: Tab)
    requires Consistent(nav) && Legal(nav, actions) && t in nav.tabs && t !in Run(nav, actions).tabs
    ensures exists i :: 0 <= i < |actions| && Takes(actions[i], t)
    decreases |actions|
  {
    LeavesIff(nav, actions[0], t);
    if !Takes(actions[0], t) {
      StepKeepsConsistent(nav, actions[0]);
      LeftByAStep(Do(nav, actions[0]), actions[1..], t);
      var i :| 0 <= i < |actions[1..]| && Takes(actions[1..][i], t);
      assert Takes(actions[i + 1], t);
    }
  }

  lemma StepKeepsConsistent(nav: Nav, a: Action)
    requires Consistent(nav) && Offered(nav, a)
    ensures Consistent(Do(nav, a))
  {
    match a
    case Open(tab, prepend) => OpenTabConsistent(nav, tab, prepend);
    case Close(tab, agreed) =>
      if !tab.guarded || agreed {
        RemoveTabConsistent(nav, tab);
      }
    case CloseOthers(current, agrees) => CloseOthersKeepsCurrent(nav, current, agrees);
  }

  /** In every state that opening and closing reach, with any answers, the invariant holds. */
  lemma {:induction false} AlwaysConsistent(nav: Nav, actions: seq<Action>)
    requires Consistent(nav) && Legal(nav, actions)
    ensures Consistent(Run(nav, actions))
    decreases |actions|
  {
    if actions != [] {
      StepKeepsConsistent(nav, actions[0]);
      AlwaysConsistent(Do(nav, actions[0]), actions[1..]);
    }
  }

  lemma TabsAreAlwaysConsistent(actions: seq<Action>)
    requires Legal(NO_TABS, actions)
    ensures Consistent(Run(NO_TABS, actions))
  {
    AlwaysConsistent(NO_TABS, actions);
  }

  /** Closing a tab that is not listed takes the last one out of the list; nothing else changes but flags and,
      when the list gets empty, the selection. */
  lemma UnlistedCloseEffect(nav: Nav, tab: Tab)
    requires !tab.isPopup && tab !in nav.tabs && nav.tabs != []
    ensures var (left, end) := (nav.tabs[..|nav.tabs| - 1], RemoveTab(nav, tab));
            && end.tabs == left && end.popups == nav.popups
            && end.selected == (if left == [] then None else nav.selected)
            && end.flagged == (if tab in nav.flagged then nav.flagged - Members(left) else nav.flagged)
  {
  }

  lemma LastIsOnlyOnce(nav: Nav)
    requires Consistent(nav) && nav.tabs != []
    ensures nav.tabs[|nav.tabs| - 1] !in nav.tabs[..|nav.tabs| - 1]
  {
    assert DistinctActions(nav.tabs);
  }

  /** Closing a tab that is not listed keeps the invariant exactly when at most one tab is listed, or the tab is not
      flagged and the last one listed, which is removed, is not the selected one. */
  lemma {:induction false} UnlistedCloseIff(nav: Nav, tab: Tab)
    requires Consistent(nav) && !tab.isPopup && tab !in nav.tabs
    ensures Consistent(RemoveTab(nav, tab)) <==>
              |nav.tabs| <= 1 || (tab !in nav.flagged && nav.selected != Some(nav.tabs[|nav.tabs| - 1]))
  {
    if |nav.tabs| == 1 {
      UnlistedCloseEffect(nav, tab);
    } else if nav.tabs != [] {
      UnlistedCloseOfMany(nav, tab);
    }
  }

  lemma UnlistedCloseOfMany(nav: Nav, tab: Tab)
    requires Consistent(nav) && !tab.isPopup && tab !in nav.tabs && |nav.tabs| > 1
    ensures Consistent(RemoveTab(nav, tab)) <==> tab !in nav.flagged && nav.selected != Some(nav.tabs[|nav.tabs| - 1])
  {
    var n := |nav.tabs| - 1;
    UnlistedCloseEffect(nav, tab);
    LastIsOnlyOnce(nav);
    assert nav.tabs == nav.tabs[..n] + [nav.tabs[n]];
    if tab in nav.flagged {
      FlagsAreLost(nav, tab);
    }
  }

  /** Closing a flagged tab that is not listed clears the flags of those that are, that of the selected one too. */
  lemma FlagsAreLost(nav: Nav, tab: Tab)
    requires Consistent(nav) && !tab.isPopup && tab !in nav.tabs && |nav.tabs| > 1 && tab in nav.flagged
    ensures !Consistent(RemoveTab(nav, tab))
  {
    var end := RemoveTab(nav, tab);
    UnlistedCloseEffect(nav, tab);
    assert end.selected.Some? && end.selected.value in end.tabs ==> end.selected.value !in end.flagged;
  }

  /** So it can remove the only tab, and it can leave a selection that is not listed. */
  lemma {:induction false} ClosingAnUnlistedTab()
    ensures var (shown, gone) := (Tab(1, "a", false, None, false), Tab(2, "b", false, None, false));
            var nav := Nav([shown], [], Some(shown), {shown});
            var other := Nav([gone, shown], [], Some(shown), {shown});
            && Consistent(nav) && RemoveTab(nav, gone).tabs == []
            && Consistent(other) && !Consistent(RemoveTab(other, Tab(3, "c", false, None, false)))
  {
    var shown, gone := Tab(1, "a", false, None, false), Tab(2, "b", false, None, false);
    var stranger := Tab(3, "c", false, None, false);
    var other := Nav([gone, shown], [], Some(shown), {shown});
    assert RemoveTab(other, stranger).tabs == [gone];
  }
}
