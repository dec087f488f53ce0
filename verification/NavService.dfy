/** NavService as it runs: the tab list is spliced in place and the selected flags are set and cleared. */
module NavServices {
  import opened Text
  import opened NavTabs

  class NavService {
    var tabs: seq<Tab>
    var popups: seq<Tab>
    var selected: Option<Tab>
    var flagged: set<Tab>

    ghost function State(): Nav
      reads this
    {
      Nav(tabs, popups, selected, flagged)
    }

    constructor ()
      ensures State() == NO_TABS
    {
      tabs, popups, selected, flagged := [], [], None, {};
    }

    /** Clears the selected flag of every listed tab, one by one. */
    method ClearFlags()
      modifies this`flagged
      ensures flagged == old(flagged) - Members(tabs)
    {
      var i := 0;
      while i < |tabs|
        invariant 0 <= i <= |tabs|
        invariant flagged == old(flagged) - Members(tabs[..i])
      {
        flagged := flagged - {tabs[i]};
        assert tabs[..i + 1] == tabs[..i] + [tabs[i]];
        i := i + 1;
      }
      assert tabs[..i] == tabs;
    }

    method OpenTab(tab: Tab, prepend: bool)
      modifies this
      ensures State() == NavTabs.OpenTab(old(State()), tab, prepend)
    {
      if tab.isPopup {
        popups := popups + [tab];
        return;
      }
      var found := FindTab(tabs, tab.action);
      if found == None {
        found := Some(tab);
        tabs := if prepend then [tab] + tabs else tabs + [tab];
      }
      ClearFlags();
      flagged := flagged + {found.value};
      selected := found;
    }

    /** __closeTab. */
    method RemoveTab(tab: Tab)
      modifies this
      ensures State() == NavTabs.RemoveTab(old(State()), tab)
    {
      var index := IndexOfTab(if tab.isPopup then popups else tabs, tab);
      if tab.isPopup {
        popups := SpliceOne(popups, index);
      } else {
        tabs := SpliceOne(tabs, index);
      }
      if tabs == [] {
        selected := None;
      }
      if tab.isPopup {
        return;
      }
      if tab in flagged {
        if index == |tabs| {
          index := index - 1;
        }
        ClearFlags();
        if 0 <= index < |tabs| {
          flagged := flagged + {tabs[index]};
          OpenTab(tabs[index], false);
        }
      }
    }

    method CloseTab(tab: Tab, agreed: bool)
      modifies this
      ensures State() == NavTabs.CloseTab(old(State()), tab, agreed)
    {
      if !tab.guarded || agreed {
        RemoveTab(tab);
      }
    }

    method ShowIfHidden(tab: Tab)
      modifies this
      ensures State() == NavTabs.ShowIfHidden(old(State()), tab)
    {
      if tab !in flagged {
        flagged := flagged + {tab};
        OpenTab(tab, false);
      }
    }

    method Settle()
      modifies this
      ensures State() == NavTabs.Settle(old(State()))
    {
      if selected.None? || IndexOfTab(tabs, selected.value) == -1 {
        selected := None;
      }
      if selected.Some? {
        OpenTab(selected.value, false);
      } else if tabs != [] && tabs[0] !in flagged {
        OpenTab(tabs[0], false);
      }
    }

    method CloseTabs(selection: seq<Tab>, agrees: Tab -> bool)
      modifies this
      ensures State() == NavTabs.CloseTabs(old(State()), selection, agrees)
      decreases |selection|
    {
      if selection == [] {
        Settle();
        return;
      }
      var tab := selection[0];
      if tab.guarded {
        ShowIfHidden(tab);
      }
      if !tab.guarded || agrees(tab) {
        var at := IndexOfTab(tabs, tab);
        if at > -1 {
          tabs := SpliceOne(tabs, at);
        }
      }
      assert State() == AfterOne(old(State()), tab, agrees);
      CloseTabs(Without(selection, tab), agrees);
      if tabs == [] {
        selected := None;
      }
    }

    method CloseTabOthers(current: Option<Tab>, agrees: Tab -> bool)
      modifies this
      ensures State() == NavTabs.CloseTabOthers(old(State()), current, agrees)
    {
      var rest := Others(tabs, current);
      if current.Some? {
        ShowIfHidden(current.value);
      }
      CloseTabs(rest, agrees);
    }
  }
}
