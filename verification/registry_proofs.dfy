/**
  What the main window's operations keep true of the registry: every account has
  exactly one tab, the stored indices point at the right tabs, titles follow names
  and password flags, and the Welcome page is shown exactly when nothing else is.
 */
module RegistryProofs {
  import opened Wrappers
  import DB = AccountStore
  import opened SessionTab
  import opened Labels
  import opened TabRegistry

  // ---------------------------------------------------------------------------
  // Slot-level facts
  // ---------------------------------------------------------------------------

  /** A page held by some slot is found. */
  lemma PresentAt(slots: seq<Slot>, i: int)
    requires 0 <= i < |slots|
    ensures Present(slots, slots[i].page)
  {
  }

  /** In a widget without duplicates, a page is found exactly where it is. */
  lemma IndexOfDistinct(slots: seq<Slot>, i: int)
    requires Distinct(slots) && 0 <= i < |slots|
    ensures IndexOf(slots, slots[i].page) == i
  {
    PresentAt(slots, i);
  }

  /** Pages whose stored index is right are present. */
  lemma SyncedPresent(w: Window)
    requires Synced(w)
    ensures AllPresent(w)
  {
    forall id | id in w.tabs ensures Present(w.slots, AccountPage(id)) {
      PresentAt(w.slots, w.tabs[id].index);
    }
  }

  /** Removing a slot keeps the others, in order, one place further down past the gap. */
  lemma RemoveAtShift(slots: seq<Slot>, i: int, j: int)
    requires 0 <= i < |slots| && 0 <= j < |slots| && j != i
    ensures var r := RemoveAt(slots, i); var j' := if j < i then j else j - 1;
            0 <= j' < |r| && r[j'] == slots[j]
  {
  }

  /** Removing a slot keeps the widget free of duplicates. */
  lemma RemoveAtDistinct(slots: seq<Slot>, i: int)
    requires Distinct(slots)
    ensures Distinct(RemoveAt(slots, i))
  {
  }

  /** Where a dragged slot's neighbours end up is undone by where they came from. */
  lemma MoveTargetSource(from: int, to: int, n: int, j: int)
    requires 0 <= from < n && 0 <= to < n && 0 <= j < n
    ensures 0 <= MoveTarget(from, to, j) < n && MoveSource(from, to, MoveTarget(from, to, j)) == j
  {
  }

  /** Different positions after a drag come from different positions before it. */
  lemma MoveSourceInjective(from: int, to: int, a: int, b: int)
    requires a != b
    ensures MoveSource(from, to, a) != MoveSource(from, to, b)
  {
  }

  /** A drag keeps the widget free of duplicates. */
  lemma MoveDistinct(slots: seq<Slot>, from: int, to: int)
    requires 0 <= from < |slots| && 0 <= to < |slots| && Distinct(slots)
    ensures Distinct(MoveSlot(slots, from, to))
  {
    var r := MoveSlot(slots, from, to);
    forall i, j | 0 <= i < j < |r| ensures r[i].page != r[j].page {
      MoveSourceInjective(from, to, i, j);
      var a, b := MoveSource(from, to, i), MoveSource(from, to, j);
      assert a < b ==> slots[a].page != slots[b].page;
      assert b < a ==> slots[b].page != slots[a].page;
    }
  }

  /** A page is in the widget after a drag exactly when it was before. */
  lemma MovePresent(slots: seq<Slot>, from: int, to: int, p: Page)
    requires 0 <= from < |slots| && 0 <= to < |slots|
    ensures Present(MoveSlot(slots, from, to), p) <==> Present(slots, p)
  {
    var r := MoveSlot(slots, from, to);
    if Present(slots, p) {
      var j := IndexOf(slots, p);
      MoveTargetSource(from, to, |slots|, j);
      PresentAt(r, MoveTarget(from, to, j));
    }
    if Present(r, p) {
      var k := IndexOf(r, p);
      PresentAt(slots, MoveSource(from, to, k));
    }
  }

  /** Two widgets with the same pages in the same places find the same pages. */
  lemma SamePagesPresent(a: seq<Slot>, b: seq<Slot>, p: Page)
    requires |a| == |b| && forall k :: 0 <= k < |a| ==> a[k].page == b[k].page
    ensures Present(a, p) <==> Present(b, p)
  {
    if Present(a, p) {
      PresentAt(b, IndexOf(a, p));
    }
    if Present(b, p) {
      PresentAt(a, IndexOf(b, p));
    }
  }

  /** Removing a slot adds no page. */
  lemma RemoveAtPresent(slots: seq<Slot>, i: int, p: Page)
    requires Present(RemoveAt(slots, i), p)
    ensures Present(slots, p)
  {
    var r := RemoveAt(slots, i);
    var k := IndexOf(r, p);
    if 0 <= i < |slots| {
      PresentAt(slots, if k < i then k else k + 1);
    }
  }

  /** A page other than the removed slot's stays in the widget. */
  lemma RemoveAtKeeps(slots: seq<Slot>, i: int, p: Page)
    requires 0 <= i < |slots| && Present(slots, p) && slots[i].page != p
    ensures Present(RemoveAt(slots, i), p)
  {
    var j := IndexOf(slots, p);
    RemoveAtShift(slots, i, j);
    PresentAt(RemoveAt(slots, i), if j < i then j else j - 1);
  }

  // ---------------------------------------------------------------------------
  // Re-synchronising indices
  // ---------------------------------------------------------------------------

  /** `r` is `w` with at most the stored indices changed. */
  ghost predicate IndexOnly(w: Window, r: Window) {
    && r.slots == w.slots && r.store == w.store && r.tabs.Keys == w.tabs.Keys
    && forall id :: id in w.tabs ==> r.tabs[id] == w.tabs[id].(index := r.tabs[id].index)
  }

  /** Stored indices play no part in being placed. */
  lemma IndexOnlyPlaced(w: Window, r: Window)
    requires Placed(w) && IndexOnly(w, r)
    ensures Placed(r)
  {
    assert NoDangling(r) && AllPresent(r);
    assert Agrees(r);
  }

  /** `update_tab_indices` repairs every stored index once all else is consistent. */
  lemma Resync(w: Window)
    requires Placed(w)
    ensures Core(UpdateTabIndices(w))
  {
    var r := UpdateTabIndices(w);
    assert IndexOnly(w, r);
    IndexOnlyPlaced(w, r);
  }

  /** When no page is shown twice and every stored index is right, `update_tab_indices` changes nothing. */
  lemma ResyncNoop(w: Window)
    requires Distinct(w.slots) && Synced(w)
    ensures UpdateTabIndices(w) == w
  {
    var r := UpdateTabIndices(w);
    forall id | id in w.tabs ensures r.tabs[id].index == w.tabs[id].index {
      IndexOfDistinct(w.slots, w.tabs[id].index);
    }
    SameIndices(w.tabs, r.tabs);
  }

  /** Registries with the same ids whose entries differ at most in index, and agree on every index, are equal. */
  lemma SameIndices(a: map<int, Entry>, b: map<int, Entry>)
    requires a.Keys == b.Keys
    requires forall id :: id in a ==> b[id] == a[id].(index := b[id].index)
    requires forall id :: id in a ==> b[id].index == a[id].index
    ensures a == b
  {
    assert forall id :: id in a ==> b[id] == a[id];
  }

  // ---------------------------------------------------------------------------
  // The Welcome page
  // ---------------------------------------------------------------------------

  /** Adding or removing the Welcome page keeps everything but the stored indices consistent. */
  lemma ShowWelcomePlaced(w: Window)
    requires Placed(w)
    ensures Placed(ShowWelcomeIfEmpty(w))
  {
    var r := ShowWelcomeIfEmpty(w);
    var i := IndexOf(w.slots, WelcomePage);
    if |w.tabs| == 0 && i == -1 {
      assert r.slots == w.slots + [Slot(WelcomePage, WelcomeTitle)];
    } else if |w.tabs| > 0 && i != -1 {
      assert r.slots == RemoveAt(w.slots, i);
      RemoveAtDistinct(w.slots, i);
      forall id | id in r.tabs ensures Present(r.slots, AccountPage(id)) {
        RemoveAtKeeps(w.slots, i, AccountPage(id));
      }
    }
  }

  /** When it does not remove the Welcome page, `show_welcome_if_empty` keeps the window consistent. */
  lemma ShowWelcomeCore(w: Window)
    requires Core(w) && (|w.tabs| == 0 || !Present(w.slots, WelcomePage))
    ensures Core(ShowWelcomeIfEmpty(w))
    ensures |w.tabs| > 0 ==> ShowWelcomeIfEmpty(w) == w
  {
    ShowWelcomePlaced(w);
  }

  // ---------------------------------------------------------------------------
  // Creating a tab
  // ---------------------------------------------------------------------------

  /** The window with one more entry, its page appended at the end. */
  function WithEntry(w: Window, id: int, e: Entry, title: string, store: DB.Store, windowTitle: string): Window {
    Window(w.tabs[id := e], w.slots + [Slot(AccountPage(id), title)], store, windowTitle)
  }

  /** A page of an account without an entry is not in a window without dangling pages. */
  lemma NewPageAbsent(w: Window, id: int)
    requires NoDangling(w) && id !in w.tabs
    ensures forall k :: 0 <= k < |w.slots| ==> w.slots[k].page != AccountPage(id)
  {
    forall k | 0 <= k < |w.slots| ensures w.slots[k].page != AccountPage(id) {
      assert w.slots[k].page.AccountPage? ==> w.slots[k].page.account in w.tabs;
    }
  }

  lemma WithEntrySlots(w: Window, id: int, e: Entry, title: string, store: DB.Store, windowTitle: string)
    requires Placed(w) && id !in w.tabs
    ensures var r := WithEntry(w, id, e, title, store, windowTitle);
            Distinct(r.slots) && NoDangling(r) && AllPresent(r)
  {
    var r := WithEntry(w, id, e, title, store, windowTitle);
    NewPageAbsent(w, id);
    forall k | k in r.tabs ensures Present(r.slots, AccountPage(k)) {
      if k == id {
        PresentAt(r.slots, |w.slots|);
      } else {
        PresentAt(r.slots, IndexOf(w.slots, AccountPage(k)));
      }
    }
  }

  lemma WithEntryLabelled(w: Window, id: int, e: Entry, title: string, store: DB.Store, windowTitle: string)
    requires Placed(w) && id !in w.tabs && title == TabTitle(e.name, e.tab.hasPassword)
    ensures Labelled(WithEntry(w, id, e, title, store, windowTitle))
  {
    var r := WithEntry(w, id, e, title, store, windowTitle);
    NewPageAbsent(w, id);
    forall i | 0 <= i < |r.slots| && r.slots[i].page.AccountPage? && r.slots[i].page.account in r.tabs
      ensures r.slots[i].title == TabTitle(r.tabs[r.slots[i].page.account].name, r.tabs[r.slots[i].page.account].tab.hasPassword)
    {
      if i < |w.slots| {
        assert r.slots[i] == w.slots[i];
      }
    }
  }

  /** Rows that keep their names and password state keep agreeing with their entries. */
  lemma AgreesStoreChange(w: Window, store: DB.Store)
    requires Agrees(w) && DB.Valid(store)
    requires forall k :: k in w.tabs ==> k in store.rows && store.rows[k].name == w.store.rows[k].name
                                         && store.rows[k].passwordHash.Some? == w.store.rows[k].passwordHash.Some?
    ensures Agrees(w.(store := store))
  {
  }

  /** A store whose rows differ only in zoom level keeps agreeing with the entries. */
  lemma AgreesZoomChange(w: Window, store: DB.Store)
    requires Agrees(w) && DB.ZoomOnly(w.store, store)
    ensures Agrees(w.(store := store))
  {
    assert DB.Valid(store) by {
      assert forall id :: id in store.rows ==> id in w.store.rows;
    }
  }

  /** Adding an agreeing, correctly titled entry for an account without a tab keeps the window placed. */
  lemma WithEntryPlaced(w: Window, id: int, e: Entry, title: string, store: DB.Store, windowTitle: string)
    requires Placed(w) && id !in w.tabs && title == TabTitle(e.name, e.tab.hasPassword)
    requires Agrees(w.(store := store)) && id in store.rows && EntryAgrees(id, e, store.rows[id])
    ensures Placed(WithEntry(w, id, e, title, store, windowTitle))
  {
    WithEntrySlots(w, id, e, title, store, windowTitle);
    WithEntryLabelled(w, id, e, title, store, windowTitle);
  }

  /**
    `create_account_tab` for a row that has no tab yet, with the row's name and
    password state, yields a consistent window.
   */
  lemma CreateCore(w: Window, id: int, name: string, sessionDir: string, zoom: real,
                   passwordHash: Option<string>, viewOk: bool)
    requires Placed(w) && id !in w.tabs && id in w.store.rows
    requires w.store.rows[id].name == name && w.store.rows[id].passwordHash.Some? == passwordHash.Some?
    ensures Core(CreateAccountTab(w, id, name, sessionDir, zoom, passwordHash, viewOk))
  {
    var st := NewTab(id, name, sessionDir, zoom, passwordHash.Some?, true, viewOk, w.store);
    var e := Entry(name, st.tab, |w.slots|);
    var title := TabTitle(name, passwordHash.Some?);
    var pre := WithEntry(w, id, e, title, st.store, WindowTitle(|w.tabs[id := e]|));
    assert CreateAccountTab(w, id, name, sessionDir, zoom, passwordHash, viewOk) == UpdateTabIndices(pre);
    ApplyZoomOnly(st.tab, w.store);
    AgreesZoomChange(w, st.store);
    WithEntryPlaced(w, id, e, title, st.store, pre.title);
    Resync(pre);
  }

  // ---------------------------------------------------------------------------
  // Adding an account
  // ---------------------------------------------------------------------------

  /** Appending a slot with another page does not add the page. */
  lemma AppendAbsent(slots: seq<Slot>, s: Slot, p: Page)
    requires !Present(slots, p) && s.page != p
    ensures !Present(slots + [s], p)
  {
    assert forall j :: 0 <= j < |slots| + 1 ==> (slots + [s])[j].page != p;
  }

  /** A consistent window with no account open holds the Welcome page and nothing else. */
  lemma EmptyWindowSlots(w: Window)
    requires WF(w) && |w.tabs| == 0
    ensures |w.slots| == 1 && w.slots[0].page == WelcomePage
  {
    assert Present(w.slots, WelcomePage);
    assert forall j :: 0 <= j < |w.slots| ==> w.slots[j].page == WelcomePage;
    assert w.slots[|w.slots| - 1].page == w.slots[0].page;
  }

  /** The window `add_account` has built when it reaches its last `show_welcome_if_empty`. */
  function AddedWindow(w: Window, prompt: Prompt, appDir: string, now: int, viewOk: bool): Window {
    var added := DB.AddAccount(w.store, appDir, prompt.text, now);
    CreateAccountTab(w.(store := added.store), added.id, prompt.text, added.sessionDir, DB.DefaultZoom, None, viewOk)
  }

  /** Up to that last call the window stays consistent, with one more tab and one more row. */
  lemma AddedWindowCore(w: Window, prompt: Prompt, appDir: string, now: int, viewOk: bool)
    requires Placed(w) && w.store.rows.Keys == w.tabs.Keys
    ensures var w2 := AddedWindow(w, prompt, appDir, now, viewOk);
            && Core(w2) && w2.store.rows.Keys == w2.tabs.Keys && w2.title == WindowTitle(|w2.tabs|)
            && w2.tabs.Keys == w.tabs.Keys + {w.store.lastId + 1}
            && w2.slots == w.slots + [Slot(AccountPage(w.store.lastId + 1), TabTitle(prompt.text, false))]
  {
    var added := DB.AddAccount(w.store, appDir, prompt.text, now);
    var w1 := w.(store := added.store);
    AgreesStoreChange(w, added.store);
    assert Placed(w1);
    CreateCore(w1, added.id, prompt.text, added.sessionDir, DB.DefaultZoom, None, viewOk);
    CreateAccountTabKeeps(w1, added.id, prompt.text, added.sessionDir, DB.DefaultZoom, None, viewOk);
  }

  /** When the first `show_welcome_if_empty` changes nothing, `add_account` ends with the second one. */
  lemma AddAccountAsWrittenSteps(w: Window, prompt: Prompt, appDir: string, now: int, viewOk: bool)
    requires |w.tabs| < MaxAccounts && Accepted(prompt) && ShowWelcomeIfEmpty(w) == w
    ensures AddAccountAsWritten(w, prompt, appDir, now, viewOk) == ShowWelcomeIfEmpty(AddedWindow(w, prompt, appDir, now, viewOk))
  {
  }

  /** Once an account is open, the as-written `add_account` keeps the window consistent. */
  lemma AddAccountAsWrittenWF(w: Window, prompt: Prompt, appDir: string, now: int, viewOk: bool)
    requires WF(w) && |w.tabs| > 0
    ensures WF(AddAccountAsWritten(w, prompt, appDir, now, viewOk))
  {
    if |w.tabs| < MaxAccounts && Accepted(prompt) {
      WelcomeSettled(w);
      AddedWindowCore(w, prompt, appDir, now, viewOk);
      AddAccountAsWrittenSteps(w, prompt, appDir, now, viewOk);
      var w2 := AddedWindow(w, prompt, appDir, now, viewOk);
      AppendAbsent(w.slots, Slot(AccountPage(w.store.lastId + 1), TabTitle(prompt.text, false)), WelcomePage);
      ShowWelcomeCore(w2);
    }
  }

  /**
    The first account added to an empty window is registered at index 1, but the
    Welcome page in front of it is then removed, leaving it alone at index 0.
   */
  lemma FirstAddLeavesStaleIndex(w: Window, prompt: Prompt, appDir: string, now: int, viewOk: bool)
    requires WF(w) && |w.tabs| == 0 && Accepted(prompt)
    ensures var r := AddAccountAsWritten(w, prompt, appDir, now, viewOk); var id := w.store.lastId + 1;
            && r.tabs.Keys == {id} && |r.slots| == 1 && r.slots[0].page == AccountPage(id)
            && r.tabs[id].index == 1 && !Synced(r)
            && r.tabs[id].name == prompt.text && r.slots[0].title == TabTitle(prompt.text, false)
  {
    EmptyWindowSlots(w);
    WelcomeSettled(w);
    FirstAddedWindow(w, prompt, appDir, now, viewOk);
    AddAccountAsWrittenSteps(w, prompt, appDir, now, viewOk);
    WelcomeRemovedFirst(AddedWindow(w, prompt, appDir, now, viewOk), w.store.lastId + 1);
    SoleKey(w.tabs, AddedWindow(w, prompt, appDir, now, viewOk).tabs, w.store.lastId + 1);
  }

  /** Adding one id to an empty registry leaves exactly that id. */
  lemma SoleKey(before: map<int, Entry>, after: map<int, Entry>, id: int)
    requires |before| == 0 && after.Keys == before.Keys + {id}
    ensures after.Keys == {id}
  {
    assert |before.Keys| == 0;
  }

  /** In the empty window, the first account's tab is created behind the Welcome page, at index 1. */
  lemma FirstAddedWindow(w: Window, prompt: Prompt, appDir: string, now: int, viewOk: bool)
    requires Placed(w) && w.store.rows.Keys == w.tabs.Keys && |w.tabs| == 0
    requires |w.slots| == 1 && w.slots[0].page == WelcomePage
    ensures var w2 := AddedWindow(w, prompt, appDir, now, viewOk); var id := w.store.lastId + 1;
            && |w2.slots| == 2 && w2.slots[0].page == WelcomePage && w2.slots[1].page == AccountPage(id)
            && w2.slots[1].title == TabTitle(prompt.text, false)
            && w2.tabs.Keys == w.tabs.Keys + {id} && id in w2.tabs && Synced(w2) && w2.tabs[id].name == prompt.text
  {
    AddedWindowCore(w, prompt, appDir, now, viewOk);
    var added := DB.AddAccount(w.store, appDir, prompt.text, now);
    var w2 := AddedWindow(w, prompt, appDir, now, viewOk);
    assert w2 == CreateAccountTab(w.(store := added.store), added.id, prompt.text, added.sessionDir, DB.DefaultZoom, None, viewOk);
    assert w2.tabs[added.id].name == prompt.text;
    assert w2.slots[1] == Slot(AccountPage(added.id), TabTitle(prompt.text, false));
  }

  /**
    Removing a Welcome page that sits in front of the only account's tab moves that
    tab to position 0 but leaves its stored index at 1.
   */
  lemma WelcomeRemovedFirst(w2: Window, id: int)
    requires |w2.slots| == 2 && w2.slots[0].page == WelcomePage && w2.slots[1].page == AccountPage(id)
    requires id in w2.tabs && Synced(w2)
    ensures var r := ShowWelcomeIfEmpty(w2);
            && r.tabs == w2.tabs && r.slots == [w2.slots[1]] && id in r.tabs && r.tabs[id].index == 1 && !Synced(r)
  {
    assert IndexOf(w2.slots, WelcomePage) == 0;
    assert RemoveAt(w2.slots, 0) == [w2.slots[1]];
  }

  /** Renaming through an index past the last tab renames the row and the entry but retitles no tab. */
  lemma RenameAtStaleIndex(r: Window, id: int, rename: Prompt)
    requires id in r.tabs && r.tabs[id].index >= |r.slots| && Accepted(rename) && rename.text != r.tabs[id].name
    ensures var q := RenameTab(r, id, rename);
            q.slots == r.slots && q.tabs.Keys == r.tabs.Keys && q.tabs[id].name == rename.text
            && (id in r.store.rows ==> q.store.rows[id].name == rename.text)
  {
  }

  /** Renaming that first account right after adding it renames the row and the entry but leaves the tab's title as it was. */
  lemma FirstAddThenRenameKeepsTitle(w: Window, prompt: Prompt, appDir: string, now: int, viewOk: bool, rename: Prompt)
    requires WF(w) && |w.tabs| == 0 && Accepted(prompt) && Accepted(rename) && rename.text != prompt.text
    ensures var r := AddAccountAsWritten(w, prompt, appDir, now, viewOk); var id := w.store.lastId + 1;
            var q := RenameTab(r, id, rename);
            && q.slots == r.slots && id in q.tabs && q.tabs[id].name == rename.text
            && |q.slots| == 1 && q.slots[0].title == TabTitle(prompt.text, false)
  {
    FirstAddLeavesStaleIndex(w, prompt, appDir, now, viewOk);
    var r := AddAccountAsWritten(w, prompt, appDir, now, viewOk);
    var id := w.store.lastId + 1;
    RenameAtStaleIndex(r, id, rename);
    var q := RenameTab(r, id, rename);
    assert id in q.tabs;
  }

  /** When the first `show_welcome_if_empty` changes nothing, the re-synchronised `add_account` ends with both calls. */
  lemma AddAccountSteps(w: Window, prompt: Prompt, appDir: string, now: int, viewOk: bool)
    requires |w.tabs| < MaxAccounts && Accepted(prompt) && ShowWelcomeIfEmpty(w) == w
    ensures AddAccount(w, prompt, appDir, now, viewOk) == UpdateTabIndices(ShowWelcomeIfEmpty(AddedWindow(w, prompt, appDir, now, viewOk)))
  {
    AddAccountAsWrittenSteps(w, prompt, appDir, now, viewOk);
  }

  /** The end of `add_account` with re-synchronisation: a consistent window with a new tab stays consistent. */
  lemma AddTailWF(w2: Window)
    requires Core(w2) && w2.store.rows.Keys == w2.tabs.Keys && w2.title == WindowTitle(|w2.tabs|) && |w2.tabs| > 0
    ensures WF(UpdateTabIndices(ShowWelcomeIfEmpty(w2)))
  {
    ShowWelcomePlaced(w2);
    Resync(ShowWelcomeIfEmpty(w2));
  }

  /** When the Welcome page is shown exactly when no account is open, `show_welcome_if_empty` has nothing to do. */
  lemma WelcomeSettled(w: Window)
    requires Present(w.slots, WelcomePage) <==> |w.tabs| == 0
    ensures ShowWelcomeIfEmpty(w) == w
  {
  }

  /** `add_account` with re-synchronised indices keeps the window consistent from any consistent window. */
  lemma AddAccountWF(w: Window, prompt: Prompt, appDir: string, now: int, viewOk: bool)
    requires WF(w)
    ensures WF(AddAccount(w, prompt, appDir, now, viewOk))
  {
    if |w.tabs| < MaxAccounts && Accepted(prompt) {
      WelcomeSettled(w);
      AddedWindowCore(w, prompt, appDir, now, viewOk);
      AddAccountSteps(w, prompt, appDir, now, viewOk);
      AddTailWF(AddedWindow(w, prompt, appDir, now, viewOk));
    }
  }

  /** When the session directory cannot be created, `add_account` leaves a consistent window as it was. */
  lemma MkdirFailureKeepsWindow(w: Window, prompt: Prompt, appDir: string, now: int, viewOk: bool)
    requires WF(w)
    ensures AddAccountHandled(w, prompt, appDir, now, viewOk, false) == w
  {
  }

  /** The Welcome check never hides an account page. */
  lemma WelcomeKeepsAccount(w: Window, id: int)
    requires Present(w.slots, AccountPage(id))
    ensures Present(ShowWelcomeIfEmpty(w).slots, AccountPage(id))
  {
    var i := IndexOf(w.slots, WelcomePage);
    var r := ShowWelcomeIfEmpty(w);
    if |w.tabs| > 0 && i != -1 {
      RemoveAtKeeps(w.slots, i, AccountPage(id));
    } else if |w.tabs| == 0 && i == -1 {
      var j := IndexOf(w.slots, AccountPage(id));
      assert r.slots[j] == w.slots[j];
      PresentAt(r.slots, j);
    }
  }

  /**
    An accepted name under capacity: `add_account` as written inserts one row and
    registers one entry for it, both of that name, without a password, and shows its page.
   */
  lemma AddAccountAsWrittenAdds(w: Window, prompt: Prompt, appDir: string, now: int, viewOk: bool)
    requires |w.tabs| < MaxAccounts && Accepted(prompt)
    ensures var r := AddAccountAsWritten(w, prompt, appDir, now, viewOk);
            Added(w, r, w.store.lastId + 1, prompt.text) && Present(r.slots, AccountPage(w.store.lastId + 1))
  {
    var w1 := ShowWelcomeIfEmpty(w);
    var added := DB.AddAccount(w1.store, appDir, prompt.text, now);
    var w2 := AddedWindow(w1, prompt, appDir, now, viewOk);
    CreateAccountTabAdds(w1, added, prompt.text, viewOk);
    var r := ShowWelcomeIfEmpty(w2);
    assert r == AddAccountAsWritten(w, prompt, appDir, now, viewOk);
    AddedFrame(w1, w2, w, r, added.id, prompt.text);
    PresentAt(w2.slots, |w1.slots|);
    WelcomeKeepsAccount(w2, added.id);
  }

  /** The re-synchronised `add_account` adds the same account, and its stored index points at its page. */
  lemma AddAccountAdds(w: Window, prompt: Prompt, appDir: string, now: int, viewOk: bool)
    requires |w.tabs| < MaxAccounts && Accepted(prompt)
    ensures var r := AddAccount(w, prompt, appDir, now, viewOk); var id := w.store.lastId + 1;
            && Added(w, r, id, prompt.text)
            && 0 <= r.tabs[id].index < |r.slots| && r.slots[r.tabs[id].index].page == AccountPage(id)
  {
    AddAccountAsWrittenAdds(w, prompt, appDir, now, viewOk);
    AddedResync(w, AddAccountAsWritten(w, prompt, appDir, now, viewOk), w.store.lastId + 1, prompt.text);
  }

  // ---------------------------------------------------------------------------
  // Closing a tab
  // ---------------------------------------------------------------------------

  /** Removing a slot does not bring back an absent page. */
  lemma RemoveAtAbsent(slots: seq<Slot>, i: int, p: Page)
    requires !Present(slots, p)
    ensures !Present(RemoveAt(slots, i), p)
  {
    var r := RemoveAt(slots, i);
    assert forall k :: 0 <= k < |r| ==> r[k].page != p;
  }

  /** The window `close_tab` has built before its re-synchronisation: entry dropped, row deleted, slot removed, title updated. */
  function ClosedWindow(w: Window, index: int, id: int, rmtree: nat -> DB.RmOutcome): Window {
    var deleted := DB.Delete(w.store, id, rmtree);
    var tabs := w.tabs - {id};
    Window(tabs, RemoveAt(w.slots, index), deleted.store, WindowTitle(|tabs|))
  }

  /** What `close_tab` does once it has found an entry and the user has confirmed. */
  lemma CloseTabSteps(w: Window, index: int, rmtree: nat -> DB.RmOutcome)
    requires 0 <= index < |w.slots| && w.slots[index].page.AccountPage? && w.slots[index].page.account in w.tabs
    ensures CloseTab(w, index, true, rmtree).window
         == ShowWelcomeIfEmpty(UpdateTabIndices(ClosedWindow(w, index, w.slots[index].page.account, rmtree)))
  {
  }

  /** Closing an account's tab keeps everything but the stored indices consistent. */
  lemma ClosedWindowPlaced(w: Window, index: int, rmtree: nat -> DB.RmOutcome)
    requires Placed(w) && 0 <= index < |w.slots| && w.slots[index].page.AccountPage? && w.slots[index].page.account in w.tabs
    ensures Placed(ClosedWindow(w, index, w.slots[index].page.account, rmtree))
  {
    var id := w.slots[index].page.account;
    var r := ClosedWindow(w, index, id, rmtree);
    RemoveAtDistinct(w.slots, index);
    forall k | 0 <= k < |r.slots| && r.slots[k].page.AccountPage? ensures r.slots[k].page.account in r.tabs {
      var k' := if k < index then k else k + 1;
      assert r.slots[k] == w.slots[k'];
      assert k' < index ==> w.slots[k'].page != w.slots[index].page;
      assert index < k' ==> w.slots[index].page != w.slots[k'].page;
    }
    forall k | k in r.tabs ensures Present(r.slots, AccountPage(k)) {
      RemoveAtKeeps(w.slots, index, AccountPage(k));
    }
    assert Labelled(r) by {
      forall k | 0 <= k < |r.slots| && r.slots[k].page.AccountPage? && r.slots[k].page.account in r.tabs
        ensures r.slots[k].title == TabTitle(r.tabs[r.slots[k].page.account].name, r.tabs[r.slots[k].page.account].tab.hasPassword)
      {
        assert r.slots[k] == w.slots[if k < index then k else k + 1];
      }
    }
  }

  /** The end of `close_tab`: re-synchronising and showing the Welcome page if needed gives a consistent window. */
  lemma CloseTailWF(c: Window)
    requires Placed(c) && c.store.rows.Keys == c.tabs.Keys && c.title == WindowTitle(|c.tabs|) && !Present(c.slots, WelcomePage)
    ensures WF(ShowWelcomeIfEmpty(UpdateTabIndices(c)))
  {
    Resync(c);
    ShowWelcomeCore(UpdateTabIndices(c));
  }

  /** Closing a confirmed account tab of a consistent window leaves a consistent window. */
  lemma CloseTabConfirmedWF(w: Window, index: int, rmtree: nat -> DB.RmOutcome)
    requires WF(w) && 0 <= index < |w.slots| && w.slots[index].page.AccountPage? && w.slots[index].page.account in w.tabs
    ensures WF(CloseTab(w, index, true, rmtree).window)
  {
    var id := w.slots[index].page.account;
    var c := ClosedWindow(w, index, id, rmtree);
    CloseTabSteps(w, index, rmtree);
    ClosedWindowPlaced(w, index, rmtree);
    RemoveAtAbsent(w.slots, index, WelcomePage);
    CloseTailWF(c);
  }

  /**
    `close_tab` keeps the window consistent: the tab, its entry and its row are gone,
    whatever happened to the session directory, and the Welcome page is back if it was the last.
   */
  lemma CloseTabWF(w: Window, index: int, confirmed: bool, rmtree: nat -> DB.RmOutcome)
    requires WF(w)
    ensures WF(CloseTab(w, index, confirmed, rmtree).window)
  {
    if 0 <= index < |w.slots| && w.slots[index].page.AccountPage? && w.slots[index].page.account in w.tabs && confirmed {
      CloseTabConfirmedWF(w, index, rmtree);
    }
  }

  /** After `close_tab` the closed account has no tab left. */
  lemma CloseTabRemovesPage(w: Window, index: int, rmtree: nat -> DB.RmOutcome)
    requires WF(w) && 0 <= index < |w.slots| && w.slots[index].page.AccountPage? && w.slots[index].page.account in w.tabs
    ensures var id := w.slots[index].page.account; var r := CloseTab(w, index, true, rmtree).window;
            id !in r.tabs && id !in r.store.rows && !Present(r.slots, AccountPage(id))
  {
    CloseTabConfirmedWF(w, index, rmtree);
  }

  /**
    A close of a slot whose account has no entry does nothing. In particular, once
    a confirmed close has dropped the entry (its first step), the slot can no longer
    be closed through it.
   */
  lemma CloseTabReentrant(w: Window, index: int, confirmed: bool, rmtree: nat -> DB.RmOutcome)
    requires 0 <= index < |w.slots| && w.slots[index].page.AccountPage?
    ensures var mid := w.(tabs := w.tabs - {w.slots[index].page.account});
            CloseTab(mid, index, confirmed, rmtree) == Closed(mid, DB.Teardown(0, false), None)
  {
  }

  // ---------------------------------------------------------------------------
  // Dragging a tab
  // ---------------------------------------------------------------------------

  /** A drag keeps everything but the stored indices consistent. */
  lemma MovedPlaced(w: Window, from: int, to: int)
    requires Placed(w) && 0 <= from < |w.slots| && 0 <= to < |w.slots|
    ensures Placed(w.(slots := MoveSlot(w.slots, from, to)))
  {
    var m := w.(slots := MoveSlot(w.slots, from, to));
    MoveDistinct(w.slots, from, to);
    forall id | id in m.tabs ensures Present(m.slots, AccountPage(id)) {
      MovePresent(w.slots, from, to, AccountPage(id));
    }
  }

  /** `on_tab_moved` keeps the window consistent, and the dragged tab's entry records its new place. */
  lemma OnTabMovedWF(w: Window, from: int, to: int)
    requires WF(w) && 0 <= from < |w.slots| && 0 <= to < |w.slots|
    ensures WF(OnTabMoved(w, from, to))
    ensures w.slots[from].page.AccountPage? ==> OnTabMoved(w, from, to).tabs[w.slots[from].page.account].index == to
  {
    var m := w.(slots := MoveSlot(w.slots, from, to));
    MovedPlaced(w, from, to);
    Resync(m);
    MovePresent(w.slots, from, to, WelcomePage);
    if w.slots[from].page.AccountPage? {
      MoveDistinct(w.slots, from, to);
      IndexOfDistinct(m.slots, to);
    }
  }

  // ---------------------------------------------------------------------------
  // Retitling a tab: rename and password changes
  // ---------------------------------------------------------------------------

  /** The window with one entry and row replaced and its slot retitled. */
  function Retitled(w: Window, id: int, e: Entry, store: DB.Store): Window {
    w.(store := store, tabs := w.tabs[id := e], slots := SetTabText(w.slots, e.index, TabTitle(e.name, e.tab.hasPassword)))
  }

  /** The slot of the replaced entry shows its new title; every other slot keeps its entry's. */
  lemma RetitleLabelled(w: Window, id: int, e: Entry, store: DB.Store)
    requires Distinct(w.slots) && Synced(w) && Labelled(w) && id in w.tabs && e.index == w.tabs[id].index
    ensures Labelled(Retitled(w, id, e, store))
  {
    var r := Retitled(w, id, e, store);
    forall i | 0 <= i < |r.slots| && r.slots[i].page.AccountPage? && r.slots[i].page.account in r.tabs
      ensures r.slots[i].title == TabTitle(r.tabs[r.slots[i].page.account].name, r.tabs[r.slots[i].page.account].tab.hasPassword)
    {
      if i != e.index {
        assert r.slots[i] == w.slots[i];
        assert i < e.index ==> w.slots[i].page != w.slots[e.index].page;
        assert e.index < i ==> w.slots[e.index].page != w.slots[i].page;
      }
    }
  }

  /** Only titles change, so the pages, their order and the stored indices stay right. */
  lemma RetitleSynced(w: Window, id: int, e: Entry, store: DB.Store)
    requires Distinct(w.slots) && NoDangling(w) && Synced(w) && id in w.tabs && e.index == w.tabs[id].index
    ensures var r := Retitled(w, id, e, store);
            Distinct(r.slots) && NoDangling(r) && Synced(r) && AllPresent(r)
            && (Present(r.slots, WelcomePage) <==> Present(w.slots, WelcomePage))
  {
    var r := Retitled(w, id, e, store);
    SyncedPresent(r);
    SamePagesPresent(w.slots, r.slots, WelcomePage);
  }

  /**
    Replacing one account's entry and row, keeping its place, and giving its slot
    the title of the new entry keeps the window consistent.
   */
  lemma RetitleWF(w: Window, id: int, e: Entry, store: DB.Store)
    requires WF(w) && id in w.tabs && e.index == w.tabs[id].index
    requires store.rows.Keys == w.store.rows.Keys && store.lastId == w.store.lastId
    requires forall k :: k in w.store.rows && k != id ==> store.rows[k] == w.store.rows[k]
    requires EntryAgrees(id, e, store.rows[id])
    ensures WF(Retitled(w, id, e, store))
  {
    RetitleLabelled(w, id, e, store);
    RetitleSynced(w, id, e, store);
  }

  /** `rename_tab` keeps the window consistent: the tab shows the new name, locked or not as before. */
  lemma RenameTabWF(w: Window, id: int, prompt: Prompt)
    requires WF(w)
    ensures WF(RenameTab(w, id, prompt))
  {
    if id in w.tabs && Accepted(prompt) && prompt.text != w.tabs[id].name {
      var e := w.tabs[id];
      RenameKeepsLock(e.name, prompt.text, e.tab.hasPassword);
      RetitleWF(w, id, e.(name := prompt.text, tab := e.tab.(name := prompt.text)), DB.UpdateAccountName(w.store, id, prompt.text));
    }
  }

  /** `remove_tab_password` keeps the window consistent: the tab is unlocked and its title loses the lock. */
  lemma RemoveTabPasswordWF(w: Window, id: int, confirmed: bool, hash: DB.Hasher)
    requires WF(w)
    ensures WF(RemoveTabPassword(w, id, confirmed, hash))
  {
    if id in w.tabs && confirmed {
      var e := w.tabs[id];
      var t := e.tab;
      var t' := t.(hasPassword := false, isLocked := false,
                   lockScreen := if t.lockScreen == Absent then Absent else Hidden,
                   webView := if t.webView == Absent then Absent else Shown);
      var store := DB.SetPassword(w.store, id, None, hash);
      assert TabText(w.slots, e.index) == TabTitle(e.name, t.hasPassword);
      UnlockedTitleOfTitle(e.name, t.hasPassword);
      assert RemoveTabPassword(w, id, confirmed, hash) == Retitled(w, id, e.(tab := t'), store);
      RetitleWF(w, id, e.(tab := t'), store);
    }
  }

  /** `set_tab_password` keeps the window consistent: a new password locks the tab and marks its title. */
  lemma SetTabPasswordWF(w: Window, id: int, d: PasswordDialogs, hash: DB.Hasher)
    requires WF(w)
    ensures WF(SetTabPassword(w, id, d, hash))
  {
    if id in w.tabs && !(DB.HasPassword(w.store, id) && !(d.current.ok && DB.VerifyPassword(w.store, id, d.current.text, hash)))
       && d.chosen.ok {
      if d.chosen.text == "" {
        RemoveTabPasswordWF(w, id, d.removeConfirmed, hash);
      } else if d.confirm.ok && d.confirm.text == d.chosen.text {
        var e := w.tabs[id];
        var t := LockTab(e.tab.(hasPassword := true, isLocked := true));
        LockedTitleOfTitle(e.name, e.tab.hasPassword);
        RetitleWF(w, id, e.(tab := t), DB.SetPassword(w.store, id, Some(d.chosen.text), hash));
      }
    }
  }

  /**
    Removing the password of an account whose shown name carries a lock prefix of
    its own, as written, leaves a slot whose title is not its entry's tab title.
   */
  lemma RemoveAsWrittenBreaksLabels(w: Window, id: int, hash: DB.Hasher)
    requires Synced(w) && Labelled(w)
    requires id in w.tabs && w.tabs[id].tab.hasPassword && HasLockPrefix(Shorten(w.tabs[id].name))
    ensures !Labelled(RemoveTabPasswordAsWritten(w, id, true, hash))
  {
    var e := w.tabs[id];
    var i := e.index;
    assert w.slots[i].title == TabTitle(e.name, true);
    UnlockAsWrittenExactly(e.name);
    var r := RemoveTabPasswordAsWritten(w, id, true, hash);
    assert r.slots[i].page == AccountPage(id);
    assert r.slots[i].title == UnlockedTitleAsWritten(TabTitle(e.name, true));
    assert r.tabs[id].name == e.name && !r.tabs[id].tab.hasPassword;
    assert r.slots[i].title != TabTitle(r.tabs[id].name, r.tabs[id].tab.hasPassword);
  }

  /** Anywhere else the as-written removal does exactly what the corrected one does. */
  lemma RemoveAsWrittenMatches(w: Window, id: int, confirmed: bool, hash: DB.Hasher)
    requires Synced(w) && Labelled(w)
    requires id in w.tabs && confirmed ==> !(w.tabs[id].tab.hasPassword && HasLockPrefix(Shorten(w.tabs[id].name)))
    ensures RemoveTabPasswordAsWritten(w, id, confirmed, hash) == RemoveTabPassword(w, id, confirmed, hash)
  {
    if id in w.tabs && confirmed {
      var e := w.tabs[id];
      var title := TabText(w.slots, e.index);
      assert title == TabTitle(e.name, e.tab.hasPassword);
      if e.tab.hasPassword {
        UnlockAsWrittenExactly(e.name);
        UnlockedTitleOfTitle(e.name, true);
      } else {
        assert !StartsWith(title, LockPrefix) by {
          assert !StartsWith(title, [LockIcon]);
        }
      }
      assert UnlockedTitleAsWritten(title) == UnlockedTitle(title);
    }
  }

  /**
    `remove_tab_password` as written keeps the window consistent exactly when it is
    not confirmed for a password-protected account whose shown name holds a lock prefix.
   */
  lemma RemoveTabPasswordAsWrittenWF(w: Window, id: int, confirmed: bool, hash: DB.Hasher)
    requires WF(w)
    ensures WF(RemoveTabPasswordAsWritten(w, id, confirmed, hash)) <==>
              !(id in w.tabs && confirmed && w.tabs[id].tab.hasPassword && HasLockPrefix(Shorten(w.tabs[id].name)))
  {
    if id in w.tabs && confirmed && w.tabs[id].tab.hasPassword && HasLockPrefix(Shorten(w.tabs[id].name)) {
      RemoveAsWrittenBreaksLabels(w, id, hash);
    } else {
      RemoveAsWrittenMatches(w, id, confirmed, hash);
      RemoveTabPasswordWF(w, id, confirmed, hash);
    }
  }

  /**
    `set_tab_password` as written keeps the window consistent except when it hands a
    confirmed removal to `remove_tab_password` for an account whose shown name holds a lock prefix.
   */
  lemma SetTabPasswordAsWrittenWF(w: Window, id: int, d: PasswordDialogs, hash: DB.Hasher)
    requires WF(w)
    ensures WF(SetTabPasswordAsWritten(w, id, d, hash)) <==>
              !(RemovalChosen(w, id, d, hash) && d.removeConfirmed
                && w.tabs[id].tab.hasPassword && HasLockPrefix(Shorten(w.tabs[id].name)))
  {
    if RemovalChosen(w, id, d, hash) {
      RemoveTabPasswordAsWrittenWF(w, id, d.removeConfirmed, hash);
    } else {
      SetTabPasswordWF(w, id, d, hash);
    }
  }

  /** A confirmed new password locks the tab, and from then on exactly the passwords with its digest unlock it. */
  lemma SetTabPasswordLocks(w: Window, id: int, d: PasswordDialogs, hash: DB.Hasher)
    requires id in w.tabs && id in w.store.rows
    requires !DB.HasPassword(w.store, id) || (d.current.ok && DB.VerifyPassword(w.store, id, d.current.text, hash))
    requires d.chosen.ok && d.chosen.text != "" && d.confirm.ok && d.confirm.text == d.chosen.text
    requires hash(d.chosen.text) != ""
    ensures var r := SetTabPassword(w, id, d, hash);
            && id in r.tabs && r.tabs[id].tab.isLocked && r.tabs[id].tab.hasPassword
            && DB.HasPassword(r.store, id)
            && (forall q :: DB.VerifyPassword(r.store, id, q, hash) <==> hash(q) == hash(d.chosen.text))
  {
    forall q
      ensures DB.VerifyPassword(SetTabPassword(w, id, d, hash).store, id, q, hash) <==> hash(q) == hash(d.chosen.text)
    {
      DB.SetThenVerify(w.store, id, d.chosen.text, q, hash);
    }
  }

  /** Closing one account's tab keeps every other account's entry, apart from its stored index, and its row. */
  lemma CloseTabKeepsOthers(w: Window, index: int, confirmed: bool, rmtree: nat -> DB.RmOutcome, k: int)
    requires k in w.tabs && k in w.store.rows
    requires !(0 <= index < |w.slots| && w.slots[index].page == AccountPage(k))
    ensures var r := CloseTab(w, index, confirmed, rmtree).window;
            && k in r.tabs && r.tabs[k] == w.tabs[k].(index := r.tabs[k].index)
            && k in r.store.rows && r.store.rows[k] == w.store.rows[k]
  {
    if 0 <= index < |w.slots| && w.slots[index].page.AccountPage? && w.slots[index].page.account in w.tabs && confirmed {
      CloseTabSteps(w, index, rmtree);
    }
  }
}
