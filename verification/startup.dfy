/**
  Opening the main window (gui/main_window.py): the saved accounts are listed most
  recently active first and a tab is created for each, in that order; with none
  saved the Welcome page is shown.
 */
module WindowStartup {
  import DB = AccountStore
  import opened SessionTab
  import opened Labels
  import opened TabRegistry
  import opened RegistryProofs

  /** The rows a listing still has to load: present in the store with the listed name and password state, and without a tab. */
  ghost predicate Loadable(w: Window, rows: map<int, DB.Row>, ids: seq<int>) {
    && (forall i :: 0 <= i < |ids| ==> ids[i] in rows)
    && (forall i, j :: 0 <= i < j < |ids| ==> ids[i] != ids[j])
    && (forall x :: x in ids ==> x !in w.tabs && x in w.store.rows && w.store.rows[x].name == rows[x].name
                                 && w.store.rows[x].passwordHash == rows[x].passwordHash)
  }

  /** Loading the first listed row keeps the window consistent. */
  lemma LoadOneCore(w: Window, rows: map<int, DB.Row>, ids: seq<int>, k: nat, viewOk: nat -> bool)
    requires Core(w) && Loadable(w, rows, ids) && |ids| > 0
    ensures Core(LoadOne(w, ids[0], rows[ids[0]], viewOk(k)))
  {
    var x := ids[0];
    var row := rows[x];
    assert LoadOne(w, x, row, viewOk(k)) == CreateAccountTab(w, x, row.name, row.sessionDir, LoadZoom(row.zoom), row.passwordHash, viewOk(k));
    CreateCore(w, x, row.name, row.sessionDir, LoadZoom(row.zoom), row.passwordHash, viewOk(k));
  }

  /** Loading one row changes no other row's name or password, keeps the other tabs, and locks the new tab exactly when the row has a password. */
  lemma LoadOneFacts(w: Window, id: int, row: DB.Row, viewOk: bool)
    ensures var r := LoadOne(w, id, row, viewOk);
            && DB.ZoomOnly(w.store, r.store)
            && (forall k :: k in w.tabs && k != id ==> r.tabs[k].tab == w.tabs[k].tab)
            && id in r.tabs && r.tabs[id].tab.isLocked == row.passwordHash.Some?
  {
    assert LoadOne(w, id, row, viewOk) == CreateAccountTab(w, id, row.name, row.sessionDir, LoadZoom(row.zoom), row.passwordHash, viewOk);
    CreateAccountTabKeeps(w, id, row.name, row.sessionDir, LoadZoom(row.zoom), row.passwordHash, viewOk);
  }

  /** Registering the first listed id and changing only zoom levels leaves the rest of the listing loadable. */
  lemma LoadableShift(w: Window, w1: Window, rows: map<int, DB.Row>, ids: seq<int>)
    requires Loadable(w, rows, ids) && |ids| > 0
    requires w1.tabs.Keys == w.tabs.Keys + {ids[0]} && DB.ZoomOnly(w.store, w1.store)
    ensures Loadable(w1, rows, ids[1..])
  {
    forall y | y in ids[1..]
      ensures y != ids[0] && y in w.store.rows
    {
      var j :| 0 <= j < |ids[1..]| && ids[1..][j] == y;
      assert ids[j + 1] == y;
    }
  }

  /** After the first listed row is loaded, the rest of the listing is still loadable. */
  lemma LoadableRest(w: Window, rows: map<int, DB.Row>, ids: seq<int>, k: nat, viewOk: nat -> bool)
    requires Loadable(w, rows, ids) && |ids| > 0
    ensures Loadable(LoadOne(w, ids[0], rows[ids[0]], viewOk(k)), rows, ids[1..])
  {
    LoadOneFacts(w, ids[0], rows[ids[0]], viewOk(k));
    LoadableShift(w, LoadOne(w, ids[0], rows[ids[0]], viewOk(k)), rows, ids);
  }

  /** Loading tabs for rows that have none keeps the window consistent. */
  lemma {:induction false} LoadCore(w: Window, rows: map<int, DB.Row>, ids: seq<int>, k: nat, viewOk: nat -> bool)
    requires Core(w) && Loadable(w, rows, ids)
    ensures Core(LoadAccounts(w, rows, ids, k, viewOk))
    decreases |ids|
  {
    if |ids| > 0 {
      LoadOneCore(w, rows, ids, k, viewOk);
      LoadableRest(w, rows, ids, k, viewOk);
      LoadCore(LoadOne(w, ids[0], rows[ids[0]], viewOk(k)), rows, ids[1..], k + 1, viewOk);
    }
  }

  /** Each loaded tab is locked exactly when its row has a password, and tabs that were already open stay as they were. */
  lemma {:induction false} LoadLocks(w: Window, rows: map<int, DB.Row>, ids: seq<int>, k: nat, viewOk: nat -> bool)
    requires Loadable(w, rows, ids)
    ensures var r := LoadAccounts(w, rows, ids, k, viewOk);
            && (forall x :: x in ids ==> x in r.tabs && r.tabs[x].tab.isLocked == rows[x].passwordHash.Some?)
            && (forall x :: x in w.tabs ==> x in r.tabs && r.tabs[x].tab == w.tabs[x].tab)
    decreases |ids|
  {
    if |ids| > 0 {
      LoadableRest(w, rows, ids, k, viewOk);
      LoadOneFacts(w, ids[0], rows[ids[0]], viewOk(k));
      var w1 := LoadOne(w, ids[0], rows[ids[0]], viewOk(k));
      LoadLocks(w1, rows, ids[1..], k + 1, viewOk);
      assert forall y :: y in ids ==> y == ids[0] || y in ids[1..];
    }
  }

  /** A listing with the same elements as a set, counted with multiplicity, repeats no id. */
  lemma ListingDistinct(ids: seq<int>, keys: set<int>)
    requires multiset(ids) == multiset(keys)
    ensures forall i, j :: 0 <= i < j < |ids| ==> ids[i] != ids[j]
  {
    forall i, j | 0 <= i < j < |ids| ensures ids[i] != ids[j] {
      var x := ids[i];
      assert ids == ids[..j] + ids[j..];
      assert ids[..j][i] == x;
      assert multiset(ids)[x] == multiset(ids[..j])[x] + multiset(ids[j..])[x];
      assert multiset(ids[..j])[x] >= 1;
      assert ids[j..][0] == ids[j];
      assert multiset(ids[j..])[ids[j]] >= 1;
      assert multiset(keys)[x] <= 1;
    }
  }

  /** `load_saved_accounts` over a listing, followed by the window title and the Welcome page check. */
  function Opened(store: DB.Store, order: seq<int>, viewOk: nat -> bool): Window
    requires forall i :: 0 <= i < |order| ==> order[i] in store.rows
  {
    var loaded := LoadAccounts(Window(map[], [], store, InitialTitle), store.rows, order, 0, viewOk);
    ShowWelcomeIfEmpty(loaded.(title := WindowTitle(|loaded.tabs|)))
  }

  /** A listing of every row, each once, can be loaded into the empty window. */
  lemma ListingLoadable(store: DB.Store, order: seq<int>)
    requires multiset(order) == multiset(store.rows.Keys)
    ensures Loadable(Window(map[], [], store, InitialTitle), store.rows, order)
    ensures forall x :: x in order <==> x in store.rows
  {
    assert forall x :: x in order <==> x in store.rows by {
      assert forall x :: x in order <==> x in multiset(order);
    }
    ListingDistinct(order, store.rows.Keys);
  }

  /** Loading a listing of all rows, each once, into the empty window gives a consistent window of exactly those tabs. */
  lemma LoadedCore(store: DB.Store, order: seq<int>, viewOk: nat -> bool)
    requires DB.Valid(store) && multiset(order) == multiset(store.rows.Keys)
    ensures forall i :: 0 <= i < |order| ==> order[i] in store.rows
    ensures var loaded := LoadAccounts(Window(map[], [], store, InitialTitle), store.rows, order, 0, viewOk);
            && Core(loaded) && loaded.tabs.Keys == store.rows.Keys && loaded.store.rows.Keys == store.rows.Keys
            && (forall id :: id in loaded.tabs ==> loaded.tabs[id].tab.isLocked == store.rows[id].passwordHash.Some?)
  {
    ListingLoadable(store, order);
    LoadCore(Window(map[], [], store, InitialTitle), store.rows, order, 0, viewOk);
    LoadLocks(Window(map[], [], store, InitialTitle), store.rows, order, 0, viewOk);
    LoadedKeys(store, order, viewOk);
  }

  /** Loading a listing of all rows into the empty window opens a tab for every row and no other. */
  lemma LoadedKeys(store: DB.Store, order: seq<int>, viewOk: nat -> bool)
    requires forall i :: 0 <= i < |order| ==> order[i] in store.rows
    requires forall x :: x in order <==> x in store.rows
    ensures LoadAccounts(Window(map[], [], store, InitialTitle), store.rows, order, 0, viewOk).tabs.Keys == store.rows.Keys
    ensures LoadAccounts(Window(map[], [], store, InitialTitle), store.rows, order, 0, viewOk).store.rows.Keys == store.rows.Keys
  {
    var empty := Window(map[], [], store, InitialTitle);
    LoadKeys(empty, store.rows, order, 0, viewOk);
    var r := LoadAccounts(empty, store.rows, order, 0, viewOk);
    assert forall x :: x in r.tabs <==> x in order by {
      assert forall x :: x !in empty.tabs;
    }
    SameKeys(r.tabs, store.rows);
  }

  /** Two maps with the same members have the same key set. */
  lemma SameKeys<V, W>(a: map<int, V>, b: map<int, W>)
    requires forall x :: x in a <==> x in b
    ensures a.Keys == b.Keys
  {
    assert forall x :: x in a.Keys <==> x in b.Keys;
  }

  /** With the loaded tabs in place, setting the title and checking for the Welcome page gives a consistent window. */
  lemma FinishWF(loaded: Window, order: seq<int>)
    requires Core(loaded) && loaded.tabs.Keys == loaded.store.rows.Keys && Pages(loaded.slots) == AccountPages(order)
    requires |order| == 0 <==> |loaded.tabs| == 0
    ensures var w := ShowWelcomeIfEmpty(loaded.(title := WindowTitle(|loaded.tabs|)));
            && WF(w) && w.tabs == loaded.tabs
            && (|order| > 0 ==> Pages(w.slots) == AccountPages(order))
            && (|order| == 0 ==> Pages(w.slots) == [WelcomePage])
  {
    var titled := loaded.(title := WindowTitle(|loaded.tabs|));
    assert forall j :: 0 <= j < |titled.slots| ==> titled.slots[j].page == Pages(titled.slots)[j];
    ShowWelcomeCore(titled);
    if |order| == 0 {
      assert ShowWelcomeIfEmpty(titled).slots == [Slot(WelcomePage, WelcomeTitle)];
    }
  }

  /** The opened window is consistent and shows the listing's tabs in order, or the Welcome page alone. */
  lemma OpenedWF(store: DB.Store, order: seq<int>, viewOk: nat -> bool)
    requires DB.Valid(store) && multiset(order) == multiset(store.rows.Keys)
    ensures forall i :: 0 <= i < |order| ==> order[i] in store.rows
    ensures var w := Opened(store, order, viewOk);
            && WF(w) && w.tabs.Keys == store.rows.Keys
            && (|order| > 0 ==> Pages(w.slots) == AccountPages(order))
            && (|order| == 0 ==> Pages(w.slots) == [WelcomePage])
            && (forall id :: id in w.tabs ==> w.tabs[id].tab.isLocked == store.rows[id].passwordHash.Some?)
  {
    LoadedCore(store, order, viewOk);
    LoadPages(Window(map[], [], store, InitialTitle), store.rows, order, 0, viewOk);
    var loaded := LoadAccounts(Window(map[], [], store, InitialTitle), store.rows, order, 0, viewOk);
    ListingCount(order, store.rows.Keys);
    assert |loaded.tabs| == |loaded.tabs.Keys|;
    FinishWF(loaded, order);
  }

  /** A listing with the same elements as a set, counted with multiplicity, is as long as the set is large. */
  lemma ListingCount(ids: seq<int>, keys: set<int>)
    requires multiset(ids) == multiset(keys)
    ensures |ids| == |keys|
  {
    assert |multiset(ids)| == |ids|;
    assert |multiset(keys)| == |keys|;
  }

  /**
    Opening the window: one tab per saved account, most recently active first, each
    locked exactly when its account has a password, or the Welcome page alone.
   */
  method Startup(store: DB.Store, viewOk: nat -> bool) returns (w: Window, order: seq<int>)
    requires DB.Valid(store)
    ensures WF(w)
    ensures w.tabs.Keys == store.rows.Keys
    ensures DB.ByRecency(store.rows, order) && multiset(order) == multiset(store.rows.Keys)
    ensures |order| > 0 ==> Pages(w.slots) == AccountPages(order)
    ensures |order| == 0 ==> Pages(w.slots) == [WelcomePage]
    ensures forall id :: id in w.tabs ==> id in store.rows && w.tabs[id].tab.isLocked == store.rows[id].passwordHash.Some?
  {
    order := DB.GetAllAccounts(store);
    OpenedWF(store, order, viewOk);
    w := Opened(store, order, viewOk);
  }
}
