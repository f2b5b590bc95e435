/**
  The main window's bookkeeping (gui/main_window.py): the `tabs` map from account id
  to name, tab state and stored position, and the tab widget as a sequence of slots,
  each holding either an account's page or the Welcome page, with its title.
  Dialog answers are inputs; the database is the `Store` of module AccountStore.
 */
module TabRegistry {
  import opened Wrappers
  import DB = AccountStore
  import opened SessionTab
  import opened Labels

  /** At most this many accounts can be open at once. */
  const MaxAccounts: nat := 8
  const WelcomeTitle: string := "Welcome"
  /** The window title set in the constructor, before any account is loaded. */
  const InitialTitle: string := "WhatsApp Manager - Multi Account"

  /** The widget a tab-widget slot holds. */
  datatype Page = WelcomePage | AccountPage(account: int)

  /** One tab of the tab widget: its page and its title text. */
  datatype Slot = Slot(page: Page, title: string)

  /** A `tabs` entry: the name, the tab widget's state and the stored index. */
  datatype Entry = Entry(name: string, tab: Tab, index: int)

  datatype Window = Window(tabs: map<int, Entry>, slots: seq<Slot>, store: DB.Store, title: string)

  // ---------------------------------------------------------------------------
  // Tab widget primitives
  // ---------------------------------------------------------------------------

  /** `indexOf`: the first slot holding the page, or -1. */
  function IndexOf(slots: seq<Slot>, p: Page): (r: int)
    ensures -1 <= r < |slots|
    ensures r >= 0 ==> slots[r].page == p && forall j :: 0 <= j < r ==> slots[j].page != p
    ensures r < 0 ==> forall j :: 0 <= j < |slots| ==> slots[j].page != p
    decreases |slots|
  {
    if |slots| == 0 then -1
    else if slots[0].page == p then 0
    else
      var r := IndexOf(slots[1..], p);
      if r < 0 then -1 else r + 1
  }

  /** `tabText`: the title at a position, or the empty string out of range. */
  function TabText(slots: seq<Slot>, i: int): string {
    if 0 <= i < |slots| then slots[i].title else ""
  }

  /** `setTabText`: retitles one slot; out of range it does nothing. */
  function SetTabText(slots: seq<Slot>, i: int, title: string): (r: seq<Slot>)
    ensures |r| == |slots|
    ensures forall k :: 0 <= k < |r| ==> r[k].page == slots[k].page
    ensures forall k :: 0 <= k < |r| && k != i ==> r[k] == slots[k]
    ensures 0 <= i < |r| ==> r[i].title == title
  {
    if 0 <= i < |slots| then slots[i := slots[i].(title := title)] else slots
  }

  /** `removeTab`: later slots shift down by one; out of range it does nothing. */
  function RemoveAt(slots: seq<Slot>, i: int): (r: seq<Slot>)
    ensures 0 <= i < |slots| ==> |r| == |slots| - 1
    ensures 0 <= i < |slots| ==> forall k :: 0 <= k < |r| ==> r[k] == slots[if k < i then k else k + 1]
    ensures !(0 <= i < |slots|) ==> r == slots
  {
    if 0 <= i < |slots| then slots[..i] + slots[i + 1..] else slots
  }

  /** Where the slot now at `k` was before a drag from `from` to `to`. */
  function MoveSource(from: int, to: int, k: int): int {
    if from < to then (if k < from || k > to then k else if k == to then from else k + 1)
    else if to < from then (if k < to || k > from then k else if k == to then from else k - 1)
    else k
  }

  /** Where the slot that was at `j` is after a drag from `from` to `to`. */
  function MoveTarget(from: int, to: int, j: int): int {
    if j == from then to
    else if from < to then (if j < from || j > to then j else j - 1)
    else if to < from then (if j < to || j > from then j else j + 1)
    else j
  }

  /** A drag in the tab bar: the slot at `from` ends up at `to`, the ones between shift by one. */
  function MoveSlot(slots: seq<Slot>, from: int, to: int): (r: seq<Slot>)
    requires 0 <= from < |slots| && 0 <= to < |slots|
    ensures |r| == |slots|
    ensures r[to] == slots[from]
    ensures forall k :: 0 <= k < |r| ==> 0 <= MoveSource(from, to, k) < |slots| && r[k] == slots[MoveSource(from, to, k)]
  {
    var rest := slots[..from] + slots[from + 1..];
    rest[..to] + [slots[from]] + rest[to..]
  }

  // ---------------------------------------------------------------------------
  // Invariants
  // ---------------------------------------------------------------------------

  /** No page appears twice in the tab widget. */
  ghost predicate Distinct(slots: seq<Slot>) {
    forall i, j :: 0 <= i < j < |slots| ==> slots[i].page != slots[j].page
  }

  /** Every account page in the tab widget belongs to an entry. */
  ghost predicate NoDangling(w: Window) {
    forall i :: 0 <= i < |w.slots| && w.slots[i].page.AccountPage? ==> w.slots[i].page.account in w.tabs
  }

  /** Every entry's page is somewhere in the tab widget. */
  ghost predicate AllPresent(w: Window) {
    forall id :: id in w.tabs ==> Present(w.slots, AccountPage(id))
  }

  /** Every entry's stored index points at its own page. */
  ghost predicate Synced(w: Window) {
    forall id :: id in w.tabs ==> 0 <= w.tabs[id].index < |w.slots| && w.slots[w.tabs[id].index].page == AccountPage(id)
  }

  /** An entry agrees with its row and its tab shows what its lock flag says. */
  ghost predicate EntryAgrees(id: int, e: Entry, row: DB.Row) {
    && e.tab.id == id && e.tab.name == e.name && e.name == row.name
    && e.tab.hasPassword == row.passwordHash.Some? && e.tab.hasDb && Coherent(e.tab)
  }

  /** The store is well formed and every entry has an agreeing row. */
  ghost predicate Agrees(w: Window) {
    && DB.Valid(w.store)
    && forall id :: id in w.tabs ==> id in w.store.rows && EntryAgrees(id, w.tabs[id], w.store.rows[id])
  }

  /** Every account slot carries its entry's tab title. */
  ghost predicate Labelled(w: Window) {
    forall i :: 0 <= i < |w.slots| && w.slots[i].page.AccountPage? && w.slots[i].page.account in w.tabs ==>
      w.slots[i].title == TabTitle(w.tabs[w.slots[i].page.account].name, w.tabs[w.slots[i].page.account].tab.hasPassword)
  }

  /** Everything but the stored indices is consistent. */
  ghost predicate Placed(w: Window) {
    Distinct(w.slots) && NoDangling(w) && AllPresent(w) && Agrees(w) && Labelled(w)
  }

  /** Consistent, stored indices included. */
  ghost predicate Core(w: Window) {
    Placed(w) && Synced(w)
  }

  /**
    The window between user actions: consistent, one tab per row, the Welcome page
    exactly when no account is open, and the window title telling the count.
   */
  ghost predicate WF(w: Window) {
    && Core(w)
    && w.store.rows.Keys == w.tabs.Keys
    && (Present(w.slots, WelcomePage) <==> |w.tabs| == 0)
    && w.title == WindowTitle(|w.tabs|)
  }

  // ---------------------------------------------------------------------------
  // Registry operations
  // ---------------------------------------------------------------------------

  /** An account page is somewhere in the tab widget. */
  predicate Present(slots: seq<Slot>, p: Page) {
    IndexOf(slots, p) >= 0
  }

  /**
    `update_tab_indices`: each entry whose page is in the tab widget gets that
    page's position as its index; an entry whose page is missing keeps its index.
   */
  function UpdateTabIndices(w: Window): (r: Window)
    ensures r.slots == w.slots && r.store == w.store && r.title == w.title
    ensures r.tabs.Keys == w.tabs.Keys
    ensures forall id :: id in w.tabs ==> r.tabs[id] == w.tabs[id].(index := r.tabs[id].index)
    ensures forall id :: id in w.tabs && Present(w.slots, AccountPage(id)) ==>
              0 <= r.tabs[id].index < |r.slots| && r.slots[r.tabs[id].index].page == AccountPage(id)
    ensures forall id :: id in w.tabs && !Present(w.slots, AccountPage(id)) ==> r.tabs[id] == w.tabs[id]
  {
    var tabs := map id | id in w.tabs ::
      var i := IndexOf(w.slots, AccountPage(id));
      if i >= 0 then w.tabs[id].(index := i) else w.tabs[id];
    w.(tabs := tabs)
  }

  /** `on_tab_moved`: the tab bar has moved a slot; the stored indices are re-synchronised. */
  function OnTabMoved(w: Window, from: int, to: int): (r: Window)
    requires 0 <= from < |w.slots| && 0 <= to < |w.slots|
    ensures r.slots == MoveSlot(w.slots, from, to) && r.store == w.store && r.tabs.Keys == w.tabs.Keys
  {
    UpdateTabIndices(w.(slots := MoveSlot(w.slots, from, to)))
  }

  /**
    `show_welcome_if_empty`: with no accounts the Welcome page is appended unless
    present; with accounts it is removed if present. Stored indices are NOT re-synchronised.
   */
  function ShowWelcomeIfEmpty(w: Window): (r: Window)
    ensures r.tabs == w.tabs && r.store == w.store && r.title == w.title
    ensures |w.tabs| == 0 ==> Present(r.slots, WelcomePage)
    ensures |w.tabs| > 0 && Distinct(w.slots) ==> !Present(r.slots, WelcomePage)
  {
    var i := IndexOf(w.slots, WelcomePage);
    if |w.tabs| == 0 then
      if i == -1 then
        var r := w.(slots := w.slots + [Slot(WelcomePage, WelcomeTitle)]);
        assert r.slots[|w.slots|].page == WelcomePage;
        r
      else w
    else if i != -1 then
      RemoveOnlyCopy(w.slots, i);
      w.(slots := RemoveAt(w.slots, i))
    else w
  }

  /** Removing a slot of a widget without duplicates removes its page entirely. */
  lemma RemoveOnlyCopy(slots: seq<Slot>, i: int)
    requires 0 <= i < |slots|
    ensures Distinct(slots) ==> !Present(RemoveAt(slots, i), slots[i].page)
  {
    var r := RemoveAt(slots, i);
    if Distinct(slots) {
      assert forall k :: 0 <= k < |r| ==> r[k].page != slots[i].page;
    }
  }

  /**
    `create_account_tab`: builds the tab (locked when a password hash exists), appends
    it with its title, registers it at the position it was added at, updates the
    window title, and re-synchronises the stored indices.
   */
  function CreateAccountTab(w: Window, id: int, name: string, sessionDir: string, zoom: real,
                            passwordHash: Option<string>, viewOk: bool): (r: Window)
    ensures r.tabs.Keys == w.tabs.Keys + {id}
    ensures r.slots == w.slots + [Slot(AccountPage(id), TabTitle(name, passwordHash.Some?))]
    ensures id in r.tabs && r.tabs[id].name == name && r.tabs[id].tab.isLocked == passwordHash.Some?
    ensures r.title == WindowTitle(|r.tabs|)
  {
    var st := NewTab(id, name, sessionDir, zoom, passwordHash.Some?, true, viewOk, w.store);
    var slots := w.slots + [Slot(AccountPage(id), TabTitle(name, passwordHash.Some?))];
    var tabs := w.tabs[id := Entry(name, st.tab, |w.slots|)];
    var r := UpdateTabIndices(Window(tabs, slots, st.store, WindowTitle(|tabs|)));
    assert |r.tabs| == |r.tabs.Keys| == |tabs.Keys| == |tabs|;
    r
  }

  /**
    What `create_account_tab` leaves alone: the other entries (but for their indices)
    and every row but for its zoom level. The new tab
    belongs to its account and has a password exactly when the hash exists.
   */
  lemma CreateAccountTabKeeps(w: Window, id: int, name: string, sessionDir: string, zoom: real,
                              passwordHash: Option<string>, viewOk: bool)
    ensures var r := CreateAccountTab(w, id, name, sessionDir, zoom, passwordHash, viewOk);
            && (forall k :: k in w.tabs && k != id ==> k in r.tabs && r.tabs[k] == w.tabs[k].(index := r.tabs[k].index))
            && id in r.tabs && r.tabs[id].tab.hasPassword == passwordHash.Some? && r.tabs[id].tab.id == id
            && r.tabs[id].tab.name == name
            && DB.ZoomOnly(w.store, r.store)
  {
    var st := NewTab(id, name, sessionDir, zoom, passwordHash.Some?, true, viewOk, w.store);
    ApplyZoomOnly(st.tab, w.store);
  }

  /** An account name dialog that was accepted with a non-empty name. */
  predicate Accepted(prompt: Prompt) {
    prompt.ok && prompt.text != ""
  }

  /**
    `add_account` as written: refused at capacity; otherwise, on an accepted name,
    show_welcome_if_empty, insert the row, create the tab, show_welcome_if_empty again.
    The second call can remove the Welcome page in front of the new tab without
    re-synchronising the indices.
   */
  function AddAccountAsWritten(w: Window, prompt: Prompt, appDir: string, now: int, viewOk: bool): (r: Window)
    ensures |w.tabs| >= MaxAccounts ==> r == w
    ensures !Accepted(prompt) ==> r == w
    ensures |w.tabs| <= MaxAccounts ==> |r.tabs| <= MaxAccounts
  {
    if |w.tabs| >= MaxAccounts || !Accepted(prompt) then w
    else
      var w1 := ShowWelcomeIfEmpty(w);
      var added := DB.AddAccount(w1.store, appDir, prompt.text, now);
      var w2 := CreateAccountTab(w1.(store := added.store), added.id, prompt.text, added.sessionDir,
                                 DB.DefaultZoom, None, viewOk);
      assert |w2.tabs| <= |w.tabs| + 1 by {
        assert w2.tabs.Keys == w.tabs.Keys + {added.id};
      }
      ShowWelcomeIfEmpty(w2)
  }

  /** Whether an add happened depends only on the entries and the rows before and after. */
  lemma AddedFrame(w: Window, r: Window, w': Window, r': Window, id: int, name: string)
    requires Added(w, r, id, name)
    requires w'.tabs == w.tabs && w'.store == w.store && r'.tabs == r.tabs && r'.store == r.store
    ensures Added(w', r', id, name)
  {
  }

  /**
    What an accepted `add_account` under capacity achieves: one new account `id`,
    with a row and an entry of that name, no password, and an unlocked tab.
   */
  ghost predicate Added(w: Window, r: Window, id: int, name: string) {
    && r.tabs.Keys == w.tabs.Keys + {id} && r.store.rows.Keys == w.store.rows.Keys + {id}
    && id in r.tabs && r.tabs[id].name == name && !r.tabs[id].tab.isLocked
    && id in r.store.rows && r.store.rows[id].name == name && r.store.rows[id].passwordHash == None
  }

  /** Inserting the row and creating its tab adds exactly that account, unlocked and without a password. */
  lemma CreateAccountTabAdds(w: Window, added: DB.Added, name: string, viewOk: bool)
    requires added.store.rows.Keys == w.store.rows.Keys + {added.id}
    requires added.id in added.store.rows
    requires added.store.rows[added.id].name == name && added.store.rows[added.id].passwordHash == None
    ensures Added(w, CreateAccountTab(w.(store := added.store), added.id, name, added.sessionDir, DB.DefaultZoom, None, viewOk),
                  added.id, name)
  {
    var w' := w.(store := added.store);
    var r := CreateAccountTab(w', added.id, name, added.sessionDir, DB.DefaultZoom, None, viewOk);
    CreateAccountTabKeeps(w', added.id, name, added.sessionDir, DB.DefaultZoom, None, viewOk);
    assert r.store.rows.Keys == added.store.rows.Keys;
    assert r.store.rows[added.id] == added.store.rows[added.id].(zoom := r.store.rows[added.id].zoom);
  }

  /** Re-synchronising the indices keeps what an add achieved, and points the new entry at its page. */
  lemma AddedResync(w: Window, r: Window, id: int, name: string)
    requires Added(w, r, id, name)
    ensures Added(w, UpdateTabIndices(r), id, name)
    ensures Present(r.slots, AccountPage(id)) ==>
              var u := UpdateTabIndices(r);
              0 <= u.tabs[id].index < |u.slots| && u.slots[u.tabs[id].index].page == AccountPage(id)
  {
  }

  /** `add_account` with the indices re-synchronised after the Welcome page is removed. */
  function AddAccount(w: Window, prompt: Prompt, appDir: string, now: int, viewOk: bool): (r: Window)
    ensures |w.tabs| >= MaxAccounts ==> r == w
    ensures |w.tabs| <= MaxAccounts ==> |r.tabs| <= MaxAccounts
    ensures !Accepted(prompt) ==> r == w
    ensures var a := AddAccountAsWritten(w, prompt, appDir, now, viewOk);
            && r.slots == a.slots && r.store == a.store && r.title == a.title && r.tabs.Keys == a.tabs.Keys
            && forall k :: k in a.tabs ==> r.tabs[k] == a.tabs[k].(index := r.tabs[k].index)
  {
    var r := AddAccountAsWritten(w, prompt, appDir, now, viewOk);
    if |w.tabs| >= MaxAccounts || !Accepted(prompt) then r else UpdateTabIndices(r)
  }

  /**
    `add_account` including its exception handler, where `mkdirOk` says whether the
    session directory could be created (`mkdir` without parents fails, for instance,
    for a name containing '/'). On failure `db.add_account` raises before the row is
    inserted: only the first show_welcome_if_empty has run, and the handler reports
    the error, so no row and no tab are added.
   */
  function AddAccountHandled(w: Window, prompt: Prompt, appDir: string, now: int, viewOk: bool, mkdirOk: bool): (r: Window)
    ensures mkdirOk ==> r == AddAccountAsWritten(w, prompt, appDir, now, viewOk)
    ensures |w.tabs| >= MaxAccounts || !Accepted(prompt) ==> r == w
    ensures !mkdirOk ==> r.tabs == w.tabs && r.store == w.store && r.title == w.title
  {
    if mkdirOk || |w.tabs| >= MaxAccounts || !Accepted(prompt) then AddAccountAsWritten(w, prompt, appDir, now, viewOk)
    else ShowWelcomeIfEmpty(w)
  }

  /** The result of closing a tab: the window, what deleting the session directory did, and the released tab if any. */
  datatype Closed = Closed(window: Window, teardown: DB.Teardown, released: Option<Tab>)

  /**
    `close_tab`: nothing happens for an index out of range, for the Welcome page,
    for a page no entry owns, or when the user declines. Otherwise the entry is
    dropped first, then the row is deleted (with its directory retries), then the
    slot is removed and the tab's web view is released; the window title and
    indices are refreshed and the Welcome page shown if no account is left.
   */
  function CloseTab(w: Window, index: int, confirmed: bool, rmtree: nat -> DB.RmOutcome): (r: Closed)
    ensures !(0 <= index < |w.slots|) ==> r.window == w
    ensures 0 <= index < |w.slots| && w.slots[index].page == WelcomePage ==> r.window == w
    ensures !confirmed ==> r.window == w
    ensures 0 <= index < |w.slots| && w.slots[index].page.AccountPage? && w.slots[index].page.account !in w.tabs ==> r.window == w
    ensures r.released.Some? ==> r.released.value.webView == Absent
    ensures r.released.Some? <==>
              && 0 <= index < |w.slots| && w.slots[index].page.AccountPage?
              && w.slots[index].page.account in w.tabs && confirmed
    ensures r.released.Some? ==> var id := w.slots[index].page.account;
              id in w.tabs && r.window.tabs.Keys == w.tabs.Keys - {id} && r.window.store.rows == w.store.rows - {id}
    ensures r.released.Some? ==> r.teardown == DB.Delete(w.store, w.slots[index].page.account, rmtree).teardown
    ensures r.released.None? ==> r.teardown.attempts == 0
  {
    if !(0 <= index < |w.slots|) || w.slots[index].page == WelcomePage then Closed(w, DB.Teardown(0, false), None)
    else
      var id := w.slots[index].page.account;
      if id !in w.tabs || !confirmed then Closed(w, DB.Teardown(0, false), None)
      else
        var released := w.tabs[id].tab;
        var dropped := w.(tabs := w.tabs - {id});
        var deleted := DB.Delete(dropped.store, id, rmtree);
        var removed := dropped.(store := deleted.store, slots := RemoveAt(dropped.slots, index));
        var titled := removed.(title := WindowTitle(|removed.tabs|));
        Closed(ShowWelcomeIfEmpty(UpdateTabIndices(titled)), deleted.teardown, Some(Cleanup(released)))
  }

  /**
    `rename_tab`: on an accepted, changed name the row, the entry and the tab are
    renamed, and the slot at the STORED index is retitled, keeping its lock marker.
   */
  function RenameTab(w: Window, id: int, prompt: Prompt): (r: Window)
    ensures id !in w.tabs || !Accepted(prompt) || prompt.text == w.tabs[id].name ==> r == w
    ensures r.tabs.Keys == w.tabs.Keys && r.store.rows.Keys == w.store.rows.Keys
    ensures id in w.tabs && Accepted(prompt) ==> r.tabs[id].name == prompt.text
    ensures id in w.tabs && Accepted(prompt) && prompt.text != w.tabs[id].name && id in w.store.rows ==>
              r.store.rows[id].name == prompt.text
    ensures forall k :: k in w.tabs && k != id ==> r.tabs[k] == w.tabs[k]
  {
    if id !in w.tabs || !Accepted(prompt) || prompt.text == w.tabs[id].name then w
    else
      var e := w.tabs[id];
      var newName := prompt.text;
      var title := RenamedTitle(TabText(w.slots, e.index), newName);
      w.(store := DB.UpdateAccountName(w.store, id, newName),
         tabs := w.tabs[id := e.(name := newName, tab := e.tab.(name := newName))],
         slots := SetTabText(w.slots, e.index, title))
  }

  /**
    `remove_tab_password`, once confirmed: the hash becomes NULL, the tab is unlocked
    (lock screen hidden, web view shown), and the leading lock marker is taken off
    the title at the stored index.
   */
  function RemoveTabPassword(w: Window, id: int, confirmed: bool, hash: DB.Hasher): (r: Window)
    ensures id !in w.tabs || !confirmed ==> r == w
    ensures r.tabs.Keys == w.tabs.Keys && r.store.rows.Keys == w.store.rows.Keys
    ensures id in w.tabs && confirmed ==>
              !DB.HasPassword(r.store, id) && !r.tabs[id].tab.hasPassword && !r.tabs[id].tab.isLocked
    ensures forall k :: k in w.tabs && k != id ==> r.tabs[k] == w.tabs[k]
  {
    if id !in w.tabs || !confirmed then w
    else
      var e := w.tabs[id];
      var t := e.tab;
      var t' := t.(hasPassword := false, isLocked := false,
                   lockScreen := if t.lockScreen == Absent then Absent else Hidden,
                   webView := if t.webView == Absent then Absent else Shown);
      w.(store := DB.SetPassword(w.store, id, None, hash),
         tabs := w.tabs[id := e.(tab := t')],
         slots := SetTabText(w.slots, e.index, UnlockedTitle(TabText(w.slots, e.index))))
  }

  /**
    `remove_tab_password` as written: the same row and entry changes, but when the
    title at the stored index starts with the lock prefix, EVERY occurrence of the
    prefix is deleted from it, including one inside the account name.
   */
  function RemoveTabPasswordAsWritten(w: Window, id: int, confirmed: bool, hash: DB.Hasher): (r: Window)
    ensures id !in w.tabs || !confirmed ==> r == w
    ensures var c := RemoveTabPassword(w, id, confirmed, hash);
            r.tabs == c.tabs && r.store == c.store && r.title == c.title
    ensures id in w.tabs && confirmed ==>
              r.slots == SetTabText(w.slots, w.tabs[id].index, UnlockedTitleAsWritten(TabText(w.slots, w.tabs[id].index)))
  {
    var c := RemoveTabPassword(w, id, confirmed, hash);
    if id !in w.tabs || !confirmed then c
    else
      var i := w.tabs[id].index;
      c.(slots := SetTabText(w.slots, i, UnlockedTitleAsWritten(TabText(w.slots, i))))
  }

  /** The password dialogs of `set_tab_password`: current password, new password, confirmation, and the removal question. */
  datatype PasswordDialogs = PasswordDialogs(current: Prompt, chosen: Prompt, confirm: Prompt, removeConfirmed: bool)

  /**
    `set_tab_password`: an existing password must be re-entered correctly; an empty
    new password means removal; a non-empty one must be confirmed identically, is
    stored hashed, and locks the tab and marks its title.
   */
  function SetTabPassword(w: Window, id: int, d: PasswordDialogs, hash: DB.Hasher): (r: Window)
    ensures id !in w.tabs ==> r == w
    ensures DB.HasPassword(w.store, id) && !(d.current.ok && DB.VerifyPassword(w.store, id, d.current.text, hash)) ==> r == w
    ensures d.chosen.text != "" && !(d.confirm.ok && d.confirm.text == d.chosen.text) ==> r == w
    ensures !d.chosen.ok ==> r == w
    ensures RemovalChosen(w, id, d, hash) ==> r == RemoveTabPassword(w, id, d.removeConfirmed, hash)
    ensures r.tabs.Keys == w.tabs.Keys && r.store.rows.Keys == w.store.rows.Keys
    ensures forall k :: k in w.tabs && k != id ==> r.tabs[k] == w.tabs[k]
  {
    if id !in w.tabs then w
    else if DB.HasPassword(w.store, id) && !(d.current.ok && DB.VerifyPassword(w.store, id, d.current.text, hash)) then w
    else if !d.chosen.ok then w
    else if d.chosen.text == "" then RemoveTabPassword(w, id, d.removeConfirmed, hash)
    else if !d.confirm.ok || d.confirm.text != d.chosen.text then w
    else
      var e := w.tabs[id];
      var t := LockTab(e.tab.(hasPassword := true, isLocked := true));
      w.(store := DB.SetPassword(w.store, id, Some(d.chosen.text), hash),
         tabs := w.tabs[id := e.(tab := t)],
         slots := SetTabText(w.slots, e.index, LockedTitle(TabText(w.slots, e.index))))
  }

  /** The dialog answers under which `set_tab_password` hands over to `remove_tab_password`. */
  predicate RemovalChosen(w: Window, id: int, d: PasswordDialogs, hash: DB.Hasher) {
    && id in w.tabs
    && !(DB.HasPassword(w.store, id) && !(d.current.ok && DB.VerifyPassword(w.store, id, d.current.text, hash)))
    && d.chosen.ok && d.chosen.text == ""
  }

  /** `set_tab_password` as written: its removal path goes through the as-written `remove_tab_password`. */
  function SetTabPasswordAsWritten(w: Window, id: int, d: PasswordDialogs, hash: DB.Hasher): (r: Window)
    ensures RemovalChosen(w, id, d, hash) ==> r == RemoveTabPasswordAsWritten(w, id, d.removeConfirmed, hash)
    ensures !RemovalChosen(w, id, d, hash) ==> r == SetTabPassword(w, id, d, hash)
    ensures id !in w.tabs ==> r == w
    ensures r.tabs.Keys == w.tabs.Keys && r.store.rows.Keys == w.store.rows.Keys
  {
    if RemovalChosen(w, id, d, hash) then RemoveTabPasswordAsWritten(w, id, d.removeConfirmed, hash)
    else SetTabPassword(w, id, d, hash)
  }

  /** The zoom level a stored row opens with: a zero (falsy) value falls back to 100%. */
  function LoadZoom(z: real): (r: real)
    ensures r != 0.0
    ensures z != 0.0 ==> r == z
  {
    if z != 0.0 then z else DB.DefaultZoom
  }

  /** The pages of the tab widget, in order. */
  function Pages(slots: seq<Slot>): (r: seq<Page>)
    ensures |r| == |slots| && forall k :: 0 <= k < |r| ==> r[k] == slots[k].page
  {
    seq(|slots|, k requires 0 <= k < |slots| => slots[k].page)
  }

  /** The account pages of the listed ids, in order. */
  function AccountPages(ids: seq<int>): (r: seq<Page>)
    ensures |r| == |ids| && forall k :: 0 <= k < |r| ==> r[k] == AccountPage(ids[k])
  {
    seq(|ids|, k requires 0 <= k < |ids| => AccountPage(ids[k]))
  }

  /** Appending one account slot appends its page. */
  lemma PagesAppend(before: seq<Slot>, after: seq<Slot>, p: Page)
    requires |after| == |before| + 1 && after[..|before|] == before && after[|before|].page == p
    ensures Pages(after) == Pages(before) + [p]
  {
    forall k | 0 <= k < |before| ensures after[k] == before[k] {
      assert after[..|before|][k] == after[k];
    }
  }

  lemma ConcatAssoc<T>(a: seq<T>, b: seq<T>, c: seq<T>)
    ensures (a + b) + c == a + (b + c)
  {
  }

  /** The account pages of a non-empty listing: the first id's, then the rest's. */
  lemma AccountPagesCons(ids: seq<int>)
    requires |ids| > 0
    ensures AccountPages(ids) == [AccountPage(ids[0])] + AccountPages(ids[1..])
  {
  }

  /** One iteration of `load_saved_accounts`: the row's tab, opening at its stored zoom level. */
  function LoadOne(w: Window, id: int, row: DB.Row, viewOk: bool): (r: Window)
    ensures r.tabs.Keys == w.tabs.Keys + {id}
    ensures |r.slots| == |w.slots| + 1 && r.slots[..|w.slots|] == w.slots && r.slots[|w.slots|].page == AccountPage(id)
    ensures r.store.rows.Keys == w.store.rows.Keys
  {
    var r := CreateAccountTab(w, id, row.name, row.sessionDir, LoadZoom(row.zoom), row.passwordHash, viewOk);
    assert r.slots[..|w.slots|] == w.slots;
    r
  }

  /**
    `load_saved_accounts`, from the listed ids on: one tab per row, in listing order;
    `viewOk(k)` says whether the k-th tab's web view can be created.
   */
  function LoadAccounts(w: Window, rows: map<int, DB.Row>, ids: seq<int>, k: nat, viewOk: nat -> bool): (r: Window)
    requires forall i :: 0 <= i < |ids| ==> ids[i] in rows
    ensures |r.slots| == |w.slots| + |ids|
    decreases |ids|
  {
    if |ids| == 0 then w
    else LoadAccounts(LoadOne(w, ids[0], rows[ids[0]], viewOk(k)), rows, ids[1..], k + 1, viewOk)
  }

  /** Loading registers exactly the listed ids on top of the existing entries, and adds no row. */
  lemma {:induction false} LoadKeys(w: Window, rows: map<int, DB.Row>, ids: seq<int>, k: nat, viewOk: nat -> bool)
    requires forall i :: 0 <= i < |ids| ==> ids[i] in rows
    ensures forall x :: x in LoadAccounts(w, rows, ids, k, viewOk).tabs <==> x in w.tabs || x in ids
    ensures LoadAccounts(w, rows, ids, k, viewOk).store.rows.Keys == w.store.rows.Keys
    decreases |ids|
  {
    if |ids| > 0 {
      var w1 := LoadOne(w, ids[0], rows[ids[0]], viewOk(k));
      LoadKeys(w1, rows, ids[1..], k + 1, viewOk);
      assert forall x :: x in ids <==> x == ids[0] || x in ids[1..];
    }
  }

  /** Loading appends one slot per listed id, holding that id's page, in listing order. */
  lemma {:induction false} LoadPages(w: Window, rows: map<int, DB.Row>, ids: seq<int>, k: nat, viewOk: nat -> bool)
    requires forall i :: 0 <= i < |ids| ==> ids[i] in rows
    ensures Pages(LoadAccounts(w, rows, ids, k, viewOk).slots) == Pages(w.slots) + AccountPages(ids)
    decreases |ids|
  {
    if |ids| > 0 {
      var w1 := LoadOne(w, ids[0], rows[ids[0]], viewOk(k));
      LoadPages(w1, rows, ids[1..], k + 1, viewOk);
      PagesAppend(w.slots, w1.slots, AccountPage(ids[0]));
      AccountPagesCons(ids);
      ConcatAssoc(Pages(w.slots), [AccountPage(ids[0])], AccountPages(ids[1..]));
    }
  }
}
