/**
  The per-account tab (gui/whatsapp_tab.py): its lock flag, its password flag,
  whether a web view and a lock screen exist and are visible, and its zoom level.
  Creating a web view is an oracle (`viewOk`); a password dialog is a `Prompt`.
  Operations that persist the zoom level return the updated store alongside the tab.
 */
module SessionTab {
  import opened Wrappers
  import opened AccountStore

  const MinZoom: real := 0.5
  const MaxZoom: real := 3.0
  const ZoomStep: real := 0.1
  const ResetZoomLevel: real := 1.0

  /** Whether a child widget exists, and if so whether it is visible. */
  datatype View = Absent | Shown | Hidden

  /** The result of a text-input dialog: whether it was accepted, and the text typed. */
  datatype Prompt = Prompt(ok: bool, text: string)

  /** The state of one tab; `hasDb` says whether a database handle was passed in. */
  datatype Tab = Tab(
    id: int,
    name: string,
    sessionDir: string,
    zoom: real,
    hasPassword: bool,
    isLocked: bool,
    webView: View,
    lockScreen: View,
    hasDb: bool)

  /** A tab together with the store its operations write through. */
  datatype Step = Step(tab: Tab, store: Store)

  /** Zoom factor within the bounds the zoom buttons keep to. */
  predicate InZoomRange(z: real) {
    MinZoom <= z <= MaxZoom
  }

  /**
    What the user sees follows the lock flag: the lock screen is shown exactly
    when the tab is locked, and an existing web view is shown exactly when it is not.
   */
  ghost predicate Coherent(t: Tab) {
    && (t.isLocked <==> t.lockScreen == Shown)
    && (t.webView != Absent ==> (t.webView == Shown <==> !t.isLocked))
  }

  /** Tab fields other than the lock, the views and the zoom level are the same. */
  ghost predicate SameAccount(a: Tab, b: Tab) {
    a.id == b.id && a.name == b.name && a.sessionDir == b.sessionDir && a.hasPassword == b.hasPassword && a.hasDb == b.hasDb
  }

  // ---------------------------------------------------------------------------
  // Zoom
  // ---------------------------------------------------------------------------

  /** `apply_zoom`: the zoom level is saved for this account only when a web view and a database exist. */
  function ApplyZoom(t: Tab, s: Store): (r: Store)
    ensures t.webView == Absent || !t.hasDb ==> r == s
    ensures r.rows.Keys == s.rows.Keys && r.lastId == s.lastId && r.dirs == s.dirs
    ensures t.webView != Absent && t.hasDb && t.id in s.rows ==> r.rows[t.id] == s.rows[t.id].(zoom := t.zoom)
    ensures forall k :: k in s.rows && k != t.id ==> r.rows[k] == s.rows[k]
  {
    if t.webView != Absent && t.hasDb then UpdateZoomLevel(s, t.id, t.zoom) else s
  }

  /** Applying the zoom changes at most zoom levels, and keeps the store well formed. */
  lemma ApplyZoomOnly(t: Tab, s: Store)
    ensures ZoomOnly(s, ApplyZoom(t, s))
    ensures Valid(s) ==> Valid(ApplyZoom(t, s))
  {
    if t.webView != Absent && t.hasDb {
      UpdateZoomOnly(s, t.id, t.zoom);
    }
  }

  /** `zoom_in`: one step up, capped at the maximum; nothing happens without a web view. */
  function ZoomIn(t: Tab, s: Store): (r: Step)
    ensures t.webView == Absent ==> r == Step(t, s)
    ensures r.tab == t.(zoom := r.tab.zoom)
    ensures t.webView != Absent && t.zoom + ZoomStep <= MaxZoom ==> r.tab.zoom == t.zoom + ZoomStep
    ensures t.webView != Absent && t.zoom + ZoomStep > MaxZoom ==> r.tab.zoom == MaxZoom
    ensures t.webView != Absent ==> r.tab.zoom <= MaxZoom && (t.zoom <= MaxZoom ==> t.zoom <= r.tab.zoom)
    ensures InZoomRange(t.zoom) ==> InZoomRange(r.tab.zoom)
    ensures r.store == ApplyZoom(r.tab, s)
  {
    if t.webView != Absent then
      var z := if t.zoom + ZoomStep < MaxZoom then t.zoom + ZoomStep else MaxZoom;
      var t' := t.(zoom := z);
      Step(t', ApplyZoom(t', s))
    else Step(t, s)
  }

  /** `zoom_out`: one step down, floored at the minimum; nothing happens without a web view. */
  function ZoomOut(t: Tab, s: Store): (r: Step)
    ensures t.webView == Absent ==> r == Step(t, s)
    ensures r.tab == t.(zoom := r.tab.zoom)
    ensures t.webView != Absent && t.zoom - ZoomStep >= MinZoom ==> r.tab.zoom == t.zoom - ZoomStep
    ensures t.webView != Absent && t.zoom - ZoomStep < MinZoom ==> r.tab.zoom == MinZoom
    ensures t.webView != Absent ==> MinZoom <= r.tab.zoom && (MinZoom <= t.zoom ==> r.tab.zoom <= t.zoom)
    ensures InZoomRange(t.zoom) ==> InZoomRange(r.tab.zoom)
    ensures r.store == ApplyZoom(r.tab, s)
  {
    if t.webView != Absent then
      var z := if t.zoom - ZoomStep > MinZoom then t.zoom - ZoomStep else MinZoom;
      var t' := t.(zoom := z);
      Step(t', ApplyZoom(t', s))
    else Step(t, s)
  }

  /** `reset_zoom`: back to 100%; nothing happens without a web view. */
  function ResetZoom(t: Tab, s: Store): (r: Step)
    ensures t.webView == Absent ==> r == Step(t, s)
    ensures t.webView != Absent ==> r.tab == t.(zoom := ResetZoomLevel)
    ensures InZoomRange(t.zoom) ==> InZoomRange(r.tab.zoom)
    ensures r.store == ApplyZoom(r.tab, s)
  {
    if t.webView != Absent then
      var t' := t.(zoom := ResetZoomLevel);
      Step(t', ApplyZoom(t', s))
    else Step(t, s)
  }

  /** Zooming out undoes zooming in whenever the step up was not capped. */
  lemma ZoomOutUndoesZoomIn(t: Tab, s: Store)
    requires t.webView != Absent
    requires MinZoom <= t.zoom && t.zoom + ZoomStep <= MaxZoom
    ensures ZoomOut(ZoomIn(t, s).tab, ZoomIn(t, s).store).tab == t
  {
  }

  // ---------------------------------------------------------------------------
  // Construction, locking and unlocking
  // ---------------------------------------------------------------------------

  /**
    `__init__` and `setup_ui`: a tab with a password starts locked behind the lock
    screen and creates no web view; one without tries to create its web view and,
    when that succeeds, applies (and so saves) its zoom level.
   */
  function NewTab(id: int, name: string, sessionDir: string, zoom: real, hasPassword: bool, hasDb: bool,
                  viewOk: bool, s: Store): (r: Step)
    ensures r.tab.id == id && r.tab.name == name && r.tab.sessionDir == sessionDir && r.tab.zoom == zoom
    ensures r.tab.hasPassword == hasPassword && r.tab.hasDb == hasDb
    ensures r.tab.isLocked == hasPassword
    ensures Coherent(r.tab)
    ensures hasPassword ==> r.tab.webView == Absent && r.tab.lockScreen == Shown && r.store == s
    ensures !hasPassword ==> (r.tab.webView != Absent <==> viewOk)
    ensures r.store == ApplyZoom(r.tab, s)
  {
    var t := Tab(id, name, sessionDir, zoom, hasPassword, hasPassword, Absent, Absent, hasDb);
    if hasPassword then Step(t.(lockScreen := Shown), s)
    else if viewOk then
      var t' := t.(webView := Shown);
      Step(t', ApplyZoom(t', s))
    else Step(t, s)
  }

  /** `lock_tab`: locked, an existing web view hidden but kept, the lock screen shown. */
  function LockTab(t: Tab): (r: Tab)
    ensures r.isLocked && r.lockScreen == Shown
    ensures Coherent(r)
    ensures (r.webView == Absent) == (t.webView == Absent)
    ensures SameAccount(r, t) && r.zoom == t.zoom
  {
    t.(isLocked := true,
       webView := if t.webView == Absent then Absent else Hidden,
       lockScreen := Shown)
  }

  /** Locking an already locked tab changes nothing more. */
  lemma LockTabIdempotent(t: Tab)
    ensures LockTab(LockTab(t)) == LockTab(t)
  {
  }

  /**
    `unlock_tab`: an existing web view is shown again; otherwise one is created,
    loaded and zoomed, and if creation fails the tab is locked again.
   */
  function UnlockTab(t: Tab, viewOk: bool, s: Store): (r: Step)
    ensures r.tab.webView != Absent || r.tab.isLocked
    ensures !r.tab.isLocked <==> t.webView != Absent || viewOk
    ensures t.webView != Absent ==> r.tab.webView == Shown && r.store == s
    ensures Coherent(r.tab)
    ensures SameAccount(r.tab, t) && r.tab.zoom == t.zoom
    ensures r.store == s || r.store == ApplyZoom(r.tab, s)
    ensures t.webView == Absent && viewOk ==> r.store == ApplyZoom(r.tab, s)
    ensures t.webView == Absent && !viewOk ==> r.store == s
  {
    var t' := t.(isLocked := false, lockScreen := if t.lockScreen == Absent then Absent else Hidden);
    if t.webView != Absent then Step(t'.(webView := Shown), s)
    else if viewOk then
      var t'' := t'.(webView := Shown);
      Step(t'', ApplyZoom(t'', s))
    else Step(LockTab(t'), s)
  }

  /** Locking a tab that shows its web view and unlocking it again restores the lock flag, the view and the store. */
  lemma LockUnlockRoundTrip(t: Tab, viewOk: bool, s: Store)
    requires Coherent(t) && !t.isLocked && t.webView != Absent
    ensures var r := UnlockTab(LockTab(t), viewOk, s);
            r.tab.isLocked == t.isLocked && r.tab.webView == t.webView && r.store == s
  {
  }

  /**
    `unlock_with_password`: without a password the tab unlocks unconditionally;
    with one, only an accepted dialog whose text verifies against the store unlocks it.
   */
  function UnlockWithPassword(t: Tab, prompt: Prompt, viewOk: bool, s: Store, hash: Hasher): (r: Step)
    ensures !t.hasPassword ==> (!r.tab.isLocked <==> t.webView != Absent || viewOk)
    ensures t.hasPassword && !(prompt.ok && t.hasDb && VerifyPassword(s, t.id, prompt.text, hash)) ==> r == Step(t, s)
    ensures t.hasPassword && prompt.ok && t.hasDb && VerifyPassword(s, t.id, prompt.text, hash) ==>
              (!r.tab.isLocked <==> t.webView != Absent || viewOk)
    ensures !r.tab.isLocked && t.isLocked ==> !t.hasPassword || (prompt.ok && VerifyPassword(s, t.id, prompt.text, hash))
    ensures Coherent(t) ==> Coherent(r.tab)
    ensures SameAccount(r.tab, t) && r.tab.zoom == t.zoom
  {
    if !t.hasPassword then UnlockTab(t, viewOk, s)
    else if prompt.ok && t.hasDb && VerifyPassword(s, t.id, prompt.text, hash) then UnlockTab(t, viewOk, s)
    else Step(t, s)
  }

  /** `toggle_lock`: a locked tab asks for its password, an unlocked one locks at once. */
  function ToggleLock(t: Tab, prompt: Prompt, viewOk: bool, s: Store, hash: Hasher): (r: Step)
    ensures !t.isLocked ==> r.tab.isLocked && r.store == s
    ensures t.isLocked && !t.hasPassword ==> (!r.tab.isLocked <==> t.webView != Absent || viewOk)
    ensures t.isLocked && t.hasPassword && !(prompt.ok && t.hasDb && VerifyPassword(s, t.id, prompt.text, hash)) ==>
              r == Step(t, s)
    ensures t.isLocked && t.hasPassword && prompt.ok && t.hasDb && VerifyPassword(s, t.id, prompt.text, hash) ==>
              (!r.tab.isLocked <==> t.webView != Absent || viewOk)
    ensures Coherent(t) ==> Coherent(r.tab)
  {
    if t.isLocked then UnlockWithPassword(t, prompt, viewOk, s, hash)
    else Step(LockTab(t), s)
  }

  /** `cleanup`: the web view is released; other state is untouched. */
  function Cleanup(t: Tab): (r: Tab)
    ensures r.webView == Absent
    ensures SameAccount(r, t) && r.isLocked == t.isLocked && r.lockScreen == t.lockScreen && r.zoom == t.zoom
    ensures t.webView == Absent ==> r == t
    ensures Coherent(t) ==> Coherent(r)
  {
    if t.webView != Absent then t.(webView := Absent) else t
  }
}
