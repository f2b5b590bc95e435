# WhatsApp Manager session bookkeeping, in Dafny

This project models the bookkeeping core of a multi-account WhatsApp desktop manager.
It does not model the Qt user interface. The core has three parts, each written as
pure state transitions over immutable datatypes:

- **Account store** (`account_store.dfy`, module `AccountStore`). The sqlite
  `accounts` table is a map from id to a row, which holds the name, session
  directory, zoom level, password hash and last-active time. The store also keeps
  the AUTOINCREMENT high-water mark and the set of session directories on disk.
  The model covers:
  - adding a row;
  - renaming, re-zooming and touching a row;
  - setting and verifying passwords;
  - deleting a row, retrying `rmtree` a bounded number of times;
  - listing rows by recency;
  - the `init_db` column migration.
- **Per-tab lock/zoom state** (`session_tab.dfy`, module `SessionTab`). For each tab
  the model keeps:
  - the lock flag and the password flag;
  - whether a web view and a lock screen exist and are visible;
  - the zoom level.

  Creating a web view is a success/failure oracle. A password dialog is a
  `Prompt(ok, text)`.
- **Tab registry** (`tab_registry.dfy`, module `TabRegistry`). This covers the main
  window's `tabs` map (id to name, tab and stored index), and the tab widget as a
  sequence of slots, each holding either an account page or the Welcome page.
  The model covers:
  - adding accounts, with a capacity of 8;
  - closing a tab;
  - re-synchronising stored indices after drags and removals;
  - renaming;
  - setting and removing passwords;
  - Welcome-page presence;
  - startup loading.

  Its consistency proofs are in `registry_proofs.dfy` (module `RegistryProofs`)
  and `startup.dfy` (module `WindowStartup`).

`labels.dfy` (module `Labels`) holds the title strings: the tab title (an
optional lock prefix, a chat balloon, and the name cut to ten characters) and the
window title, which tells the account count. `wrappers.dfy` gives `Option`, which
stands for Python's `None` and SQL `NULL`.

The central invariant is `TabRegistry.WF`. It requires all of the following:

- no page appears twice;
- every account page belongs to an entry, and every entry's page is shown;
- every entry's stored index points at its own page;
- every entry agrees with its row on name and password;
- every slot's title is its entry's tab title;
- the rows and the entries name the same accounts;
- the Welcome page is shown exactly when no account is open;
- the window title states the count.

The operations below are proved to preserve `WF`. There are two exceptions,
both as the code is written (see Findings): adding the first account, and
removing the password of an account whose name shows a lock prefix of its own.
The registry also has the corrected versions, which do preserve `WF`.

The model uses these parameters for effects it does not compute. The SHA-256
digest is a function parameter (`Hasher`). The clock is a `now: int` parameter.
The application directory is a string parameter. Each `rmtree` attempt's outcome
comes from an oracle indexed by attempt number. Whether the k-th web view can be
created comes from a boolean oracle.

## Model

| member | source | states |
|---|---|---|
| AccountStore.DirSafe | core/database.py:51 | Each character is folded on its own: a space becomes '_', an ASCII capital its small letter, anything else stays; so the result has the name's length, no spaces and no capitals |
| AccountStore.FoldChar | core/database.py:51 | A space becomes '_', an ASCII capital becomes the letter 32 code points on, and every other character is kept |
| AccountStore.DirSafeIdempotent | core/database.py:51 | The directory transform is a projection: applying it to a safe name changes nothing |
| AccountStore.SessionDir | core/database.py:51 | As a plain string join (see Left out), the session directory lies under the application directory, behind "/session_", and ends in the name's safe form, one character per character of the name |
| AccountStore.SessionDirShared | core/database.py:51 | For the plain string join, two names get the same session directory if and only if their safe forms agree |
| AccountStore.NoDirectoryDisambiguation | core/database.py:51-52 | "My Phone" and "my_phone" get distinct ids but share one session directory: nothing disambiguates them |
| AccountStore.AddAccount | core/database.py:50-63 | A new row gets the next AUTOINCREMENT id (never one already used), the given name, the derived directory, zoom 1.0, a NULL hash and the clock time; the directory is created; other rows are untouched |
| AccountStore.UpdateZoomLevel | core/database.py:73-82 | Only the zoom of the given row changes; the keys, the other rows and the directories stay, and a missing id is a no-op |
| AccountStore.UpdateZoomOnly | core/database.py:73-82 | Saving a zoom level changes nothing but zoom levels and keeps the store well formed |
| AccountStore.UpdateAccountName | core/database.py:84-93 | Only the name of the given row changes; its session directory and every other row stay |
| AccountStore.UpdateLastActive | core/database.py:182-190 | Only the last-active time of the given row changes |
| AccountStore.StoredDigest | core/database.py:97-106 | A digest is stored exactly when the password is present and non-empty, and it is that password's hash |
| AccountStore.SetPassword | core/database.py:95-110 | Only the given row's hash column changes, to the stored digest of the argument |
| AccountStore.HasPassword | core/database.py:128-135 | True exactly when the row exists and its hash is not NULL |
| AccountStore.VerifyPassword | core/database.py:112-126 | A missing row, a NULL hash or an empty hash admits every password; otherwise exactly the passwords whose digest matches |
| AccountStore.SetThenVerify | core/database.py:95-126 | After setting a non-empty password the row has a password, that password verifies, and exactly the passwords with the same digest verify |
| AccountStore.ClearThenVerify | core/database.py:95-135 | After setting None or "" the row has no password and every attempt verifies |
| AccountStore.Retry | core/database.py:153-174 | At most 3 `rmtree` calls; every call but the last raised PermissionError; fewer than 3 calls means the last one did not raise PermissionError; the directory is gone exactly when the last call succeeded |
| AccountStore.Delete | core/database.py:137-180 | The row is deleted whatever `rmtree` did. `rmtree` runs only if the directory exists, and then the outcome is that of the bounded PermissionError retries. The directory is gone only after a successful attempt |
| AccountStore.DeleteAccount | core/database.py:137-180 | The retry loop as written computes the same result as the recursive definition |
| AccountStore.LockedDirectoryStillDeletesRow | core/database.py:153-180 | A directory locked on every attempt takes three attempts and stays, but the row is still gone |
| AccountStore.InsertByRecency | core/database.py:68 | Inserting into a recency-ordered listing keeps it ordered and adds exactly that id |
| AccountStore.GetAllAccounts | core/database.py:65-71 | The listing contains every row exactly once, most recently active first |
| AccountStore.InitDb | core/database.py:14-48 | Migration keeps every row and field. A missing `zoom_level` column reads 1.0 and a missing `password_hash` column reads NULL. Present columns keep their values |
| AccountStore.InitDbIdempotent | core/database.py:14-48 | Migrating an already migrated table changes nothing |
| SessionTab.ApplyZoom | gui/whatsapp_tab.py:139-152 | The zoom is saved for this account only when a web view and a database exist; no other row changes |
| SessionTab.ApplyZoomOnly | gui/whatsapp_tab.py:139-152 | Applying the zoom changes nothing in the store but zoom levels, and keeps it well formed |
| SessionTab.ZoomIn | gui/whatsapp_tab.py:121-125 | Without a web view nothing changes. With one, only the zoom moves, to z + 0.1 or to 3.0 when that would pass 3.0; it stays in [0.5, 3.0] and is saved |
| SessionTab.ZoomOut | gui/whatsapp_tab.py:127-131 | Without a web view nothing changes. With one, only the zoom moves, to z - 0.1 or to 0.5 when that would pass 0.5; it stays in [0.5, 3.0] and is saved |
| SessionTab.ResetZoom | gui/whatsapp_tab.py:133-137 | Without a web view nothing changes; with one the zoom becomes 1.0 and is saved |
| SessionTab.ZoomOutUndoesZoomIn | gui/whatsapp_tab.py:121-131 | When the step up is not capped, zooming out restores the tab exactly |
| SessionTab.NewTab | gui/whatsapp_tab.py:9-43 | A new tab is locked exactly when it has a password. Locked: no web view, the lock screen shown, nothing saved. Unlocked: a web view exists exactly when creation succeeds. The views match the lock flag |
| SessionTab.LockTab | gui/whatsapp_tab.py:244-269 | Locked with the lock screen shown; an existing web view is kept (hidden), and no web view is created; the account fields stay |
| SessionTab.LockTabIdempotent | gui/whatsapp_tab.py:244-269 | Locking twice is locking once |
| SessionTab.UnlockTab | gui/whatsapp_tab.py:271-310 | Afterwards a web view exists or the tab is locked again. It ends unlocked exactly when a web view existed or creation succeeds. An existing web view is reused and nothing is saved; a newly created one saves the tab's zoom, and a failed creation saves nothing |
| SessionTab.LockUnlockRoundTrip | gui/whatsapp_tab.py:244-310 | Locking an unlocked tab that shows its web view, then unlocking it, restores the lock flag, the view and the store |
| SessionTab.UnlockWithPassword | gui/whatsapp_tab.py:218-242 | Without a password the tab unlocks as `unlock_tab` does. With one, an accepted dialog whose password verifies unlocks it as `unlock_tab` does, and anything else changes nothing. A locked tab only ever unlocks that way |
| SessionTab.ToggleLock | gui/whatsapp_tab.py:209-216 | An unlocked tab becomes locked. A locked tab unlocks without a password, or with an accepted, verifying one; otherwise nothing changes. The views keep following the lock flag |
| SessionTab.Cleanup | gui/whatsapp_tab.py:330-346 | The web view is released; everything else stays, and a tab without a web view is unchanged |
| Labels.Shorten | gui/main_window.py:373 | Names of at most ten characters are shown whole; longer ones as their first ten characters followed by "..." |
| Labels.TabTitle | gui/main_window.py:372-373 | The title starts with the lock exactly when the account has a password, and then with "🔒 "; the balloon "💬 " comes right before the shortened name, which ends it |
| Labels.RenamedTitle | gui/main_window.py:646-652 | The new title starts with the lock exactly when the current one does, and ends with the new name shortened |
| Labels.RenameKeepsLock | gui/main_window.py:646-652 | Renaming keeps the lock marker and shows the new name |
| Labels.LockedTitle | gui/main_window.py:728-731 | A title that starts with the lock is kept; any other gets "🔒 " in front |
| Labels.LockedTitleOfTitle | gui/main_window.py:728-731 | Marking any tab title locked gives the locked title of the same name |
| Labels.UnlockedTitle | gui/main_window.py:775-778 | Corrected unlock: only the leading lock prefix is taken off; other titles are kept |
| Labels.UnlockedTitleOfTitle | gui/main_window.py:775-778 | With the corrected unlock, unlocking a tab title, or a title just locked, gives the unlocked title of the same name |
| Labels.ReplaceAll | gui/main_window.py:778 | Python's `str.replace` with a replacement no longer than the pattern never lengthens the string |
| Labels.UnlockedTitleAsWritten | gui/main_window.py:777-778 | A title that does not start with the lock prefix is kept; one that does loses at least that prefix |
| Labels.UnlockAsWrittenMangles | gui/main_window.py:775-778 | For a name containing the lock prefix, the as-written unlock does not give that name's unlocked title |
| Labels.StripAllShortens | gui/main_window.py:778 | Deleting every lock prefix from a string that holds one makes it strictly shorter |
| Labels.StripAllNoPrefix | gui/main_window.py:778 | Deleting every lock prefix from a string that holds none leaves it unchanged |
| Labels.UnlockAsWrittenExactly | gui/main_window.py:775-778 | The as-written unlock of a locked title gives the unlocked title if and only if the shortened name holds no lock prefix of its own |
| Labels.Decimal | gui/main_window.py:556-563 | The count is written as at least one character, all decimal digits |
| Labels.DecimalRoundTrip | gui/main_window.py:560-563 | Reading back the decimal digits of a count gives the count |
| Labels.WindowTitle | gui/main_window.py:556-563 | "WhatsApp Manager" for no accounts, "... - 1 account" for one, "... - n accounts" for n of two or more |
| Labels.WindowTitleInjective | gui/main_window.py:556-563 | Different counts give different window titles |
| TabRegistry.UpdateTabIndices | gui/main_window.py:393-402 | Every entry whose page is shown gets that page's position. An entry whose page is missing keeps its index. Nothing else changes |
| TabRegistry.OnTabMoved | gui/main_window.py:404-406 | The slots are the dragged order and the same accounts stay registered |
| TabRegistry.ShowWelcomeIfEmpty | gui/main_window.py:483-495 | With no accounts the Welcome page is shown afterwards. With accounts and no duplicate pages it is not. Entries, store and title stay |
| TabRegistry.CreateAccountTab | gui/main_window.py:366-391 | One entry is added with its slot appended and titled. The tab is locked exactly when the row has a hash. The window title counts the tabs |
| TabRegistry.CreateAccountTabKeeps | gui/main_window.py:366-391 | Other entries keep everything but their index. Rows change at most in zoom level. The new tab belongs to its account and has a password exactly when the hash exists |
| TabRegistry.CreateAccountTabAdds | gui/main_window.py:332-342 | Inserting the row and creating its tab adds exactly that id to the entries and to the rows, named as asked, with no hash and an unlocked tab |
| TabRegistry.AddAccountAsWritten | gui/main_window.py:305-364 | At 8 or more accounts, or when the name dialog is not accepted with a non-empty name, nothing changes; the count never passes 8 |
| TabRegistry.AddAccount | gui/main_window.py:305-364 | Same refusals and capacity as written. The same tab widget, store, window title and registered ids; each entry equals the as-written one apart from its stored index |
| TabRegistry.AddAccountHandled | gui/main_window.py:325-364 | When the session directory is created, the add as written. When it cannot be, no entry and no row are added and the title stays |
| TabRegistry.CloseTab | gui/main_window.py:408-473 | No-op for an index out of range, the Welcome page, a page with no entry, or when declined; a tab is released exactly when none of these holds. When a tab is released, that account leaves both the entries and the rows, and its web view is released; the teardown reported is that of deleting the account from the store, and no attempt is made otherwise |
| TabRegistry.RenameTab | gui/main_window.py:618-654 | On an accepted, changed name the entry and its row are renamed. Otherwise nothing changes. Other entries, and the set of rows, stay |
| TabRegistry.RemoveTabPassword | gui/main_window.py:742-784 | Corrected removal: once confirmed, the row has no password and the tab is neither password-protected nor locked; only the leading lock prefix leaves the title; other entries stay |
| TabRegistry.RemoveTabPasswordAsWritten | gui/main_window.py:742-784 | The same row and entry changes as the corrected removal, but the title at the stored index loses every lock prefix, when it starts with one |
| TabRegistry.SetTabPassword | gui/main_window.py:656-740 | Corrected dialog sequence: nothing changes for an unknown account, a wrong current password, a cancelled dialog, or a mismatched confirmation; other entries stay; an empty new password, after a verified current one, gives exactly the corrected removal |
| TabRegistry.SetTabPasswordAsWritten | gui/main_window.py:656-740 | The empty-password path goes to the as-written removal; every other answer does what the corrected dialog sequence does |
| TabRegistry.LoadZoom | gui/main_window.py:479 | A saved tab never opens at zoom 0: a zero level falls back to 1.0, and any other is kept |
| TabRegistry.LoadOne | gui/main_window.py:478-481 | One row's tab is registered under its id, its slot appended after the existing ones, and no row is added |
| TabRegistry.LoadAccounts | gui/main_window.py:475-481 | One slot is added per listed id |
| TabRegistry.LoadKeys | gui/main_window.py:475-481 | Afterwards the registered ids are exactly the earlier ones and the listed ones, and no row is added |
| TabRegistry.LoadPages | gui/main_window.py:475-481 | The slots added hold the listed accounts' pages, in listing order |
| RegistryProofs.IndexOfDistinct | gui/main_window.py:396-400 | Without duplicates, the lookup finds a page exactly where it is |
| RegistryProofs.MoveDistinct | gui/main_window.py:404-406 | A drag keeps the tab widget free of duplicates |
| RegistryProofs.MovePresent | gui/main_window.py:404-406 | A drag shows exactly the pages shown before |
| RegistryProofs.RemoveAtDistinct | gui/main_window.py:450-452 | Removing a slot keeps the widget free of duplicates |
| RegistryProofs.RemoveAtKeeps | gui/main_window.py:450-452 | Removing a slot keeps every other page shown |
| RegistryProofs.Resync | gui/main_window.py:393-402 | If everything but the stored indices is consistent, re-synchronising makes the indices consistent too |
| RegistryProofs.ResyncNoop | gui/main_window.py:393-402 | When no page is shown twice and every stored index is right, re-synchronising changes nothing |
| RegistryProofs.ShowWelcomeCore | gui/main_window.py:483-495 | The Welcome check keeps a consistent window consistent, and with accounts and no Welcome page shown it changes nothing |
| RegistryProofs.CreateCore | gui/main_window.py:366-391 | Creating the tab of an account that has a row and no entry keeps the window consistent |
| RegistryProofs.AddAccountAsWrittenWF | gui/main_window.py:305-364 | Once at least one account is open, the as-written add keeps the window consistent |
| RegistryProofs.WelcomeRemovedFirst | gui/main_window.py:483-495 | Removing a Welcome page in front of the only account's tab moves that tab to position 0 but leaves its stored index at 1 |
| RegistryProofs.FirstAddLeavesStaleIndex | gui/main_window.py:336-344 | Adding the first account as written leaves one slot holding it, at position 0, while its stored index is 1 |
| RegistryProofs.FirstAddThenRenameKeepsTitle | gui/main_window.py:644-652 | After that first add, renaming the account changes its entry but leaves its tab showing the old name |
| RegistryProofs.AddAccountWF | gui/main_window.py:305-364 | The corrected add keeps the window consistent from every consistent state, the empty one included |
| RegistryProofs.MkdirFailureKeepsWindow | gui/main_window.py:325-364 | When the session directory cannot be created, the add leaves a consistent window exactly as it was |
| RegistryProofs.WelcomeKeepsAccount | gui/main_window.py:483-495 | The Welcome check never hides an account page |
| RegistryProofs.AddAccountAsWrittenAdds | gui/main_window.py:305-364 | An accepted name under capacity adds one new id to the entries and the rows, named as typed, with no password, unlocked, and shown in the tab widget |
| RegistryProofs.AddAccountAdds | gui/main_window.py:305-364 | The re-synchronised add adds the same account, and its stored index points at its page |
| RegistryProofs.CloseTabWF | gui/main_window.py:408-473 | Closing (or declining to close) keeps the window consistent |
| RegistryProofs.CloseTabRemovesPage | gui/main_window.py:444-462 | After a confirmed close the account is in neither the entries, the rows, nor the tab widget |
| RegistryProofs.CloseTabKeepsOthers | gui/main_window.py:444-462 | Closing one tab keeps every other account's entry, apart from its index, and its row |
| RegistryProofs.CloseTabReentrant | gui/main_window.py:444-448 | While the entry is already dropped, a second close of the same slot is a no-op |
| RegistryProofs.OnTabMovedWF | gui/main_window.py:404-406 | A drag keeps the window consistent, and the dragged account's stored index becomes its target |
| RegistryProofs.RenameTabWF | gui/main_window.py:618-654 | Renaming keeps the window consistent: the slot shows the new name and the same lock marker |
| RegistryProofs.RemoveTabPasswordWF | gui/main_window.py:742-784 | The corrected removal keeps the window consistent: the slot loses its lock marker |
| RegistryProofs.SetTabPasswordWF | gui/main_window.py:656-740 | Every password dialog outcome of the corrected sequence keeps the window consistent |
| RegistryProofs.RemoveAsWrittenBreaksLabels | gui/main_window.py:775-778 | Confirmed removal, as written, for a password-protected account whose shown name holds a lock prefix leaves that slot with a title that is not its tab title |
| RegistryProofs.RemoveAsWrittenMatches | gui/main_window.py:742-784 | In every other case the as-written removal gives exactly the corrected result |
| RegistryProofs.RemoveTabPasswordAsWrittenWF | gui/main_window.py:742-784 | The as-written removal keeps the window consistent if and only if it is not that confirmed removal for such a name |
| RegistryProofs.SetTabPasswordAsWrittenWF | gui/main_window.py:656-784 | The as-written dialog sequence keeps the window consistent if and only if it does not hand such a confirmed removal to the as-written removal |
| RegistryProofs.SetTabPasswordLocks | gui/main_window.py:700-732 | A confirmed new password locks the tab. The row then has a password, and exactly the passwords with its digest verify |
| WindowStartup.LoadCore | gui/main_window.py:475-481 | Loading rows without tabs keeps the window consistent |
| WindowStartup.LoadLocks | gui/main_window.py:475-481 | Each loaded tab is locked exactly when its row has a password; tabs already open stay as they were |
| WindowStartup.ListingDistinct | core/database.py:65-71 | A listing of every row, each once, repeats no id |
| WindowStartup.OpenedWF | gui/main_window.py:9-24 | The window opened from a store is consistent. It shows one tab per row in listing order, or the Welcome page alone |
| WindowStartup.Startup | gui/main_window.py:9-24 | Startup opens one tab per saved account, most recently active first, each locked exactly when its account has a password. With none saved it shows the Welcome page alone. The result is consistent |

## Left out

- Qt widgets, layouts, stylesheets, shortcuts, context menus, focus (`setCurrentIndex`), `update_global_controls` and the active-tab wrappers. None of these change the bookkeeping.
- Informational and error message boxes. Each dialog whose answer matters is an input (`Prompt`, or a yes/no `bool`).
- `main.py`, the web-engine profile and settings, and `load_whatsapp` / `reload_whatsapp`. A web view is only present or absent, and creating one succeeds or fails by an oracle.
- sqlite, filesystem and `rmtree` mechanics, `time.sleep`, `gc.collect` and `processEvents`. The store is a map, and `rmtree` is an outcome per attempt.
- The exception handlers, apart from the failed `mkdir` in `add_account` (TabRegistry.AddAccountHandled). This includes the recovery branch of `unlock_tab` (gui/whatsapp_tab.py:313-318), which refers to a `lock_btn` that does not exist.
- SHA-256 internals: the digest is an uninterpreted deterministic function.
- AccountStore.FoldChar: only ASCII letters are lower-cased; Python's full Unicode `lower()` is not modelled.
- AccountStore.SessionDir, AccountStore.SessionDirShared, AccountStore.DirSafe: the directory is the plain string `appDir + "/session_" + DirSafe(name)`. The code joins with pathlib's `/`, which drops a trailing '/', collapses '//' and removes '.' components, so "x", "x/" and "x/." all give `.../session_x`, and "/" gives `.../session_`. The model keeps those strings apart, so SessionDirShared's "only if" direction and SessionDir's character-for-character ending hold for the join, not for pathlib. DirSafe also inherits FoldChar's ASCII-only folding: Python's `lower()` can change a string's length ('İ' becomes two characters), while DirSafe keeps it.
- SessionTab.ZoomIn, SessionTab.ZoomOut, SessionTab.ZoomOutUndoesZoomIn: zoom is an exact real, so the IEEE-754 rounding of the 0.1 steps is not modelled.
- AccountStore.AddAccount, RegistryProofs.AddAccountAsWrittenAdds, RegistryProofs.AddAccountAdds: assume `mkdir` succeeds. `mkdir` runs without `parents`, so it may raise for a name containing '/': for "a/b" it raises while `session_a` does not exist, but not once it does, and not for "x/", "x/." or "/", whose parent is the application directory after pathlib's normalisation. When it raises, `db.add_account` raises before the INSERT, the handler of `add_account` reports it, and no row or tab is added. That path is TabRegistry.AddAccountHandled with `mkdirOk` false.
- AccountStore.GetAllAccounts: the order among rows with equal `last_active` is not fixed, since SQL leaves it unspecified.
- `create_welcome_tab` widget identity. The lazily created Welcome widget is the single `WelcomePage` slot, and its content is not modelled.
- TabRegistry.OnTabMoved: requires both positions to be valid, which the tab bar guarantees when it emits the signal.
- `is_locked` written directly on the tab by `set_tab_password` / `remove_tab_password`. This is modelled by the registry, which sets the flag and views together.
- TabRegistry.RemoveTabPassword, TabRegistry.SetTabPassword, Labels.UnlockedTitle, Labels.UnlockedTitleOfTitle: strip only the leading lock prefix, where the code strips every occurrence; the code's behaviour is TabRegistry.RemoveTabPasswordAsWritten and TabRegistry.SetTabPasswordAsWritten (see Findings).
- RegistryProofs.RemoveTabPasswordWF, RegistryProofs.SetTabPasswordWF: proved for the corrected removal; for the removal as written, RegistryProofs.RemoveTabPasswordAsWrittenWF and RegistryProofs.SetTabPasswordAsWrittenWF state exactly when consistency is kept.
- A second `close_tab` started while the first waits in its confirmation dialog. The first then fails at the entry lookup and its exception handler catches that; the model has no interleaving of dialogs.
- `show_lock_screen` and `update_lock_button_tooltip` are widget construction, reduced to the lock-screen view flag.

## Findings

| source | as written | input that shows it | evidently intended | confidence | as-written member | corrected member |
|---|---|---|---|---|---|---|
| gui/main_window.py:341-344 | After the first account's tab is created, `show_welcome_if_empty` removes the Welcome page in front of it. Nothing re-synchronises the stored indices, so the entry keeps index 1 while its tab is at 0 | An empty window (Welcome page only), then an accepted name; then a rename of that account, which retitles position 1, a position that does not exist | Stored indices point at their tabs after every add | not executed | RegistryProofs.FirstAddLeavesStaleIndex | RegistryProofs.AddAccountWF |
| gui/main_window.py:775-778 | Removing a password strips every occurrence of the lock prefix from the title, not just the leading one, so the slot's title no longer matches its entry | An account named "🔒 x" with a password: the title "🔒 💬 🔒 x" becomes "💬 x" | Only the leading lock marker is removed, giving "💬 🔒 x" | not executed | RegistryProofs.RemoveAsWrittenBreaksLabels | RegistryProofs.RemoveTabPasswordWF |

## Session directories

`add_account` derives the session directory from the name alone
(core/database.py:51-52) and creates it with `exist_ok=True`, so two names that
fold alike share one directory (`AccountStore.NoDirectoryDisambiguation`). pathlib's normalisation of the joined path merges further names, such as "x" and "x/" (see Left out).
