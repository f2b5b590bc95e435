/**
  The `accounts` table and the session directories behind it (core/database.py).
  The sqlite table is a map from id to row; the filesystem is the set of session
  directories that exist; `rmtree` is an oracle saying how each attempt ends.
 */
module AccountStore {
  import opened Wrappers

  /** A deterministic one-way digest (a SHA-256 hex digest in the application); its internals are not modelled. */
  type Hasher = string -> string

  /** Number of `rmtree` attempts made on a session directory before giving up. */
  const MaxRetries: nat := 3

  /** The DEFAULT of the `zoom_level` column, given to new and migrated rows. */
  const DefaultZoom: real := 1.0

  /** One row of the `accounts` table; `passwordHash == None` is SQL NULL. */
  datatype Row = Row(name: string, sessionDir: string, zoom: real, passwordHash: Option<string>, lastActive: int)

  /** The table keyed by id, the AUTOINCREMENT high-water mark, and the session directories present on disk. */
  datatype Store = Store(rows: map<int, Row>, lastId: nat, dirs: set<string>)

  /** AUTOINCREMENT ids are positive and never above the high-water mark. */
  ghost predicate Valid(s: Store) {
    forall id :: id in s.rows ==> 0 < id <= s.lastId
  }

  // ---------------------------------------------------------------------------
  // Session directory name
  // ---------------------------------------------------------------------------

  /** One character of `name.replace(' ', '_').lower()`; only ASCII letters change case. */
  function FoldChar(c: char): (d: char)
    ensures d != ' ' && !('A' <= d <= 'Z')
    ensures c == ' ' ==> d == '_'
    ensures c != ' ' && !('A' <= c <= 'Z') ==> d == c
    ensures 'A' <= c <= 'Z' ==> 'a' <= d <= 'z' && d as int - c as int == 'a' as int - 'A' as int
  {
    if c == ' ' then '_'
    else if 'A' <= c <= 'Z' then (c as int + 32) as char
    else c
  }

  /** The filesystem-safe form of an account name. */
  function DirSafe(name: string): (r: string)
    ensures |r| == |name|
    ensures forall i :: 0 <= i < |name| ==> r[i] == FoldChar(name[i])
    ensures forall i :: 0 <= i < |r| ==> r[i] != ' ' && !('A' <= r[i] <= 'Z')
  {
    seq(|name|, i requires 0 <= i < |name| => FoldChar(name[i]))
  }

  /** What separates the application directory from the safe form of the name. */
  const SessionPrefix: string := "/session_"

  /** The session directory a new account with this name gets under the application directory, as a plain string join (pathlib's normalisation of '/' and '.' is not modelled). */
  function SessionDir(appDir: string, name: string): (r: string)
    ensures |r| == |appDir| + |SessionPrefix| + |name|
    ensures r[..|appDir|] == appDir && r[|appDir|..|appDir| + |SessionPrefix|] == SessionPrefix
    ensures r[|r| - |name|..] == DirSafe(name)
  {
    appDir + SessionPrefix + DirSafe(name)
  }

  /** Two names share a session directory exactly when their safe forms agree. */
  lemma SessionDirShared(appDir: string, a: string, b: string)
    ensures SessionDir(appDir, a) == SessionDir(appDir, b) <==> DirSafe(a) == DirSafe(b)
  {
  }

  /** Folding twice is folding once: the transform is a projection onto safe names. */
  lemma DirSafeIdempotent(name: string)
    ensures DirSafe(DirSafe(name)) == DirSafe(name)
  {
    var once := DirSafe(name);
    forall i | 0 <= i < |once|
      ensures DirSafe(once)[i] == once[i]
    {
      assert DirSafe(once)[i] == FoldChar(once[i]);
    }
  }

  // ---------------------------------------------------------------------------
  // Insertion and single-field updates
  // ---------------------------------------------------------------------------

  datatype Added = Added(store: Store, id: int, sessionDir: string)

  /** INSERT of a new row: a fresh AUTOINCREMENT id, the given name and derived directory, default zoom, no password. */
  function AddAccount(s: Store, appDir: string, name: string, now: int): (r: Added)
    ensures r.id == s.lastId + 1 && r.store.lastId == r.id
    ensures Valid(s) ==> r.id !in s.rows && Valid(r.store)
    ensures r.store.rows.Keys == s.rows.Keys + {r.id}
    ensures r.sessionDir == SessionDir(appDir, name) && r.store.dirs == s.dirs + {r.sessionDir}
    ensures r.store.rows[r.id].name == name && r.store.rows[r.id].sessionDir == r.sessionDir
    ensures r.store.rows[r.id].zoom == DefaultZoom && r.store.rows[r.id].passwordHash == None
    ensures r.store.rows[r.id].lastActive == now
    ensures forall id :: id in s.rows && id != r.id ==> r.store.rows[id] == s.rows[id]
  {
    var dir := SessionDir(appDir, name);
    var id := s.lastId + 1;
    Added(Store(s.rows[id := Row(name, dir, DefaultZoom, None, now)], id, s.dirs + {dir}), id, dir)
  }

  /** Two names with the same safe form share one session directory: nothing disambiguates them. */
  lemma NoDirectoryDisambiguation(s: Store, appDir: string, now: int)
    requires Valid(s)
    ensures var a := AddAccount(s, appDir, "My Phone", now);
            var b := AddAccount(a.store, appDir, "my_phone", now);
            a.id != b.id && a.id in b.store.rows && b.id in b.store.rows &&
            b.store.rows[a.id].sessionDir == b.store.rows[b.id].sessionDir
  {
    var a := AddAccount(s, appDir, "My Phone", now);
    var b := AddAccount(a.store, appDir, "my_phone", now);
    assert DirSafe("My Phone") == DirSafe("my_phone");
    SessionDirShared(appDir, "My Phone", "my_phone");
    assert b.store.rows[a.id] == a.store.rows[a.id];
    assert b.store.rows[b.id].sessionDir == SessionDir(appDir, "my_phone");
  }

  /** UPDATE of `zoom_level`; a missing id changes nothing. */
  function UpdateZoomLevel(s: Store, id: int, zoom: real): (r: Store)
    ensures r.rows.Keys == s.rows.Keys && r.lastId == s.lastId && r.dirs == s.dirs
    ensures id in s.rows ==> r.rows[id] == s.rows[id].(zoom := zoom)
    ensures forall k :: k in s.rows && k != id ==> r.rows[k] == s.rows[k]
  {
    if id in s.rows then s.(rows := s.rows[id := s.rows[id].(zoom := zoom)]) else s
  }

  /** `b` is `a` with at most the zoom levels changed. */
  ghost predicate ZoomOnly(a: Store, b: Store) {
    && a.rows.Keys == b.rows.Keys && a.lastId == b.lastId && a.dirs == b.dirs
    && forall k :: k in a.rows ==> b.rows[k] == a.rows[k].(zoom := b.rows[k].zoom)
  }

  /** Saving a zoom level changes nothing but that zoom level, so the store stays well formed. */
  lemma UpdateZoomOnly(s: Store, id: int, zoom: real)
    ensures ZoomOnly(s, UpdateZoomLevel(s, id, zoom))
    ensures Valid(s) ==> Valid(UpdateZoomLevel(s, id, zoom))
  {
  }

  /** UPDATE of `name`; the session directory stays where it was. */
  function UpdateAccountName(s: Store, id: int, newName: string): (r: Store)
    ensures r.rows.Keys == s.rows.Keys && r.lastId == s.lastId && r.dirs == s.dirs
    ensures id in s.rows ==> r.rows[id] == s.rows[id].(name := newName)
    ensures forall k :: k in s.rows && k != id ==> r.rows[k] == s.rows[k]
  {
    if id in s.rows then s.(rows := s.rows[id := s.rows[id].(name := newName)]) else s
  }

  /** UPDATE of `last_active` to the given clock reading. */
  function UpdateLastActive(s: Store, id: int, now: int): (r: Store)
    ensures r.rows.Keys == s.rows.Keys && r.lastId == s.lastId && r.dirs == s.dirs
    ensures id in s.rows ==> r.rows[id] == s.rows[id].(lastActive := now)
    ensures forall k :: k in s.rows && k != id ==> r.rows[k] == s.rows[k]
  {
    if id in s.rows then s.(rows := s.rows[id := s.rows[id].(lastActive := now)]) else s
  }

  // ---------------------------------------------------------------------------
  // Passwords
  // ---------------------------------------------------------------------------

  /** The digest stored for a password argument: NULL when it is None or empty. */
  function StoredDigest(password: Option<string>, hash: Hasher): (d: Option<string>)
    ensures d.Some? <==> password.Some? && password.value != ""
    ensures d.Some? ==> d.value == hash(password.value)
  {
    if password.Some? && password.value != "" then Some(hash(password.value)) else None
  }

  /** UPDATE of `password_hash`. */
  function SetPassword(s: Store, id: int, password: Option<string>, hash: Hasher): (r: Store)
    ensures r.rows.Keys == s.rows.Keys && r.lastId == s.lastId && r.dirs == s.dirs
    ensures id in s.rows ==> r.rows[id] == s.rows[id].(passwordHash := StoredDigest(password, hash))
    ensures forall k :: k in s.rows && k != id ==> r.rows[k] == s.rows[k]
  {
    if id in s.rows then s.(rows := s.rows[id := s.rows[id].(passwordHash := StoredDigest(password, hash))]) else s
  }

  /** True when a row exists and its hash column is not NULL. */
  function HasPassword(s: Store, id: int): (b: bool)
    ensures b <==> id in s.rows && s.rows[id].passwordHash.Some?
  {
    id in s.rows && s.rows[id].passwordHash.Some?
  }

  /** A missing row, a NULL hash and an empty hash all admit any password; otherwise the digests must match. */
  function VerifyPassword(s: Store, id: int, password: string, hash: Hasher): (ok: bool)
    ensures !HasPassword(s, id) ==> ok
    ensures HasPassword(s, id) && s.rows[id].passwordHash.value != "" ==>
              (ok <==> hash(password) == s.rows[id].passwordHash.value)
    ensures HasPassword(s, id) && s.rows[id].passwordHash.value == "" ==> ok
  {
    if id !in s.rows || s.rows[id].passwordHash.None? || s.rows[id].passwordHash.value == "" then true
    else hash(password) == s.rows[id].passwordHash.value
  }

  /** Setting a non-empty password: the row has a password, and exactly the passwords with the same digest verify. */
  lemma SetThenVerify(s: Store, id: int, p: string, q: string, hash: Hasher)
    requires id in s.rows && p != ""
    requires hash(p) != ""  // a SHA-256 hex digest has 64 characters
    ensures HasPassword(SetPassword(s, id, Some(p), hash), id)
    ensures VerifyPassword(SetPassword(s, id, Some(p), hash), id, p, hash)
    ensures VerifyPassword(SetPassword(s, id, Some(p), hash), id, q, hash) <==> hash(q) == hash(p)
  {
    var r := SetPassword(s, id, Some(p), hash);
    assert r.rows[id].passwordHash == Some(hash(p));
  }

  /** Clearing the password (None or empty): no password remains and every attempt verifies. */
  lemma ClearThenVerify(s: Store, id: int, cleared: Option<string>, q: string, hash: Hasher)
    requires cleared == None || cleared == Some("")
    ensures !HasPassword(SetPassword(s, id, cleared, hash), id)
    ensures VerifyPassword(SetPassword(s, id, cleared, hash), id, q, hash)
  {
    var r := SetPassword(s, id, cleared, hash);
    assert id in r.rows ==> r.rows[id].passwordHash == None;
  }

  // ---------------------------------------------------------------------------
  // Deletion with bounded retries
  // ---------------------------------------------------------------------------

  /** How one `rmtree` call ends. */
  datatype RmOutcome = Removed | PermissionDenied | OtherError

  /** How many `rmtree` calls were made and whether the directory went away. */
  datatype Teardown = Teardown(attempts: nat, dirRemoved: bool)

  /**
    The retry loop from attempt number `attempt` on: a PermissionError is retried
    while attempts remain; success and any other error end the loop.
   */
  function Retry(rmtree: nat -> RmOutcome, attempt: nat): (t: Teardown)
    requires attempt <= MaxRetries
    ensures attempt <= t.attempts <= MaxRetries
    ensures forall k :: attempt <= k < t.attempts - 1 ==> rmtree(k) == PermissionDenied
    ensures t.attempts < MaxRetries ==> attempt < t.attempts && rmtree(t.attempts - 1) != PermissionDenied
    ensures t.dirRemoved <==> attempt < t.attempts && rmtree(t.attempts - 1) == Removed
    decreases MaxRetries - attempt
  {
    if attempt == MaxRetries then Teardown(attempt, false)
    else match rmtree(attempt)
      case Removed => Teardown(attempt + 1, true)
      case OtherError => Teardown(attempt + 1, false)
      case PermissionDenied => Retry(rmtree, attempt + 1)
  }

  datatype Deleted = Deleted(store: Store, teardown: Teardown)

  /** `delete_account`: try to remove the session directory, then delete the row whatever happened. */
  function Delete(s: Store, id: int, rmtree: nat -> RmOutcome): (r: Deleted)
    ensures r.store.rows == s.rows - {id} && r.store.lastId == s.lastId
    ensures r.teardown.attempts <= MaxRetries
    ensures r.teardown.attempts > 0 <==> id in s.rows && s.rows[id].sessionDir in s.dirs
    ensures r.teardown.attempts > 0 ==> r.teardown == Retry(rmtree, 0)
    ensures r.teardown.dirRemoved ==> id in s.rows && r.store.dirs == s.dirs - {s.rows[id].sessionDir}
    ensures !r.teardown.dirRemoved ==> r.store.dirs == s.dirs
  {
    if id in s.rows && s.rows[id].sessionDir in s.dirs then
      var t := Retry(rmtree, 0);
      var dirs := if t.dirRemoved then s.dirs - {s.rows[id].sessionDir} else s.dirs;
      Deleted(Store(s.rows - {id}, s.lastId, dirs), t)
    else
      Deleted(s.(rows := s.rows - {id}), Teardown(0, false))
  }

  /** The retry loop as the source writes it, with at most `MaxRetries` calls of `rmtree`. */
  method DeleteAccount(s: Store, id: int, rmtree: nat -> RmOutcome) returns (r: Deleted)
    ensures r == Delete(s, id, rmtree)
  {
    var dirs := s.dirs;
    var attempts: nat := 0;
    var removed := false;
    if id in s.rows && s.rows[id].sessionDir in s.dirs {
      var dir := s.rows[id].sessionDir;
      var done := false;
      while attempts < MaxRetries && !done
        invariant attempts <= MaxRetries
        invariant !done ==> !removed && Retry(rmtree, attempts) == Retry(rmtree, 0)
        invariant done ==> Teardown(attempts, removed) == Retry(rmtree, 0)
        decreases MaxRetries - attempts, if done then 0 else 1
      {
        match rmtree(attempts) {
          case Removed =>
            removed := true;
            done := true;
          case OtherError =>
            done := true;
          case PermissionDenied =>
        }
        attempts := attempts + 1;
      }
      if removed {
        dirs := dirs - {dir};
      }
    }
    r := Deleted(Store(s.rows - {id}, s.lastId, dirs), Teardown(attempts, removed));
  }

  /** A directory locked on every attempt: three attempts, the directory stays, the row is still gone. */
  lemma LockedDirectoryStillDeletesRow(s: Store, id: int, rmtree: nat -> RmOutcome)
    requires id in s.rows && s.rows[id].sessionDir in s.dirs
    requires forall k: nat :: rmtree(k) == PermissionDenied
    ensures Delete(s, id, rmtree).teardown == Teardown(MaxRetries, false)
    ensures id !in Delete(s, id, rmtree).store.rows
    ensures s.rows[id].sessionDir in Delete(s, id, rmtree).store.dirs
  {
    assert Retry(rmtree, 2) == Teardown(3, false);
    assert Retry(rmtree, 1) == Teardown(3, false);
    assert Retry(rmtree, 0) == Teardown(3, false);
  }

  // ---------------------------------------------------------------------------
  // Listing
  // ---------------------------------------------------------------------------

  /** The ids name rows and are ordered by `last_active`, most recent first. */
  ghost predicate ByRecency(rows: map<int, Row>, ids: seq<int>) {
    && (forall i :: 0 <= i < |ids| ==> ids[i] in rows)
    && (forall i, j :: 0 <= i < j < |ids| ==> rows[ids[i]].lastActive >= rows[ids[j]].lastActive)
  }

  /** Inserts an id into a recency-ordered list after every row at least as recent. */
  function InsertByRecency(rows: map<int, Row>, id: int, ids: seq<int>): (r: seq<int>)
    requires id in rows && ByRecency(rows, ids)
    ensures ByRecency(rows, r)
    ensures forall x :: x in r ==> x == id || x in ids
    ensures multiset(r) == multiset(ids) + multiset{id}
  {
    if |ids| == 0 then [id]
    else if rows[id].lastActive > rows[ids[0]].lastActive then [id] + ids
    else
      var rest := InsertByRecency(rows, id, ids[1..]);
      assert ids == [ids[0]] + ids[1..];
      HeadMostRecent(rows, ids);
      LeadKeepsOrder(rows, ids[0], rest);
      [ids[0]] + rest
  }

  /** The head of a recency-ordered listing is at least as recent as every later id. */
  lemma HeadMostRecent(rows: map<int, Row>, ids: seq<int>)
    requires ByRecency(rows, ids) && |ids| > 0
    ensures forall x :: x in ids[1..] ==> x in rows && rows[x].lastActive <= rows[ids[0]].lastActive
  {
    forall x | x in ids[1..] ensures x in rows && rows[x].lastActive <= rows[ids[0]].lastActive {
      var j :| 0 <= j < |ids[1..]| && ids[1..][j] == x;
      assert ids[j + 1] == x;
    }
  }

  /** Putting a row in front of a recency-ordered list keeps it ordered when no later row is more recent. */
  lemma LeadKeepsOrder(rows: map<int, Row>, lead: int, rest: seq<int>)
    requires lead in rows && ByRecency(rows, rest)
    requires forall x :: x in rest ==> x in rows && rows[x].lastActive <= rows[lead].lastActive
    ensures ByRecency(rows, [lead] + rest)
  {
    var r := [lead] + rest;
    forall i, j | 0 <= i < j < |r|
      ensures rows[r[i]].lastActive >= rows[r[j]].lastActive
    {
      if i == 0 {
        assert r[j] == rest[j - 1];
        assert r[j] in rest;
      } else {
        assert r[i] == rest[i - 1] && r[j] == rest[j - 1];
      }
    }
  }

  /** `get_all_accounts`: every row exactly once, most recently active first (ties in no fixed order). */
  method GetAllAccounts(s: Store) returns (ids: seq<int>)
    ensures ByRecency(s.rows, ids)
    ensures multiset(ids) == multiset(s.rows.Keys)
  {
    ids := [];
    var rest := s.rows.Keys;
    while rest != {}
      invariant rest <= s.rows.Keys
      invariant ByRecency(s.rows, ids)
      invariant multiset(ids) + multiset(rest) == multiset(s.rows.Keys)
      decreases |rest|
    {
      if forall k :: k !in rest {
        assert false;
      }
      var k :| k in rest;
      ids := InsertByRecency(s.rows, k, ids);
      rest := rest - {k};
    }
  }

  // ---------------------------------------------------------------------------
  // Schema migration
  // ---------------------------------------------------------------------------

  /** The two columns added after the first release of the schema. */
  datatype Column = ZoomLevelColumn | PasswordHashColumn

  /** A table as found on disk; a row's value for a column the table lacks is meaningless. */
  datatype LegacyTable = LegacyTable(columns: set<Column>, rows: map<int, Row>, lastId: nat, dirs: set<string>)

  /** `init_db`: missing columns are added with their defaults (zoom 1.0, NULL hash); present ones are kept. */
  function InitDb(t: LegacyTable): (s: Store)
    ensures s.rows.Keys == t.rows.Keys && s.lastId == t.lastId && s.dirs == t.dirs
    ensures forall id :: id in s.rows ==>
              && s.rows[id].name == t.rows[id].name
              && s.rows[id].sessionDir == t.rows[id].sessionDir
              && s.rows[id].lastActive == t.rows[id].lastActive
    ensures forall id :: id in s.rows ==>
              s.rows[id].zoom == if ZoomLevelColumn in t.columns then t.rows[id].zoom else DefaultZoom
    ensures forall id :: id in s.rows ==>
              s.rows[id].passwordHash == if PasswordHashColumn in t.columns then t.rows[id].passwordHash else None
  {
    var rows := map id | id in t.rows ::
      var r := t.rows[id];
      r.(zoom := if ZoomLevelColumn in t.columns then r.zoom else DefaultZoom,
         passwordHash := if PasswordHashColumn in t.columns then r.passwordHash else None);
    Store(rows, t.lastId, t.dirs)
  }

  /** Opening a store migrated once more changes nothing: migration is idempotent. */
  lemma InitDbIdempotent(t: LegacyTable)
    ensures var s := InitDb(t);
            InitDb(LegacyTable({ZoomLevelColumn, PasswordHashColumn}, s.rows, s.lastId, s.dirs)) == s
  {
    var s := InitDb(t);
    var s2 := InitDb(LegacyTable({ZoomLevelColumn, PasswordHashColumn}, s.rows, s.lastId, s.dirs));
    assert s2.rows == s.rows;
  }
}
