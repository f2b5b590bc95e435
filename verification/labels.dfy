/**
  The strings the main window derives from its state (gui/main_window.py):
  the window title from the number of open accounts, and each tab's title
  from the account name and whether the account has a password.
 */
module Labels {

  const AppTitle: string := "WhatsApp Manager"
  const LockIcon: char := '\U{1F512}'
  /** The lock emoji and a space, put in front of the titles of password-protected tabs. */
  const LockPrefix: string := [LockIcon, ' ']
  /** The speech-balloon emoji and a space, in front of every account name. */
  const ChatPrefix: string := "\U{1F4AC} "
  /** Names longer than this are cut and marked with an ellipsis. */
  const LabelWidth: nat := 10

  predicate StartsWith(s: string, prefix: string) {
    |prefix| <= |s| && s[..|prefix|] == prefix
  }

  // ---------------------------------------------------------------------------
  // Tab titles
  // ---------------------------------------------------------------------------

  /** The name as shown in a tab: whole when short, else its first ten characters and "...". */
  function Shorten(name: string): (r: string)
    ensures |name| <= LabelWidth ==> r == name
    ensures |name| > LabelWidth ==> |r| == LabelWidth + 3 && StartsWith(r, name[..LabelWidth])
    ensures |name| > LabelWidth ==> r[LabelWidth..] == "..."
    ensures |r| <= LabelWidth + 3
  {
    if |name| <= LabelWidth then name else name[..LabelWidth] + "..."
  }

  /** A tab title: the lock prefix exactly when the account has a password, then the balloon, then the shortened name. */
  function TabTitle(name: string, locked: bool): (r: string)
    ensures StartsWith(r, [LockIcon]) <==> locked
    ensures locked ==> StartsWith(r, LockPrefix)
    ensures |r| == (if locked then 2 else 0) + |ChatPrefix| + |Shorten(name)|
    ensures r[|r| - |Shorten(name)|..] == Shorten(name)
    ensures r[|r| - |Shorten(name)| - |ChatPrefix|..|r| - |Shorten(name)|] == ChatPrefix
  {
    var r := (if locked then LockPrefix else "") + ChatPrefix + Shorten(name);
    assert r[0] == if locked then LockIcon else ChatPrefix[0];
    r
  }

  /** `rename_tab`: the new name's title, keeping the lock prefix when the current title starts with the lock. */
  function RenamedTitle(current: string, newName: string): (r: string)
    ensures StartsWith(r, [LockIcon]) <==> StartsWith(current, [LockIcon])
    ensures |Shorten(newName)| <= |r| && r[|r| - |Shorten(newName)|..] == Shorten(newName)
  {
    TabTitle(newName, StartsWith(current, [LockIcon]))
  }

  /** Renaming a tab keeps its lock marker and shows the new name. */
  lemma RenameKeepsLock(name: string, newName: string, locked: bool)
    ensures RenamedTitle(TabTitle(name, locked), newName) == TabTitle(newName, locked)
  {
  }

  /** `set_tab_password`: the lock prefix is added unless the title already starts with the lock. */
  function LockedTitle(current: string): (r: string)
    ensures StartsWith(r, [LockIcon])
    ensures StartsWith(current, [LockIcon]) ==> r == current
    ensures !StartsWith(current, [LockIcon]) ==> r == LockPrefix + current
  {
    if StartsWith(current, [LockIcon]) then current else LockPrefix + current
  }

  /** Marking a title locked gives the locked title of the same name, whatever it was before. */
  lemma LockedTitleOfTitle(name: string, locked: bool)
    ensures LockedTitle(TabTitle(name, locked)) == TabTitle(name, true)
  {
  }

  /** Python's `str.replace`: every non-overlapping occurrence of `pat`, scanned left to right, becomes `rep`. */
  function ReplaceAll(s: string, pat: string, rep: string): (r: string)
    requires |pat| > 0
    ensures |rep| <= |pat| ==> |r| <= |s|
    decreases |s|
  {
    if |s| < |pat| then s
    else if s[..|pat|] == pat then rep + ReplaceAll(s[|pat|..], pat, rep)
    else [s[0]] + ReplaceAll(s[1..], pat, rep)
  }

  /** `remove_tab_password` as written: when the title starts with the lock prefix, every occurrence of it is deleted. */
  function UnlockedTitleAsWritten(current: string): (r: string)
    ensures !StartsWith(current, LockPrefix) ==> r == current
    ensures StartsWith(current, LockPrefix) ==> |r| <= |current| - |LockPrefix|
  {
    if StartsWith(current, LockPrefix) then ReplaceAll(current, LockPrefix, "") else current
  }

  /** Removing a password as intended: only the leading lock prefix is deleted. */
  function UnlockedTitle(current: string): (r: string)
    ensures StartsWith(current, LockPrefix) ==> LockPrefix + r == current
    ensures !StartsWith(current, LockPrefix) ==> r == current
  {
    if StartsWith(current, LockPrefix) then current[|LockPrefix|..] else current
  }

  /** The intended unlock undoes the lock marker for every name. */
  lemma UnlockedTitleOfTitle(name: string, locked: bool)
    ensures UnlockedTitle(TabTitle(name, locked)) == TabTitle(name, false)
    ensures UnlockedTitle(LockedTitle(TabTitle(name, locked))) == TabTitle(name, false)
  {
    var t := TabTitle(name, true);
    assert t == LockPrefix + TabTitle(name, false);
    if !locked {
      assert !StartsWith(TabTitle(name, false), LockPrefix) by {
        assert !StartsWith(TabTitle(name, false), [LockIcon]);
      }
    }
  }

  /** The lock icon followed by a space occurs somewhere in the string. */
  predicate HasLockPrefix(s: string) {
    exists i :: 0 <= i < |s| - 1 && s[i] == LockIcon && s[i + 1] == ' '
  }

  /** Deleting every lock prefix from a string that contains one makes it shorter. */
  lemma {:induction false} StripAllShortens(s: string)
    requires HasLockPrefix(s)
    ensures |ReplaceAll(s, LockPrefix, "")| < |s|
    decreases |s|
  {
    var i :| 0 <= i < |s| - 1 && s[i] == LockIcon && s[i + 1] == ' ';
    if s[..2] != LockPrefix {
      assert i > 0;
      assert s[1..][i - 1] == LockIcon && s[1..][i] == ' ';
      StripAllShortens(s[1..]);
    }
  }

  /** Deleting every lock prefix from a string without one leaves it as it is. */
  lemma {:induction false} StripAllNoPrefix(s: string)
    requires !HasLockPrefix(s)
    ensures ReplaceAll(s, LockPrefix, "") == s
    decreases |s|
  {
    if |s| >= 2 {
      assert !(s[0] == LockIcon && s[1] == ' ');
      assert s[..2] != LockPrefix by {
        assert s[..2][0] == s[0] && s[..2][1] == s[1];
      }
      forall j | 0 <= j < |s[1..]| - 1
        ensures !(s[1..][j] == LockIcon && s[1..][j + 1] == ' ')
      {
        assert s[1..][j] == s[j + 1] && s[1..][j + 1] == s[j + 2];
      }
      StripAllNoPrefix(s[1..]);
    }
  }

  /** The chat balloon in front of a shortened name adds no lock prefix. */
  lemma ChatPrefixAddsNone(u: string)
    ensures HasLockPrefix(ChatPrefix + u) <==> HasLockPrefix(u)
  {
    var t := ChatPrefix + u;
    if HasLockPrefix(t) {
      var i :| 0 <= i < |t| - 1 && t[i] == LockIcon && t[i + 1] == ' ';
      assert i >= 2;
      assert u[i - 2] == LockIcon && u[i - 1] == ' ';
    }
    if HasLockPrefix(u) {
      var j :| 0 <= j < |u| - 1 && u[j] == LockIcon && u[j + 1] == ' ';
      assert t[j + 2] == LockIcon && t[j + 3] == ' ';
    }
  }

  /**
    The as-written unlock of a locked title gives the unlocked title exactly when
    the part of the name the tab shows contains no lock prefix of its own.
   */
  lemma UnlockAsWrittenExactly(name: string)
    ensures UnlockedTitleAsWritten(TabTitle(name, true)) == TabTitle(name, false) <==> !HasLockPrefix(Shorten(name))
  {
    var u := TabTitle(name, false);
    var t := TabTitle(name, true);
    assert t == LockPrefix + u;
    assert StartsWith(t, LockPrefix);
    assert t[..|LockPrefix|] == LockPrefix && t[|LockPrefix|..] == u;
    assert ReplaceAll(t, LockPrefix, "") == ReplaceAll(u, LockPrefix, "");
    ChatPrefixAddsNone(Shorten(name));
    if HasLockPrefix(Shorten(name)) {
      StripAllShortens(u);
    } else {
      StripAllNoPrefix(u);
    }
  }

  /** A name that itself contains the lock prefix loses it too when the as-written unlock is applied. */
  lemma UnlockAsWrittenMangles()
    ensures var name := LockPrefix + "x";
            UnlockedTitleAsWritten(TabTitle(name, true)) != TabTitle(name, false)
  {
    var name := LockPrefix + "x";
    var t := TabTitle(name, true);
    assert t == [LockIcon, ' ', '\U{1F4AC}', ' ', LockIcon, ' ', 'x'];
    assert StartsWith(t, LockPrefix);
    var tail := ['\U{1F4AC}', ' ', LockIcon, ' ', 'x'];
    assert t[2..] == tail;
    assert ReplaceAll(t, LockPrefix, "") == ReplaceAll(tail, LockPrefix, "");
    assert tail[1..] == [' ', LockIcon, ' ', 'x'];
    assert ReplaceAll(tail, LockPrefix, "") == ['\U{1F4AC}'] + ReplaceAll(tail[1..], LockPrefix, "");
    assert tail[1..][1..] == [LockIcon, ' ', 'x'];
    assert ReplaceAll(tail[1..], LockPrefix, "") == [' '] + ReplaceAll(tail[1..][1..], LockPrefix, "");
    assert [LockIcon, ' ', 'x'][2..] == ['x'];
    assert ReplaceAll([LockIcon, ' ', 'x'], LockPrefix, "") == ['x'];
    assert UnlockedTitleAsWritten(t) == ['\U{1F4AC}', ' ', 'x'];
    assert |TabTitle(name, false)| == 5;
  }

  // ---------------------------------------------------------------------------
  // Window title
  // ---------------------------------------------------------------------------

  predicate IsDigit(c: char) {
    '0' <= c <= '9'
  }

  /** Decimal digits of a natural number, most significant first, as `str(n)` prints them. */
  function Decimal(n: nat): (s: string)
    ensures |s| >= 1
    ensures forall i :: 0 <= i < |s| ==> IsDigit(s[i])
    decreases n
  {
    if n < 10 then [('0' as int + n) as char]
    else Decimal(n / 10) + [('0' as int + n % 10) as char]
  }

  /** The number a string of decimal digits denotes. */
  function DecimalValue(s: string): nat
    requires forall i :: 0 <= i < |s| ==> IsDigit(s[i])
    decreases |s|
  {
    if |s| == 0 then 0
    else
      assert IsDigit(s[|s| - 1]);
      DecimalValue(s[..|s| - 1]) * 10 + (s[|s| - 1] as int - '0' as int)
  }

  /** Reading back the digits of `n` gives `n`. */
  lemma {:induction false} DecimalRoundTrip(n: nat)
    ensures DecimalValue(Decimal(n)) == n
    decreases n
  {
    if n >= 10 {
      var s := Decimal(n);
      assert s[..|s| - 1] == Decimal(n / 10);
      DecimalRoundTrip(n / 10);
    }
  }

  /** `update_window_title`: the application name, followed by the account count for one or more accounts. */
  function WindowTitle(count: nat): (r: string)
    ensures count == 0 ==> r == AppTitle
    ensures count == 1 ==> r == AppTitle + " - 1 account"
    ensures count >= 2 ==> r == AppTitle + " - " + Decimal(count) + " accounts"
  {
    if count == 0 then AppTitle
    else if count == 1 then AppTitle + " - 1 account"
    else AppTitle + " - " + Decimal(count) + " accounts"
  }

  /** Different account counts give different window titles, so the title always tells the count. */
  lemma WindowTitleInjective(a: nat, b: nat)
    requires WindowTitle(a) == WindowTitle(b)
    ensures a == b
  {
    var t := WindowTitle(a);
    if a >= 2 && b >= 2 {
      var da, db := Decimal(a), Decimal(b);
      assert t == AppTitle + " - " + da + " accounts";
      assert t == AppTitle + " - " + db + " accounts";
      assert |da| == |db|;
      assert t[19..19 + |da|] == da;
      assert t[19..19 + |db|] == db;
      DecimalRoundTrip(a);
      DecimalRoundTrip(b);
    }
  }
}
