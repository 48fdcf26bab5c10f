/** The account side of src/flight.c: the hidden password line editor
    (get_password), log-in and registration against data/userinfo.txt
    (log_on, enroll), the account-file bootstrap of init, and the sort menu
    (sort_info). */
module Accounts {
  import opened Records
  import opened ListStore

  /** The byte '\b' that get_password treats as an erase key. */
  const BACKSPACE: Char := '\U{8}'

  /** The effect of one key on the stored password when at most max - 1
      bytes fit before the terminating NUL. */
  function Keystroke(buf: Str, c: Char, max: int): (r: Str)
    ensures c == BACKSPACE && |buf| > 0 ==> r == buf[..|buf| - 1]
    ensures (c != BACKSPACE || |buf| == 0) && |buf| < max - 1 ==> r == buf + [c]
    ensures (c != BACKSPACE || |buf| == 0) && |buf| >= max - 1 ==> r == buf
  {
    if c == BACKSPACE && |buf| > 0 then buf[..|buf| - 1]
    else if |buf| < max - 1 then buf + [c]
    else buf
  }

  /** The stored password after the keys, typed in order. */
  function Fold(keys: Str, max: int): (r: Str)
    ensures max >= 1 ==> |r| < max
    ensures |r| <= |keys|
  {
    if keys == [] then [] else Keystroke(Fold(keys[..|keys| - 1], max), keys[|keys| - 1], max)
  }

  /** The keys before the first newline. */
  function Line(keys: Str): (r: Str)
    ensures r <= keys && '\n' !in r
    ensures |r| < |keys| ==> keys[|r|] == '\n'
  {
    if keys == [] || keys[0] == '\n' then [] else [keys[0]] + Line(keys[1..])
  }

  /** What get_password stores for the given keystrokes. */
  function Typed(keys: Str, max: int): Str {
    Fold(Line(keys), max)
  }

  /** Nothing typed after Enter reaches the password. */
  lemma {:induction false} TypedStopsAtNewline(line: Str, rest: Str, max: int)
    requires '\n' !in line
    ensures Typed(line + ['\n'] + rest, max) == Fold(line, max)
  {
    LineOfTerminated(line, rest);
  }

  lemma {:induction false} LineOfTerminated(line: Str, rest: Str)
    requires '\n' !in line
    ensures Line(line + ['\n'] + rest) == line
  {
    if line != [] {
      assert (line + ['\n'] + rest)[1..] == line[1..] + ['\n'] + rest;
      LineOfTerminated(line[1..], rest);
      assert line == [line[0]] + line[1..];
    }
  }

  /** Without erase keys the password is the line cut to max - 1 bytes. */
  lemma {:induction false} TypedWithoutBackspace(line: Str, max: int)
    requires max >= 1 && BACKSPACE !in line
    ensures Fold(line, max) == Truncate(line, max)
  {
    if line != [] {
      var init := line[..|line| - 1];
      assert BACKSPACE !in init by {
        forall i | 0 <= i < |init| ensures init[i] != BACKSPACE {
          assert init[i] == line[i];
        }
      }
      TypedWithoutBackspace(init, max);
      assert line == init + [line[|line| - 1]];
    }
  }

  /** An erase key takes back the byte typed just before it. */
  lemma {:induction false} BackspaceUndoesKey(line: Str, c: Char, max: int)
    requires c != BACKSPACE && |Fold(line, max)| < max - 1
    ensures Fold(line + [c, BACKSPACE], max) == Fold(line, max)
  {
    var s := line + [c, BACKSPACE];
    assert s[..|s| - 1] == line + [c];
    assert (line + [c])[..|line + [c]| - 1] == line;
  }

  /** On an empty buffer an erase key is stored like any other byte. */
  lemma {:induction false} BackspaceOnEmptyIsStored(line: Str, max: int)
    requires Fold(line, max) == [] && max >= 2
    ensures Fold(line + [BACKSPACE], max) == [BACKSPACE]
  {
    assert (line + [BACKSPACE])[..|line|] == line;
  }

  /** get_password: reads keys up to the first newline, stores the edited
      line in password[0 .. len) and a NUL at password[len], where len is at
      most max_length - 1; bytes from index max_length on are untouched. */
  method GetPassword(password: array<Byte>, maxLength: int, keys: Str) returns (len: nat)
    requires 1 <= maxLength <= password.Length
    requires '\n' in keys
    modifies password
    ensures len < maxLength && password[..len] == Typed(keys, maxLength) && password[len] == '\0'
    ensures forall j :: maxLength <= j < password.Length ==> password[j] == old(password[j])
  {
    ghost var line := Line(keys);
    assert |line| < |keys|;
    var i := 0;
    var k := 0;
    while keys[k] != '\n'
      invariant 0 <= k <= |line| && keys[..k] == line[..k]
      invariant i == |Fold(line[..k], maxLength)| && password[..i] == Fold(line[..k], maxLength)
      invariant forall j :: maxLength <= j < password.Length ==> password[j] == old(password[j])
      decreases |line| - k
    {
      assert k < |line|;
      var ch := keys[k];
      assert line[..k + 1] == line[..k] + [ch];
      if ch == BACKSPACE && i > 0 {
        i := i - 1;
      } else if i < maxLength - 1 {
        password[i] := ch;
        i := i + 1;
      }
      k := k + 1;
    }
    assert line[..k] == line;
    password[i] := '\0';
    return i;
  }

  /** The first account record with the username. */
  function FirstNamed(s: seq<UserRecord>, un: Str): (r: Option<nat>)
    ensures r.Some? ==> r.value < |s| && s[r.value].username == un
    ensures r.Some? ==> forall j :: 0 <= j < r.value ==> s[j].username != un
    ensures r.None? ==> forall j :: 0 <= j < |s| ==> s[j].username != un
  {
    if s == [] then None
    else if s[0].username == un then Some(0)
    else match FirstNamed(s[1..], un)
      case None => None
      case Some(k) => Some(k + 1)
  }

  predicate Matches(a: UserRecord, un: Str, pd: Str) {
    a.username == un && a.password == pd
  }

  /** The first account record with both the username and the password. */
  function FirstCredential(s: seq<UserRecord>, un: Str, pd: Str): (r: Option<nat>)
    ensures r.Some? ==> r.value < |s| && Matches(s[r.value], un, pd)
    ensures r.Some? ==> forall j :: 0 <= j < r.value ==> !Matches(s[j], un, pd)
    ensures r.None? ==> forall j :: 0 <= j < |s| ==> !Matches(s[j], un, pd)
  {
    if s == [] then None
    else if Matches(s[0], un, pd) then Some(0)
    else match FirstCredential(s[1..], un, pd)
      case None => None
      case Some(k) => Some(k + 1)
  }

  /** No two account records share a username. */
  predicate UniqueNames(s: seq<UserRecord>) {
    forall i, j :: 0 <= i < j < |s| ==> s[i].username != s[j].username
  }

  /** The record enroll appends: a plain user with no money. */
  function NewAccount(un: Str, pd: Str): (a: UserRecord)
    ensures a.username == un && a.password == pd && a.kind == User && a.balance == 0
  {
    UserRecord(un, pd, User, 0)
  }

  /** The record init writes into a new account file; its balance is
      whatever malloc left in the struct, given here as `leftover`. */
  function AdminAccount(leftover: int): (a: UserRecord)
    ensures a.username == "admin" && a.password == "123" && a.kind == Admin
  {
    UserRecord("admin", "123", Admin, leftover)
  }

  /** The user scan of enroll. */
  method FindUsername(s: seq<UserRecord>, un: Str) returns (r: Option<nat>)
    ensures r == FirstNamed(s, un)
  {
    var i := 0;
    while i < |s|
      invariant 0 <= i <= |s|
      invariant forall j :: 0 <= j < i ==> s[j].username != un
    {
      if s[i].username == un {
        return Some(i);
      }
      i := i + 1;
    }
    return None;
  }

  /** log_on: FAILURE without an account file; otherwise SUCCESS together
      with a copy of the first record matching both fields, or
      ERR_NOT_FOUND when no record matches both. */
  method LogOn(disk: Disk, un: Str, pd: Str) returns (st: Status, account: Option<UserRecord>)
    ensures disk.userinfo.None? ==> st == Failure && account == None
    ensures disk.userinfo.Some? ==>
      var file := disk.userinfo.value;
      (st == Success <==> exists j :: 0 <= j < |file| && Matches(file[j], un, pd))
      && (st == Success ==> account == Some(file[FirstCredential(file, un, pd).value]))
      && (st != Success ==> st == ErrNotFound && account == None)
  {
    if disk.userinfo.None? {
      return Failure, None;
    }
    var file := disk.userinfo.value;
    var i := 0;
    while i < |file|
      invariant 0 <= i <= |file|
      invariant forall j :: 0 <= j < i ==> !Matches(file[j], un, pd)
    {
      if file[i].username == un && file[i].password == pd {
        assert FirstCredential(file, un, pd) == Some(i) by {
          var r := FirstCredential(file, un, pd);
          assert r.Some? && r.value <= i;
        }
        return Success, Some(file[i]);
      }
      i := i + 1;
    }
    return ErrNotFound, None;
  }

  /** enroll: FAILURE when the account file cannot be opened for update;
      ERR_NOT_FOUND, with nothing written, when the username is taken;
      otherwise exactly one new plain-user record at the end. */
  method Enroll(disk: Disk, un: Str, pd: Str) returns (st: Status)
    requires Fits(un, U) && Fits(pd, P)
    modifies disk
    ensures old(disk.userinfo).None? || !disk.writable ==> st == Failure && disk.userinfo == old(disk.userinfo)
    ensures old(disk.userinfo).Some? && disk.writable ==>
      var file := old(disk.userinfo).value;
      (FirstNamed(file, un).Some? ==> st == ErrNotFound && disk.userinfo == old(disk.userinfo))
      && (FirstNamed(file, un).None? ==> st == Success && disk.userinfo == Some(file + [NewAccount(un, pd)]))
    ensures disk.flights == old(disk.flights) && disk.orders == old(disk.orders) && disk.writable == old(disk.writable)
  {
    if disk.userinfo.None? || !disk.writable {
      return Failure;
    }
    var file := disk.userinfo.value;
    var taken := FindUsername(file, un);
    if taken.Some? {
      return ErrNotFound;
    }
    disk.userinfo := Some(file + [NewAccount(un, pd)]);
    return Success;
  }

  /** With distinct usernames, log-in succeeds exactly when the password of
      the named account matches, and it yields that account. */
  lemma {:induction false} LogOnByName(s: seq<UserRecord>, un: Str, pd: Str)
    requires UniqueNames(s)
    ensures FirstCredential(s, un, pd).Some? <==> FirstNamed(s, un).Some? && s[FirstNamed(s, un).value].password == pd
    ensures FirstCredential(s, un, pd).Some? ==> FirstCredential(s, un, pd) == FirstNamed(s, un)
  {
  }

  /** enroll keeps usernames distinct. */
  lemma {:induction false} EnrollKeepsNamesUnique(s: seq<UserRecord>, un: Str, pd: Str)
    requires UniqueNames(s) && FirstNamed(s, un).None?
    ensures UniqueNames(s + [NewAccount(un, pd)])
  {
    var t := s + [NewAccount(un, pd)];
    forall i, j | 0 <= i < j < |t| ensures t[i].username != t[j].username {
      assert t[i] == s[i];
      if j < |s| {
        assert t[j] == s[j];
      }
    }
  }

  /** After a registration, logging in with the same name and password
      succeeds and yields the new record. */
  lemma {:induction false} EnrollThenLogOn(s: seq<UserRecord>, un: Str, pd: Str)
    requires FirstNamed(s, un).None?
    ensures FirstCredential(s + [NewAccount(un, pd)], un, pd) == Some(|s|)
  {
    var t := s + [NewAccount(un, pd)];
    var r := FirstCredential(t, un, pd);
    assert Matches(t[|s|], un, pd);
    assert r.Some? && r.value <= |s|;
  }

  /** On a new account file the seeded administrator can log in. */
  lemma AdminCanLogOn(leftover: int)
    ensures FirstCredential([AdminAccount(leftover)], "admin", "123") == Some(0)
  {
  }

  /** The account-file bootstrap of init: a missing file is created holding
      the administrator record alone; an existing file is left as it is. */
  method InitAccounts(disk: Disk, leftover: int)
    requires disk.userinfo.Some? || disk.writable
    modifies disk
    ensures old(disk.userinfo).None? ==> disk.userinfo == Some([AdminAccount(leftover)])
    ensures old(disk.userinfo).Some? ==> disk.userinfo == old(disk.userinfo)
    ensures disk.flights == old(disk.flights) && disk.orders == old(disk.orders) && disk.writable == old(disk.writable)
  {
    if disk.userinfo.None? {
      disk.userinfo := Some([AdminAccount(leftover)]);
    }
  }

  /** sort_info: '1' sorts the list by departure time, '2' by price, '3'
      returns BACK, and any other key changes nothing and reports SUCCESS. */
  method SortInfo(h: FlightList?, select: Char) returns (st: Status)
    modifies h
    ensures select == '3' <==> st == Back
    ensures st != Back ==> st == Success
    ensures h != null && select == '1' ==> IsStableSortOf(ByDepartureTime, h.records, old(h.records))
    ensures h != null && select == '2' ==> IsStableSortOf(ByPrice, h.records, old(h.records))
    ensures h != null && select != '1' && select != '2' ==> h.records == old(h.records)
  {
    if select == '1' {
      SortList(h, ByDepartureTime);
    } else if select == '2' {
      SortList(h, ByPrice);
    } else if select == '3' {
      return Back;
    }
    return Success;
  }
}
