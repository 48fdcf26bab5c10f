/** The signed-in user's side of src/user.c: buying a ticket from the search
    results, cancelling an order, recharging, changing the password, and the
    two account-file rewrites (update_user_balance, modify_personal_info),
    together with the per-user order ledger files of src/order.c. */
module UserOps {
  import opened Records
  import opened ListStore
  import opened Accounts

  /** The money side of a session: the balance and the ordered tickets. */
  datatype Wallet = Wallet(balance: int, ledger: seq<Flight>)

  datatype Outcome = Outcome(status: Status, wallet: Wallet)

  /** The sum of the ticket prices. */
  function Total(s: seq<Flight>): int {
    if s == [] then 0 else Total(s[..|s| - 1]) + s[|s| - 1].price
  }

  lemma {:induction false} TotalConcat(a: seq<Flight>, b: seq<Flight>)
    ensures Total(a + b) == Total(a) + Total(b)
    decreases |b|
  {
    if b == [] {
      assert a + b == a;
    } else {
      assert (a + b)[..|a + b| - 1] == a + b[..|b| - 1];
      TotalConcat(a, b[..|b| - 1]);
    }
  }

  /** The purchase rule of buy_ticket over the search results: an unknown
      number fails; a price above the balance buys nothing but reports
      SUCCESS; otherwise the price is debited and a copy of the first record
      with the number is appended to the ledger. */
  function Purchase(w: Wallet, results: seq<Flight>, num: Str): (o: Outcome)
    ensures FirstIndex(results, num).None? ==> o == Outcome(Failure, w)
    ensures FirstIndex(results, num).Some? ==> o.status == Success
    ensures FirstIndex(results, num).Some? && w.balance < results[FirstIndex(results, num).value].price ==>
      o.wallet == w
    ensures FirstIndex(results, num).Some? && w.balance >= results[FirstIndex(results, num).value].price ==>
      var f := results[FirstIndex(results, num).value];
      o.wallet.balance == w.balance - f.price && o.wallet.ledger == w.ledger + [f]
  {
    match FirstIndex(results, num)
    case None => Outcome(Failure, w)
    case Some(k) =>
      var price := results[k].price;
      if w.balance < price then Outcome(Success, w)
      else Outcome(Success, Wallet(w.balance - price, w.ledger + [results[k]]))
  }

  /** A purchase moves money from the balance into tickets and never
      overdraws: balance plus ticket value is unchanged, and a balance that
      changed is not negative. */
  lemma PurchaseConservesValue(w: Wallet, results: seq<Flight>, num: Str)
    ensures var o := Purchase(w, results, num);
      o.wallet.balance + Total(o.wallet.ledger) == w.balance + Total(w.ledger)
      && (o.wallet != w ==> o.wallet.balance >= 0 && |o.wallet.ledger| == |w.ledger| + 1)
  {
    var o := Purchase(w, results, num);
    if o.wallet != w {
      var f := results[FirstIndex(results, num).value];
      TotalConcat(w.ledger, [f]);
      assert Total([f]) == f.price by {
        assert [f][..0] == [];
      }
    }
  }

  /** Cancellation in view_my_orders: the first ledger entry with the number
      goes, and nothing is refunded; an unknown number fails. */
  function Cancel(w: Wallet, num: Str): (o: Outcome)
    ensures FirstIndex(w.ledger, num).None? <==> o == Outcome(Failure, w)
    ensures FirstIndex(w.ledger, num).Some? ==> o.status == Success
    ensures o.status == Success ==>
      o.wallet.balance == w.balance && o.wallet.ledger == DeleteFirst(w.ledger, num)
  {
    if FirstIndex(w.ledger, num).None? then Outcome(Failure, w)
    else Outcome(Success, Wallet(w.balance, DeleteFirst(w.ledger, num)))
  }

  /** A cancelled ticket's price is forfeited: the ledger's value drops by
      exactly that price while the balance stays. */
  lemma CancelForfeitsPrice(w: Wallet, num: Str)
    requires FirstIndex(w.ledger, num).Some?
    ensures var k := FirstIndex(w.ledger, num).value;
      var o := Cancel(w, num);
      o.wallet.balance == w.balance && Total(o.wallet.ledger) == Total(w.ledger) - w.ledger[k].price
  {
    var s := w.ledger;
    var k := FirstIndex(s, num).value;
    assert s == s[..k] + [s[k]] + s[k + 1..];
    TotalConcat(s[..k] + [s[k]], s[k + 1..]);
    TotalConcat(s[..k], [s[k]]);
    TotalConcat(s[..k], s[k + 1..]);
    assert Total([s[k]]) == s[k].price by {
      assert [s[k]][..0] == [];
    }
  }

  /** The first account record with a's username replaced by a; none when
      no record has that username. */
  function Overwrite(file: seq<UserRecord>, a: UserRecord): (r: Option<seq<UserRecord>>)
    ensures FirstNamed(file, a.username).None? <==> r.None?
    ensures r.Some? ==> var k := FirstNamed(file, a.username).value;
      |r.value| == |file| && r.value[k] == a
      && forall j :: 0 <= j < |file| && j != k ==> r.value[j] == file[j]
  {
    match FirstNamed(file, a.username)
    case None => None
    case Some(k) => Some(file[k := a])
  }

  /** Overwriting an account keeps usernames distinct, and afterwards the
      account logs in with its new password and no longer with another. */
  lemma {:induction false} OverwriteThenLogOn(file: seq<UserRecord>, a: UserRecord, other: Str)
    requires UniqueNames(file) && Overwrite(file, a).Some?
    ensures var r := Overwrite(file, a).value;
      UniqueNames(r)
      && FirstCredential(r, a.username, a.password) == FirstNamed(file, a.username)
      && (other != a.password ==> FirstCredential(r, a.username, other).None?)
  {
    var r := Overwrite(file, a).value;
    var k := FirstNamed(file, a.username).value;
    forall i, j | 0 <= i < j < |r| ensures r[i].username != r[j].username {
      if i != k && j != k {
        assert r[i] == file[i] && r[j] == file[j];
      } else if i == k {
        assert r[j] == file[j] && file[i].username == a.username;
      } else {
        assert r[i] == file[i] && file[j].username == a.username;
      }
    }
    assert FirstNamed(r, a.username) == Some(k) by {
      forall j | 0 <= j < k ensures r[j].username != a.username {
        assert r[j] == file[j];
      }
    }
    LogOnByName(r, a.username, a.password);
    LogOnByName(r, a.username, other);
  }

  /** The account file after the session record is written over the first
      record with its username; unchanged when the file cannot be opened
      for update or has no such record. */
  function SavedAccounts(userinfo: Option<seq<UserRecord>>, writable: bool, a: UserRecord): Option<seq<UserRecord>> {
    if !writable || userinfo.None? then userinfo
    else match Overwrite(userinfo.value, a)
      case None => userinfo
      case Some(r) => Some(r)
  }

  /** The order ledger of a user as read_from_order loads it: a missing
      file is an empty ledger. */
  function SavedLedger(orders: map<Str, seq<Flight>>, un: Str): seq<Flight> {
    if un in orders then orders[un] else []
  }

  /** The signed-in user: the global `user` record and its in-memory order
      ledger (user->userorders). */
  class Session {
    var account: UserRecord
    var orders: FlightList

    /** user_function: the session starts with an empty ledger. */
    constructor (account: UserRecord)
      ensures this.account == account && fresh(orders) && orders.records == []
    {
      this.account := account;
      orders := new FlightList();
    }
  }

  /** update_user_order: data/order/<username>.txt becomes the in-memory
      ledger, in order; FAILURE when it cannot be opened for writing. */
  method UpdateUserOrder(s: Session, disk: Disk) returns (st: Status)
    modifies disk
    ensures st == Success <==> disk.writable
    ensures disk.orders == if disk.writable then old(disk.orders)[s.account.username := s.orders.records] else old(disk.orders)
    ensures disk.flights == old(disk.flights) && disk.userinfo == old(disk.userinfo) && disk.writable == old(disk.writable)
  {
    if !disk.writable {
      return Failure;
    }
    disk.orders := disk.orders[s.account.username := s.orders.records];
    return Success;
  }

  /** read_from_order: a fresh ledger holding the saved orders, in file
      order; a missing file gives an empty ledger. */
  method ReadFromOrder(s: Session, disk: Disk) returns (st: Status)
    modifies s
    ensures st == Success && fresh(s.orders)
    ensures s.orders.records == SavedLedger(disk.orders, s.account.username)
    ensures s.account == old(s.account)
  {
    s.orders := new FlightList();
    var un := s.account.username;
    if un !in disk.orders {
      return Success;
    }
    var saved := disk.orders[un];
    var i := 0;
    while i < |saved|
      invariant 0 <= i <= |saved|
      invariant s.orders.records == saved[..i]
      modifies s.orders
    {
      assert saved[..i + 1] == saved[..i] + [saved[i]];
      var ok := TailInsert(s.orders, saved[i]);
      i := i + 1;
    }
    assert saved[..i] == saved;
    return Success;
  }

  /** update_user_balance: the whole session record is written over the
      first account record with its username; FAILURE, with the file
      unchanged, when it cannot be opened or no record has the username. */
  method UpdateUserBalance(s: Session, disk: Disk) returns (st: Status)
    modifies disk
    ensures st == Success <==> (disk.writable && old(disk.userinfo).Some?
      && FirstNamed(old(disk.userinfo).value, s.account.username).Some?)
    ensures disk.userinfo == SavedAccounts(old(disk.userinfo), disk.writable, s.account)
    ensures disk.flights == old(disk.flights) && disk.orders == old(disk.orders) && disk.writable == old(disk.writable)
  {
    if !disk.writable || disk.userinfo.None? {
      return Failure;
    }
    var file := disk.userinfo.value;
    var k := FindUsername(file, s.account.username);
    if k.None? {
      return Failure;
    }
    disk.userinfo := Some(file[k.value := s.account]);
    return Success;
  }

  /** buy_ticket, choosing a flight from the search results, as written:
      no results give ERR_NOT_FOUND; otherwise the outcome is Purchase on
      the session's balance and in-memory ledger, and after a debit the
      account record is saved before the ticket is appended and the ledger
      file is rewritten from the in-memory ledger. */
  method BuyTicketAsWritten(s: Session, disk: Disk, results: FlightList?, num: Str) returns (st: Status)
    requires results != s.orders
    modifies s, s.orders, disk
    ensures s.orders == old(s.orders)
    ensures IsNEmpty(results) != Success ==>
      st == ErrNotFound && s.account == old(s.account) && s.orders.records == old(s.orders.records)
      && disk.userinfo == old(disk.userinfo) && disk.orders == old(disk.orders)
    ensures IsNEmpty(results) == Success ==>
      var o := Purchase(Wallet(old(s.account.balance), old(s.orders.records)), results.records, num);
      st == o.status && s.account == old(s.account).(balance := o.wallet.balance) && s.orders.records == o.wallet.ledger
      && (o.wallet == Wallet(old(s.account.balance), old(s.orders.records)) ==>
            disk.userinfo == old(disk.userinfo) && disk.orders == old(disk.orders))
      && (o.wallet != Wallet(old(s.account.balance), old(s.orders.records)) ==>
            disk.userinfo == SavedAccounts(old(disk.userinfo), disk.writable, s.account)
            && disk.orders == if disk.writable then old(disk.orders)[s.account.username := s.orders.records] else old(disk.orders))
    ensures disk.flights == old(disk.flights) && disk.writable == old(disk.writable)
  {
    if IsNEmpty(results) != Success {
      return ErrNotFound;
    }
    var pos := GetPos(results, num);
    if pos.None? {
      return Failure;
    }
    var f := results.records[pos.value];
    if s.account.balance < f.price {
      return Success;
    }
    s.account := s.account.(balance := s.account.balance - f.price);
    var saved := UpdateUserBalance(s, disk);
    var appended := TailInsert(s.orders, f);
    var written := UpdateUserOrder(s, disk);
    return Success;
  }

  /** The first purchase of a session, as written, replaces the saved order
      file by the new ticket alone: an account with one saved order A that
      buys B is left with the file [B] and not [A, B]. */
  method LostOrdersScenario(a: Flight, b: Flight) returns (saved: seq<Flight>)
    ensures saved == [b]
  {
    var account := UserRecord("alice", "pw", User, b.price);
    var disk := new Disk(None, Some([account]), map["alice" := [a]], true);
    var s := new Session(account);
    var results := new FlightList();
    results.records := [b];
    var st := BuyTicketAsWritten(s, disk, results, b.number);
    saved := disk.orders["alice"];
  }

  /** buy_ticket with the saved orders loaded before buying, so that a
      purchase adds one ticket to the ledger file instead of replacing it. */
  method BuyTicket(s: Session, disk: Disk, results: FlightList?, num: Str) returns (st: Status)
    modifies s, s.orders, disk
    ensures IsNEmpty(results) == Success ==>
      var before := Wallet(old(s.account.balance), SavedLedger(old(disk.orders), old(s.account.username)));
      var o := Purchase(before, results.records, num);
      st == o.status && s.account == old(s.account).(balance := o.wallet.balance) && s.orders.records == o.wallet.ledger
      && (o.wallet != before && disk.writable ==>
            SavedLedger(disk.orders, s.account.username) == SavedLedger(old(disk.orders), s.account.username) + [results.records[FirstIndex(results.records, num).value]])
      && (o.wallet == before ==> disk.userinfo == old(disk.userinfo) && disk.orders == old(disk.orders))
      && (o.wallet != before ==>
            disk.userinfo == SavedAccounts(old(disk.userinfo), disk.writable, s.account)
            && disk.orders == (if disk.writable then old(disk.orders)[s.account.username := s.orders.records] else old(disk.orders)))
    ensures IsNEmpty(results) != Success ==>
      st == ErrNotFound && disk.orders == old(disk.orders) && disk.userinfo == old(disk.userinfo)
    ensures IsNEmpty(results) != Success ==>
      s.account == old(s.account) && s.orders.records == SavedLedger(old(disk.orders), old(s.account.username))
    ensures s.account.username == old(s.account.username)
    ensures disk.flights == old(disk.flights) && disk.writable == old(disk.writable)
  {
    var loaded := ReadFromOrder(s, disk);
    st := BuyTicketAsWritten(s, disk, results, num);
  }

  /** One cancellation in view_my_orders: the first ledger entry with the
      number is removed and the ledger file rewritten; an unknown number
      reports FAILURE and changes nothing. The balance is untouched. */
  method CancelOrder(s: Session, disk: Disk, num: Str) returns (st: Status)
    modifies s.orders, disk
    ensures var o := Cancel(Wallet(s.account.balance, old(s.orders.records)), num);
      st == o.status && s.orders.records == o.wallet.ledger
    ensures st == Success ==>
      disk.orders == if disk.writable then old(disk.orders)[s.account.username := s.orders.records] else old(disk.orders)
    ensures st != Success ==> disk.orders == old(disk.orders)
    ensures disk.flights == old(disk.flights) && disk.userinfo == old(disk.userinfo) && disk.writable == old(disk.writable)
  {
    st := DeleteFlight(s.orders, num);
    if st != Success {
      return Failure;
    }
    var written := UpdateUserOrder(s, disk);
    return Success;
  }

  /** recharge_balance: the amount is added to the balance with no sign or
      bound check and the account record is saved. A failed save reports
      FAILURE; on success control runs off the end of the C function, so no
      status is returned (None). */
  method RechargeBalance(s: Session, disk: Disk, amount: int) returns (st: Option<Status>)
    modifies s, disk
    ensures s.account == old(s.account).(balance := old(s.account.balance) + amount)
    ensures s.orders == old(s.orders)
    ensures disk.userinfo == SavedAccounts(old(disk.userinfo), disk.writable, s.account)
    ensures st == None <==> (disk.writable && old(disk.userinfo).Some?
      && FirstNamed(old(disk.userinfo).value, s.account.username).Some?)
    ensures st != None ==> st == Some(Failure)
    ensures disk.flights == old(disk.flights) && disk.orders == old(disk.orders) && disk.writable == old(disk.writable)
  {
    s.account := s.account.(balance := s.account.balance + amount);
    var saved := UpdateUserBalance(s, disk);
    if saved != Success {
      return Some(Failure);
    }
    return None;
  }

  /** modify_personal_info: the new password is read with get_password into
      a char[P], at most P - 1 bytes of it replace the session password, and
      the session record is written over the first account record with its
      username. The session keeps the new password even when the save
      fails. */
  method ModifyPersonalInfo(s: Session, disk: Disk, keys: Str) returns (st: Status)
    requires '\n' in keys
    modifies s, disk
    ensures s.account == old(s.account).(password := Typed(keys, P))
    ensures s.orders == old(s.orders)
    ensures st == Success <==> (disk.writable && old(disk.userinfo).Some?
      && FirstNamed(old(disk.userinfo).value, s.account.username).Some?)
    ensures disk.userinfo == SavedAccounts(old(disk.userinfo), disk.writable, s.account)
    ensures disk.flights == old(disk.flights) && disk.orders == old(disk.orders) && disk.writable == old(disk.writable)
  {
    var buffer := new Byte[P](_ => '\0');
    var len := GetPassword(buffer, P, keys);
    var typed: Str := buffer[..len];
    s.account := s.account.(password := Truncate(typed, P));
    st := UpdateUserBalance(s, disk);
  }
}
