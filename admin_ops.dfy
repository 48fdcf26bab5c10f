/** The administrator's side of src/admin.c: paging through the catalog
    (paginated_display), adding, deleting and editing flights
    (set_flight_info, del_flight_info, change_flight_info), rewriting
    data/flights.txt (update_flight_info) and the status counts of
    flight_report. */
module AdminOps {
  import opened Records
  import opened ListStore
  import opened Seed

  const PAGE_SIZE: nat := 11

  /** The "page x/y" denominator: (total + PAGE_SIZE - 1) / PAGE_SIZE. */
  function PageCount(total: nat): nat {
    (total + PAGE_SIZE - 1) / PAGE_SIZE
  }

  /** The highest page index the navigation can reach. */
  function LastPage(total: nat): (p: nat)
    ensures p == if PageCount(total) == 0 then 0 else PageCount(total) - 1
    ensures p * PAGE_SIZE < total || total == 0
    ensures total <= (p + 1) * PAGE_SIZE
  {
    if total == 0 then 0 else (total - 1) / PAGE_SIZE
  }

  /** tolower on a byte. */
  function Lower(c: Char): (r: Char)
    ensures 'A' <= c <= 'Z' ==> r as int == c as int + 32
    ensures !('A' <= c <= 'Z') ==> r == c
  {
    if 'A' <= c <= 'Z' then (c as int + 32) as char else c
  }

  /** The page after one key: 'n' moves forward while a later record
      exists, 'p' moves back from a page after the first, 'q' ends the
      display (None), and anything else stays. Case is ignored. */
  function Turn(page: nat, total: nat, key: Char): (r: Option<nat>)
    ensures Lower(key) == 'q' <==> r.None?
    ensures Lower(key) == 'n' && (page + 1) * PAGE_SIZE < total ==> r == Some(page + 1)
    ensures Lower(key) == 'p' && page > 0 ==> r == Some(page - 1)
    ensures r.Some? && r.value != page ==>
      (Lower(key) == 'n' && (page + 1) * PAGE_SIZE < total) || (Lower(key) == 'p' && page > 0)
  {
    var k := Lower(key);
    if k == 'n' then Some(if (page + 1) * PAGE_SIZE < total then page + 1 else page)
    else if k == 'p' then Some(if page > 0 then page - 1 else page)
    else if k == 'q' then None
    else Some(page)
  }

  /** A key never takes the page outside [0, LastPage(total)]. */
  lemma TurnStaysInRange(page: nat, total: nat, key: Char)
    requires page <= LastPage(total)
    ensures Turn(page, total, key).Some? ==> Turn(page, total, key).value <= LastPage(total)
  {
    if Lower(key) == 'n' && (page + 1) * PAGE_SIZE < total {
      assert total > 0;
      assert (page + 1) * PAGE_SIZE <= total - 1;
      DivBound(page + 1, total - 1);
    }
  }

  lemma DivBound(p: nat, n: nat)
    requires p * PAGE_SIZE <= n
    ensures p <= n / PAGE_SIZE
  {
  }

  /** Some key ends the display. */
  predicate HasQuit(keys: Str) {
    exists i :: 0 <= i < |keys| && Lower(keys[i]) == 'q'
  }

  lemma HasQuitTail(keys: Str)
    requires HasQuit(keys) && Lower(keys[0]) != 'q'
    ensures HasQuit(keys[1..])
  {
    var i :| 0 <= i < |keys| && Lower(keys[i]) == 'q';
    assert i > 0 && keys[1..][i - 1] == keys[i];
  }

  /** The page indices shown, one per key read, starting from `page`;
      the key 'q' ends the sequence. */
  function Shown(page: nat, total: nat, keys: Str): seq<nat>
    requires HasQuit(keys)
    decreases |keys|
  {
    if Lower(keys[0]) == 'q' then [page]
    else
      HasQuitTail(keys);
      [page] + Shown(Turn(page, total, keys[0]).value, total, keys[1..])
  }

  lemma ShownStep(page: nat, total: nat, keys: Str)
    requires HasQuit(keys)
    ensures Lower(keys[0]) == 'q' ==> Shown(page, total, keys) == [page]
    ensures Lower(keys[0]) != 'q' ==>
      HasQuit(keys[1..]) && Shown(page, total, keys) == [page] + Shown(Turn(page, total, keys[0]).value, total, keys[1..])
  {
    if Lower(keys[0]) != 'q' {
      HasQuitTail(keys);
    }
  }

  /** Every page the display shows is within range. */
  lemma {:induction false} ShownInRange(page: nat, total: nat, keys: Str)
    requires HasQuit(keys)
    requires page <= LastPage(total)
    decreases |keys|
    ensures forall i :: 0 <= i < |Shown(page, total, keys)| ==> Shown(page, total, keys)[i] <= LastPage(total)
  {
    if Lower(keys[0]) != 'q' {
      TurnStaysInRange(page, total, keys[0]);
      HasQuitTail(keys);
      ShownInRange(Turn(page, total, keys[0]).value, total, keys[1..]);
    }
  }

  function Min(a: nat, b: nat): nat {
    if a < b then a else b
  }

  /** The records a page shows: indices [page * 11, min(page * 11 + 11, total)). */
  function Window(s: seq<Flight>, page: nat): (w: seq<Flight>)
    ensures |w| <= PAGE_SIZE
    ensures page * PAGE_SIZE < |s| ==> w == s[page * PAGE_SIZE .. Min(page * PAGE_SIZE + PAGE_SIZE, |s|)]
    ensures page * PAGE_SIZE >= |s| ==> w == []
  {
    var start := Min(page * PAGE_SIZE, |s|);
    s[start .. Min(start + PAGE_SIZE, |s|)]
  }

  /** The windows of pages 0 .. n - 1, in order. */
  function Windows(s: seq<Flight>, n: nat): seq<Flight> {
    if n == 0 then [] else Windows(s, n - 1) + Window(s, n - 1)
  }

  lemma {:induction false} WindowsArePrefix(s: seq<Flight>, n: nat)
    ensures Windows(s, n) == s[..Min(n * PAGE_SIZE, |s|)]
  {
    if n > 0 {
      WindowsArePrefix(s, n - 1);
      var a := Min((n - 1) * PAGE_SIZE, |s|);
      var b := Min(n * PAGE_SIZE, |s|);
      assert s[..b] == s[..a] + s[a..b];
    }
  }

  /** Paging from the first to the last page shows every record once, in
      list order. */
  lemma WindowsCoverList(s: seq<Flight>)
    ensures Windows(s, LastPage(|s|) + 1) == s
  {
    WindowsArePrefix(s, LastPage(|s|) + 1);
  }

  lemma AppendAssoc(a: seq<nat>, b: seq<nat>, c: seq<nat>)
    ensures a + b + c == a + (b + c)
  {
  }

  /** The window of each page in turn. */
  function Screens(s: seq<Flight>, pages: seq<nat>): (r: seq<seq<Flight>>)
    ensures |r| == |pages|
    ensures forall i :: 0 <= i < |pages| ==> r[i] == Window(s, pages[i])
  {
    if pages == [] then [] else Screens(s, pages[..|pages| - 1]) + [Window(s, pages[|pages| - 1])]
  }

  /** paginated_display: counts the records, then shows one window per key
      read, following Turn from page 0 until a 'q'. */
  method PaginatedDisplay(list: FlightList, keys: Str) returns (pages: seq<nat>, screens: seq<seq<Flight>>)
    requires HasQuit(keys)
    ensures pages == Shown(0, |list.records|, keys)
    ensures screens == Screens(list.records, pages)
  {
    var records := list.records;
    var total := 0;
    while total < |records|
      invariant 0 <= total <= |records|
    {
      total := total + 1;
    }
    var page := 0;
    var rest := keys;
    pages, screens := [], [];
    while true
      invariant HasQuit(rest)
      invariant pages + Shown(page, total, rest) == Shown(0, total, keys)
      invariant screens == Screens(records, pages)
      decreases |rest|
    {
      ShownStep(page, total, rest);
      if Lower(rest[0]) != 'q' {
        AppendAssoc(pages, [page], Shown(Turn(page, total, rest[0]).value, total, rest[1..]));
      }
      assert (pages + [page])[..|pages|] == pages;
      pages := pages + [page];
      screens := screens + [Window(records, page)];
      var next := Turn(page, total, rest[0]);
      if next.None? {
        return;
      }
      page := next.value;
      rest := rest[1..];
    }
  }

  /** isspace: the bytes sscanf's %s stops at. */
  const WHITESPACE: set<Char> := {' ', '\t', '\n', '\r', '\U{B}', '\U{C}'}

  /** Each of the (at most seven) words that %s stores fits the slot it is
      written into. */
  predicate WordsFit(words: seq<Str>) {
    forall i :: 0 <= i < |words| && i < 7 ==> Fits(words[i], SlotWidth(i))
  }

  /** Whether sscanf fills all eight conversions. */
  predicate Complete(words: seq<Str>, parsePrice: Str -> Option<int>) {
    |words| >= 8 && parsePrice(words[7]).Some?
  }

  /** The words sscanf's %s conversions read from a line. */
  function Words(line: Str): (words: seq<Str>)
    ensures forall i :: 0 <= i < |words| ==> words[i] != []
    ensures forall i, j :: 0 <= i < |words| && 0 <= j < |words[i]| ==> words[i][j] !in WHITESPACE
  {
    Split(line, WHITESPACE)
  }

  /** The %s conversions read back the words of a line that holds them
      separated by single spaces, one word per conversion, in order. */
  lemma WordsOfLine(words: seq<Str>)
    requires forall i :: 0 <= i < |words| ==> IsField(words[i], WHITESPACE)
    ensures Words(Join(words, ' ')) == words
  {
    SplitJoin(words, WHITESPACE, ' ');
  }

  /** set_flight_info inserts: the line is complete, there is a catalog,
      and it has no record with the new number. */
  predicate Accepted(line: Option<Str>, parsePrice: Str -> Option<int>, catalog: FlightList?)
    reads catalog
  {
    line.Some? && Complete(Words(line.value), parsePrice) && catalog != null
    && FirstIndex(catalog.records, Words(line.value)[0]).None?
  }

  /** The record set_flight_info builds from a complete line. */
  function NewFlight(words: seq<Str>, price: int): (f: Flight)
    requires |words| >= 7 && WordsFit(words)
    ensures WellFormed(f) && f.number == words[0] && f.price == price
    ensures forall i :: 0 <= i < 7 ==> Slot(f, i) == words[i]
  {
    Flight(words[0], words[1], words[2], words[3], words[4], words[5], words[6], price)
  }

  /** update_flight_info: data/flights.txt is truncated first; then a
      missing or empty catalog reports its isnempty status with nothing
      written, and otherwise every record is written in list order.
      FAILURE, with the file untouched, when it cannot be opened. */
  method UpdateFlightInfo(catalog: FlightList?, disk: Disk) returns (st: Status)
    modifies disk
    ensures !disk.writable ==> st == Failure && disk.flights == old(disk.flights)
    ensures disk.writable ==> st == IsNEmpty(catalog)
    ensures disk.writable && st != Success ==> disk.flights == Some([])
    ensures disk.writable && st == Success ==> disk.flights == Some(catalog.records)
    ensures disk.userinfo == old(disk.userinfo) && disk.orders == old(disk.orders) && disk.writable == old(disk.writable)
  {
    if !disk.writable {
      return Failure;
    }
    disk.flights := Some([]);
    st := IsNEmpty(catalog);
    if st != Success {
      return;
    }
    var records := catalog.records;
    var i := 0;
    while i < |records|
      invariant 0 <= i <= |records|
      invariant disk.flights == Some(records[..i])
      invariant disk.userinfo == old(disk.userinfo) && disk.orders == old(disk.orders) && disk.writable == old(disk.writable)
    {
      assert records[..i + 1] == records[..i] + [records[i]];
      disk.flights := Some(disk.flights.value + [records[i]]);
      i := i + 1;
    }
    assert records[..i] == records;
  }

  /** set_flight_info on one input line (None: fgets failed). An incomplete
      line gives ERR_INVALID_INPUT and a known number ERR_EXISTS, with no
      change; a missing catalog fails the insert. Otherwise the record is
      appended and the file rewritten; a failed rewrite reports FAILURE but
      the record stays in the catalog. */
  method SetFlightInfo(catalog: FlightList?, disk: Disk, line: Option<Str>, parsePrice: Str -> Option<int>)
    returns (st: Status)
    requires line.Some? ==> WordsFit(Words(line.value))
    modifies catalog, disk
    ensures line.None? ==> st == Failure
    ensures line.Some? && !Complete(Words(line.value), parsePrice) ==> st == ErrInvalidInput
    ensures line.Some? && Complete(Words(line.value), parsePrice) && catalog == null ==> st == Failure
    ensures (line.Some? && Complete(Words(line.value), parsePrice) && catalog != null
      && FirstIndex(old(catalog.records), Words(line.value)[0]).Some?) ==> st == ErrExists
    ensures !old(Accepted(line, parsePrice, catalog)) ==>
      (catalog != null ==> catalog.records == old(catalog.records)) && disk.flights == old(disk.flights)
    ensures st == Success <==> (old(Accepted(line, parsePrice, catalog)) && disk.writable)
    ensures old(Accepted(line, parsePrice, catalog)) ==>
      var words := Words(line.value);
      catalog.records == old(catalog.records) + [NewFlight(words, parsePrice(words[7]).value)]
      && disk.flights == if disk.writable then Some(catalog.records) else old(disk.flights)
    ensures disk.userinfo == old(disk.userinfo) && disk.orders == old(disk.orders) && disk.writable == old(disk.writable)
  {
    if line.None? {
      return Failure;
    }
    var words := Words(line.value);
    if !Complete(words, parsePrice) {
      return ErrInvalidInput;
    }
    var f := NewFlight(words, parsePrice(words[7]).value);
    var pos := GetPos(catalog, f.number);
    if pos.Some? {
      return ErrExists;
    }
    var inserted := TailInsert(catalog, f);
    if inserted != Success {
      return Failure;
    }
    var saved := UpdateFlightInfo(catalog, disk);
    if saved != Success {
      return Failure;
    }
    return Success;
  }

  /** del_flight_info: an absent number (or no catalog) deletes nothing
      and writes nothing; otherwise the first record with the number goes
      and the file is rewritten. Only a failed rewrite reports FAILURE,
      and deleting the last record is one: the rewrite of an empty catalog
      reports ERR_EMPTY after truncating the file. */
  method DelFlightInfo(catalog: FlightList?, disk: Disk, num: Str) returns (st: Status)
    requires Fits(num, NUMBER_WIDTH)
    modifies catalog, disk
    ensures catalog == null || FirstIndex(old(catalog.records), num).None? ==>
      st == Success && (catalog != null ==> catalog.records == old(catalog.records)) && disk.flights == old(disk.flights)
    ensures catalog != null && FirstIndex(old(catalog.records), num).Some? ==>
      catalog.records == DeleteFirst(old(catalog.records), num)
      && (st == Success <==> disk.writable && catalog.records != [])
      && disk.flights == if disk.writable then Some(catalog.records) else old(disk.flights)
    ensures disk.userinfo == old(disk.userinfo) && disk.orders == old(disk.orders) && disk.writable == old(disk.writable)
  {
    var pos := GetPos(catalog, num);
    if pos.None? {
      return Success;
    }
    var deleted := DeleteFlight(catalog, num);
    var saved := UpdateFlightInfo(catalog, disk);
    if saved != Success {
      return Failure;
    }
    return Success;
  }

  /** The menu key change_flight_info ends with: it asks again until one
      of '1'..'7' is typed. */
  function ChosenOption(keys: Str): (m: Char)
    requires exists i :: 0 <= i < |keys| && '1' <= keys[i] <= '7'
    ensures '1' <= m <= '7'
    ensures exists i :: 0 <= i < |keys| && keys[i] == m && forall j :: 0 <= j < i ==> !('1' <= keys[j] <= '7')
  {
    if '1' <= keys[0] <= '7' then keys[0]
    else
      assert exists i :: 0 <= i < |keys[1..]| && '1' <= keys[1..][i] <= '7' by {
        var i :| 0 <= i < |keys| && '1' <= keys[i] <= '7';
        assert i > 0 && keys[1..][i - 1] == keys[i];
      }
      var m := ChosenOption(keys[1..]);
      assert exists i :: 0 <= i < |keys| && keys[i] == m && forall j :: 0 <= j < i ==> !('1' <= keys[j] <= '7') by {
        var i :| 0 <= i < |keys[1..]| && keys[1..][i] == m && forall j :: 0 <= j < i ==> !('1' <= keys[1..][j] <= '7');
        assert keys[i + 1] == m;
        forall j | 0 <= j < i + 1 ensures !('1' <= keys[j] <= '7') {
          if j > 0 {
            assert keys[j] == keys[1..][j - 1];
          }
        }
      }
      m
  }

  /** change_flight_info: an absent number gives ERR_NOT_FOUND before any
      prompt; otherwise the first valid menu key and the new value edit the
      first record with the number, and the file is rewritten. A rejected
      edit or a failed rewrite reports FAILURE. */
  method ChangeFlightInfo(catalog: FlightList, disk: Disk, num: Str, keys: Str, msg: Str, parsePrice: Str -> Option<int>)
    returns (st: Status)
    requires Fits(num, NUMBER_WIDTH)
    requires exists i :: 0 <= i < |keys| && '1' <= keys[i] <= '7'
    requires EditFits(ChosenOption(keys), msg)
    modifies catalog, disk
    ensures FirstIndex(old(catalog.records), num).None? ==>
      st == ErrNotFound && catalog.records == old(catalog.records) && disk.flights == old(disk.flights)
    ensures FirstIndex(old(catalog.records), num).Some? ==>
      var k := FirstIndex(old(catalog.records), num).value;
      var m := ChosenOption(keys);
      if m == '7' && parsePrice(msg).None? then
        st == Failure && catalog.records == old(catalog.records) && disk.flights == old(disk.flights)
      else
        catalog.records == old(catalog.records)[k := Edited(old(catalog.records)[k], m, msg, parsePrice(msg))]
        && (st == Success <==> disk.writable)
        && disk.flights == if disk.writable then Some(catalog.records) else old(disk.flights)
    ensures disk.userinfo == old(disk.userinfo) && disk.orders == old(disk.orders) && disk.writable == old(disk.writable)
  {
    var pos := GetPos(catalog, num);
    if pos.None? {
      return ErrNotFound;
    }
    var i := 0;
    while !('1' <= keys[i] <= '7')
      invariant 0 <= i < |keys|
      invariant forall j :: 0 <= j < i ==> !('1' <= keys[j] <= '7')
      invariant exists j :: i <= j < |keys| && '1' <= keys[j] <= '7'
      decreases |keys| - i
    {
      i := i + 1;
    }
    var m := keys[i];
    assert m == ChosenOption(keys) by {
      FirstValidKey(keys, i);
    }
    var changed := ChangeNode(catalog, num, m, msg, parsePrice(msg));
    if changed != Success {
      return Failure;
    }
    var saved := UpdateFlightInfo(catalog, disk);
    if saved != Success {
      return Failure;
    }
    return Success;
  }

  lemma {:induction false} FirstValidKey(keys: Str, i: nat)
    requires i < |keys| && '1' <= keys[i] <= '7'
    requires forall j :: 0 <= j < i ==> !('1' <= keys[j] <= '7')
    ensures ChosenOption(keys) == keys[i]
  {
    if i > 0 {
      FirstValidKey(keys[1..], i - 1);
    }
  }

  // The status strings flight_report looks for, as UTF-8 bytes.
  const ON_TIME: Str := "\U{E5}\U{87}\U{86}\U{E7}\U{82}\U{B9}"
  const DELAYED: Str := "\U{E5}\U{BB}\U{B6}\U{E8}\U{AF}\U{AF}"
  const CANCELLED: Str := "\U{E5}\U{8F}\U{96}\U{E6}\U{B6}\U{88}"

  /** The number of records whose status is exactly `status`. */
  function CountStatus(s: seq<Flight>, status: Str): (n: nat)
    ensures n <= |s|
  {
    if s == [] then 0
    else CountStatus(s[..|s| - 1], status) + (if s[|s| - 1].status == status then 1 else 0)
  }

  /** No record falls into two buckets: the three counts add up to at most
      the number of records. */
  lemma {:induction false} BucketsDisjoint(s: seq<Flight>)
    ensures CountStatus(s, ON_TIME) + CountStatus(s, DELAYED) + CountStatus(s, CANCELLED) <= |s|
  {
    if s != [] {
      BucketsDisjoint(s[..|s| - 1]);
      assert ON_TIME[1] != DELAYED[1] && ON_TIME[1] != CANCELLED[1] && DELAYED[1] != CANCELLED[1];
    }
  }

  /** flight_report's counters: every record, and the records whose status
      is on time, delayed or cancelled. */
  method FlightReport(catalog: FlightList) returns (total: nat, active: nat, delayed: nat, cancelled: nat)
    ensures total == |catalog.records|
    ensures active == CountStatus(catalog.records, ON_TIME)
    ensures delayed == CountStatus(catalog.records, DELAYED)
    ensures cancelled == CountStatus(catalog.records, CANCELLED)
    ensures active + delayed + cancelled <= total
  {
    var s := catalog.records;
    total, active, delayed, cancelled := 0, 0, 0, 0;
    while total < |s|
      invariant 0 <= total <= |s|
      invariant active == CountStatus(s[..total], ON_TIME)
      invariant delayed == CountStatus(s[..total], DELAYED)
      invariant cancelled == CountStatus(s[..total], CANCELLED)
    {
      assert s[..total + 1][..total] == s[..total];
      var status := s[total].status;
      if status == ON_TIME {
        active := active + 1;
      } else if status == DELAYED {
        delayed := delayed + 1;
      } else if status == CANCELLED {
        cancelled := cancelled + 1;
      }
      total := total + 1;
    }
    assert s[..total] == s;
    BucketsDisjoint(s);
  }
}
