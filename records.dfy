/** Types shared by the whole system: the flight record (include/list.h),
    the account record and its permission levels (include/flight.h), the
    status codes (include/head.h), C-string slots and `strcmp`, and the data
    files the program keeps on disk. */
module Records {

  datatype Option<T> = None | Some(value: T)

  /** A byte as the program stores it; text is kept as the bytes the C code
      sees (UTF-8 for non-ASCII text), so every width counts bytes. */
  type Byte = c: char | c <= '\U{FF}'

  /** A byte of C-string content: anything but the terminating NUL. */
  type Char = c: Byte | c != '\0' witness 'a'

  type Str = seq<Char>

  // Field widths of struct flight_n, NUL included.
  const NUMBER_WIDTH: nat := 10
  const AIRLINE_WIDTH: nat := 20
  const TIME_WIDTH: nat := 10
  const AIRPORT_WIDTH: nat := 10
  const STATUS_WIDTH: nat := 10

  // Username and password widths of struct usertype.
  const U: nat := 20
  const P: nat := 20

  /** s fits in a char[width] slot together with its terminating NUL. */
  predicate Fits(s: Str, width: nat) {
    |s| < width
  }

  /** What strncpy(dst, s, width - 1) leaves in a zeroed char[width]. */
  function Truncate(s: Str, width: nat): (r: Str)
    requires width >= 1
    ensures Fits(r, width) && r <= s
    ensures Fits(s, width) ==> r == s
    ensures !Fits(s, width) ==> |r| == width - 1
  {
    if |s| < width then s else s[..width - 1]
  }

  /** Flight_n; the price is in cents. */
  datatype Flight = Flight(
    number: Str,
    airline: Str,
    departureTime: Str,
    arrivalTime: Str,
    departureAirport: Str,
    arrivalAirport: Str,
    status: Str,
    price: int)

  /** Every string field of the record fits its slot of Flight_n. */
  predicate WellFormed(f: Flight) {
    && Fits(f.number, NUMBER_WIDTH)
    && Fits(f.airline, AIRLINE_WIDTH)
    && Fits(f.departureTime, TIME_WIDTH)
    && Fits(f.arrivalTime, TIME_WIDTH)
    && Fits(f.departureAirport, AIRPORT_WIDTH)
    && Fits(f.arrivalAirport, AIRPORT_WIDTH)
    && Fits(f.status, STATUS_WIDTH)
  }

  /** The width of the i-th string slot of Flight_n, in declaration order
      (number, airline, the two times, the two airports, status). */
  function SlotWidth(i: nat): nat {
    if i == 0 then NUMBER_WIDTH
    else if i == 1 then AIRLINE_WIDTH
    else if i == 2 || i == 3 then TIME_WIDTH
    else if i == 4 || i == 5 then AIRPORT_WIDTH
    else STATUS_WIDTH
  }

  /** The i-th string field of a record, in the same order. */
  function Slot(f: Flight, i: nat): Str
    requires i < 7
  {
    if i == 0 then f.number
    else if i == 1 then f.airline
    else if i == 2 then f.departureTime
    else if i == 3 then f.arrivalTime
    else if i == 4 then f.departureAirport
    else if i == 5 then f.arrivalAirport
    else f.status
  }

  /** enum permission: ADMIN = 0, USER = 1, SVIP = 2. */
  datatype Permission = Admin | User | Svip

  /** struct usertype as it is written to data/userinfo.txt; the balance is
      in cents. The order-list link stored in the struct is not data. */
  datatype UserRecord = UserRecord(username: Str, password: Str, kind: Permission, balance: int)

  /** The status codes of head.h. */
  datatype Status = Success | Failure | ErrInvalidInput | ErrNotFound | ErrExists | ErrEmpty | Back | ExitSystem
  {
    function Code(): int {
      match this
      case Success => 0
      case Failure => -1
      case ErrInvalidInput => -10
      case ErrNotFound => -11
      case ErrExists => -12
      case ErrEmpty => -13
      case Back => 1
      case ExitSystem => 2
    }
  }

  /** strcmp(a, b) > 0 for NUL-free strings: at the first differing byte a
      has the larger one, or b is a proper prefix of a. */
  predicate StrGreater(a: Str, b: Str) {
    if |a| == 0 then false
    else if |b| == 0 then true
    else if a[0] != b[0] then a[0] > b[0]
    else StrGreater(a[1..], b[1..])
  }

  /** A proper prefix compares below the longer string, and a string never
      compares above one it is a prefix of. */
  lemma {:induction false} StrGreaterPrefix(a: Str, b: Str)
    ensures b < a ==> StrGreater(a, b)
    ensures a <= b ==> !StrGreater(a, b)
  {
    if |a| > 0 && |b| > 0 && a[0] == b[0] {
      StrGreaterPrefix(a[1..], b[1..]);
      assert b < a ==> b[1..] < a[1..];
      assert a <= b ==> a[1..] <= b[1..];
    }
  }

  lemma {:induction false} StrGreaterIrreflexive(a: Str)
    ensures !StrGreater(a, a)
  {
    if |a| > 0 {
      StrGreaterIrreflexive(a[1..]);
    }
  }

  lemma {:induction false} StrGreaterAsymmetric(a: Str, b: Str)
    ensures StrGreater(a, b) ==> !StrGreater(b, a)
  {
    if |a| > 0 && |b| > 0 && a[0] == b[0] {
      StrGreaterAsymmetric(a[1..], b[1..]);
    }
  }

  /** Distinct strings are ordered one way or the other. */
  lemma {:induction false} StrGreaterTotal(a: Str, b: Str)
    ensures a != b ==> StrGreater(a, b) || StrGreater(b, a)
  {
    if |a| > 0 && |b| > 0 && a[0] == b[0] {
      StrGreaterTotal(a[1..], b[1..]);
      if a[1..] == b[1..] {
        assert a == [a[0]] + a[1..] && b == [b[0]] + b[1..];
      }
    }
  }

  /** "Not greater" (strcmp <= 0) is transitive. */
  lemma {:induction false} StrNotGreaterTransitive(a: Str, b: Str, c: Str)
    ensures !StrGreater(a, b) && !StrGreater(b, c) ==> !StrGreater(a, c)
  {
    if |a| > 0 && |b| > 0 && |c| > 0 {
      StrNotGreaterTransitive(a[1..], b[1..], c[1..]);
    }
  }

  /** The data directory: data/flights.txt and data/userinfo.txt as record
      sequences (None: the file does not exist), data/order/<user>.txt per
      username, and whether files can be opened for writing. */
  class Disk {
    var flights: Option<seq<Flight>>
    var userinfo: Option<seq<UserRecord>>
    var orders: map<Str, seq<Flight>>
    var writable: bool

    constructor (flights: Option<seq<Flight>>, userinfo: Option<seq<UserRecord>>,
                 orders: map<Str, seq<Flight>>, writable: bool)
      ensures this.flights == flights && this.userinfo == userinfo
      ensures this.orders == orders && this.writable == writable
    {
      this.flights := flights;
      this.userinfo := userinfo;
      this.orders := orders;
      this.writable := writable;
    }
  }
}
