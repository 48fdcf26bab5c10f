/** The flight list of src/list.c: a sentinel-headed list of Flight_n
    payloads that serves as the catalog, as the search results and as each
    user's order ledger, with lookup, delete, field edit, airport search and
    the comparator-driven bubble sort. */
module ListStore {
  import opened Records

  /** A FlightNode list; `records` are the payloads of the nodes after the
      sentinel head, in link order. */
  class FlightList {
    var records: seq<Flight>

    /** createHead: a head with no successor. */
    constructor ()
      ensures records == []
    {
      records := [];
    }
  }

  /** isnempty: FAILURE for a missing head, ERR_EMPTY for a head without
      records, SUCCESS otherwise. */
  function IsNEmpty(h: FlightList?): (r: Status)
    reads h
    ensures r == Failure <==> h == null
    ensures r == ErrEmpty <==> h != null && h.records == []
    ensures r == Success <==> h != null && h.records != []
  {
    if h == null then Failure else if h.records == [] then ErrEmpty else Success
  }

  /** tail_insert: the list gets a copy of f after its last record. */
  method TailInsert(h: FlightList?, f: Flight) returns (st: Status)
    modifies h
    ensures h == null ==> st == Failure
    ensures h != null ==> st == Success && h.records == old(h.records) + [f]
  {
    if h == null {
      return Failure;
    }
    h.records := h.records + [f];
    return Success;
  }

  /** Position of the first record whose number is num. */
  function FirstIndex(s: seq<Flight>, num: Str): (r: Option<nat>)
    ensures r.Some? ==> r.value < |s| && s[r.value].number == num
    ensures r.Some? ==> forall j :: 0 <= j < r.value ==> s[j].number != num
    ensures r.None? ==> forall j :: 0 <= j < |s| ==> s[j].number != num
  {
    if s == [] then None
    else if s[0].number == num then Some(0)
    else match FirstIndex(s[1..], num)
      case None => None
      case Some(k) => Some(k + 1)
  }

  /** No two records share a flight number. */
  predicate UniqueNumbers(s: seq<Flight>) {
    forall i, j :: 0 <= i < j < |s| ==> s[i].number != s[j].number
  }

  /** get_pos: the first record with the number, none for a missing or
      empty list. */
  method GetPos(h: FlightList?, num: Str) returns (pos: Option<nat>)
    ensures h == null ==> pos == None
    ensures h != null ==> pos == FirstIndex(h.records, num)
  {
    if IsNEmpty(h) != Success {
      return None;
    }
    var i := 0;
    while i < |h.records| && h.records[i].number != num
      invariant 0 <= i <= |h.records|
      invariant forall j :: 0 <= j < i ==> h.records[j].number != num
    {
      i := i + 1;
    }
    pos := if i < |h.records| then Some(i) else None;
  }

  /** The list without its first record numbered num. */
  function DeleteFirst(s: seq<Flight>, num: Str): (r: seq<Flight>)
    ensures FirstIndex(s, num).None? ==> r == s
    ensures FirstIndex(s, num).Some? ==>
      var k := FirstIndex(s, num).value;
      |r| == |s| - 1 && r == s[..k] + s[k + 1..] && multiset(r) + multiset{s[k]} == multiset(s)
  {
    match FirstIndex(s, num)
    case None => s
    case Some(k) =>
      assert s == s[..k] + [s[k]] + s[k + 1..];
      s[..k] + s[k + 1..]
  }

  /** With unique numbers, deleting a number leaves no record carrying it,
      and the numbers stay unique. */
  lemma DeleteRemovesNumber(s: seq<Flight>, num: Str)
    requires UniqueNumbers(s)
    ensures FirstIndex(DeleteFirst(s, num), num).None?
    ensures UniqueNumbers(DeleteFirst(s, num))
  {
    var r := DeleteFirst(s, num);
    if k :| FirstIndex(s, num) == Some(k) {
      forall j | 0 <= j < |r| ensures r[j].number != num {
        if j >= k {
          assert r[j] == s[j + 1];
        }
      }
      forall i, j | 0 <= i < j < |r| ensures r[i].number != r[j].number {
        var i' := if i < k then i else i + 1;
        var j' := if j < k then j else j + 1;
        assert r[i] == s[i'] && r[j] == s[j'];
      }
    }
  }

  /** Appending a record whose number is absent keeps the numbers unique. */
  lemma AppendAbsentKeepsUnique(s: seq<Flight>, f: Flight)
    requires UniqueNumbers(s) && FirstIndex(s, f.number).None?
    ensures UniqueNumbers(s + [f])
  {
    forall i, j | 0 <= i < j < |s + [f]| ensures (s + [f])[i].number != (s + [f])[j].number {
      if j == |s| {
        assert (s + [f])[i] == s[i];
      }
    }
  }

  /** Width of the field that change_node option '1'..'6' overwrites. */
  function FieldWidth(option: Char): nat {
    if option == '1' then AIRLINE_WIDTH
    else if option == '2' || option == '3' then TIME_WIDTH
    else if option == '4' || option == '5' then AIRPORT_WIDTH
    else STATUS_WIDTH
  }

  /** An option '1'..'6' strcpy's msg into its field, which must hold it. */
  predicate EditFits(option: Char, msg: Str) {
    '1' <= option <= '6' ==> Fits(msg, FieldWidth(option))
  }

  /** The record after change_node's switch: options '1'..'6' replace one
      string field, '7' with a parsed price replaces the price, anything
      else leaves the record alone. */
  function Edited(f: Flight, option: Char, msg: Str, parsed: Option<int>): (g: Flight)
    ensures g.number == f.number
    ensures option == '1' ==> g == f.(airline := msg)
    ensures option == '2' ==> g == f.(departureTime := msg)
    ensures option == '3' ==> g == f.(arrivalTime := msg)
    ensures option == '4' ==> g == f.(departureAirport := msg)
    ensures option == '5' ==> g == f.(arrivalAirport := msg)
    ensures option == '6' ==> g == f.(status := msg)
    ensures option == '7' && parsed.Some? ==> g == f.(price := parsed.value)
    ensures !('1' <= option <= '7') || (option == '7' && parsed.None?) ==> g == f
    ensures WellFormed(f) && EditFits(option, msg) ==> WellFormed(g)
  {
    if option == '1' then f.(airline := msg)
    else if option == '2' then f.(departureTime := msg)
    else if option == '3' then f.(arrivalTime := msg)
    else if option == '4' then f.(departureAirport := msg)
    else if option == '5' then f.(arrivalAirport := msg)
    else if option == '6' then f.(status := msg)
    else if option == '7' && parsed.Some? then f.(price := parsed.value)
    else f
  }

  /** Overwriting a record with one of the same number keeps the numbers
      unique (change_node never touches the number). */
  lemma ReplaceKeepsUnique(s: seq<Flight>, k: nat, g: Flight)
    requires UniqueNumbers(s) && k < |s| && g.number == s[k].number
    ensures UniqueNumbers(s[k := g])
  {
  }

  /** change_node. `parsed` is what sscanf("%lf") makes of msg. A missing
      or empty list gives FAILURE, an absent number ERR_NOT_FOUND, an
      unparsable price ERR_INVALID_INPUT, all with no change; otherwise the
      first match is edited and the result is SUCCESS, even for an option
      outside '1'..'7'. */
  method ChangeNode(h: FlightList?, num: Str, option: Char, msg: Str, parsed: Option<int>) returns (st: Status)
    requires EditFits(option, msg)
    modifies h
    ensures h == null ==> st == Failure
    ensures h != null && old(h.records) == [] ==> st == Failure && h.records == old(h.records)
    ensures h != null && old(h.records) != [] && FirstIndex(old(h.records), num).None? ==>
      st == ErrNotFound && h.records == old(h.records)
    ensures h != null && FirstIndex(old(h.records), num).Some? ==>
      var k := FirstIndex(old(h.records), num).value;
      if option == '7' && parsed.None? then
        st == ErrInvalidInput && h.records == old(h.records)
      else
        st == Success && h.records == old(h.records)[k := Edited(old(h.records)[k], option, msg, parsed)]
    ensures h != null && UniqueNumbers(old(h.records)) ==> UniqueNumbers(h.records)
  {
    if IsNEmpty(h) != Success {
      return Failure;
    }
    var pos := GetPos(h, num);
    if pos.None? {
      return ErrNotFound;
    }
    var k := pos.value;
    if option == '7' && parsed.None? {
      return ErrInvalidInput;
    }
    if UniqueNumbers(h.records) {
      ReplaceKeepsUnique(h.records, k, Edited(h.records[k], option, msg, parsed));
    }
    h.records := h.records[k := Edited(h.records[k], option, msg, parsed)];
    return Success;
  }

  /** delete_flight: unlinks the first record with the number; FAILURE,
      with no change, for a missing or empty list or an absent number. */
  method DeleteFlight(h: FlightList?, num: Str) returns (st: Status)
    modifies h
    ensures h == null ==> st == Failure
    ensures h != null ==> h.records == DeleteFirst(old(h.records), num)
    ensures h != null ==> (st == Success <==> FirstIndex(old(h.records), num).Some?)
    ensures st == Success || st == Failure
  {
    if IsNEmpty(h) != Success {
      return Failure;
    }
    var pos := GetPos(h, num);
    if pos.None? {
      return Failure;
    }
    var k := pos.value;
    h.records := h.records[..k] + h.records[k + 1..];
    return Success;
  }

  /** search_info's filter: departure and arrival airport both equal. */
  predicate Matches(f: Flight, dep: Str, arr: Str) {
    f.departureAirport == dep && f.arrivalAirport == arr
  }

  /** The matching records of s, in list order. */
  function SearchResults(s: seq<Flight>, dep: Str, arr: Str): (r: seq<Flight>)
    ensures |r| <= |s|
  {
    if s == [] then []
    else
      var init, last := s[..|s| - 1], s[|s| - 1];
      SearchResults(init, dep, arr) + (if Matches(last, dep, arr) then [last] else [])
  }

  /** Each matching record occurs in the results as often as in s, and no
      other record occurs there. */
  lemma {:induction false} SearchResultsCount(s: seq<Flight>, dep: Str, arr: Str, f: Flight)
    ensures multiset(SearchResults(s, dep, arr))[f] == if Matches(f, dep, arr) then multiset(s)[f] else 0
  {
    if s != [] {
      var init, last := s[..|s| - 1], s[|s| - 1];
      assert s == init + [last];
      SearchResultsCount(init, dep, arr, f);
    }
  }

  /** r can be obtained from s by deleting elements. */
  predicate IsSubsequence(r: seq<Flight>, s: seq<Flight>)
    decreases |s|
  {
    if r == [] then true
    else if s == [] then false
    else if r[|r| - 1] == s[|s| - 1] then IsSubsequence(r[..|r| - 1], s[..|s| - 1])
    else IsSubsequence(r, s[..|s| - 1])
  }

  /** The search results keep the catalog's order. */
  lemma {:induction false} SearchResultsInOrder(s: seq<Flight>, dep: Str, arr: Str)
    ensures IsSubsequence(SearchResults(s, dep, arr), s)
  {
    if s != [] {
      var init, last := s[..|s| - 1], s[|s| - 1];
      var r0 := SearchResults(init, dep, arr);
      SearchResultsInOrder(init, dep, arr);
      if Matches(last, dep, arr) {
        assert (r0 + [last])[..|r0|] == r0;
      } else if r0 != [] {
        var x := r0[|r0| - 1];
        assert multiset(r0)[x] > 0;
        SearchResultsCount(init, dep, arr, x);
        assert SearchResults(s, dep, arr) == r0 + [] == r0;
        assert x != last;
      }
    }
  }

  /** search_info: on a list with records, a fresh list of copies of the
      matching records; otherwise its isnempty status and the previous
      results stay in place. */
  method SearchInfo(h: FlightList?, dep: Str, arr: Str, previous: FlightList?)
    returns (st: Status, results: FlightList?)
    ensures st == IsNEmpty(h)
    ensures st != Success ==> results == previous
    ensures st == Success ==>
      results != null && fresh(results) && results.records == SearchResults(h.records, dep, arr)
  {
    st := IsNEmpty(h);
    if st != Success {
      return st, previous;
    }
    var found := new FlightList();
    var i := 0;
    while i < |h.records|
      invariant 0 <= i <= |h.records|
      invariant found.records == SearchResults(h.records[..i], dep, arr)
    {
      assert h.records[..i + 1][..i] == h.records[..i];
      if Matches(h.records[i], dep, arr) {
        var ok := TailInsert(found, h.records[i]);
      }
      i := i + 1;
    }
    assert h.records[..i] == h.records;
    results := found;
  }

  /** The two comparators sort_list is called with. */
  datatype Order = ByDepartureTime | ByPrice

  /** compare_by_departure_time (strcmp > 0) and compare_by_price (>). */
  predicate Greater(o: Order, a: Flight, b: Flight) {
    match o
    case ByDepartureTime => StrGreater(a.departureTime, b.departureTime)
    case ByPrice => a.price > b.price
  }

  /** a and b agree on the key the comparator reads. */
  predicate SameKey(o: Order, a: Flight, b: Flight) {
    match o
    case ByDepartureTime => a.departureTime == b.departureTime
    case ByPrice => a.price == b.price
  }

  /** Both comparators are strict orders: asymmetric, never true on equal
      keys, total on distinct keys, with a transitive complement. */
  lemma GreaterIsStrictOrder(o: Order, a: Flight, b: Flight, c: Flight)
    ensures Greater(o, a, b) ==> !Greater(o, b, a) && !SameKey(o, a, b)
    ensures !SameKey(o, a, b) ==> Greater(o, a, b) || Greater(o, b, a)
    ensures !Greater(o, a, b) && !Greater(o, b, c) ==> !Greater(o, a, c)
  {
    if o == ByDepartureTime {
      StrGreaterAsymmetric(a.departureTime, b.departureTime);
      StrGreaterIrreflexive(a.departureTime);
      StrGreaterTotal(a.departureTime, b.departureTime);
      StrNotGreaterTransitive(a.departureTime, b.departureTime, c.departureTime);
    }
  }

  /** No adjacent pair satisfies the comparator. */
  predicate AdjacentSorted(o: Order, s: seq<Flight>) {
    forall i :: 0 <= i < |s| - 1 ==> !Greater(o, s[i], s[i + 1])
  }

  /** No pair at all is out of order. */
  predicate Sorted(o: Order, s: seq<Flight>) {
    forall i, j :: 0 <= i < j < |s| ==> !Greater(o, s[i], s[j])
  }

  lemma {:induction false} AdjacentSortedIsSorted(o: Order, s: seq<Flight>)
    requires AdjacentSorted(o, s)
    ensures Sorted(o, s)
  {
    if |s| > 1 {
      var t := s[1..];
      assert AdjacentSorted(o, t) by {
        forall i | 0 <= i < |t| - 1 ensures !Greater(o, t[i], t[i + 1]) {
          assert t[i] == s[i + 1] && t[i + 1] == s[i + 2];
        }
      }
      AdjacentSortedIsSorted(o, t);
      forall i, j | 0 <= i < j < |s| ensures !Greater(o, s[i], s[j]) {
        if i == 0 && j > 1 {
          assert !Greater(o, s[1], s[j]) by { assert s[1] == t[0] && s[j] == t[j - 1]; }
          GreaterIsStrictOrder(o, s[0], s[1], s[j]);
        } else if i > 0 {
          assert s[i] == t[i - 1] && s[j] == t[j - 1];
        }
      }
    }
  }

  /** The records of s whose key equals x's, in order. */
  function KeyClass(o: Order, s: seq<Flight>, x: Flight): seq<Flight> {
    if s == [] then []
    else (if SameKey(o, s[0], x) then [s[0]] else []) + KeyClass(o, s[1..], x)
  }

  /** Records with equal keys appear in r in the same relative order as
      in s. */
  ghost predicate Stable(o: Order, r: seq<Flight>, s: seq<Flight>) {
    forall x :: KeyClass(o, r, x) == KeyClass(o, s, x)
  }

  /** r is what sort_list may leave from s: a stable permutation of s with
      no adjacent pair out of order, and s itself when it has fewer than two
      records. */
  ghost predicate IsStableSortOf(o: Order, r: seq<Flight>, s: seq<Flight>) {
    && multiset(r) == multiset(s)
    && Stable(o, r, s)
    && AdjacentSorted(o, r)
    && (|s| <= 1 ==> r == s)
  }

  lemma {:induction false} KeyClassAppend(o: Order, a: seq<Flight>, b: seq<Flight>, x: Flight)
    ensures KeyClass(o, a + b, x) == KeyClass(o, a, x) + KeyClass(o, b, x)
  {
    if a == [] {
      assert a + b == b;
    } else {
      assert (a + b)[0] == a[0] && (a + b)[1..] == a[1..] + b;
      KeyClassAppend(o, a[1..], b, x);
    }
  }

  /** Exchange of the adjacent records at j and j + 1. */
  function Swap(s: seq<Flight>, j: nat): (r: seq<Flight>)
    requires j + 1 < |s|
    ensures |r| == |s| && r[j] == s[j + 1] && r[j + 1] == s[j]
    ensures forall i :: 0 <= i < |s| && i != j && i != j + 1 ==> r[i] == s[i]
  {
    s[j := s[j + 1]][j + 1 := s[j]]
  }

  /** Swapping two records of different keys keeps every key class and the
      multiset of records. */
  lemma SwapKeepsClasses(o: Order, s: seq<Flight>, j: nat)
    requires j + 1 < |s| && !SameKey(o, s[j], s[j + 1])
    ensures multiset(Swap(s, j)) == multiset(s)
    ensures Stable(o, Swap(s, j), s)
  {
    var pre, a, b, post := s[..j], s[j], s[j + 1], s[j + 2..];
    assert s == pre + [a, b] + post;
    assert Swap(s, j) == pre + [b, a] + post;
    forall x ensures KeyClass(o, Swap(s, j), x) == KeyClass(o, s, x) {
      KeyClassSplit3(o, pre, [a, b], post, x);
      KeyClassSplit3(o, pre, [b, a], post, x);
      PairClassSwap(o, a, b, x);
    }
  }

  lemma KeyClassSplit3(o: Order, p: seq<Flight>, m: seq<Flight>, q: seq<Flight>, x: Flight)
    ensures KeyClass(o, p + m + q, x) == KeyClass(o, p, x) + KeyClass(o, m, x) + KeyClass(o, q, x)
  {
    KeyClassAppend(o, p + m, q, x);
    KeyClassAppend(o, p, m, x);
  }

  /** Two records of different keys never share a key class. */
  lemma PairClassSwap(o: Order, a: Flight, b: Flight, x: Flight)
    requires !SameKey(o, a, b)
    ensures KeyClass(o, [a, b], x) == KeyClass(o, [b, a], x)
  {
    assert [a, b][1..] == [b] && [b, a][1..] == [a];
    assert [a][1..] == [] && [b][1..] == [];
  }

  /** sort_list's do-while over the payloads: each pass bubbles adjacent
      pairs up to `end`, swapping when the comparator holds, then moves
      `end` back one node; it stops after a pass without a swap. `end == n`
      stands for the NULL the first pass runs to. */
  method BubbleSort(o: Order, s0: seq<Flight>) returns (s: seq<Flight>)
    ensures IsStableSortOf(o, s, s0)
  {
    s := s0;
    var n := |s|;
    if n < 2 {
      return;
    }
    var end := n;
    var swapped := true;
    while swapped
      invariant 0 <= end <= n && |s| == n
      invariant swapped ==> 1 <= end
      invariant multiset(s) == multiset(s0) && Stable(o, s, s0)
      invariant forall i, k :: 0 <= i < end <= k < n ==> !Greater(o, s[i], s[k])
      invariant forall k :: end <= k < n - 1 ==> !Greater(o, s[k], s[k + 1])
      invariant !swapped ==> forall i :: 0 <= i < end && i + 1 < n ==> !Greater(o, s[i], s[i + 1])
      decreases end
    {
      swapped := false;
      var j := 0;
      while j + 1 < end
        invariant 0 <= j < end && |s| == n
        invariant multiset(s) == multiset(s0) && Stable(o, s, s0)
        invariant forall i, k :: 0 <= i < end <= k < n ==> !Greater(o, s[i], s[k])
        invariant forall k :: end <= k < n - 1 ==> !Greater(o, s[k], s[k + 1])
        invariant forall i :: 0 <= i < j ==> !Greater(o, s[i], s[j])
        invariant !swapped ==> forall i :: 0 <= i < j ==> !Greater(o, s[i], s[i + 1])
        invariant swapped ==> 2 <= end
      {
        if Greater(o, s[j], s[j + 1]) {
          GreaterIsStrictOrder(o, s[j], s[j + 1], s[j]);
          SwapKeepsClasses(o, s, j);
          s := Swap(s, j);
          swapped := true;
        } else {
          forall i | 0 <= i < j ensures !Greater(o, s[i], s[j + 1]) {
            GreaterIsStrictOrder(o, s[i], s[j], s[j + 1]);
          }
        }
        j := j + 1;
      }
      end := j;
    }
  }

  /** sort_list: lists with fewer than two records are left alone; otherwise
      the payloads are rearranged in place into a stable sort. */
  method SortList(h: FlightList?, o: Order)
    modifies h
    ensures h != null ==> IsStableSortOf(o, h.records, old(h.records))
  {
    if h == null || |h.records| < 2 {
      return;
    }
    h.records := BubbleSort(o, h.records);
  }
}
