/** Start-up loading of the catalog in src/list.c: the binary flight file
    (load_flights_from_file), its rewrite (save_flights_to_file), the
    comma-separated seed file (load_flights_from_csv) and the order in which
    list() tries them. */
module Seed {
  import opened Records
  import opened ListStore

  /** The char line[256] buffer that fgets fills. */
  const LINE_BUFFER: nat := 256

  /** How many bytes one fgets call takes from s when it may store `room`
      of them: through the first newline, at most `room`. */
  function ChunkLength(s: Str, room: nat): (n: nat)
    ensures n <= |s| && n <= room
    ensures s != [] && room > 0 ==> n > 0
    ensures forall i :: 0 <= i < n - 1 ==> s[i] != '\n'
    ensures n < |s| && n < room ==> n > 0 && s[n - 1] == '\n'
  {
    if s == [] || room == 0 then 0
    else if s[0] == '\n' then 1
    else 1 + ChunkLength(s[1..], room - 1)
  }

  /** The successive strings fgets(line, 256, fp) returns for a file. */
  function Chunks(file: Str): (r: seq<Str>)
    ensures forall i :: 0 <= i < |r| ==> 0 < |r[i]| < LINE_BUFFER
    decreases |file|
  {
    if file == [] then []
    else
      var n := ChunkLength(file, LINE_BUFFER - 1);
      [file[..n]] + Chunks(file[n..])
  }

  function Flatten(ss: seq<Str>): Str {
    if ss == [] then [] else ss[0] + Flatten(ss[1..])
  }

  /** The chunks are the file, cut into pieces. */
  lemma {:induction false} ChunksCoverFile(file: Str)
    ensures Flatten(Chunks(file)) == file
    decreases |file|
  {
    if file != [] {
      var n := ChunkLength(file, LINE_BUFFER - 1);
      ChunksCoverFile(file[n..]);
      assert ([file[..n]] + Chunks(file[n..]))[1..] == Chunks(file[n..]);
      assert file == file[..n] + file[n..];
    }
  }

  /** The lines after the header, which the loader reads in its loop. */
  function Body(file: Str): seq<Str> {
    var lines := Chunks(file);
    if lines == [] then [] else lines[1..]
  }

  /** The header line is skipped: the body lines, joined, are the file after
      its first line. */
  lemma BodyFollowsHeader(file: Str)
    requires file != []
    ensures Flatten(Body(file)) == file[ChunkLength(file, LINE_BUFFER - 1)..]
  {
    ChunksCoverFile(file[ChunkLength(file, LINE_BUFFER - 1)..]);
  }

  /** Length of the leading run of s that has no byte of d. */
  function RunLength(s: Str, d: set<Char>): (n: nat)
    ensures n <= |s|
    ensures forall i :: 0 <= i < n ==> s[i] !in d
    ensures n < |s| ==> s[n] in d
  {
    if s == [] || s[0] in d then 0 else 1 + RunLength(s[1..], d)
  }

  /** The tokens strtok returns when it splits s at the delimiters d: runs
      of delimiters are skipped, so no token is empty. */
  function Split(s: Str, d: set<Char>): (r: seq<Str>)
    ensures forall i :: 0 <= i < |r| ==> r[i] != []
    ensures forall i, j :: 0 <= i < |r| && 0 <= j < |r[i]| ==> r[i][j] !in d
    decreases |s|
  {
    if s == [] then []
    else if s[0] in d then Split(s[1..], d)
    else
      var n := RunLength(s, d);
      [s[..n]] + Split(s[n..], d)
  }

  /** s with every byte of d deleted. */
  function Strip(s: Str, d: set<Char>): Str {
    if s == [] then [] else (if s[0] in d then [] else [s[0]]) + Strip(s[1..], d)
  }

  lemma {:induction false} StripAppend(a: Str, b: Str, d: set<Char>)
    ensures Strip(a + b, d) == Strip(a, d) + Strip(b, d)
  {
    if a == [] {
      assert a + b == b;
    } else {
      assert (a + b)[0] == a[0] && (a + b)[1..] == a[1..] + b;
      StripAppend(a[1..], b, d);
    }
  }

  lemma {:induction false} StripRun(s: Str, d: set<Char>)
    requires forall i :: 0 <= i < |s| ==> s[i] !in d
    ensures Strip(s, d) == s
  {
    if s != [] {
      StripRun(s[1..], d);
      assert s == [s[0]] + s[1..];
    }
  }

  /** Splitting loses exactly the delimiters: the tokens, joined, are s
      without its delimiter bytes. */
  lemma {:induction false} SplitKeepsContent(s: Str, d: set<Char>)
    ensures Flatten(Split(s, d)) == Strip(s, d)
    decreases |s|
  {
    if s != [] {
      if s[0] in d {
        SplitKeepsContent(s[1..], d);
      } else {
        var n := RunLength(s, d);
        SplitKeepsContent(s[n..], d);
        assert ([s[..n]] + Split(s[n..], d))[1..] == Split(s[n..], d);
        assert s == s[..n] + s[n..];
        StripAppend(s[..n], s[n..], d);
        StripRun(s[..n], d);
      }
    }
  }

  const COMMA: set<Char> := {','}

  /** A token strtok can return for the delimiters d: non-empty, without a
      delimiter byte. */
  predicate IsField(t: Str, d: set<Char>) {
    t != [] && forall i :: 0 <= i < |t| ==> t[i] !in d
  }

  /** The line holding the given fields, each pair separated by `sep`. */
  function Join(fields: seq<Str>, sep: Char): Str {
    if fields == [] then []
    else if |fields| == 1 then fields[0]
    else fields[0] + ([sep] + Join(fields[1..], sep))
  }

  lemma {:induction false} RunLengthOfField(t: Str, rest: Str, d: set<Char>)
    requires forall i :: 0 <= i < |t| ==> t[i] !in d
    requires rest == [] || rest[0] in d
    ensures RunLength(t + rest, d) == |t|
  {
    if t != [] {
      assert (t + rest)[1..] == t[1..] + rest;
      RunLengthOfField(t[1..], rest, d);
    }
  }

  /** strtok recovers the fields of a line joined by one of its delimiters,
      one token per field, in order. */
  lemma {:induction false} SplitJoin(fields: seq<Str>, d: set<Char>, sep: Char)
    requires sep in d
    requires forall i :: 0 <= i < |fields| ==> IsField(fields[i], d)
    ensures Split(Join(fields, sep), d) == fields
  {
    if fields != [] {
      var t := fields[0];
      var rest: Str := if |fields| == 1 then [] else [sep] + Join(fields[1..], sep);
      var s := Join(fields, sep);
      assert s == t + rest;
      RunLengthOfField(t, rest, d);
      assert s[0] == t[0] && s[0] !in d;
      assert s[..|t|] == t && s[|t|..] == rest;
      assert Split(s, d) == [t] + Split(rest, d);
      if |fields| == 1 {
        assert fields == [t];
      } else {
        assert rest[0] in d && rest[1..] == Join(fields[1..], sep);
        SplitJoin(fields[1..], d, sep);
        assert fields == [t] + fields[1..];
      }
    }
  }

  /** The i-th token copied into a zeroed char[width], or the empty string
      when the line has no i-th token. */
  function FieldOrEmpty(tokens: seq<Str>, i: nat, width: nat): Str
    requires width >= 1
  {
    if i < |tokens| then Truncate(tokens[i], width) else []
  }

  /** The record the loader builds from the tokens of one line; `atof` is
      the host's conversion of the eighth token to cents. */
  function SeedRecord(tokens: seq<Str>, atof: Str -> int): (f: Flight)
    requires tokens != [] && tokens[0] != []
    ensures WellFormed(f) && f.number != []
    ensures f.number == Truncate(tokens[0], NUMBER_WIDTH)
    ensures |tokens| <= 6 ==> f.status == []
    ensures |tokens| <= 7 ==> f.price == 0
    ensures |tokens| >= 8 ==> f.price == atof(tokens[7])
    ensures f.airline == FieldOrEmpty(tokens, 1, AIRLINE_WIDTH)
    ensures f.departureTime == FieldOrEmpty(tokens, 2, TIME_WIDTH)
    ensures f.arrivalTime == FieldOrEmpty(tokens, 3, TIME_WIDTH)
    ensures f.departureAirport == FieldOrEmpty(tokens, 4, AIRPORT_WIDTH)
    ensures f.arrivalAirport == FieldOrEmpty(tokens, 5, AIRPORT_WIDTH)
    ensures f.status == FieldOrEmpty(tokens, 6, STATUS_WIDTH)
  {
    Flight(
      Truncate(tokens[0], NUMBER_WIDTH),
      FieldOrEmpty(tokens, 1, AIRLINE_WIDTH),
      FieldOrEmpty(tokens, 2, TIME_WIDTH),
      FieldOrEmpty(tokens, 3, TIME_WIDTH),
      FieldOrEmpty(tokens, 4, AIRPORT_WIDTH),
      FieldOrEmpty(tokens, 5, AIRPORT_WIDTH),
      FieldOrEmpty(tokens, 6, STATUS_WIDTH),
      if 7 < |tokens| then atof(tokens[7]) else 0)
  }

  /** Loading one seed line: slot i of the record is the line's i-th field
      cut to its width, or empty when the line has fewer fields, and the
      price is the converted eighth field, or 0 without one. */
  lemma SeedLineFields(fields: seq<Str>, atof: Str -> int)
    requires fields != [] && forall i :: 0 <= i < |fields| ==> IsField(fields[i], COMMA)
    ensures Split(Join(fields, ','), COMMA) != []
    ensures var f := SeedRecord(Split(Join(fields, ','), COMMA), atof);
      && (forall i :: 0 <= i < 7 ==>
            Slot(f, i) == (if i < |fields| then Truncate(fields[i], SlotWidth(i)) else []))
      && f.price == (if |fields| >= 8 then atof(fields[7]) else 0)
  {
    SplitJoin(fields, COMMA, ',');
    SeedRecordSlots(fields, atof);
  }

  /** Slot i of a seeded record is token i cut to the slot's width, or empty
      when the line has no token i. */
  lemma SeedRecordSlots(tokens: seq<Str>, atof: Str -> int)
    requires tokens != [] && tokens[0] != []
    ensures var f := SeedRecord(tokens, atof);
      forall i :: 0 <= i < 7 ==>
        Slot(f, i) == (if i < |tokens| then Truncate(tokens[i], SlotWidth(i)) else [])
  {
  }

  /** strtok does not skip a blank line: its newline is the first token, so
      the loader stores a record numbered "\n". */
  lemma BlankLineRecord(atof: Str -> int)
    ensures var f := SeedRecord(Split("\n", COMMA), atof);
      f.number == "\n" && f.airline == [] && f.price == 0
  {
  }

  /** The records the loader appends for the given lines, in order; a line
      without any token is skipped. */
  function SeedRecords(lines: seq<Str>, atof: Str -> int): (r: seq<Flight>)
    ensures |r| <= |lines|
  {
    if lines == [] then []
    else
      var tokens := Split(lines[|lines| - 1], COMMA);
      SeedRecords(lines[..|lines| - 1], atof) + (if tokens == [] then [] else [SeedRecord(tokens, atof)])
  }

  /** Every seeded record fits Flight_n and has a number. */
  lemma {:induction false} SeedRecordsWellFormed(lines: seq<Str>, atof: Str -> int)
    ensures forall f :: f in SeedRecords(lines, atof) ==> WellFormed(f) && f.number != []
  {
    if lines != [] {
      SeedRecordsWellFormed(lines[..|lines| - 1], atof);
    }
  }

  /** A seed of lines that each hold a token yields one record per line,
      the i-th record built from the i-th line. */
  lemma {:induction false} SeedRecordsOnePerLine(lines: seq<Str>, atof: Str -> int)
    requires forall i :: 0 <= i < |lines| ==> Split(lines[i], COMMA) != []
    ensures |SeedRecords(lines, atof)| == |lines|
    ensures forall i :: 0 <= i < |lines| ==> SeedRecords(lines, atof)[i] == SeedRecord(Split(lines[i], COMMA), atof)
  {
    if lines != [] {
      var init := lines[..|lines| - 1];
      var last := Split(lines[|lines| - 1], COMMA);
      SeedRecordsOnePerLine(init, atof);
      var r := SeedRecords(lines, atof);
      assert r == SeedRecords(init, atof) + [SeedRecord(last, atof)];
      forall i | 0 <= i < |lines|
        ensures r[i] == SeedRecord(Split(lines[i], COMMA), atof)
      {
        if i < |init| {
          assert lines[i] == init[i];
        }
      }
    }
  }

  /** load_flights_from_csv: a missing seed gives FAILURE and leaves the
      catalog as it was; otherwise a fresh catalog holds the records of
      every line after the header, in file order. */
  method LoadFlightsFromCsv(seed: Option<Str>, atof: Str -> int, current: FlightList?)
    returns (st: Status, catalog: FlightList?)
    ensures seed.None? ==> st == Failure && catalog == current
    ensures seed.Some? ==>
      st == Success && catalog != null && fresh(catalog) && catalog.records == SeedRecords(Body(seed.value), atof)
  {
    if seed.None? {
      return Failure, current;
    }
    var lines := Body(seed.value);
    var list := new FlightList();
    var i := 0;
    while i < |lines|
      invariant 0 <= i <= |lines|
      invariant list.records == SeedRecords(lines[..i], atof)
    {
      assert lines[..i + 1][..i] == lines[..i];
      var tokens := Split(lines[i], COMMA);
      if tokens != [] {
        var ok := TailInsert(list, SeedRecord(tokens, atof));
      }
      i := i + 1;
    }
    assert lines[..i] == lines;
    return Success, list;
  }

  /** load_flights_from_file: without data/flights.txt, FAILURE and the
      catalog is untouched; otherwise its records are appended, in file
      order, to the catalog, which is created first when missing. */
  method LoadFlightsFromFile(disk: Disk, current: FlightList?) returns (st: Status, catalog: FlightList?)
    modifies current
    ensures disk.flights.None? ==> st == Failure && catalog == current
    ensures current != null && disk.flights.None? ==> current.records == old(current.records)
    ensures disk.flights.Some? ==> st == Success && catalog != null
    ensures disk.flights.Some? && current == null ==> fresh(catalog) && catalog.records == disk.flights.value
    ensures disk.flights.Some? && current != null ==>
      catalog == current && catalog.records == old(current.records) + disk.flights.value
  {
    if disk.flights.None? {
      return Failure, current;
    }
    catalog := current;
    if catalog == null {
      catalog := new FlightList();
    }
    var file := disk.flights.value;
    ghost var before := catalog.records;
    var i := 0;
    while i < |file|
      invariant 0 <= i <= |file|
      invariant catalog.records == before + file[..i]
      modifies catalog
    {
      assert file[..i + 1] == file[..i] + [file[i]];
      var ok := TailInsert(catalog, file[i]);
      i := i + 1;
    }
    assert file[..i] == file;
    return Success, catalog;
  }

  /** save_flights_to_file: data/flights.txt becomes the catalog's records,
      in order; FAILURE without a catalog or when the file cannot be
      opened. */
  method SaveFlightsToFile(disk: Disk, catalog: FlightList?) returns (st: Status)
    modifies disk
    ensures st == Success <==> catalog != null && disk.writable
    ensures st == Success ==> disk.flights == Some(catalog.records)
    ensures st != Success ==> disk.flights == old(disk.flights)
    ensures disk.userinfo == old(disk.userinfo) && disk.orders == old(disk.orders)
    ensures disk.writable == old(disk.writable)
  {
    if catalog == null || !disk.writable {
      return Failure;
    }
    disk.flights := Some(catalog.records);
    return Success;
  }

  /** list(): the binary file first; failing that, the seed, which is then
      saved in binary form; failing both, the catalog is left as it was.
      It always reports SUCCESS. */
  method LoadCatalog(disk: Disk, seed: Option<Str>, atof: Str -> int, current: FlightList?)
    returns (st: Status, catalog: FlightList?)
    modifies disk, current
    ensures st == Success
    ensures old(disk.flights).Some? ==> catalog != null && disk.flights == old(disk.flights)
    ensures old(disk.flights).Some? && current == null ==> fresh(catalog) && catalog.records == old(disk.flights).value
    ensures old(disk.flights).Some? && current != null ==>
      catalog == current && catalog.records == old(current.records) + old(disk.flights).value
    ensures old(disk.flights).None? && seed.Some? ==>
      catalog != null && catalog.records == SeedRecords(Body(seed.value), atof)
      && disk.flights == (if disk.writable then Some(catalog.records) else None)
    ensures old(disk.flights).None? && seed.None? ==> catalog == current && disk.flights == None
    ensures old(disk.flights).None? && current != null ==> current.records == old(current.records)
    ensures old(disk.flights).None? && seed.Some? ==> fresh(catalog)
    ensures disk.userinfo == old(disk.userinfo) && disk.orders == old(disk.orders)
    ensures disk.writable == old(disk.writable)
  {
    var loaded;
    loaded, catalog := LoadFlightsFromFile(disk, current);
    if loaded == Success {
      return Success, catalog;
    }
    var seeded;
    seeded, catalog := LoadFlightsFromCsv(seed, atof, catalog);
    if seeded == Success {
      var saved := SaveFlightsToFile(disk, catalog);
    }
    return Success, catalog;
  }

  /** Once the seed has been imported into a writable directory, the next
      start-up loads the same records from the binary file. */
  method SeedThenReload(disk: Disk, seed: Str, atof: Str -> int) returns (first: seq<Flight>, second: seq<Flight>)
    requires disk.flights.None? && disk.writable
    modifies disk
    ensures first == SeedRecords(Body(seed), atof) && second == first
  {
    var st, catalog := LoadCatalog(disk, Some(seed), atof, null);
    first := catalog.records;
    var st2, reloaded := LoadCatalog(disk, None, atof, null);
    second := reloaded.records;
  }
}
