# Flight Management: a verified model of the record stores and protocols

This Dafny project models the core of a terminal flight-booking program written in C:

- **Flight catalog.** The catalog (`List`), the search results (`Searchlist`) and every user's order ledger are the same sentinel-headed linked list of `Flight_n` records (`src/list.c`).
  - The list operations are modelled: append, first-match lookup, deletion, one-field edit, airport search and bubble sort.
  - So is start-up loading: the binary flight file first, then the comma-separated seed file.
- **Accounts** (`src/flight.c`).
  - A hidden-input password line editor.
  - Log-in and registration against the account file.
  - The creation of the administrator account when the file is missing.
  - The sort menu.
- **User protocols** (`src/user.c`, with the ledger files of `src/order.c`).
  - Buying a ticket from the search results.
  - Cancelling an order.
  - Recharging.
  - Changing the password.
  - The in-place rewrite of the first matching account record.
- **Administrator protocols** (`src/admin.c`).
  - Page navigation.
  - Insert-if-absent, delete and edit of flights.
  - Rewriting the flight file.
  - The status counts of the flight report.

Modelling choices:

- **Shared types** (module `Records`): the record types, the status codes of `include/head.h`, and `strcmp` ordering.
- **Text is bytes.** A `Char` is a non-NUL byte and a string is `seq<Char>`, so every width counts bytes. The report's Chinese status strings appear as their UTF-8 bytes.
- **Widths.** `Fits(s, w)` means "fits a `char[w]` with its NUL". `Truncate` is `strncpy(dst, s, w - 1)` into a zeroed slot.
- **Money.** Prices and balances are integers (cents). The `atof`/`sscanf("%lf")` conversions are function parameters.
- **The list** is a class `FlightList` whose field `records: seq<Flight>` is reassigned by the operations that change it. The scanning loops of the C code (`get_pos`, `search_info`, the sort, the loaders, the report counters) stay loops with invariants.
- **The data directory** is a class `Disk`:
  - `data/flights.txt` and `data/userinfo.txt` as optional record sequences (None: no file);
  - `data/order/<user>.txt` as a map from username to ledger;
  - a flag saying whether files can be opened for writing.
- **The global `user`** is a class `Session`: the account record and its in-memory ledger.

Where the code differs from what its comments or names suggest, the model follows the code:

- `enroll` reports an existing username as `ERR_NOT_FOUND`, not `ERR_EXISTS`.
- `buy_ticket` reports `SUCCESS` when the balance is too low.
- A trailing partial record in a binary file is dropped silently.
- `sort_list` narrows the unsorted range by one record per pass.
- A blank line in the seed file is not skipped. `strtok(line, ",")` returns its newline as the first token, so the loader stores a record numbered `"\n"` with every other field empty.
- `del_flight_info` reports `FAILURE` after deleting the last flight, because rewriting an empty catalog returns `ERR_EMPTY` once the file has been truncated.

## Model

| member | source | states |
|---|---|---|
| Records.Truncate | src/list.c:38-62 | strncpy into a zeroed char[w]: the result fits the slot, is a prefix of the input, equals it when it fits and has exactly w - 1 bytes otherwise |
| Records.StrGreater | src/list.c:444-447 | strcmp(a, b) > 0 on strings without NUL: at the first differing byte a has the larger one, or b is a proper prefix of a (definition; its properties are the lemmas below) |
| Records.StrGreaterPrefix | src/list.c:444-447 | a string compares above each of its proper prefixes and never above a string it is a prefix of |
| Records.StrGreaterIrreflexive | src/list.c:444-447 | strcmp(a, a) > 0 never holds |
| Records.StrGreaterAsymmetric | src/list.c:444-447 | strcmp(a, b) > 0 excludes strcmp(b, a) > 0 |
| Records.StrGreaterTotal | src/list.c:444-447 | distinct strings are ordered one way or the other |
| Records.StrNotGreaterTransitive | src/list.c:444-447 | strcmp(a, b) <= 0 and strcmp(b, c) <= 0 give strcmp(a, c) <= 0 |
| ListStore.FlightList.constructor | src/list.c:205-216 | createHead yields a list with no records |
| ListStore.IsNEmpty | src/list.c:243-254 | FAILURE exactly for a missing list, ERR_EMPTY exactly for an empty one, SUCCESS otherwise |
| ListStore.TailInsert | src/list.c:263-281 | a missing list gives FAILURE; otherwise the record is appended at the tail and the earlier records are unchanged |
| ListStore.FirstIndex | src/list.c:320-336 | the index of the first record with the number, none when no record has it |
| ListStore.GetPos | src/list.c:320-336 | the scan returns the first record with the number, none for a missing or empty list |
| ListStore.DeleteFirst | src/list.c:345-359 | without the number the list is unchanged; otherwise only the first match is removed, the rest keep their order and the multiset loses exactly that record |
| ListStore.DeleteRemovesNumber | src/list.c:345-359 | with unique numbers, after deletion no record carries the number and numbers stay unique |
| ListStore.ReplaceKeepsUnique | src/list.c:379-408 | overwriting a record by one with the same number keeps numbers unique, as change_node never edits the number |
| ListStore.AppendAbsentKeepsUnique | src/list.c:263-281 | appending a record with a new number keeps numbers unique |
| ListStore.Edited | src/list.c:379-408 | options '1'..'6' replace exactly one string field, '7' with a parsed price replaces the price, other options change nothing; the number never changes and fitting fields keep the record well formed |
| ListStore.ChangeNode | src/list.c:370-410 | FAILURE for a missing or empty list, ERR_NOT_FOUND for an absent number, ERR_INVALID_INPUT for an unparsable price, all without change; otherwise the first match is edited and SUCCESS is returned, including for an option outside '1'..'7'; unique numbers stay unique |
| ListStore.DeleteFlight | src/list.c:345-359 | SUCCESS exactly when the number is present; the new list is the old one without its first match; nothing changes otherwise |
| ListStore.Matches | src/list.c:430 | search_info's test: both the departure and the arrival airport equal the requested ones (definition; SearchResultsCount states its use) |
| ListStore.SearchResults | src/list.c:427-433 | the results are no longer than the list |
| ListStore.SearchResultsCount | src/list.c:427-433 | each record matching both airports occurs in the results as often as in the list, and no other record occurs |
| ListStore.SearchResultsInOrder | src/list.c:427-433 | the results are a subsequence of the list, in list order |
| ListStore.SearchInfo | src/list.c:420-435 | the status is that of isnempty; a missing or empty list leaves the previous results in place; otherwise a fresh list holds the matching records in order |
| ListStore.Greater | src/list.c:444-459 | compare_by_departure_time is strcmp > 0 on departure times and compare_by_price is > on prices (definition; GreaterIsStrictOrder states its properties) |
| ListStore.GreaterIsStrictOrder | src/list.c:444-459 | both comparators are asymmetric, false on equal keys, total on distinct keys, with a transitive complement |
| ListStore.AdjacentSortedIsSorted | src/list.c:474-495 | no adjacent inversion implies no inversion at all |
| ListStore.KeyClassAppend | src/list.c:484-491 | the records of one key class in a concatenation are those of the parts, in order |
| ListStore.Swap | src/list.c:487-489 | swapping neighbours exchanges exactly those two records |
| ListStore.SwapKeepsClasses | src/list.c:484-491 | swapping neighbours with different keys keeps every key class's order |
| ListStore.BubbleSort | src/list.c:467-496 | the result is a permutation of the input with no adjacent pair the comparator calls greater, with equal keys keeping their relative order; the do-while terminates |
| ListStore.SortList | src/list.c:467-496 | the list becomes a stable sort of itself; lists of fewer than two records are untouched |
| Seed.ChunkLength | src/list.c:21-29 | one fgets call takes at most 255 bytes, stops after the first newline and takes at least one byte of a non-empty rest |
| Seed.BodyFollowsHeader | src/list.c:19-29 | the header line is skipped: the lines the loop reads, joined, are the file after its first line |
| Seed.Chunks | src/list.c:21-29 | every string fgets returns is non-empty and shorter than the 256-byte buffer |
| Seed.ChunksCoverFile | src/list.c:21-29 | the strings fgets returns, joined, are the whole file |
| Seed.RunLength | src/list.c:35-64 | the length of the leading run without a delimiter |
| Seed.Split | src/list.c:35-64 | strtok tokens are non-empty and contain no delimiter |
| Seed.SplitJoin | src/list.c:35-64 | a line made of non-empty, delimiter-free fields joined by one of the delimiters splits back into exactly those fields, one token per field, in order |
| Seed.SplitKeepsContent | src/list.c:35-64 | the tokens, joined, are the line without its delimiter bytes |
| Seed.SeedRecord | src/list.c:31-66 | the record is well formed; its number is the truncated first token; each of airline, the two times, the two airports and status is its own token truncated to its slot, or empty when the line has no such token; the price is atof of the eighth token, or 0 without one |
| Seed.SeedRecordSlots | src/list.c:35-62 | slot i of the record, in declaration order, is token i truncated to the width of that slot, or empty when the line has fewer tokens |
| Seed.SeedLineFields | src/list.c:35-66 | loading a line of comma-separated fields puts field i, truncated to its width, into slot i, leaves slots beyond the last field empty and converts the eighth field to the price |
| Seed.BlankLineRecord | src/list.c:35-38 | a blank line is not skipped: its newline becomes the record's number, the other fields stay empty and the price 0 |
| Seed.SeedRecords | src/list.c:29-69 | at most one record per line |
| Seed.SeedRecordsWellFormed | src/list.c:29-69 | every seeded record fits its slots and has a number |
| Seed.SeedRecordsOnePerLine | src/list.c:29-69 | lines that hold a token yield one record each, in file order |
| Seed.LoadFlightsFromCsv | src/list.c:9-74 | a missing seed gives FAILURE and keeps the catalog; otherwise a fresh catalog holds the records of the lines after the header, in order |
| Seed.LoadFlightsFromFile | src/list.c:81-128 | without the file FAILURE and no change; otherwise the file's records are appended in order to the catalog, created when missing |
| Seed.SaveFlightsToFile | src/list.c:135-175 | the flight file becomes the catalog exactly when there is a catalog and the file can be opened; FAILURE and no change otherwise |
| Seed.LoadCatalog | src/list.c:182-198 | always SUCCESS; the binary file wins, into a new list when there was none; failing it, the seed is loaded and saved in binary form; failing both, the catalog reference and its records are kept; a seeded catalog is a new list; an existing catalog gets the file's records appended after its own |
| Seed.SeedThenReload | src/list.c:182-198 | after the seed has been imported into a writable directory, the next start-up loads the same records |
| Accounts.Keystroke | src/flight.c:23-30 | '\b' removes the last byte only when one is stored; any other key, or '\b' on an empty buffer, is stored when there is room and dropped otherwise |
| Accounts.Fold | src/flight.c:21-31 | the stored password never exceeds max_length - 1 bytes |
| Accounts.Line | src/flight.c:21 | the keys before the first newline |
| Accounts.TypedStopsAtNewline | src/flight.c:21 | keys after Enter never reach the password |
| Accounts.TypedWithoutBackspace | src/flight.c:27-30 | without erase keys the password is the line cut to max_length - 1 bytes |
| Accounts.BackspaceUndoesKey | src/flight.c:23-26 | an erase key takes back the byte typed just before it |
| Accounts.BackspaceOnEmptyIsStored | src/flight.c:23-30 | on an empty buffer '\b' is stored like an ordinary byte |
| Accounts.GetPassword | src/flight.c:8-36 | the array holds the edited line in [0, len) and NUL at len, with len < max_length; bytes from max_length on are untouched |
| Accounts.FirstNamed | src/flight.c:233-241 | the index of the first account with the username, none when there is none |
| Accounts.FirstCredential | src/flight.c:183-201 | the index of the first account matching both username and password, none when there is none |
| Accounts.NewAccount | src/flight.c:244-247 | the new record has the given username and password, type 1 (user) and balance 0 |
| Accounts.AdminAccount | src/flight.c:59-61 | the seeded record is "admin"/"123" with type 0 (administrator) |
| Accounts.FindUsername | src/flight.c:233-241 | the scan finds the first account with the username |
| Accounts.LogOn | src/flight.c:164-205 | FAILURE without an account file; SUCCESS exactly when some record matches both fields, with a copy of the first such record; ERR_NOT_FOUND otherwise |
| Accounts.Enroll | src/flight.c:213-263 | FAILURE when the file cannot be opened for update; ERR_NOT_FOUND with nothing written for a taken username; otherwise exactly one new user record at the end and the others unchanged |
| Accounts.LogOnByName | src/flight.c:183-204 | with distinct usernames, log-in succeeds exactly when the named account's password matches, and yields that account |
| Accounts.EnrollKeepsNamesUnique | src/flight.c:233-258 | registration keeps usernames distinct |
| Accounts.EnrollThenLogOn | src/flight.c:244-258 | after registering, log-in with the same name and password finds the new record |
| Accounts.AdminCanLogOn | src/flight.c:47-64 | the seeded administrator can log in |
| Accounts.InitAccounts | src/flight.c:47-65 | a missing account file is created holding only the administrator record; an existing one is kept |
| Accounts.SortInfo | src/flight.c:290-316 | '1' sorts by departure time, '2' by price, '3' returns BACK with no change, any other key returns SUCCESS with no change |
| UserOps.Purchase | src/user.c:135-171 | an absent number fails with no change; a price above the balance changes nothing; otherwise the balance drops by exactly the price and a copy of the chosen record is appended |
| UserOps.TotalConcat | src/user.c:152-161 | ticket value adds up over concatenation |
| UserOps.PurchaseConservesValue | src/user.c:146-161 | balance plus ticket value is unchanged by a purchase, and a purchase that changed the wallet leaves a balance >= 0 and one more ticket |
| UserOps.Cancel | src/user.c:236-250 | an absent number fails with no change; a present one succeeds, removing only the first ledger entry with the number and keeping the balance |
| UserOps.CancelForfeitsPrice | src/user.c:236-250 | a cancellation lowers the ledger value by exactly the ticket's price and refunds nothing |
| UserOps.Overwrite | src/user.c:341-356 | only the first account with the username is replaced, by the whole session record; none when no account has it |
| UserOps.OverwriteThenLogOn | src/user.c:378-409 | after the overwrite usernames stay distinct, the account logs in with its new password and no longer with any other |
| UserOps.Session.constructor | src/user.c:15 | a session starts with an empty in-memory ledger |
| UserOps.UpdateUserOrder | src/order.c:12-47 | the user's ledger file becomes the in-memory ledger when it can be opened for writing; FAILURE and no change otherwise |
| UserOps.ReadFromOrder | src/order.c:59-98 | a fresh ledger holds the saved orders in file order; a missing file gives an empty ledger |
| UserOps.UpdateUserBalance | src/user.c:330-363 | the whole session record overwrites the first account with its username; FAILURE with no change when the file cannot be opened or no account matches |
| UserOps.BuyTicketAsWritten | src/user.c:101-171 | no results give ERR_NOT_FOUND; otherwise the outcome is Purchase on the session, and a debit is saved to the account file before the ticket is appended and the ledger file rewritten |
| UserOps.LostOrdersScenario | src/user.c:15 | a first purchase in a session replaces the saved ledger [A] by [B] instead of [A, B] |
| UserOps.BuyTicket | src/user.c:101-171 | with the saved ledger loaded first, the outcome is Purchase on the balance and the saved ledger; a purchase leaves the ledger file as the saved ledger plus the new ticket and saves the debited account record; without a purchase, and without search results, the account file and the ledger files are unchanged; without search results the session keeps its balance and holds the saved ledger |
| UserOps.CancelOrder | src/user.c:230-251 | the outcome is Cancel on the ledger; a success rewrites the ledger file, a failure changes nothing |
| UserOps.RechargeBalance | src/user.c:304-321 | the amount is added with no sign or bound check and the record saved; FAILURE when the save fails and no status when it succeeds |
| UserOps.ModifyPersonalInfo | src/user.c:370-417 | the session password becomes the typed line cut to P - 1 bytes, kept even when the save fails; the record then overwrites the first account with its username |
| AdminOps.LastPage | src/admin.c:58-79 | the last page index is max(0, (total + 10) / 11 - 1), and its window holds the last record |
| AdminOps.Lower | src/admin.c:67 | tolower on a byte |
| AdminOps.Turn | src/admin.c:67-79 | 'n' advances only while (page + 1) * 11 < total, 'p' goes back only from page > 0, 'q' ends the display; case is ignored |
| AdminOps.TurnStaysInRange | src/admin.c:67-79 | no key takes the page outside [0, LastPage(total)] |
| AdminOps.ShownInRange | src/admin.c:25-80 | every page shown is within range |
| AdminOps.Window | src/admin.c:30-55 | a page shows the records at [page * 11, min(page * 11 + 11, total)) |
| AdminOps.WindowsArePrefix | src/admin.c:30-55 | the windows of the first n pages form the list's prefix of min(11 n, total) records |
| AdminOps.WindowsCoverList | src/admin.c:30-58 | the windows of pages 0 .. LastPage show every record once, in list order |
| AdminOps.PaginatedDisplay | src/admin.c:11-81 | the display counts the records and then shows, for each key read, the window of the page that Turn reaches from page 0, until 'q' |
| AdminOps.Words | src/admin.c:139-141 | the words the `%s` conversions read are non-empty and contain no whitespace |
| AdminOps.WordsOfLine | src/admin.c:139-141 | the `%s` conversions read back the words of a line that holds them separated by spaces, one word per conversion, in order |
| AdminOps.NewFlight | src/admin.c:139-147 | the record from a complete line is well formed, carries word i in slot i and the parsed price |
| AdminOps.UpdateFlightInfo | src/admin.c:419-450 | when the file opens it is truncated first; a missing or empty catalog returns its isnempty status with nothing written, otherwise all records are written in list order; FAILURE and no change when it does not open |
| AdminOps.SetFlightInfo | src/admin.c:123-223 | an incomplete line gives ERR_INVALID_INPUT and a known number ERR_EXISTS, both without change; otherwise the record is appended and the file rewritten, and a failed rewrite gives FAILURE with the record kept |
| AdminOps.DelFlightInfo | src/admin.c:232-271 | an absent number deletes and writes nothing; otherwise the first match is removed and the file rewritten, FAILURE only when the rewrite fails |
| AdminOps.ChosenOption | src/admin.c:304-315 | the edit option is the first key in '1'..'7' |
| AdminOps.FirstValidKey | src/admin.c:309-315 | the re-prompt loop stops at the first key in '1'..'7' |
| AdminOps.ChangeFlightInfo | src/admin.c:280-338 | an absent number gives ERR_NOT_FOUND before any prompt; otherwise the first match is edited with the chosen option and the file rewritten; a rejected price or failed rewrite gives FAILURE |
| AdminOps.CountStatus | src/admin.c:471-482 | a bucket never holds more records than the list |
| AdminOps.BucketsDisjoint | src/admin.c:475-480 | no record falls into two status buckets, so the three counts sum to at most the record count |
| AdminOps.FlightReport | src/admin.c:465-482 | the total is the record count and each counter is the number of records with exactly that status |

## Left out

**Interface and terminal**

- Terminal interaction is not modelled. This covers menus, `printf` rendering (`display_all`, the page table), `system("clear")`, the input-flushing loops and the recursive retry calls. It also covers the menu dispatch of `display`, `user_function`, `administrators`, `view_balance` and `see_flight_info`, and the sort/re-search/back options inside `buy_ticket` and `view_my_orders`. These hold no state beyond what is modelled.
- The `termios` echo handling in `get_password` is left out; only the buffer loop is modelled.
- `Accounts.GetPassword` requires a newline among the keys. At end of input `getchar` keeps returning EOF and the C loop never ends.
- Keys are taken to be NUL-free. A NUL byte would be stored and cut the password short.
- `AdminOps.PaginatedDisplay` requires a 'q' among the keys, for the same end-of-input reason, and a non-null list, because the C dereferences `list->next`.
- `AdminOps.FlightReport` takes a non-null catalog for the same reason.
- `AdminOps.ChangeFlightInfo` takes a non-null catalog, because it first calls `paginated_display`, and requires a key in '1'..'7' among the keys.

**Files and I/O**

- Byte-level file I/O is abstract. Each data file is a sequence of records, and "can it be opened for writing" is one flag.
- Failures of individual `fwrite` calls, `fread` errors and struct padding are not modelled. A trailing partial record is dropped, as the C loop does.
- `update_user_order` calls `fclose(NULL)` when `fopen` fails. `UserOps.UpdateUserOrder` models that case as FAILURE without the crash.
- `Accounts.InitAccounts` requires the account file to exist or the directory to be writable. Otherwise the C code writes to a NULL stream.
- `init`'s register/log-in/exit menu loop is not modelled, so the exit option's call to `update_flight_info` is not modelled either.
- `set_flight_info` reads its line with `fgets` into a 100-byte buffer. The model takes the line as read and does not cut it at 99 bytes.

**Width preconditions**

These are stated as preconditions because the C code overflows a buffer otherwise.

- `ListStore.ChangeNode` and `AdminOps.ChangeFlightInfo` require `EditFits`, because `strcpy` copies into 10-byte fields.
- `AdminOps.SetFlightInfo` requires `WordsFit`, because `sscanf("%s")` has no width.
- `Accounts.Enroll` requires `Fits(un, U)`, because `init` reads the username with `scanf("%s")` into `username[U]` (src/flight.c:100-101). It also requires `Fits(pd, P)`, a bound that its caller already guarantees: `init` reads the password with `get_password(password, P)` (src/flight.c:108), which stores fewer than P bytes (`Accounts.Fold`).
- `AdminOps.DelFlightInfo` and `AdminOps.ChangeFlightInfo` require `Fits(num, 10)`, because `scanf("%s")` reads into `n[10]`.

**Numbers and other functions**

- Floating point is not modelled. Prices and balances are integer cents, and `atof` and `sscanf("%lf")` are function parameters. `parsePrice` is applied to the eighth whole word, not to a numeric prefix.
- The minimum, maximum, average and percentage lines of `flight_report` and its dated report file are left out.
- `order_report` is left out: directory scanning, `time`/`localtime` and dated file names.
- `exit_system`, `free_node` and `createNode` are not modelled.
- Memory handling is not modelled: `malloc` failures, leaked list heads, and the `free(user)` on a missing account that leaves `user` dangling. `Accounts.AdminAccount` takes the balance that `malloc` leaves uninitialised as a parameter.
- The linked nodes, their `prev` links and in-place unlinking are replaced by operations on `records`. The search results and the catalog are distinct objects in the model, as they are distinct lists in the C code.
- `UserOps.RechargeBalance` returns None on success. Control runs off the end of the C function there, so its value is indeterminate.

## Findings

| source | as written | input that shows it | evidently intended | confidence | as-written member | corrected member |
|---|---|---|---|---|---|---|
| src/user.c:15 | `user_function` starts every session with an empty order ledger, and `buy_ticket` rewrites `data/order/<user>.txt` from the in-memory ledger (src/user.c:159-161). Orders are loaded only when the user opens the order view. | a user with one saved order A logs in and buys B before viewing orders: the order file becomes [B] | a purchase adds the new ticket to the saved orders, giving [A, B] | high, not executed | UserOps.LostOrdersScenario (with UserOps.BuyTicketAsWritten) | UserOps.BuyTicket |
