# fastdb, modelled in Dafny

fastdb opens a SQLite database as a pair of `*sql.DB` handles. The writer handle is limited to
one connection, so writes are serialised. The reader handle gets a pool of `max(4, NumCPU)`
connections for parallel reads. Both handles are opened on the same connection string, which
sets the transaction lock mode, the journal mode, the busy timeout, the synchronous level, the
cache size and foreign keys, and each new handle runs the `temp_store = memory` pragma. The
package also defines `Time`, a timestamp that SQLite stores as an INTEGER count of milliseconds
since the Unix epoch.

The model has five modules:

- `Codec`: `Time` as a class whose field `Scan` assigns. `Decode` says what `Scan` makes of each
  kind of driver value. `Value` returns the timestamp as a value of the named type `fastdb.Time`,
  and `Stored` gives the `int64` that database/sql keeps of it.
- `Sql`: what fastdb sees of database/sql and the sqlite3 driver. An `Engine` records every call
  (`sql.Open`, `SetMaxOpenConns`, `Exec`, `Close`) in a log and keeps the state of each handle.
  An oracle fixed at construction decides whether each call succeeds. `Issued` and `FirstError`
  describe a run of calls that stops at the first failure: which calls were made, and which
  error was returned. `Replay` gives the handle state after the calls.
- `Query`: the part of net/url that builds the connection string. It covers `url.Values` with
  `Add` and `Encode` (pairs sorted by key, each key's values in insertion order), and
  `QueryEscape`.
- `FastDb`: `setupSqlite` as a loop, the `rw` struct as the class `Pair` with `Close`, `Reader`
  and `Writer`, and `Open`. `Open` is split into the connection-string step (`Open`), the
  two-handle body (`OpenHandles`) and the steps shared by both handles (`OpenConfigured`: open,
  limit the pool, set up).
- `Wrappers`: `Option`, which stands for a nil-able result or error.

## Model

| member | source | states |
|---|---|---|
| Codec.Decode | main.go:21-36 | a value is accepted iff it is an int64 or a string that parses; a parse error always carries the rejected text |
| Codec.ScanInt64 | main.go:23-25 | an int64 driver value is taken unchanged as the timestamp, whatever the text parser |
| Codec.ScanString | main.go:26-32 | a string is accepted iff RFC 3339 parsing succeeds; then the timestamp is the parsed instant's Unix milliseconds, otherwise the parse error for that text is returned |
| Codec.ScanUnsupported | main.go:33-34 | any other kind of value is rejected with `Time.Scan: Unsupported type: ` followed by the `%T` name of its type, and different types give different errors |
| Codec.Time.Scan | main.go:21-36 | on success the receiver holds the decoded timestamp and no error is returned; on any error the receiver is unchanged and the decoding error is returned |
| Codec.Time.Value | main.go:38-40 | `Value` returns neither an int64 nor a string but the `fastdb.Time` itself, which is stored as the timestamp's milliseconds |
| Codec.Stored | main.go:38-40 | a value of the named type `fastdb.Time` is stored as its underlying int64, and every other value is stored as it is |
| Codec.ValueNotScannable | main.go:21-40 | `Value`'s result handed straight to `Scan` is refused with `Time.Scan: Unsupported type: fastdb.Time`, because the `int64` case does not match the named type |
| Codec.ValueScanRoundTrip | main.go:21-40 | what `Value` stores is the integer form, and scanning it back gives the same timestamp for every int64, including 0 and negative ones |
| Codec.CopyThroughStorage | main.go:21-40 | scanning what one `Time` stores into another makes the second equal to the first, without an error |
| Sql.Engine.Open | main.go:109 | `sql.Open` gets a fresh handle, is logged, and the handle exists only when the driver accepts the string |
| Sql.Engine.SetMaxOpenConns | main.go:113 | records the pool limit of an existing handle; it reports no error |
| Sql.Engine.Exec | main.go:48 | a statement is logged and its outcome returned; the handles are unchanged |
| Sql.Engine.Close | main.go:72 | closing is logged and marks the handle closed, even when closing reports an error |
| Sql.IssuedIsPrefix | main.go:47-54 | a run that stops at the first error makes a prefix of its calls; all succeed except possibly the last, which failed unless every call was made |
| Sql.FirstErrorIsFirstFailure | main.go:47-54 | a run reports no error iff every call succeeds, and a reported error is the error of one of its calls |
| Sql.FirstErrorIsLastIssued | main.go:47-54 | the reported error is the error of the last call made, and a run without an error made every call |
| Sql.FailFast | main.go:47-52 | when the first failing call is at index k, the run makes exactly calls 0..k and returns call k's error; with no failure it makes every call and returns nil |
| Sql.IssuedAppend | main.go:109-128 | running two lists in sequence runs the second only when the first had no error, and returns the first error met |
| Sql.ReplayAppend | main.go:109-128 | the handle state after two lists of calls is the state after the first, then the second |
| Sql.ReplayExecs | main.go:47-52 | statements change no handle |
| Sql.ReplayCloses | main.go:70-82 | close calls mark exactly the handles they name as closed and change nothing else |
| Query.Add | main.go:98-104 | `Add` appends the value to its key's values and leaves every other key's values alone |
| Query.Insert | main.go:105 | inserting into a key-sorted list keeps it sorted and adds exactly the new pair |
| Query.SortByKey | main.go:105 | `Encode`'s ordering gives a key-sorted permutation of the pairs |
| Query.SortByKeyValuesOf | main.go:105 | sorting keeps each key's values in the order they were added |
| Query.SortedUnique | main.go:105 | two key-sorted arrangements of the same pairs with no repeated key are identical |
| Query.SortByKeyDetermined | main.go:105 | with no repeated key, any key-sorted arrangement of the pairs is what `Encode` writes out |
| Query.QueryEscape | main.go:105 | the escaped text is at least as long as the input and holds only unreserved characters, `+` and `%`, so never the `=` or `&` that separate pairs |
| Query.Encode | main.go:105 | the encoding is empty iff there are no pairs; when the keys are distinct it is the `key=value` pairs of the one key-sorted arrangement, joined with `&` (proofs in `SortByKey`, `SortByKeyValuesOf`, `SortByKeyDetermined`, `EncodeSix`) |
| Query.QueryEscapeIdentity | main.go:105 | `QueryEscape` leaves a string unchanged iff all its characters are unreserved (letters, digits, `-`, `_`, `.`, `~`) |
| FastDb.ConnectionUrl | main.go:105 | the connection string starts with `file:`, then the file name exactly as given, then `?` |
| FastDb.ConnectionUrlExact | main.go:98-105 | the connection string is `file:` + filename + `?_busy_timeout=5000&_cache_size=1000000000&_foreign_keys=true&_journal_mode=WAL&_synchronous=NORMAL&_txlock=immediate`, written piece by piece |
| FastDb.EncodeSix | main.go:105 | six pairs with distinct keys that need no escape are encoded as `key=value`, joined with `&` in key order, whatever order they were added in |
| FastDb.PragmaCalls | main.go:43-48 | one `PRAGMA <pragma>` statement per pragma, in list order |
| FastDb.SetupSqlite | main.go:42-55 | `setupSqlite` runs the pragmas in order, stops at the first that fails, returns its error (nil if none) and changes no handle |
| FastDb.SetupStopsAtFirstError | main.go:47-52 | when the first failing pragma is k, exactly pragmas 0..k run and pragma k's error is returned; with no failure every pragma runs |
| FastDb.ReaderPoolSize | main.go:124 | the reader's pool limit is at least 4 and at least the CPU count, and is one of the two |
| FastDb.Pair.constructor | main.go:107 | `rw{}` starts with both handles nil |
| FastDb.Pair.Reader | main.go:84-87 | returns the read handle the pair holds, nil until `Open` has set it |
| FastDb.Pair.Writer | main.go:89-92 | returns the write handle the pair holds, nil until `Open` has set it |
| FastDb.Pair.Close | main.go:70-82 | `Close` closes the writer and then the reader, skipping nil handles and returning the first error at once; the log and handle state are those of exactly the calls made |
| FastDb.CloseFailFast | main.go:70-82 | `Close` succeeds iff closing each non-nil handle succeeds, and then closes both; a writer that fails to close ends the run before the reader is touched, with the writer's error |
| FastDb.CloseMarksClosed | main.go:70-82 | after `Close` the same handles exist; on success both non-nil handles are marked closed, and after a writer failure only the writer is |
| FastDb.Open | main.go:97-132 | `Open` makes the writer's calls and then the reader's on the connection string built from the file name, stopping at the first error; it returns a pair iff there was no error, and the pair holds the two new handles; the id counter advances by one when the writer's steps fail (only its `sql.Open` was made) and by two otherwise |
| FastDb.OpenHandles | main.go:107-131 | the same for a given connection string: the writer with one connection, then the reader with `max(4, ncpu)`; any error returns nil; the id counter advances by one when the writer's steps fail and by two otherwise |
| FastDb.OpenConfigured | main.go:109-117 | one handle: `sql.Open`, then `SetMaxOpenConns(limit)`, then `setupSqlite`, stopping at the first error; the handle gets the next id |
| FastDb.HandleRun | main.go:109-117 | a failed open stops at once and leaves the handles unchanged; otherwise the pragmas run, and the handle exists, open, on the string with the given limit |
| FastDb.OpenFailsAtWriter | main.go:109-117 | when the writer's steps fail, `Open` returns that error and makes no call on the reader |
| FastDb.OpenReachesReader | main.go:118-128 | when the writer's steps succeed, all of them were made and `Open` goes on with the reader's, whose error it returns |
| FastDb.OpenCallsInOrder | main.go:109-125 | the calls of `Open`, in order: open the writer, limit it to 1, its pragma, then open the reader on the same string, limit it to `max(4, ncpu)`, its pragma |
| FastDb.OpenSucceedsIff | main.go:109-131 | `Open` succeeds iff both opens and both pragmas succeed |
| FastDb.OpenState | main.go:109-131 | after a successful `Open` every call was made, and there are two more open handles on the same string: the writer limited to 1 connection, the reader to `max(4, ncpu)` |
| FastDb.OpenLeavesWriterOnReaderFailure | main.go:120-128 | when the reader fails to open or set up, the writer is left open with its single-connection limit: `Open` returns the error without closing it |

## Left out

- The sqlite3 driver, the file system and the SQL engine are not modelled. The outcome of each
  call comes from an oracle fixed when the `Engine` is created.
- Connection pools and concurrency are not modelled: each pragma is one `Exec` on the handle, as
  the source calls it. Which pooled connection it reaches is not modelled.
- Calendar arithmetic is not modelled. `time.Parse(time.RFC3339, s)` followed by `UnixMilli()`
  is the parameter `parse: string -> Option<Int64>`, and its error is represented by the
  rejected text.
- Codec.Time.Value: its error result, always nil, is not modelled.
- Codec.Stored: database/sql's conversion of arguments is reduced to one rule: a `fastdb.Time`
  becomes its underlying `int64`. Which path performs that conversion is not modelled. A
  `Time` passed by value is converted by its integer kind without `Value` being called. A
  `*Time` argument would have `Value` called, and its named-type result refused. Of
  database/sql's argument conversion (`driver.DefaultParameterConverter` and the `driver.Valuer`
  path), only that one rule is modelled.
- Driver values other than int64 and string are represented only by their kind, not their
  payload. `Scan` takes any Go value, so a direct call such as `t.Scan(0)` reports the type
  `int`, which is not a driver value type. The model's `OtherValue` kinds cover only the
  driver value types (float64, bool, []byte, time.Time, nil); such other Go types are not
  modelled, but the default branch treats them the same way.
- `runtime.NumCPU()` is the parameter `ncpu`.
- Of net/url, only `Values.Add`, `Values.Encode` and `QueryEscape` are modelled. Their details
  follow Go's implementation of them:
  - the unreserved set;
  - `+` for a space;
  - upper-case `%XX` over UTF-8 bytes;
  - keys sorted byte-wise, each key's values in the order they were added.

  The rest of net/url, URL parsing included, is not modelled.
- FastDb.SetupSqlite takes the pragma list as a parameter, where the source uses a fixed local
  list. `Open` passes that fixed list (`Pragmas`).
- FastDb.OpenHandles and FastDb.OpenConfigured: the source writes `Open` as one function that
  repeats the per-handle steps. The model shares them in one method, with the same calls in the
  same order.
- The oracle answers a call the same way whatever state its handle is in. Repeated calls on the
  same handle are therefore not modelled faithfully. For example, database/sql's `DB.Close`
  returns nil on a handle that is already closed, so a second `rw.Close` after a writer failure
  would go on to the reader, while the model fails on the writer again.
- FastDb.Pair.Reader: the package comment (main.go:1-4) and the comment on `Reader` (main.go:84) call
  the reader a read-only client, but the code does not make it one. The reader is opened on the
  writer's own connection string (main.go:120), which holds no read-only parameter such as
  `mode=ro` or `_query_only`. The model therefore states no read-only property. `OpenCallsInOrder` shows both handles opened on the
  same string, and `ConnectionUrlExact` lists every parameter that string holds.
- When the reader fails, the source does not close the writer it already opened. The model
  does not add that cleanup. `OpenLeavesWriterOnReaderFailure` states that the writer stays
  open.
