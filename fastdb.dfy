/**
 * The handle pair: one `*sql.DB` for writing, limited to a single connection,
 * and one for reading, with a pool sized to the machine, both opened on the
 * same connection string. `Open` builds the pair, `Close` releases it.
 *
 * Every step that can fail is a call on the `Sql.Engine`; a run of such calls
 * that stops at the first failure is specified by `Sql.Issued` (the calls
 * made) and `Sql.FirstError` (the error returned).
 */
module FastDb {
  import opened Wrappers
  import opened Sql
  import Query

  /** The connection parameters, added in this order. */
  const ConnectionParams: Query.Values :=
    Query.Add(Query.Add(Query.Add(Query.Add(Query.Add(Query.Add([],
      "_txlock", "immediate"),
      "_journal_mode", "WAL"),
      "_busy_timeout", "5000"),
      "_synchronous", "NORMAL"),
      "_cache_size", "1000000000"),
      "_foreign_keys", "true")

  /**
   * The connection string: a `file:` URL naming the database file as given,
   * with no escaping, followed by `?` and the encoded connection parameters.
   * `ConnectionUrlExact` writes it out in full.
   */
  function ConnectionUrl(filename: string): (url: string)
    ensures "file:" + filename + "?" <= url
  {
    "file:" + filename + "?" + Query.Encode(ConnectionParams)
  }

  /**
   * The connection string, written out: `file:`, the file name, `?`, then the
   * parameters as `key=value` in key order, joined with `&`, none of them
   * needing an escape.
   */
  lemma ConnectionUrlExact(filename: string)
    ensures ConnectionUrl(filename) == "file:" + filename + "?" + (
      ("_busy_timeout" + "=" + "5000") + "&" + ("_cache_size" + "=" + "1000000000") + "&" +
      ("_foreign_keys" + "=" + "true") + "&" + ("_journal_mode" + "=" + "WAL") + "&" +
      ("_synchronous" + "=" + "NORMAL") + "&" + ("_txlock" + "=" + "immediate"))
  {
    ParamsAdded();
    ParamsOrdered();
    ParamsDistinct();
    KeysUnescaped();
    ValuesUnescaped();
    EncodeSix(ConnectionParams, ("_busy_timeout", "5000"), ("_cache_size", "1000000000"), ("_foreign_keys", "true"),
      ("_journal_mode", "WAL"), ("_synchronous", "NORMAL"), ("_txlock", "immediate"));
  }

  lemma ParamsAdded()
    ensures multiset(ConnectionParams) == multiset([("_busy_timeout", "5000"), ("_cache_size", "1000000000"), ("_foreign_keys", "true"),
      ("_journal_mode", "WAL"), ("_synchronous", "NORMAL"), ("_txlock", "immediate")])
  {
  }

  lemma ParamsOrdered()
    ensures Query.SortedByKey([("_busy_timeout", "5000"), ("_cache_size", "1000000000"), ("_foreign_keys", "true"),
      ("_journal_mode", "WAL"), ("_synchronous", "NORMAL"), ("_txlock", "immediate")])
  {
    KeysOrderedBySecond("_busy_timeout", "_cache_size");
    KeysOrderedBySecond("_cache_size", "_foreign_keys");
    KeysOrderedBySecond("_foreign_keys", "_journal_mode");
    KeysOrderedBySecond("_journal_mode", "_synchronous");
    KeysOrderedBySecond("_synchronous", "_txlock");
  }

  lemma ParamsDistinct()
    ensures Query.KeysDistinct([("_busy_timeout", "5000"), ("_cache_size", "1000000000"), ("_foreign_keys", "true"),
      ("_journal_mode", "WAL"), ("_synchronous", "NORMAL"), ("_txlock", "immediate")])
  {
  }

  lemma KeysUnescaped()
    ensures Query.AllUnreserved("_busy_timeout") && Query.AllUnreserved("_cache_size") && Query.AllUnreserved("_foreign_keys")
    ensures Query.AllUnreserved("_journal_mode") && Query.AllUnreserved("_synchronous") && Query.AllUnreserved("_txlock")
  {
  }

  lemma ValuesUnescaped()
    ensures Query.AllUnreserved("5000") && Query.AllUnreserved("1000000000") && Query.AllUnreserved("true")
    ensures Query.AllUnreserved("WAL") && Query.AllUnreserved("NORMAL") && Query.AllUnreserved("immediate")
  {
  }

  /** Keys that start alike and differ in their second character are ordered by it. */
  lemma KeysOrderedBySecond(a: string, b: string)
    requires |a| >= 2 && |b| >= 2 && a[0] == b[0] && a[1] < b[1]
    ensures Query.LessEq(a, b) && a != b
  {
  }

  /** `Encode` of six pairs with distinct keys that need no escape: `key=value`, joined in key order. */
  lemma EncodeSix(params: Query.Values, a: (string, string), b: (string, string), c: (string, string),
                  d: (string, string), e: (string, string), f: (string, string))
    requires multiset(params) == multiset([a, b, c, d, e, f])
    requires Query.SortedByKey([a, b, c, d, e, f]) && Query.KeysDistinct([a, b, c, d, e, f])
    requires Query.AllUnreserved(a.0) && Query.AllUnreserved(b.0) && Query.AllUnreserved(c.0)
    requires Query.AllUnreserved(d.0) && Query.AllUnreserved(e.0) && Query.AllUnreserved(f.0)
    requires Query.AllUnreserved(a.1) && Query.AllUnreserved(b.1) && Query.AllUnreserved(c.1)
    requires Query.AllUnreserved(d.1) && Query.AllUnreserved(e.1) && Query.AllUnreserved(f.1)
    ensures Query.Encode(params) == (a.0 + "=" + a.1) + "&" + (b.0 + "=" + b.1) + "&" + (c.0 + "=" + c.1)
      + "&" + (d.0 + "=" + d.1) + "&" + (e.0 + "=" + e.1) + "&" + (f.0 + "=" + f.1)
  {
    Query.SortByKeyDetermined(params, [a, b, c, d, e, f]);
    JoinOfSix(a, b, c, d, e, f);
    EncodeUnescaped(a);
    EncodeUnescaped(b);
    EncodeUnescaped(c);
    EncodeUnescaped(d);
    EncodeUnescaped(e);
    EncodeUnescaped(f);
  }

  /** A pair made of unreserved characters only is written as it is. */
  lemma EncodeUnescaped(p: (string, string))
    requires Query.AllUnreserved(p.0) && Query.AllUnreserved(p.1)
    ensures Query.EncodePair(p) == p.0 + "=" + p.1
  {
    Query.QueryEscapeIdentity(p.0);
    Query.QueryEscapeIdentity(p.1);
  }

  /** `Join` of six pairs, unfolded. */
  lemma JoinOfSix(a: (string, string), b: (string, string), c: (string, string), d: (string, string), e: (string, string), f: (string, string))
    ensures Query.Join([a, b, c, d, e, f]) == Query.EncodePair(a) + "&" + Query.EncodePair(b) + "&" + Query.EncodePair(c)
      + "&" + Query.EncodePair(d) + "&" + Query.EncodePair(e) + "&" + Query.EncodePair(f)
  {
    assert Query.Join([e, f]) == Query.EncodePair(e) + "&" + Query.Join([f]) by { assert [e, f][1..] == [f]; }
    assert Query.Join([d, e, f]) == Query.EncodePair(d) + "&" + Query.Join([e, f]) by { assert [d, e, f][1..] == [e, f]; }
    assert Query.Join([c, d, e, f]) == Query.EncodePair(c) + "&" + Query.Join([d, e, f]) by { assert [c, d, e, f][1..] == [d, e, f]; }
    assert Query.Join([b, c, d, e, f]) == Query.EncodePair(b) + "&" + Query.Join([c, d, e, f]) by { assert [b, c, d, e, f][1..] == [c, d, e, f]; }
    assert Query.Join([a, b, c, d, e, f]) == Query.EncodePair(a) + "&" + Query.Join([b, c, d, e, f]) by { assert [a, b, c, d, e, f][1..] == [b, c, d, e, f]; }
    Flatten(Query.EncodePair(a), Query.EncodePair(b), Query.EncodePair(c), Query.EncodePair(d), Query.EncodePair(e), Query.EncodePair(f));
  }

  lemma Flatten(s0: string, s1: string, s2: string, s3: string, s4: string, s5: string)
    ensures s0 + "&" + (s1 + "&" + (s2 + "&" + (s3 + "&" + (s4 + "&" + s5))))
         == s0 + "&" + s1 + "&" + s2 + "&" + s3 + "&" + s4 + "&" + s5
  {
  }

  /** The pragmas run on each new handle. */
  const Pragmas: seq<string> := ["temp_store = memory"]

  /** One statement per pragma, in list order. */
  function PragmaCalls(db: Handle, pragmas: seq<string>): (calls: seq<Call>)
    ensures |calls| == |pragmas|
    ensures forall i :: 0 <= i < |pragmas| ==> calls[i] == Exec(db, "PRAGMA " + pragmas[i])
    decreases |pragmas|
  {
    if pragmas == [] then [] else [Exec(db, "PRAGMA " + pragmas[0])] + PragmaCalls(db, pragmas[1..])
  }

  /** `setupSqlite`: runs the pragmas in order and returns the error of the first that fails. */
  method SetupSqlite(engine: Engine, db: Handle, pragmas: seq<string>) returns (err: Option<DriverError>)
    requires engine.Valid()
    modifies engine
    ensures engine.Valid() && engine.nextId == old(engine.nextId) && engine.dbs == old(engine.dbs)
    ensures engine.log == old(engine.log) + Issued(PragmaCalls(db, pragmas), engine.answer)
    ensures err == FirstError(PragmaCalls(db, pragmas), engine.answer)
  {
    ghost var calls := PragmaCalls(db, pragmas);
    var i := 0;
    while i < |pragmas|
      invariant 0 <= i <= |pragmas|
      invariant engine.Valid() && engine.nextId == old(engine.nextId) && engine.dbs == old(engine.dbs)
      invariant engine.log == old(engine.log) + calls[..i]
      invariant forall j :: 0 <= j < i ==> Outcome(engine.answer, calls[j]).Ok?
    {
      var st := engine.Exec(db, "PRAGMA " + pragmas[i]);
      assert calls[i] == Exec(db, "PRAGMA " + pragmas[i]);
      assert calls[..i + 1] == calls[..i] + [calls[i]];
      if st.Failed? {
        assert engine.log == old(engine.log) + calls[..i + 1];
        FailFast(calls, engine.answer, i);
        return Some(st.error);
      }
      i := i + 1;
    }
    assert calls[..i] == calls;
    FailFast(calls, engine.answer, i);
    return None;
  }

  /** Every pragma is run when none fails; otherwise the run stops at the first failure, which is the error reported. */
  lemma SetupStopsAtFirstError(db: Handle, pragmas: seq<string>, answer: Call -> Status, k: nat)
    requires k <= |pragmas|
    requires forall j :: 0 <= j < k ==> answer(Exec(db, "PRAGMA " + pragmas[j])).Ok?
    requires k < |pragmas| ==> answer(Exec(db, "PRAGMA " + pragmas[k])).Failed?
    ensures var calls := PragmaCalls(db, pragmas);
      Issued(calls, answer) == calls[..if k < |pragmas| then k + 1 else k]
    ensures FirstError(PragmaCalls(db, pragmas), answer) ==
      if k < |pragmas| then Some(answer(Exec(db, "PRAGMA " + pragmas[k])).error) else None
  {
    FailFast(PragmaCalls(db, pragmas), answer, k);
  }

  /** Writer first, then reader; a nil handle is skipped. */
  function CloseCalls(writer: Option<Handle>, reader: Option<Handle>): seq<Call>
  {
    (if writer.Some? then [CloseDb(writer.value)] else []) + (if reader.Some? then [CloseDb(reader.value)] else [])
  }

  /** The pool limit of the reader: `max(4, ncpu)`. */
  function ReaderPoolSize(ncpu: nat): (n: nat)
    ensures n >= 4 && n >= ncpu
    ensures n == 4 || n == ncpu
  {
    if ncpu > 4 then ncpu else 4
  }

  /** The calls that open one handle on `url`, limit its pool and set it up. */
  function HandleCalls(db: Handle, url: string, limit: nat): seq<Call>
  {
    [OpenDb(db, url), SetMaxOpenConns(db, limit)] + PragmaCalls(db, Pragmas)
  }

  /** The calls of a successful `Open`: the writer `w` in full, then the reader `r`, on the same connection string. */
  function OpenCalls(w: Handle, r: Handle, url: string, ncpu: nat): seq<Call>
  {
    HandleCalls(w, url, 1) + HandleCalls(r, url, ReaderPoolSize(ncpu))
  }

  /** The `rw` struct. */
  class Pair {
    var reader: Option<Handle>
    var writer: Option<Handle>

    /** `rw{}`: both handles nil. */
    constructor ()
      ensures reader == None && writer == None
    {
      reader := None;
      writer := None;
    }

    /** `(*rw).Reader`: the read handle, nil until `Open` has set it up. */
    function Reader(): (db: Option<Handle>)
      reads this
      ensures db == reader
    {
      reader
    }

    /** `(*rw).Writer`: the write handle, nil until `Open` has set it up. */
    function Writer(): (db: Option<Handle>)
      reads this
      ensures db == writer
    {
      writer
    }

    /** `(*rw).Close`: closes the writer, then the reader, skipping nil handles and returning the first error at once. */
    method Close(engine: Engine) returns (err: Option<DriverError>)
      requires engine.Valid()
      modifies engine
      ensures engine.Valid() && engine.nextId == old(engine.nextId)
      ensures engine.log == old(engine.log) + Issued(CloseCalls(writer, reader), engine.answer)
      ensures engine.dbs == Replay(old(engine.dbs), Issued(CloseCalls(writer, reader), engine.answer), engine.answer)
      ensures err == FirstError(CloseCalls(writer, reader), engine.answer)
    {
      ghost var calls := CloseCalls(writer, reader);
      ghost var dbs0 := engine.dbs;
      ghost var done: seq<Call> := [];
      if writer.Some? {
        var st := engine.Close(writer.value);
        done := [CloseDb(writer.value)];
        if st.Failed? {
          FailFast(calls, engine.answer, 0);
          return Some(st.error);
        }
      }
      if reader.Some? {
        var st := engine.Close(reader.value);
        ReplayAppend(dbs0, done, [CloseDb(reader.value)], engine.answer);
        done := done + [CloseDb(reader.value)];
        if st.Failed? {
          FailFast(calls, engine.answer, |calls| - 1);
          return Some(st.error);
        }
      }
      FailFast(calls, engine.answer, |calls|);
      return None;
    }
  }

  /**
   * `Close` succeeds exactly when closing each non-nil handle succeeds, and
   * then it has closed every non-nil handle; a writer that fails to close
   * ends the run before the reader is touched.
   */
  lemma CloseFailFast(writer: Option<Handle>, reader: Option<Handle>, answer: Call -> Status)
    ensures var calls := CloseCalls(writer, reader);
      FirstError(calls, answer).None? <==>
        (writer.Some? ==> answer(CloseDb(writer.value)).Ok?) && (reader.Some? ==> answer(CloseDb(reader.value)).Ok?)
    ensures FirstError(CloseCalls(writer, reader), answer).None? ==> Issued(CloseCalls(writer, reader), answer) == CloseCalls(writer, reader)
    ensures writer.Some? && answer(CloseDb(writer.value)).Failed? ==>
      && Issued(CloseCalls(writer, reader), answer) == [CloseDb(writer.value)]
      && FirstError(CloseCalls(writer, reader), answer) == Some(answer(CloseDb(writer.value)).error)
  {
    var calls := CloseCalls(writer, reader);
    FirstErrorIsFirstFailure(calls, answer);
    FirstErrorIsLastIssued(calls, answer);
    if writer.Some? {
      assert calls[0] == CloseDb(writer.value);
      if answer(CloseDb(writer.value)).Failed? {
        FailFast(calls, answer, 0);
      }
    }
    if reader.Some? {
      assert calls[|calls| - 1] == CloseDb(reader.value);
    }
  }

  /**
   * What `Close` leaves behind: the same handles, with the ones it closed
   * marked closed: both non-nil handles when it succeeds, only the writer
   * when the writer's close fails (a `*sql.DB` is closed even then).
   */
  lemma CloseMarksClosed(dbs: map<Handle, Db>, writer: Option<Handle>, reader: Option<Handle>, answer: Call -> Status)
    ensures Replay(dbs, Issued(CloseCalls(writer, reader), answer), answer).Keys == dbs.Keys
    ensures var after := Replay(dbs, Issued(CloseCalls(writer, reader), answer), answer);
      FirstError(CloseCalls(writer, reader), answer).None? ==>
        forall h | h in dbs :: after[h] == dbs[h].(closed := dbs[h].closed || Some(h) == writer || Some(h) == reader)
    ensures var after := Replay(dbs, Issued(CloseCalls(writer, reader), answer), answer);
      writer.Some? && answer(CloseDb(writer.value)).Failed? ==>
        forall h | h in dbs :: after[h] == dbs[h].(closed := dbs[h].closed || Some(h) == writer)
  {
    var calls := CloseCalls(writer, reader);
    var issued := Issued(calls, answer);
    IssuedIsPrefix(calls, answer);
    assert forall i :: 0 <= i < |issued| ==> issued[i] == calls[i];
    ReplayCloses(dbs, issued, answer);
    CloseFailFast(writer, reader, answer);
  }

  /**
   * `Open`: builds the connection string, then opens the pair on it. The
   * contract names the string as `ConnectionUrl(filename)`. Proofs about the
   * handles go through `OpenHandles`, whose contract holds for any string, and
   * `ConnectionUrlExact` gives the string itself: unfolding the encoded
   * parameters inside a larger proof is expensive for the solver.
   */
  method Open(engine: Engine, filename: string, ncpu: nat) returns (p: Pair?, err: Option<DriverError>)
    requires engine.Valid()
    modifies engine
    ensures engine.Valid()
    ensures var calls := OpenCalls(Handle(old(engine.nextId)), Handle(old(engine.nextId) + 1), ConnectionUrl(filename), ncpu);
      && engine.log == old(engine.log) + Issued(calls, engine.answer)
      && engine.dbs == Replay(old(engine.dbs), Issued(calls, engine.answer), engine.answer)
      && err == FirstError(calls, engine.answer)
    ensures old(engine.nextId) < engine.nextId <= old(engine.nextId) + 2
    ensures err.None? ==> engine.nextId == old(engine.nextId) + 2
    ensures engine.nextId == old(engine.nextId)
      + (if FirstError(HandleCalls(Handle(old(engine.nextId)), ConnectionUrl(filename), 1), engine.answer).Some? then 1 else 2)
    ensures p == null <==> err.Some?
    ensures p != null ==>
      && fresh(p)
      && p.Writer() == Some(Handle(old(engine.nextId)))
      && p.Reader() == Some(Handle(old(engine.nextId) + 1))
  {
    var connectionUrl := ConnectionUrl(filename);
    p, err := OpenHandles(engine, connectionUrl, ncpu);
  }

  /**
   * The body of `Open` after the connection string is built: the writer is
   * opened on `url`, limited to one connection and set up; then the reader,
   * on the same `url`, limited to `max(4, ncpu)` connections and set up. The
   * first failure ends the run and no pair is returned. The handles get the
   * engine's next two ids, and the engine's id counter moves past them.
   */
  method OpenHandles(engine: Engine, url: string, ncpu: nat) returns (p: Pair?, err: Option<DriverError>)
    requires engine.Valid()
    modifies engine
    ensures engine.Valid()
    ensures var calls := OpenCalls(Handle(old(engine.nextId)), Handle(old(engine.nextId) + 1), url, ncpu);
      && engine.log == old(engine.log) + Issued(calls, engine.answer)
      && engine.dbs == Replay(old(engine.dbs), Issued(calls, engine.answer), engine.answer)
      && err == FirstError(calls, engine.answer)
    ensures old(engine.nextId) < engine.nextId <= old(engine.nextId) + 2
    ensures err.None? ==> engine.nextId == old(engine.nextId) + 2
    ensures engine.nextId == old(engine.nextId)
      + (if FirstError(HandleCalls(Handle(old(engine.nextId)), url, 1), engine.answer).Some? then 1 else 2)
    ensures p == null <==> err.Some?
    ensures p != null ==>
      && fresh(p)
      && p.Writer() == Some(Handle(old(engine.nextId)))
      && p.Reader() == Some(Handle(old(engine.nextId) + 1))
  {
    ghost var w, rd := Handle(engine.nextId), Handle(engine.nextId + 1);
    var n := ReaderPoolSize(ncpu);
    ghost var dbs0 := engine.dbs;
    var r := new Pair();

    var writeDb;
    writeDb, err := OpenConfigured(engine, url, 1);
    if err.Some? {
      OpenFailsAtWriter(dbs0, w, rd, url, ncpu, engine.answer);
      return null, err;
    }
    r.writer := Some(writeDb);

    ghost var log1 := engine.log;
    var readDb;
    readDb, err := OpenConfigured(engine, url, n);
    OpenReachesReader(dbs0, w, rd, url, ncpu, engine.answer);
    AppendAssociative(old(engine.log), HandleCalls(w, url, 1), Issued(HandleCalls(rd, url, n), engine.answer));
    if err.Some? {
      return null, err;
    }
    r.reader := Some(readDb);
    return r, None;
  }

  /**
   * The steps `Open` takes for each handle: `sql.Open` on `url`, then
   * `SetMaxOpenConns(limit)`, then `setupSqlite`, stopping at the first error.
   * The handle gets the engine's next id.
   */
  method OpenConfigured(engine: Engine, url: string, limit: nat) returns (db: Handle, err: Option<DriverError>)
    requires engine.Valid()
    modifies engine
    ensures engine.Valid() && engine.nextId == old(engine.nextId) + 1 && db == Handle(old(engine.nextId))
    ensures var calls := HandleCalls(db, url, limit);
      && engine.log == old(engine.log) + Issued(calls, engine.answer)
      && engine.dbs == Replay(old(engine.dbs), Issued(calls, engine.answer), engine.answer)
      && err == FirstError(calls, engine.answer)
  {
    ghost var dbs0 := engine.dbs;
    var st;
    db, st := engine.Open(url);
    HandleRun(dbs0, db, url, limit, engine.answer);
    if st.Failed? {
      return db, Some(st.error);
    }
    engine.SetMaxOpenConns(db, limit);
    err := SetupSqlite(engine, db, Pragmas);
  }

  lemma AppendAssociative<T>(a: seq<T>, b: seq<T>, c: seq<T>)
    ensures (a + b) + c == a + (b + c)
  {
  }

  /** A run of `Open` whose writer steps fail makes none of the reader's calls. */
  lemma OpenFailsAtWriter(dbs: map<Handle, Db>, w: Handle, r: Handle, url: string, ncpu: nat, answer: Call -> Status)
    requires FirstError(HandleCalls(w, url, 1), answer).Some?
    ensures var calls := OpenCalls(w, r, url, ncpu);
      && Issued(calls, answer) == Issued(HandleCalls(w, url, 1), answer)
      && FirstError(calls, answer) == FirstError(HandleCalls(w, url, 1), answer)
    ensures forall c | c in Issued(OpenCalls(w, r, url, ncpu), answer) :: c.db == w
  {
    var wCalls := HandleCalls(w, url, 1);
    IssuedAppend(wCalls, HandleCalls(r, url, ReaderPoolSize(ncpu)), answer);
    IssuedIsPrefix(wCalls, answer);
    HandleCallsOn(w, url, 1);
    forall c | c in Issued(wCalls, answer)
      ensures c.db == w
    {
      var i :| 0 <= i < |Issued(wCalls, answer)| && Issued(wCalls, answer)[i] == c;
      assert c == wCalls[i];
    }
  }

  /** Every call made for one handle is on that handle. */
  lemma HandleCallsOn(db: Handle, url: string, limit: nat)
    ensures forall i :: 0 <= i < |HandleCalls(db, url, limit)| ==> HandleCalls(db, url, limit)[i].db == db
  {
  }

  /** A run of `Open` whose writer steps all succeed goes on with the reader's. */
  lemma OpenReachesReader(dbs: map<Handle, Db>, w: Handle, r: Handle, url: string, ncpu: nat, answer: Call -> Status)
    requires FirstError(HandleCalls(w, url, 1), answer).None?
    ensures var calls, wCalls, rCalls := OpenCalls(w, r, url, ncpu), HandleCalls(w, url, 1), HandleCalls(r, url, ReaderPoolSize(ncpu));
      && Issued(wCalls, answer) == wCalls
      && Issued(calls, answer) == wCalls + Issued(rCalls, answer)
      && FirstError(calls, answer) == FirstError(rCalls, answer)
      && Replay(dbs, Issued(calls, answer), answer) == Replay(Replay(dbs, Issued(wCalls, answer), answer), Issued(rCalls, answer), answer)
  {
    var wCalls, rCalls := HandleCalls(w, url, 1), HandleCalls(r, url, ReaderPoolSize(ncpu));
    IssuedAppend(wCalls, rCalls, answer);
    FirstErrorIsLastIssued(wCalls, answer);
    ReplayAppend(dbs, wCalls, Issued(rCalls, answer), answer);
  }

  /** What the calls for one handle do: open, limit and set it up, stopping at the first failure. */
  lemma HandleRun(dbs: map<Handle, Db>, db: Handle, url: string, limit: nat, answer: Call -> Status)
    ensures var calls := HandleCalls(db, url, limit);
      var pragmas := PragmaCalls(db, Pragmas);
      && Issued(calls, answer) == (if answer(OpenDb(db, url)).Failed? then [OpenDb(db, url)]
                                   else [OpenDb(db, url), SetMaxOpenConns(db, limit)] + Issued(pragmas, answer))
      && FirstError(calls, answer) == (if answer(OpenDb(db, url)).Failed? then Some(answer(OpenDb(db, url)).error)
                                       else FirstError(pragmas, answer))
      && Replay(dbs, Issued(calls, answer), answer) ==
           (if answer(OpenDb(db, url)).Failed? then dbs else dbs[db := Db(url, limit, false)])
  {
    var openCall := OpenDb(db, url);
    var head := [openCall, SetMaxOpenConns(db, limit)];
    var pragmas := PragmaCalls(db, Pragmas);
    IssuedAppend(head, pragmas, answer);
    if answer(openCall).Failed? {
      FailFast(head, answer, 0);
      assert Replay(dbs, [openCall], answer) == Replay(dbs, [], answer);
    } else {
      FailFast(head, answer, 2);
      var d1 := Step(dbs, openCall, Ok);
      assert Replay(dbs, head, answer) == dbs[db := Db(url, limit, false)] by {
        assert Replay(dbs, head, answer) == Replay(d1, [SetMaxOpenConns(db, limit)], answer);
        assert Replay(d1, [SetMaxOpenConns(db, limit)], answer) == Step(d1, SetMaxOpenConns(db, limit), Ok);
      }
      ReplayAppend(dbs, head, Issued(pragmas, answer), answer);
      ReplayExecs(Replay(dbs, head, answer), Issued(pragmas, answer), answer);
    }
  }

  /** The calls of `Open`, in order: the writer's open, limit and pragma, then the reader's, on the same connection string. */
  lemma OpenCallsInOrder(w: Handle, r: Handle, url: string, ncpu: nat)
    ensures OpenCalls(w, r, url, ncpu) == [
      OpenDb(w, url), SetMaxOpenConns(w, 1), Exec(w, "PRAGMA temp_store = memory"),
      OpenDb(r, url), SetMaxOpenConns(r, ReaderPoolSize(ncpu)), Exec(r, "PRAGMA temp_store = memory")]
  {
    assert "PRAGMA " + Pragmas[0] == "PRAGMA temp_store = memory";
    assert PragmaCalls(w, Pragmas) == [Exec(w, "PRAGMA temp_store = memory")];
    assert PragmaCalls(r, Pragmas) == [Exec(r, "PRAGMA temp_store = memory")];
  }

  /** `Open` succeeds exactly when both handles open and both pragmas run. */
  lemma OpenSucceedsIff(w: Handle, r: Handle, url: string, ncpu: nat, answer: Call -> Status)
    ensures FirstError(OpenCalls(w, r, url, ncpu), answer).None? <==>
      && answer(OpenDb(w, url)).Ok? && answer(Exec(w, "PRAGMA temp_store = memory")).Ok?
      && answer(OpenDb(r, url)).Ok? && answer(Exec(r, "PRAGMA temp_store = memory")).Ok?
  {
    var calls := OpenCalls(w, r, url, ncpu);
    OpenCallsInOrder(w, r, url, ncpu);
    FirstErrorIsFirstFailure(calls, answer);
    if FirstError(calls, answer).Some? {
      var i :| 0 <= i < |calls| && Outcome(answer, calls[i]).Failed?;
      assert i != 1 && i != 4;
    } else {
      assert Outcome(answer, calls[0]).Ok? && Outcome(answer, calls[2]).Ok?;
      assert Outcome(answer, calls[3]).Ok? && Outcome(answer, calls[5]).Ok?;
    }
  }

  /**
   * After a successful `Open` every call has been made, and the engine holds
   * two more open handles on the same connection string: the writer limited
   * to one connection, the reader to `max(4, ncpu)`.
   */
  lemma OpenState(dbs: map<Handle, Db>, w: Handle, r: Handle, url: string, ncpu: nat, answer: Call -> Status)
    requires FirstError(OpenCalls(w, r, url, ncpu), answer).None?
    ensures Issued(OpenCalls(w, r, url, ncpu), answer) == OpenCalls(w, r, url, ncpu)
    ensures Replay(dbs, Issued(OpenCalls(w, r, url, ncpu), answer), answer)
      == dbs[w := Db(url, 1, false)][r := Db(url, ReaderPoolSize(ncpu), false)]
  {
    var wCalls := HandleCalls(w, url, 1);
    IssuedAppend(wCalls, HandleCalls(r, url, ReaderPoolSize(ncpu)), answer);
    FirstErrorIsLastIssued(OpenCalls(w, r, url, ncpu), answer);
    OpenReachesReader(dbs, w, r, url, ncpu, answer);
    HandleRun(dbs, w, url, 1, answer);
    HandleRun(dbs[w := Db(url, 1, false)], r, url, ReaderPoolSize(ncpu), answer);
  }

  /**
   * A reader that fails to open or set up leaves the writer open: `Open`
   * reports the error and returns no pair, but does not close the writer.
   */
  lemma OpenLeavesWriterOnReaderFailure(dbs: map<Handle, Db>, w: Handle, r: Handle, url: string, ncpu: nat, answer: Call -> Status)
    requires w != r
    requires FirstError(HandleCalls(w, url, 1), answer).None?
    requires FirstError(OpenCalls(w, r, url, ncpu), answer).Some?
    ensures var after := Replay(dbs, Issued(OpenCalls(w, r, url, ncpu), answer), answer);
      w in after && after[w] == Db(url, 1, false)
  {
    OpenReachesReader(dbs, w, r, url, ncpu, answer);
    HandleRun(dbs, w, url, 1, answer);
    HandleRun(dbs[w := Db(url, 1, false)], r, url, ReaderPoolSize(ncpu), answer);
  }
}
