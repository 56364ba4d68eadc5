/**
 * The database/sql package and the sqlite3 driver, seen from this library.
 *
 * Every call the library makes on a `*sql.DB` is a `Call`. An `Engine` records
 * the calls in order in its `log` and keeps what it knows of each handle in
 * `dbs`. What a call answers is decided by an oracle, `answer`, fixed when the
 * engine is created: the file system, the driver and the SQL engine are not
 * modelled, only the outcome they report.
 */
module Sql {
  import opened Wrappers

  /** An error reported by the driver; its text is the driver's business. */
  datatype DriverError = DriverError(message: string)

  datatype Status = Ok | Failed(error: DriverError)

  /** A `*sql.DB`; the id tells apart the handles one engine has opened. */
  datatype Handle = Handle(id: nat)

  datatype Call =
    | OpenDb(db: Handle, url: string)      // sql.Open("sqlite3", url)
    | SetMaxOpenConns(db: Handle, n: nat)  // db.SetMaxOpenConns(n)
    | Exec(db: Handle, query: string)      // db.Exec(query)
    | CloseDb(db: Handle)                  // db.Close()

  /** What is known of one open handle. `maxOpenConns == 0` is database/sql's default: no limit. */
  datatype Db = Db(url: string, maxOpenConns: nat, closed: bool)

  /** The status a call reports: `SetMaxOpenConns` has no error result, the others ask the oracle. */
  function Outcome(answer: Call -> Status, c: Call): Status
  {
    if c.SetMaxOpenConns? then Ok else answer(c)
  }

  /** The effect of one call, reporting `st`, on the handles. A closed `*sql.DB` stays closed even when closing reported an error. */
  function Step(dbs: map<Handle, Db>, c: Call, st: Status): map<Handle, Db>
  {
    match c
    case OpenDb(h, url) => if st.Ok? then dbs[h := Db(url, 0, false)] else dbs
    case SetMaxOpenConns(h, n) => if h in dbs then dbs[h := dbs[h].(maxOpenConns := n)] else dbs
    case Exec(_, _) => dbs
    case CloseDb(h) => if h in dbs then dbs[h := dbs[h].(closed := true)] else dbs
  }

  /** The handles after `calls` have been made in order. */
  function Replay(dbs: map<Handle, Db>, calls: seq<Call>, answer: Call -> Status): map<Handle, Db>
    decreases |calls|
  {
    if calls == [] then dbs
    else Replay(Step(dbs, calls[0], Outcome(answer, calls[0])), calls[1..], answer)
  }

  /** The calls actually made when `calls` are made in order and the first one that fails ends the run. */
  function Issued(calls: seq<Call>, answer: Call -> Status): seq<Call>
  {
    if calls == [] then []
    else if Outcome(answer, calls[0]).Failed? then [calls[0]]
    else [calls[0]] + Issued(calls[1..], answer)
  }

  /** The error of the first call of `calls` that fails, if any. */
  function FirstError(calls: seq<Call>, answer: Call -> Status): Option<DriverError>
  {
    if calls == [] then None
    else if Outcome(answer, calls[0]).Failed? then Some(Outcome(answer, calls[0]).error)
    else FirstError(calls[1..], answer)
  }

  /**
   * The calls made form a prefix of `calls` whose calls all succeed except
   * possibly the last, which fails unless the whole list was made.
   */
  lemma {:induction false} IssuedIsPrefix(calls: seq<Call>, answer: Call -> Status)
    ensures var issued := Issued(calls, answer);
      && issued <= calls
      && (forall i :: 0 <= i < |issued| - 1 ==> Outcome(answer, issued[i]).Ok?)
      && (issued == calls || (issued != [] && Outcome(answer, issued[|issued| - 1]).Failed?))
  {
    if calls != [] && Outcome(answer, calls[0]).Ok? {
      IssuedIsPrefix(calls[1..], answer);
    }
  }

  /** A run reports no error exactly when every call succeeds, and an error it reports is one of its calls' errors. */
  lemma {:induction false} FirstErrorIsFirstFailure(calls: seq<Call>, answer: Call -> Status)
    ensures FirstError(calls, answer).None? <==> forall i :: 0 <= i < |calls| ==> Outcome(answer, calls[i]).Ok?
    ensures FirstError(calls, answer).Some? ==>
      exists i :: 0 <= i < |calls| && Outcome(answer, calls[i]) == Failed(FirstError(calls, answer).value)
  {
    if calls != [] && Outcome(answer, calls[0]).Ok? {
      FirstErrorIsFirstFailure(calls[1..], answer);
      if FirstError(calls, answer).Some? {
        var i :| 0 <= i < |calls| - 1 && Outcome(answer, calls[1..][i]) == Failed(FirstError(calls, answer).value);
        assert calls[1..][i] == calls[i + 1];
      }
    }
  }

  /** A fail-fast run whose first failure is at index `k` (or that has none, `k == |calls|`) makes the calls up to and including `k` and reports the error of call `k`. */
  lemma {:induction false} FailFast(calls: seq<Call>, answer: Call -> Status, k: nat)
    requires k <= |calls|
    requires forall j :: 0 <= j < k ==> Outcome(answer, calls[j]).Ok?
    requires k < |calls| ==> Outcome(answer, calls[k]).Failed?
    ensures Issued(calls, answer) == calls[..if k < |calls| then k + 1 else k]
    ensures FirstError(calls, answer) == if k < |calls| then Some(Outcome(answer, calls[k]).error) else None
  {
    if k > 0 {
      assert Outcome(answer, calls[0]).Ok?;
      FailFast(calls[1..], answer, k - 1);
      assert calls[..if k < |calls| then k + 1 else k] == [calls[0]] + calls[1..][..if k - 1 < |calls| - 1 then k else k - 1];
    }
  }

  /** The error reported by a run is the one of its last call, and a run that reports none made every call. */
  lemma {:induction false} FirstErrorIsLastIssued(calls: seq<Call>, answer: Call -> Status)
    ensures FirstError(calls, answer).None? ==> Issued(calls, answer) == calls
    ensures FirstError(calls, answer).Some? ==>
      var issued := Issued(calls, answer);
      issued != [] && Outcome(answer, issued[|issued| - 1]) == Failed(FirstError(calls, answer).value)
  {
    if calls != [] && Outcome(answer, calls[0]).Ok? {
      FirstErrorIsLastIssued(calls[1..], answer);
    }
  }

  /** Running `a + b` fail-fast is running `a`, then `b` only if `a` had no error. */
  lemma {:induction false} IssuedAppend(a: seq<Call>, b: seq<Call>, answer: Call -> Status)
    ensures Issued(a + b, answer) == if FirstError(a, answer).None? then a + Issued(b, answer) else Issued(a, answer)
    ensures FirstError(a + b, answer) == if FirstError(a, answer).None? then FirstError(b, answer) else FirstError(a, answer)
  {
    if a != [] {
      assert (a + b)[0] == a[0];
      assert (a + b)[1..] == a[1..] + b;
      IssuedAppend(a[1..], b, answer);
    } else {
      assert a + b == b;
    }
  }

  /** Replaying `a + b` is replaying `a`, then `b`. */
  lemma {:induction false} ReplayAppend(dbs: map<Handle, Db>, a: seq<Call>, b: seq<Call>, answer: Call -> Status)
    ensures Replay(dbs, a + b, answer) == Replay(Replay(dbs, a, answer), b, answer)
    decreases |a|
  {
    if a != [] {
      assert (a + b)[0] == a[0];
      assert (a + b)[1..] == a[1..] + b;
      ReplayAppend(Step(dbs, a[0], Outcome(answer, a[0])), a[1..], b, answer);
    } else {
      assert a + b == b;
    }
  }

  /** Statements leave the handles as they are. */
  lemma {:induction false} ReplayExecs(dbs: map<Handle, Db>, calls: seq<Call>, answer: Call -> Status)
    requires forall i :: 0 <= i < |calls| ==> calls[i].Exec?
    ensures Replay(dbs, calls, answer) == dbs
    decreases |calls|
  {
    if calls != [] {
      ReplayExecs(dbs, calls[1..], answer);
    }
  }

  /** Closing calls mark exactly the handles they name as closed, and change nothing else. */
  lemma {:induction false} ReplayCloses(dbs: map<Handle, Db>, calls: seq<Call>, answer: Call -> Status)
    requires forall i :: 0 <= i < |calls| ==> calls[i].CloseDb?
    ensures var after := Replay(dbs, calls, answer);
      && after.Keys == dbs.Keys
      && forall h | h in dbs :: after[h] == dbs[h].(closed := dbs[h].closed || CloseDb(h) in calls)
    decreases |calls|
  {
    if calls != [] {
      var d1 := Step(dbs, calls[0], Outcome(answer, calls[0]));
      ReplayCloses(d1, calls[1..], answer);
      assert calls == [calls[0]] + calls[1..];
      forall h | h in dbs
        ensures CloseDb(h) in calls <==> calls[0] == CloseDb(h) || CloseDb(h) in calls[1..]
      {
      }
    }
  }

  /**
   * The driver behind every `*sql.DB` of one program run. `nextId` is the id
   * the next opened handle gets; `Valid` says that it is fresh.
   */
  class Engine {
    const answer: Call -> Status
    var log: seq<Call>
    var dbs: map<Handle, Db>
    var nextId: nat

    ghost predicate Valid()
      reads this
    {
      forall h :: h in dbs ==> h.id < nextId
    }

    constructor (answer: Call -> Status)
      ensures Valid()
      ensures this.answer == answer && log == [] && dbs == map[] && nextId == 0
    {
      this.answer := answer;
      log := [];
      dbs := map[];
      nextId := 0;
    }

    /** sql.Open: a handle with a fresh id on `url`; the handle exists only when the driver accepts. */
    method Open(url: string) returns (db: Handle, st: Status)
      requires Valid()
      modifies this
      ensures Valid()
      ensures db == Handle(old(nextId)) && db !in old(dbs) && nextId == old(nextId) + 1
      ensures log == old(log) + [Call.OpenDb(db, url)]
      ensures st == Outcome(answer, Call.OpenDb(db, url))
      ensures dbs == Step(old(dbs), Call.OpenDb(db, url), st)
    {
      db := Handle(nextId);
      st := Outcome(answer, Call.OpenDb(db, url));
      log := log + [Call.OpenDb(db, url)];
      dbs := Step(dbs, Call.OpenDb(db, url), st);
      nextId := nextId + 1;
    }

    /** db.SetMaxOpenConns(n): records the pool limit; it reports nothing. */
    method SetMaxOpenConns(db: Handle, n: nat)
      requires Valid()
      modifies this
      ensures Valid() && nextId == old(nextId)
      ensures log == old(log) + [Call.SetMaxOpenConns(db, n)]
      ensures dbs == Step(old(dbs), Call.SetMaxOpenConns(db, n), Ok)
    {
      log := log + [Call.SetMaxOpenConns(db, n)];
      dbs := Step(dbs, Call.SetMaxOpenConns(db, n), Ok);
    }

    /** db.Exec(query) */
    method Exec(db: Handle, query: string) returns (st: Status)
      requires Valid()
      modifies this
      ensures Valid() && nextId == old(nextId) && dbs == old(dbs)
      ensures log == old(log) + [Call.Exec(db, query)]
      ensures st == Outcome(answer, Call.Exec(db, query))
    {
      st := Outcome(answer, Call.Exec(db, query));
      log := log + [Call.Exec(db, query)];
    }

    /** db.Close() */
    method Close(db: Handle) returns (st: Status)
      requires Valid()
      modifies this
      ensures Valid() && nextId == old(nextId)
      ensures log == old(log) + [Call.CloseDb(db)]
      ensures st == Outcome(answer, Call.CloseDb(db))
      ensures dbs == Step(old(dbs), Call.CloseDb(db), st)
    {
      st := Outcome(answer, Call.CloseDb(db));
      log := log + [Call.CloseDb(db)];
      dbs := Step(dbs, Call.CloseDb(db), st);
    }
  }
}
