/**
  The session store of session_db/pg_session_store.py: every operation is one statement in
  autocommit mode, tried at most five times over a connection that may be lost before or after the
  statement took effect, while other processes use the same table.
*/
module SessionStore {
  import opened Wrappers

  datatype Row = Row(date: int, payload: string)

  type Table = map<string, Row>

  datatype Statement =
    | Put(sid: string, payload: string, now: int)
    | Delete(sid: string)
    | Vacuum(now: int, lifetime: int)
    | Select(sid: string)

  function Execute(t: Table, op: Statement): Table {
    match op
    case Put(sid, payload, now) => t[sid := Row(now, payload)]
    case Delete(sid) => t - {sid}
    case Vacuum(now, lifetime) => map sid | sid in t && now - t[sid].date <= lifetime :: t[sid]
    case Select(_) => t
  }

  function ExecuteAll(t: Table, ops: seq<Statement>): Table
    decreases |ops|
  {
    if ops == [] then t else ExecuteAll(Execute(t, ops[0]), ops[1..])
  }

  /** What the store is asked for; the database supplies the time of each statement. */
  datatype Request =
    | SaveOf(sid: string, payload: string)
    | DeleteOf(sid: string)
    | VacuumOf(lifetime: int)
    | GetOf(sid: string)

  function StatementOf(r: Request, now: int): Statement {
    match r
    case SaveOf(sid, payload) => Put(sid, payload, now)
    case DeleteOf(sid) => Delete(sid)
    case VacuumOf(lifetime) => Vacuum(now, lifetime)
    case GetOf(sid) => Select(sid)
  }

  /** `Refused` is any error other than a lost connection; the statement then has no effect. */
  datatype Outcome = Answered | LostBefore | LostAfter | Refused

  /**
    What the world does around one attempt: the statements of the other processes since the last
    one, whether a connection can be opened, the time, and the fate of the statement.
  */
  datatype Weather = Weather(others: seq<Statement>, connects: bool, now: int, outcome: Outcome)

  datatype Failure = ConnectionLost | StatementRefused

  // ----- the retry loop, on values -----

  datatype StoreState = StoreState(table: Table, connected: bool)

  datatype Verdict = Return | Retry | Raise(failure: Failure)

  const MAX_TRIES: nat := 5

  function Reaches(s: StoreState, w: Weather): bool {
    s.connected || w.connects
  }

  predicate TakesEffect(s: StoreState, w: Weather) {
    Reaches(s, w) && (w.outcome == Answered || w.outcome == LostAfter)
  }

  function VerdictOf(s: StoreState, w: Weather, tries: nat): Verdict {
    if Reaches(s, w) && w.outcome == Answered then Return
    else if Reaches(s, w) && w.outcome == Refused then Raise(StatementRefused)
    else if tries >= MAX_TRIES then Raise(ConnectionLost)
    else Retry
  }

  function Attempt(s: StoreState, r: Request, w: Weather): StoreState {
    var t := ExecuteAll(s.table, w.others);
    StoreState(if TakesEffect(s, w) then Execute(t, StatementOf(r, w.now)) else t,
               Reaches(s, w) && (w.outcome == Answered || w.outcome == Refused))
  }

  /** The attempts after the first `tries`: the state, the number of attempts and the end of it all. */
  function Retrying(s: StoreState, r: Request, env: nat -> Weather, tries: nat): (res: (StoreState, nat, Verdict))
    requires tries < MAX_TRIES
    ensures tries < res.1 <= MAX_TRIES && res.2 != Retry
    decreases MAX_TRIES - tries
  {
    var s' := Attempt(s, r, env(tries + 1));
    var v := VerdictOf(s, env(tries + 1), tries + 1);
    if v == Retry then Retrying(s', r, env, tries + 1) else (s', tries + 1, v)
  }

  /** The store object, with the module's re-entrant lock: none when several worker processes are used. */
  class PGSessionStore {
    var table: Table
    var connected: bool
    var depth: nat
    const hasLock: bool

    function State(): StoreState
      reads this
    {
      StoreState(table, connected)
    }

    constructor (hasLock: bool, table: Table)
      ensures State() == StoreState(table, false) && depth == 0 && this.hasLock == hasLock
    {
      this.hasLock := hasLock;
      this.table, connected, depth := table, false, 0;
    }

    method Acquire()
      modifies this`depth
      ensures depth == old(depth) + if hasLock then 1 else 0
    {
      if hasLock {
        depth := depth + 1;
      }
    }

    method Release()
      requires hasLock ==> depth > 0
      modifies this`depth
      ensures depth == old(depth) - if hasLock then 1 else 0
    {
      if hasLock {
        depth := depth - 1;
      }
    }

    method CloseConnection()
      modifies this`connected, this`depth
      ensures !connected && depth == old(depth)
    {
      Acquire();
      if connected {
        connected := false;
      }
      Release();
    }

    method OpenConnection(connects: bool) returns (ok: bool)
      modifies this`connected, this`depth
      ensures ok == connects == connected && depth == old(depth)
    {
      Acquire();
      CloseConnection();
      if connects {
        connected := true;
      }
      ok := connects;
      Release();
    }

    method EnsureConnection(connects: bool) returns (ok: bool)
      modifies this`connected, this`depth
      ensures ok == connected == (old(connected) || connects) && depth == old(depth)
    {
      Acquire();
      ok := true;
      if !connected {
        ok := OpenConnection(connects);
      }
      Release();
    }

    /** The statement itself, over an open connection. */
    method Query(op: Statement, outcome: Outcome)
      modifies this`table
      ensures table == if outcome == Answered || outcome == LostAfter then Execute(old(table), op) else old(table)
    {
      if outcome == Answered || outcome == LostAfter {
        table := Execute(table, op);
      }
    }

    /** One attempt: None when the connection was lost, and is therefore closed. */
    method TryOnce(r: Request, w: Weather) returns (done: Option<Result<(), Failure>>)
      modifies this
      ensures State() == Attempt(old(State()), r, w) && depth == old(depth)
      ensures done == if !Reaches(old(State()), w) || w.outcome == LostBefore || w.outcome == LostAfter then None
                      else Some(if w.outcome == Answered then Ok(()) else Err(StatementRefused))
    {
      table := ExecuteAll(table, w.others);
      var ok := EnsureConnection(w.connects);
      if ok {
        Query(StatementOf(r, w.now), w.outcome);
        if w.outcome == Answered {
          return Some(Ok(()));
        } else if w.outcome == Refused {
          return Some(Err(StatementRefused));
        }
      }
      CloseConnection();
      done := None;
    }

    /** `with_cursor`: tries again on a new connection, and gives up after the fifth failure. */
    method WithCursor(r: Request, env: nat -> Weather) returns (res: Result<(), Failure>, ghost tries: nat)
      modifies this
      ensures (State(), tries, if res.Ok? then Return else Raise(res.error)) == Retrying(old(State()), r, env, 0)
      ensures depth == old(depth)
    {
      var n := 0;
      while true
        invariant n < MAX_TRIES && depth == old(depth)
        invariant Retrying(State(), r, env, n) == Retrying(old(State()), r, env, 0)
        decreases MAX_TRIES - n
      {
        n := n + 1;
        var done := TryOnce(r, env(n));
        if done.Some? {
          return done.value, n;
        } else if n > 4 {
          return Err(ConnectionLost), n;
        }
      }
    }

    /** `save`, `delete` and `vacuum`: the retry loop under the lock. */
    method Change(r: Request, env: nat -> Weather) returns (res: Result<(), Failure>, ghost tries: nat)
      modifies this
      ensures (State(), tries, if res.Ok? then Return else Raise(res.error)) == Retrying(old(State()), r, env, 0)
      ensures depth == old(depth)
    {
      Acquire();
      res, tries := WithCursor(r, env);
      Release();
    }

    /** `get`: None stands for the new session that replaces a missing or unreadable one. */
    method Get(sid: string, readable: string -> bool, env: nat -> Weather)
      returns (res: Result<Option<string>, Failure>, ghost tries: nat)
      modifies this
      ensures (State(), tries, if res.Ok? then Return else Raise(res.error))
          == Retrying(old(State()), GetOf(sid), env, 0)
      ensures res.Ok? ==> res.value == Loaded(table, sid, readable)
      ensures res.Ok? ==>
              forall p :: res.value == Some(p) <==> sid in table && table[sid].payload == p && readable(p)
      ensures depth == old(depth)
    {
      Acquire();
      var done;
      done, tries := WithCursor(GetOf(sid), env);
      if done.Err? {
        res := Err(done.error);
      } else if sid in table && readable(table[sid].payload) {
        res := Ok(Some(table[sid].payload));
      } else {
        res := Ok(None);
      }
      Release();
    }
  }

  function Loaded(t: Table, sid: string, readable: string -> bool): Option<string> {
    if sid in t && readable(t[sid].payload) then Some(t[sid].payload) else None
  }

  // ----- statements act on each row by itself -----

  function RowOf(t: Table, sid: string): Option<Row> {
    if sid in t then Some(t[sid]) else None
  }

  function OnRow(row: Option<Row>, op: Statement, sid: string): Option<Row> {
    match op
    case Put(s, payload, now) => if s == sid then Some(Row(now, payload)) else row
    case Delete(s) => if s == sid then None else row
    case Vacuum(now, lifetime) => if row.Some? && now - row.value.date > lifetime then None else row
    case Select(_) => row
  }

  function OnRowAll(row: Option<Row>, ops: seq<Statement>, sid: string): Option<Row>
    decreases |ops|
  {
    if ops == [] then row else OnRowAll(OnRow(row, ops[0], sid), ops[1..], sid)
  }

  lemma {:induction false} StatementsAreRowwise(t: Table, ops: seq<Statement>, sid: string)
    ensures RowOf(ExecuteAll(t, ops), sid) == OnRowAll(RowOf(t, sid), ops, sid)
    decreases |ops|
  {
    if ops == [] {
    } else {
      StatementsAreRowwise(Execute(t, ops[0]), ops[1..], sid);
    }
  }

  lemma SameRows(t: Table, u: Table)
    requires forall sid :: RowOf(t, sid) == RowOf(u, sid)
    ensures t == u
  {
    forall sid ensures sid in t <==> sid in u {
      assert RowOf(t, sid) == RowOf(u, sid);
    }
    forall sid | sid in t ensures t[sid] == u[sid] {
      assert RowOf(t, sid) == RowOf(u, sid);
    }
  }

  /** Other statements either overwrite a row whatever it was, or keep it or drop it. */
  lemma {:induction false} RowIsOverwrittenKeptOrDropped(row: Row, ops: seq<Statement>, sid: string)
    ensures var a, b := OnRowAll(Some(row), ops, sid), OnRowAll(None, ops, sid);
            a == b || (b == None && a == Some(row))
    decreases |ops|
  {
    if ops == [] {
    } else if OnRow(Some(row), ops[0], sid) == Some(row) && OnRow(None, ops[0], sid) == None {
      RowIsOverwrittenKeptOrDropped(row, ops[1..], sid);
    } else {
      assert OnRow(Some(row), ops[0], sid) == OnRow(None, ops[0], sid);
    }
  }

  /** A first application is not noticed behind a second one, whatever the others did in between. */
  lemma Absorbed(t: Table, r: Request, now1: int, others: seq<Statement>, now2: int)
    requires r.VacuumOf? ==> now1 <= now2
    ensures Execute(ExecuteAll(Execute(t, StatementOf(r, now1)), others), StatementOf(r, now2))
         == Execute(ExecuteAll(t, others), StatementOf(r, now2))
  {
    var t1 := Execute(t, StatementOf(r, now1));
    var a, b := ExecuteAll(t1, others), ExecuteAll(t, others);
    forall sid ensures RowOf(Execute(a, StatementOf(r, now2)), sid) == RowOf(Execute(b, StatementOf(r, now2)), sid) {
      StatementsAreRowwise(t1, others, sid);
      StatementsAreRowwise(t, others, sid);
      if sid in t {
        RowIsOverwrittenKeptOrDropped(t[sid], others, sid);
      }
    }
    SameRows(Execute(a, StatementOf(r, now2)), Execute(b, StatementOf(r, now2)));
  }

  // ----- a request has the effect of one application, or none -----

  lemma {:induction false} ExecuteAllConcat(t: Table, a: seq<Statement>, b: seq<Statement>)
    ensures ExecuteAll(t, a + b) == ExecuteAll(ExecuteAll(t, a), b)
    decreases |a|
  {
    if a == [] {
      assert a + b == b;
    } else {
      assert (a + b)[1..] == a[1..] + b;
      ExecuteAllConcat(Execute(t, a[0]), a[1..], b);
    }
  }

  /** The statements of the others in the attempts after `from`, up to `upto`. */
  function Others(env: nat -> Weather, from: nat, upto: nat): seq<Statement>
    requires from <= upto
    decreases upto - from
  {
    if from == upto then [] else env(from + 1).others + Others(env, from + 1, upto)
  }

  ghost predicate ClockAdvances(env: nat -> Weather) {
    forall i: nat, j: nat :: i <= j ==> env(i).now <= env(j).now
  }

  /** The table when, besides the others, the request is applied once: in attempt `at`. */
  function AppliedOnce(t: Table, r: Request, env: nat -> Weather, from: nat, at: nat, upto: nat): Table
    requires from < at <= upto
  {
    ExecuteAll(Execute(ExecuteAll(t, Others(env, from, at)), StatementOf(r, env(at).now)), Others(env, at, upto))
  }

  function NotApplied(t: Table, env: nat -> Weather, from: nat, upto: nat): Table
    requires from <= upto
  {
    ExecuteAll(t, Others(env, from, upto))
  }

  ghost predicate AppliedOnceOrNever(t: Table, u: Table, r: Request, env: nat -> Weather, from: nat, upto: nat)
    requires from <= upto
  {
    u == NotApplied(t, env, from, upto) || exists at :: from < at <= upto && u == AppliedOnce(t, r, env, from, at, upto)
  }

  /** The request is applied once, in the last attempt. */
  ghost predicate AppliedLast(t: Table, res: (StoreState, nat, Verdict), r: Request, env: nat -> Weather, from: nat)
    requires from < res.1
  {
    res.0.table == AppliedOnce(t, r, env, from, res.1, res.1)
  }

  lemma LaterStart(t: Table, r: Request, env: nat -> Weather, from: nat, at: nat, upto: nat)
    requires from + 1 < at <= upto
    ensures AppliedOnce(ExecuteAll(t, env(from + 1).others), r, env, from + 1, at, upto)
        == AppliedOnce(t, r, env, from, at, upto)
  {
    ExecuteAllConcat(t, env(from + 1).others, Others(env, from + 1, at));
  }

  lemma EarlierIsAbsorbed(t: Table, r: Request, env: nat -> Weather, from: nat, at: nat, upto: nat)
    requires from + 1 < at <= upto
    requires r.VacuumOf? ==> ClockAdvances(env)
    ensures var t' := Execute(ExecuteAll(t, env(from + 1).others), StatementOf(r, env(from + 1).now));
            AppliedOnce(t', r, env, from + 1, at, upto) == AppliedOnce(t, r, env, from, at, upto)
  {
    Absorbed(ExecuteAll(t, env(from + 1).others), r, env(from + 1).now, Others(env, from + 1, at), env(at).now);
    LaterStart(t, r, env, from, at, upto);
  }

  lemma AppliedNow(t: Table, r: Request, env: nat -> Weather, from: nat, upto: nat)
    requires from < upto
    ensures var t' := Execute(ExecuteAll(t, env(from + 1).others), StatementOf(r, env(from + 1).now));
            NotApplied(t', env, from + 1, upto) == AppliedOnce(t, r, env, from, from + 1, upto)
    ensures NotApplied(ExecuteAll(t, env(from + 1).others), env, from + 1, upto) == NotApplied(t, env, from, upto)
  {
    assert Others(env, from + 1, from + 1) == [];
    assert Others(env, from, from + 1) == env(from + 1).others;
    ExecuteAllConcat(t, env(from + 1).others, Others(env, from + 1, upto));
  }

  lemma OneMoreAttempt(s: StoreState, u: Table, r: Request, env: nat -> Weather, tries: nat, n: nat)
    requires tries < n
    requires r.VacuumOf? ==> ClockAdvances(env)
    requires AppliedOnceOrNever(Attempt(s, r, env(tries + 1)).table, u, r, env, tries + 1, n)
    ensures AppliedOnceOrNever(s.table, u, r, env, tries, n)
  {
    var t1 := Attempt(s, r, env(tries + 1)).table;
    if u == NotApplied(t1, env, tries + 1, n) {
      AppliedNow(s.table, r, env, tries, n);
      assert u == NotApplied(s.table, env, tries, n) || u == AppliedOnce(s.table, r, env, tries, tries + 1, n);
    } else {
      var at :| tries + 1 < at <= n && u == AppliedOnce(t1, r, env, tries + 1, at, n);
      LaterStart(s.table, r, env, tries, at, n);
      EarlierIsAbsorbed(s.table, r, env, tries, at, n);
      assert u == AppliedOnce(s.table, r, env, tries, at, n);
    }
  }

  /**
    However often the statement took effect, a request that raises has the effect of one
    application, in one of its at most five attempts, or none.
  */
  lemma {:induction false} RaisedMeansOnceOrNever(s: StoreState, r: Request, env: nat -> Weather, tries: nat)
    requires tries < MAX_TRIES
    requires r.VacuumOf? ==> ClockAdvances(env)
    ensures var (s', n, _) := Retrying(s, r, env, tries);
            AppliedOnceOrNever(s.table, s'.table, r, env, tries, n)
    decreases MAX_TRIES - tries
  {
    var w := env(tries + 1);
    var s1 := Attempt(s, r, w);
    var (s', n, v) := Retrying(s, r, env, tries);
    if VerdictOf(s, w, tries + 1) == Retry {
      RaisedMeansOnceOrNever(s1, r, env, tries + 1);
    } else {
      assert s'.table == NotApplied(s1.table, env, tries + 1, n);
    }
    OneMoreAttempt(s, s'.table, r, env, tries, n);
  }

  /** A request that returns has the effect of one application: the one of its last attempt. */
  lemma {:induction false} ReturnedMeansOnce(s: StoreState, r: Request, env: nat -> Weather, tries: nat)
    requires tries < MAX_TRIES
    requires r.VacuumOf? ==> ClockAdvances(env)
    requires Retrying(s, r, env, tries).2 == Return
    ensures AppliedLast(s.table, Retrying(s, r, env, tries), r, env, tries)
    decreases MAX_TRIES - tries
  {
    var s1 := Attempt(s, r, env(tries + 1));
    var (s', n, v) := Retrying(s, r, env, tries);
    AppliedNow(s.table, r, env, tries, n);
    if VerdictOf(s, env(tries + 1), tries + 1) == Retry {
      ReturnedMeansOnce(s1, r, env, tries + 1);
      LaterStart(s.table, r, env, tries, n, n);
      EarlierIsAbsorbed(s.table, r, env, tries, n, n);
    } else {
      assert s1.table == NotApplied(s1.table, env, tries + 1, n);
    }
  }

  /** A connection that answers within the five attempts makes the request return. */
  lemma {:induction false} ReturnsWhenAnswered(s: StoreState, r: Request, env: nat -> Weather, tries: nat, good: nat)
    requires tries < good <= MAX_TRIES
    requires env(good).connects && env(good).outcome == Answered
    requires forall i :: tries < i < good ==> env(i).outcome != Refused
    ensures Retrying(s, r, env, tries).2 == Return && Retrying(s, r, env, tries).1 <= good
    ensures Retrying(s, r, env, tries).0.connected
    decreases good - tries
  {
    if VerdictOf(s, env(tries + 1), tries + 1) == Retry {
      ReturnsWhenAnswered(Attempt(s, r, env(tries + 1)), r, env, tries + 1, good);
    }
  }

  /** A request that returned leaves the sessions as the others leave them, apart from what it is for. */
  lemma ReturnedDoes(s: StoreState, r: Request, env: nat -> Weather)
    requires r.VacuumOf? ==> ClockAdvances(env)
    requires Retrying(s, r, env, 0).2 == Return
    ensures var (s', n, _) := Retrying(s, r, env, 0);
            var t := ExecuteAll(s.table, Others(env, 0, n));
            match r
            case SaveOf(sid, payload) => s'.table == t[sid := Row(env(n).now, payload)]
            case DeleteOf(sid) => sid !in s'.table && s'.table == t - {sid}
            case VacuumOf(lifetime) =>
              && s'.table.Keys <= t.Keys
              && forall sid :: sid in t ==>
                   if env(n).now - t[sid].date > lifetime then sid !in s'.table
                   else sid in s'.table && s'.table[sid] == t[sid]
            case GetOf(_) => s'.table == t
  {
    ReturnedMeansOnce(s, r, env, 0);
    var n := Retrying(s, r, env, 0).1;
    assert Others(env, n, n) == [];
  }

  // ----- what was saved is what is read -----

  predicate Spares(op: Statement, sid: string, row: Row) {
    OnRow(Some(row), op, sid) == Some(row)
  }

  /** It was neither overwritten by something else, nor deleted, nor expired. */
  lemma SparesExactly(op: Statement, sid: string, row: Row)
    ensures Spares(op, sid, row) <==>
            match op
            case Put(other, payload, now) => other != sid || row == Row(now, payload)
            case Delete(other) => other != sid
            case Vacuum(now, lifetime) => now <= row.date + lifetime
            case Select(_) => true
  {
  }

  lemma {:induction false} SparedRowStays(row: Row, ops: seq<Statement>, sid: string)
    requires forall op :: op in ops ==> Spares(op, sid, row)
    ensures OnRowAll(Some(row), ops, sid) == Some(row)
    decreases |ops|
  {
    if ops == [] {
    } else {
      assert Spares(ops[0], sid, row);
      SparedRowStays(row, ops[1..], sid);
    }
  }

  /** A save that returned is read back by a later get, unless someone overwrote, deleted or expired the session. */
  lemma SavedIsRead(s: StoreState, sid: string, payload: string, env: nat -> Weather, later: nat -> Weather,
      readable: string -> bool)
    requires Retrying(s, SaveOf(sid, payload), env, 0).2 == Return
    requires var (s1, n, _) := Retrying(s, SaveOf(sid, payload), env, 0);
             var (s2, m, v) := Retrying(s1, GetOf(sid), later, 0);
             v == Return && forall op :: op in Others(later, 0, m) ==> Spares(op, sid, Row(env(n).now, payload))
    requires readable(payload)
    ensures var (s1, n, _) := Retrying(s, SaveOf(sid, payload), env, 0);
            Loaded(Retrying(s1, GetOf(sid), later, 0).0.table, sid, readable) == Some(payload)
  {
    var (s1, n, _) := Retrying(s, SaveOf(sid, payload), env, 0);
    var (s2, m, v) := Retrying(s1, GetOf(sid), later, 0);
    ReturnedMeansOnce(s, SaveOf(sid, payload), env, 0);
    ReturnedMeansOnce(s1, GetOf(sid), later, 0);
    assert Others(env, n, n) == [] && Others(later, m, m) == [];
    assert s2.table == ExecuteAll(s1.table, Others(later, 0, m));
    StatementsAreRowwise(s1.table, Others(later, 0, m), sid);
    SparedRowStays(Row(env(n).now, payload), Others(later, 0, m), sid);
  }

  // ----- what the others see in between -----

  function StateAfter(s: StoreState, r: Request, env: nat -> Weather, k: nat): StoreState {
    if k == 0 then s else Attempt(StateAfter(s, r, env, k - 1), r, env(k))
  }

  lemma {:induction false} RetryingPasses(s: StoreState, r: Request, env: nat -> Weather, k: nat)
    requires k < Retrying(s, r, env, 0).1
    ensures k < MAX_TRIES && Retrying(StateAfter(s, r, env, k), r, env, k) == Retrying(s, r, env, 0)
    ensures k > 0 ==> VerdictOf(StateAfter(s, r, env, k - 1), env(k), k) == Retry
    ensures k > 0 ==> !StateAfter(s, r, env, k).connected
    ensures k + 1 == Retrying(s, r, env, 0).1 ==> StateAfter(s, r, env, k + 1) == Retrying(s, r, env, 0).0
  {
    if k > 0 {
      RetryingPasses(s, r, env, k - 1);
    }
  }

  /** Attempt k finds no connection, or loses it. */
  predicate Lost(s: StoreState, env: nat -> Weather, k: nat) {
    || !(env(k).connects || (k == 1 && s.connected))
    || env(k).outcome == LostBefore || env(k).outcome == LostAfter
  }

  /**
    The first attempt that does not lose its connection decides: it returns or raises what the
    database refused.  After five lost attempts the loss is raised.
  */
  lemma FirstAnswerDecides(s: StoreState, r: Request, env: nat -> Weather)
    ensures var (s', n, v) := Retrying(s, r, env, 0);
            && 1 <= n <= 5 && (forall k :: 0 < k < n ==> Lost(s, env, k))
            && (v == Return <==> !Lost(s, env, n) && env(n).outcome == Answered)
            && (v == Raise(StatementRefused) <==> !Lost(s, env, n) && env(n).outcome == Refused)
            && (v == Raise(ConnectionLost) <==> Lost(s, env, n))
            && (Lost(s, env, n) ==> n == 5)
            && (s'.connected <==> !Lost(s, env, n))
  {
    var n := Retrying(s, r, env, 0).1;
    forall k | 0 < k < n ensures Lost(s, env, k) {
      RetryingPasses(s, r, env, k - 1);
      RetryingPasses(s, r, env, k);
    }
    RetryingPasses(s, r, env, n - 1);
  }

  /** Attempt k can connect, and its statement is answered, or its connection is lost only after the effect. */
  predicate TookEffect(s: StoreState, env: nat -> Weather, k: nat) {
    (env(k).connects || (k == 1 && s.connected)) && (env(k).outcome == Answered || env(k).outcome == LostAfter)
  }

  lemma {:induction false} EffectsAre(s: StoreState, r: Request, env: nat -> Weather, k: nat)
    requires 0 < k <= Retrying(s, r, env, 0).1
    ensures TakesEffect(StateAfter(s, r, env, k - 1), env(k)) <==> TookEffect(s, env, k)
  {
    RetryingPasses(s, r, env, k - 1);
  }

  /** The table that the statements of the others find in attempt m, after j of them. */
  function Seen(s: StoreState, r: Request, env: nat -> Weather, m: nat, j: nat): Table
    requires 0 < m && j <= |env(m).others|
  {
    ExecuteAll(StateAfter(s, r, env, m - 1).table, env(m).others[..j])
  }

  predicate NoEffectBetween(s: StoreState, env: nat -> Weather, k: nat, m: nat) {
    forall i | k < i < m :: !TookEffect(s, env, i)
  }

  /** Between two effects only the statements of the others change the table. */
  lemma {:induction false} OnlyOthersBetween(s: StoreState, r: Request, env: nat -> Weather, k: nat, m: nat)
    requires 0 < k <= m < Retrying(s, r, env, 0).1 && NoEffectBetween(s, env, k, m + 1)
    ensures StateAfter(s, r, env, m).table == ExecuteAll(StateAfter(s, r, env, k).table, Others(env, k, m))
    decreases m - k
  {
    if k < m {
      OnlyOthersBetween(s, r, env, k, m - 1);
      EffectsAre(s, r, env, m);
      OthersSnoc(env, k, m);
      ExecuteAllConcat(StateAfter(s, r, env, k).table, Others(env, k, m - 1), env(m).others);
    }
  }

  lemma {:induction false} OthersSnoc(env: nat -> Weather, k: nat, m: nat)
    requires k < m
    ensures Others(env, k, m) == Others(env, k, m - 1) + env(m).others
    decreases m - k
  {
    if k + 1 < m {
      OthersSnoc(env, k + 1, m);
      assert env(k + 1).others + (Others(env, k + 1, m - 1) + env(m).others)
          == (env(k + 1).others + Others(env, k + 1, m - 1)) + env(m).others;
    } else {
      assert Others(env, m, m) == [] && [] + env(m).others == env(m).others + [];
    }
  }

  /** What the others did to the session since attempt k wrote it, up to the j-th of their statements in attempt m. */
  function SinceWritten(env: nat -> Weather, k: nat, m: nat, j: nat): seq<Statement>
    requires k < m && j <= |env(m).others|
  {
    Others(env, k, m - 1) + env(m).others[..j]
  }

  lemma SeenRow(s: StoreState, sid: string, payload: string, env: nat -> Weather, k: nat, m: nat, j: nat)
    requires 0 < k < m <= Retrying(s, SaveOf(sid, payload), env, 0).1 && j <= |env(m).others|
    requires TookEffect(s, env, k) && NoEffectBetween(s, env, k, m)
    ensures RowOf(Seen(s, SaveOf(sid, payload), env, m, j), sid)
         == OnRowAll(Some(Row(env(k).now, payload)), SinceWritten(env, k, m, j), sid)
  {
    var r := SaveOf(sid, payload);
    var t := StateAfter(s, r, env, k).table;
    assert Seen(s, r, env, m, j) == ExecuteAll(t, SinceWritten(env, k, m, j)) by {
      OnlyOthersBetween(s, r, env, k, m - 1);
      ExecuteAllConcat(t, Others(env, k, m - 1), env(m).others[..j]);
    }
    assert RowOf(t, sid) == Some(Row(env(k).now, payload)) by {
      EffectsAre(s, r, env, k);
    }
    StatementsAreRowwise(t, SinceWritten(env, k, m, j), sid);
  }

  /** The save took effect in some attempt k, and later, in attempt m, another process found the session missing. */
  ghost predicate WrittenThenGone(s: StoreState, sid: string, payload: string, env: nat -> Weather) {
    var n := Retrying(s, SaveOf(sid, payload), env, 0).1;
    exists k, m, j :: 0 < k < m <= n && 0 <= j <= |env(m).others| && TookEffect(s, env, k)
                      && sid !in Seen(s, SaveOf(sid, payload), env, m, j)
  }

  /** The others removed what attempt k had written, before any later attempt took effect. */
  ghost predicate RemovedBetween(s: StoreState, sid: string, payload: string, env: nat -> Weather, n: nat) {
    exists k, m, j :: 0 < k < m <= n && 0 <= j <= |env(m).others| && RemovedAt(s, sid, payload, env, k, m, j)
  }

  predicate RemovedAt(s: StoreState, sid: string, payload: string, env: nat -> Weather, k: nat, m: nat, j: nat)
    requires k < m && j <= |env(m).others|
  {
    TookEffect(s, env, k) && NoEffectBetween(s, env, k, m)
    && OnRowAll(Some(Row(env(k).now, payload)), SinceWritten(env, k, m, j), sid) == None
  }

  /** The last attempt before m that took effect. */
  lemma {:induction false} LastEffect(s: StoreState, env: nat -> Weather, k: nat, m: nat) returns (l: nat)
    requires k < m && TookEffect(s, env, k)
    ensures k <= l < m && TookEffect(s, env, l) && NoEffectBetween(s, env, l, m)
    decreases m - k
  {
    l := k;
    if i :| k < i < m && TookEffect(s, env, i) {
      l := LastEffect(s, env, i, m);
    }
  }

  /**
    A save that returns always leaves the session in the table.  Another process found it missing in
    between, after it had been there, exactly when an attempt took effect and the others then removed
    its row before the next effect: a deleted or expired session is back.
  */
  lemma SessionReturnsExactly(s: StoreState, sid: string, payload: string, env: nat -> Weather)
    requires Retrying(s, SaveOf(sid, payload), env, 0).2 == Return
    ensures var (s', n, _) := Retrying(s, SaveOf(sid, payload), env, 0);
            && RowOf(s'.table, sid) == Some(Row(env(n).now, payload))
            && (WrittenThenGone(s, sid, payload, env) <==> RemovedBetween(s, sid, payload, env, n))
  {
    var r := SaveOf(sid, payload);
    var (s', n, _) := Retrying(s, r, env, 0);
    RetryingPasses(s, r, env, n - 1);
    var before := ExecuteAll(StateAfter(s, r, env, n - 1).table, env(n).others);
    assert s'.table == Execute(before, StatementOf(r, env(n).now));
    if WrittenThenGone(s, sid, payload, env) {
      var k, m, j :| 0 < k < m <= n && 0 <= j <= |env(m).others| && TookEffect(s, env, k)
          && sid !in Seen(s, r, env, m, j);
      var l := LastEffect(s, env, k, m);
      SeenRow(s, sid, payload, env, l, m, j);
      assert RemovedAt(s, sid, payload, env, l, m, j);
    }
    if RemovedBetween(s, sid, payload, env, n) {
      var k, m, j :| 0 < k < m <= n && 0 <= j <= |env(m).others| && RemovedAt(s, sid, payload, env, k, m, j);
      SeenRow(s, sid, payload, env, k, m, j);
      assert sid !in Seen(s, r, env, m, j);
    }
  }

  /** Another process deletes the session after attempt k wrote it. */
  ghost predicate DeletedBetween(s: StoreState, sid: string, env: nat -> Weather, n: nat) {
    exists k: nat :: 0 < k < n && TookEffect(s, env, k) && Delete(sid) in Others(env, k, n)
  }

  lemma {:induction false} OthersHave(env: nat -> Weather, k: nat, n: nat, op: Statement)
    requires k <= n
    ensures op in Others(env, k, n) <==> exists m: nat :: k < m <= n && op in env(m).others
    decreases n - k
  {
    if k < n {
      OthersHave(env, k + 1, n, op);
      assert op in env(k + 1).others ==> k < k + 1 <= n;
    }
  }

  /** After a deletion the session is missing. */
  lemma DeletedIsGone(s: StoreState, r: Request, env: nat -> Weather, m: nat, i: nat, sid: string)
    requires 0 < m && i < |env(m).others| && env(m).others[i] == Delete(sid)
    ensures sid !in Seen(s, r, env, m, i + 1)
  {
    var t, ops := StateAfter(s, r, env, m - 1).table, env(m).others;
    assert ops[..i + 1] == ops[..i] + [ops[i]];
    ExecuteAllConcat(t, ops[..i], [ops[i]]);
    assert [ops[i]][1..] == [];
  }

  lemma {:induction false} GoneWithoutVacuum(row: Row, ops: seq<Statement>, sid: string)
    requires forall op :: op in ops ==> !op.Vacuum?
    requires OnRowAll(Some(row), ops, sid) == None
    ensures Delete(sid) in ops
    decreases |ops|
  {
    if ops[0] != Delete(sid) {
      var next := OnRow(Some(row), ops[0], sid);
      assert ops[0] in ops && next.Some?;
      GoneWithoutVacuum(next.value, ops[1..], sid);
    }
  }

  /** A session that another process deleted is back exactly when the deletion follows an attempt that took effect. */
  lemma DeletedSessionReturnsExactly(s: StoreState, sid: string, payload: string, env: nat -> Weather)
    requires Retrying(s, SaveOf(sid, payload), env, 0).2 == Return
    ensures var (s', n, _) := Retrying(s, SaveOf(sid, payload), env, 0);
            && sid in s'.table
            && (DeletedBetween(s, sid, env, n) ==> WrittenThenGone(s, sid, payload, env))
            && ((forall op :: op in Others(env, 0, n) ==> !op.Vacuum?) ==>
                  (WrittenThenGone(s, sid, payload, env) <==> DeletedBetween(s, sid, env, n)))
  {
    var r := SaveOf(sid, payload);
    var (s', n, _) := Retrying(s, r, env, 0);
    SessionReturnsExactly(s, sid, payload, env);
    assert RowOf(s'.table, sid).Some?;
    if DeletedBetween(s, sid, env, n) {
      var k: nat :| 0 < k < n && TookEffect(s, env, k) && Delete(sid) in Others(env, k, n);
      OthersHave(env, k, n, Delete(sid));
      var m: nat :| k < m <= n && Delete(sid) in env(m).others;
      var i :| 0 <= i < |env(m).others| && env(m).others[i] == Delete(sid);
      DeletedIsGone(s, r, env, m, i, sid);
    }
    if WrittenThenGone(s, sid, payload, env) && forall op :: op in Others(env, 0, n) ==> !op.Vacuum? {
      var k, m, j :| 0 < k < m <= n && 0 <= j <= |env(m).others| && RemovedAt(s, sid, payload, env, k, m, j);
      var ops := SinceWritten(env, k, m, j);
      OthersSnoc(env, k, m);
      forall op | op in ops ensures op in Others(env, k, n) && op in Others(env, 0, n) {
        assert op in Others(env, k, m);
        OthersHave(env, k, m, op);
        OthersHave(env, k, n, op);
        OthersHave(env, 0, n, op);
      }
      GoneWithoutVacuum(Row(env(k).now, payload), ops, sid);
      assert DeletedBetween(s, sid, env, n);
    }
  }

  /**
    The smallest run: a session that another process deletes between two attempts of a save was
    visible, gone, and is there again.
  */
  lemma DeletedSessionReturns(sid: string, payload: string)
    ensures var lost := Weather([], true, 0, LostAfter);
            var retried := Weather([Delete(sid)], true, 1, Answered);
            var env := (i: nat) => if i <= 1 then lost else retried;
            var r := SaveOf(sid, payload);
            && sid in Attempt(StoreState(map[], false), r, env(1)).table
            && sid !in ExecuteAll(Attempt(StoreState(map[], false), r, env(1)).table, env(2).others)
            && Retrying(StoreState(map[], false), r, env, 0)
                == (StoreState(map[sid := Row(1, payload)], true), 2, Return)
  {
    var lost := Weather([], true, 0, LostAfter);
    var retried := Weather([Delete(sid)], true, 1, Answered);
    var env := (i: nat) => if i <= 1 then lost else retried;
    var r := SaveOf(sid, payload);
    var s1 := Attempt(StoreState(map[], false), r, env(1));
    var gone := Execute(s1.table, Delete(sid));
    assert [Delete(sid)][1..] == [];
    assert ExecuteAll(s1.table, [Delete(sid)]) == ExecuteAll(gone, []) == gone;
    assert Attempt(s1, r, env(2)).table == gone[sid := Row(1, payload)] == map[sid := Row(1, payload)];
  }
}
