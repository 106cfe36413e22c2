/**
  The audit log of auditlog/models/rule.py in full mode: the wrapped methods take snapshots of the
  audited fields before and after the original method, and log their difference.
*/
module AuditLog {
  import opened Sequences
  import opened Wrappers

  /** `Empty` is Python's False, the value of a field that is not set. */
  datatype Value = Empty | Text(text: string)

  type Values = map<string, Value>

  /** The audited fields of the existing records. */
  type Database = map<nat, Values>

  datatype Method = Create | Read | Write | Unlink

  datatype Line = Line(oldValue: Value, newValue: Value)

  /** A log and its lines; a log has at most one line for a field. */
  datatype Log = Log(user: nat, action: Method, resId: nat, lines: map<string, Line>)

  /**
    `fields` is the list of audited fields of the model, `known` the fields with an ir.model.fields
    entry and `logged` the methods the rule subscribes to.
  */
  datatype Rule = Rule(
    fields: set<string>, known: set<string>, excluded: set<string>, logged: set<Method>,
    capture: bool, quietUsers: set<nat>)

  const FIELDS_BLACKLIST: set<string> :=
    {"id", "create_uid", "create_date", "write_uid", "write_date", "display_name", "__last_update"}

  predicate Loggable(rule: Rule, f: string) {
    f !in rule.excluded + FIELDS_BLACKLIST && f in rule.known
  }

  // ----- DictDiffer -----

  function Added(current: Values, past: Values): set<string> {
    current.Keys - (current.Keys * past.Keys)
  }

  function Removed(current: Values, past: Values): set<string> {
    past.Keys - (current.Keys * past.Keys)
  }

  function Changed(current: Values, past: Values): set<string> {
    set f | f in current.Keys * past.Keys && past[f] != current[f]
  }

  function Unchanged(current: Values, past: Values): set<string> {
    set f | f in current.Keys * past.Keys && past[f] == current[f]
  }

  /** The four sets divide the keys, and the past with the changes made is the current dictionary. */
  lemma DiffIsExact(current: Values, past: Values)
    ensures Added(current, past) !! Removed(current, past) !! Changed(current, past) !! Unchanged(current, past)
    ensures Added(current, past) + Removed(current, past) + Changed(current, past) + Unchanged(current, past)
        == current.Keys + past.Keys
    ensures current == (past - Removed(current, past))
                       + (map f | f in Added(current, past) + Changed(current, past) :: current[f])
    ensures Changed(current, past) == {} && current.Keys == past.Keys <==> current == past
  {
    assert Changed(current, past) == {} && current.Keys == past.Keys ==> current == past by {
      forall f | Changed(current, past) == {} && current.Keys == past.Keys && f in current
          ensures current[f] == past[f] {
        assert f !in Changed(current, past);
      }
    }
  }

  // ----- the logs of one call, on values -----

  function LinesOf(rule: Rule, action: Method, past: Values, current: Values): map<string, Line> {
    match action
    case Create => map f | f in Added(current, past) && Loggable(rule, f) :: Line(Empty, current[f])
    case Write => map f | f in Changed(current, past) && Loggable(rule, f) :: Line(past[f], current[f])
    case Read => map f | f in past && Loggable(rule, f) :: Line(past[f], Empty)
    case Unlink => map f | f in past && rule.capture && Loggable(rule, f) :: Line(past[f], Empty)
  }

  function ValuesOf(db: Database, id: nat): Values {
    if id in db then db[id] else map[]
  }

  function LogOf(rule: Rule, user: nat, action: Method, id: nat, olds: Database, news: Database): Log {
    Log(user, action, id, LinesOf(rule, action, ValuesOf(olds, id), ValuesOf(news, id)))
  }

  function LogsOf(rule: Rule, user: nat, action: Method, ids: seq<nat>, olds: Database, news: Database): seq<Log>
    decreases |ids|
  {
    if ids == [] then []
    else [LogOf(rule, user, action, ids[0], olds, news)] + LogsOf(rule, user, action, ids[1..], olds, news)
  }

  /** `read`: the records that exist. */
  function Snapshot(db: Database, ids: seq<nat>): Database {
    map id | id in ids && id in db :: db[id]
  }

  /** The fields asked for: stored ones as they are in the database, any other field as it is computed. */
  function ReadResult(db: Database, ids: seq<nat>, fields: set<string>, computed: (nat, string) -> Value): Database {
    map id | id in ids && id in db :: map f | f in fields :: if f in db[id] then db[id][f] else computed(id, f)
  }

  /** A record that is not saved yet has no id. */
  datatype RecordId = Stored(id: nat) | NewId

  function StoredIds(ids: seq<RecordId>): seq<nat>
    decreases |ids|
  {
    if ids == [] then [] else (if ids[0].Stored? then [ids[0].id] else []) + StoredIds(ids[1..])
  }

  /** The ids of the saved records, in order; records without an id are left out. */
  lemma {:induction false} StoredIdsAre(a: seq<RecordId>, id: nat, b: seq<RecordId>)
    ensures StoredIds(a + b) == StoredIds(a) + StoredIds(b)
    ensures StoredIds([Stored(id)]) == [id] && StoredIds([NewId]) == []
    decreases |a|
  {
    assert [Stored(id)][1..] == [] && [NewId][1..] == [];
    if a == [] {
      assert a + b == b;
    } else {
      assert (a + b)[1..] == a[1..] + b;
      StoredIdsAre(a[1..], id, b);
    }
  }

  // ----- the wrapped methods -----

  /**
    The audited model and its log.  What the original method does to the records is given by the
    database it leaves; it makes no audited call itself.
  */
  class AuditedModel {
    const rule: Rule
    var db: Database
    var logs: seq<Log>

    constructor (rule: Rule, db: Database)
      ensures this.rule == rule && this.db == db && logs == []
    {
      this.rule, this.db, logs := rule, db, [];
    }

    method LinesOnCreate(added: set<string>, current: Values) returns (lines: map<string, Line>)
      requires added <= current.Keys
      ensures lines == map f | f in added && Loggable(rule, f) :: Line(Empty, current[f])
    {
      lines := map[];
      var todo := added;
      while todo != {}
        invariant todo <= added
        invariant lines == map f | f in added && f !in todo && Loggable(rule, f) :: Line(Empty, current[f])
      {
        var f :| f in todo;
        todo := todo - {f};
        if Loggable(rule, f) {
          lines := lines[f := Line(Empty, current[f])];
        }
      }
    }

    method LinesOnWrite(changed: set<string>, past: Values, current: Values) returns (lines: map<string, Line>)
      requires changed <= past.Keys && changed <= current.Keys
      ensures lines == map f | f in changed && Loggable(rule, f) :: Line(past[f], current[f])
    {
      lines := map[];
      var todo := changed;
      while todo != {}
        invariant todo <= changed
        invariant lines == map f | f in changed && f !in todo && Loggable(rule, f) :: Line(past[f], current[f])
      {
        var f :| f in todo;
        todo := todo - {f};
        if Loggable(rule, f) {
          lines := lines[f := Line(past[f], current[f])];
        }
      }
    }

    /** Also for the captured values of an unlinked record. */
    method LinesOnRead(past: Values) returns (lines: map<string, Line>)
      ensures lines == map f | f in past && Loggable(rule, f) :: Line(past[f], Empty)
    {
      lines := map[];
      var todo := past.Keys;
      while todo != {}
        invariant todo <= past.Keys
        invariant lines == map f | f in past && f !in todo && Loggable(rule, f) :: Line(past[f], Empty)
      {
        var f :| f in todo;
        todo := todo - {f};
        if Loggable(rule, f) {
          lines := lines[f := Line(past[f], Empty)];
        }
      }
    }

    method LinesFor(action: Method, past: Values, current: Values) returns (lines: map<string, Line>)
      ensures lines == LinesOf(rule, action, past, current)
    {
      if action == Create {
        lines := LinesOnCreate(Added(current, past), current);
      } else if action == Write {
        lines := LinesOnWrite(Changed(current, past), past, current);
      } else if action == Read || rule.capture {
        lines := LinesOnRead(past);
      } else {
        lines := map[];
      }
    }

    /** `create_logs` */
    method CreateLogs(user: nat, action: Method, ids: seq<nat>, olds: Database, news: Database)
      modifies this`logs
      ensures logs == old(logs) + LogsOf(rule, user, action, ids, olds, news)
    {
      var i := 0;
      while i < |ids|
        invariant 0 <= i <= |ids|
        invariant logs + LogsOf(rule, user, action, ids[i..], olds, news)
            == old(logs) + LogsOf(rule, user, action, ids, olds, news)
      {
        var lines := LinesFor(action, ValuesOf(olds, ids[i]), ValuesOf(news, ids[i]));
        ghost var was, rest := logs, LogsOf(rule, user, action, ids[i + 1..], olds, news);
        logs := logs + [Log(user, action, ids[i], lines)];
        assert ids[i..][1..] == ids[i + 1..];
        Regroup(was, [Log(user, action, ids[i], lines)], rest);
        i := i + 1;
      }
    }

    method CreateFull(user: nat, ids: seq<nat>, after: Database)
      modifies this
      ensures (db, logs) == Call(rule, old(db), old(logs), Op(user, Create, ids, after, map[]))
    {
      db := after;
      assert logs + [] == logs;
      if Create in rule.logged {
        var news := Snapshot(db, ids);
        if user !in rule.quietUsers {
          CreateLogs(user, Create, ids, map[], news);
        }
      }
    }

    method WriteFull(user: nat, records: seq<RecordId>, after: Database)
      modifies this
      ensures (db, logs) == Call(rule, old(db), old(logs), Op(user, Write, StoredIds(records), after, map[]))
    {
      assert logs + [] == logs;
      if Write in rule.logged {
        var ids := StoredIds(records);
        if ids == [] {
          db := after;
          return;
        }
        var olds := Snapshot(db, ids);
        db := after;
        if user !in rule.quietUsers {
          var news := Snapshot(db, ids);
          CreateLogs(user, Write, ids, olds, news);
        }
      } else {
        db := after;
      }
    }

    method UnlinkFull(user: nat, ids: seq<nat>, after: Database)
      modifies this
      ensures (db, logs) == Call(rule, old(db), old(logs), Op(user, Unlink, ids, after, map[]))
    {
      assert logs + [] == logs;
      if Unlink in rule.logged {
        var olds := Snapshot(db, ids);
        if user !in rule.quietUsers {
          CreateLogs(user, Unlink, ids, olds, map[]);
        }
      }
      db := after;
    }

    /**
      `read` changes nothing; its result is what is logged, unless the call comes from the audit
      log itself.
    */
    method ReadLogged(user: nat, ids: seq<nat>, fields: set<string>, computed: (nat, string) -> Value, disabled: bool)
      returns (result: Database)
      modifies this`logs
      ensures result == ReadResult(db, ids, fields, computed)
      ensures logs == if disabled then old(logs) else Call(rule, old(db), old(logs), Op(user, Read, ids, db, result)).1
      ensures Shaped(rule, db) ==> ReadsDatabase(rule, db, Op(user, Read, ids, db, result))
      ensures forall id :: id in result <==> id in ids && id in db
      ensures forall id :: id in result ==> result[id].Keys == fields
    {
      assert logs + [] == logs;
      result := ReadResult(db, ids, fields, computed);
      if Shaped(rule, db) {
        ReadResultIsRead(rule, db, user, ids, fields, computed);
      }
      if Read in rule.logged {
        if disabled {
          return;
        }
        if user !in rule.quietUsers {
          CreateLogs(user, Read, ids, result, map[]);
        }
      }
    }
  }

  // ----- calls and runs -----

  /** A call of a method on records, by a user, and the database after it; `seen` is the result of a read. */
  datatype Op = Op(user: nat, action: Method, ids: seq<nat>, after: Database, seen: Database)

  predicate IsLogged(rule: Rule, op: Op) {
    op.action in rule.logged && op.user !in rule.quietUsers
  }

  function NewLogs(rule: Rule, db: Database, op: Op): seq<Log> {
    if !IsLogged(rule, op) then []
    else LogsOf(rule, op.user, op.action, op.ids, Olds(db, op), News(op))
  }

  /** The values before a call, as they are handed to `create_logs`. */
  function Olds(db: Database, op: Op): Database {
    match op.action
    case Create => map[]
    case Read => op.seen
    case _ => Snapshot(db, op.ids)
  }

  /** The values after it. */
  function News(op: Op): Database {
    if op.action == Create || op.action == Write then Snapshot(op.after, op.ids) else map[]
  }

  function Call(rule: Rule, db: Database, logs: seq<Log>, op: Op): (Database, seq<Log>) {
    (op.after, logs + NewLogs(rule, db, op))
  }

  function Run(rule: Rule, db: Database, logs: seq<Log>, ops: seq<Op>): (Database, seq<Log>)
    decreases |ops|
  {
    if ops == [] then (db, logs)
    else
      var (db', logs') := Call(rule, db, logs, ops[0]);
      Run(rule, db', logs', ops[1..])
  }

  /** What the log can tell of the records. */
  function View(rule: Rule, db: Database): Database {
    map id | id in db :: Visible(rule, db[id])
  }

  function Visible(rule: Rule, vs: Values): Values {
    map f | f in vs && Loggable(rule, f) :: vs[f]
  }

  predicate Shaped(rule: Rule, db: Database) {
    forall id :: id in db ==> db[id].Keys == rule.fields
  }

  // ----- what is logged, field by field -----

  /** Fields that the rule excludes, the technical ones, and those without a description never get a line. */
  predicate Watched(rule: Rule, f: string) {
    && f !in rule.excluded && f in rule.known
    && f !in {"id", "create_uid", "create_date", "write_uid", "write_date", "display_name", "__last_update"}
  }

  /** The line that a call asks for on one field of one record. */
  ghost function AskedLine(rule: Rule, db: Database, op: Op, id: nat, f: string): Option<Line> {
    if !Watched(rule, f) then None
    else
      match op.action
      case Create => if id in op.after && f in op.after[id] then Some(Line(Empty, op.after[id][f])) else None
      case Write =>
        if id in db && id in op.after && f in db[id] && f in op.after[id] && db[id][f] != op.after[id][f]
        then Some(Line(db[id][f], op.after[id][f])) else None
      case Unlink => if rule.capture && id in db && f in db[id] then Some(Line(db[id][f], Empty)) else None
      case Read => if id in op.seen && f in op.seen[id] then Some(Line(op.seen[id][f], Empty)) else None
  }

  /** One log for each record of the call, in order, with exactly the lines it asks for. */
  lemma CallLogsExactly(rule: Rule, db: Database, op: Op, k: nat)
    requires op.action in rule.logged && op.user !in rule.quietUsers && k < |op.ids|
    ensures |NewLogs(rule, db, op)| == |op.ids|
    ensures var log := NewLogs(rule, db, op)[k];
            && log.user == op.user && log.action == op.action && log.resId == op.ids[k]
            && forall f :: if f in log.lines then AskedLine(rule, db, op, op.ids[k], f) == Some(log.lines[f])
                           else AskedLine(rule, db, op, op.ids[k], f) == None
  {
    if op.ids != [] {
      LogsAre(rule, op.user, op.action, op.ids, Olds(db, op), News(op), k);
    }
  }

  lemma {:induction false} LogsAre(rule: Rule, user: nat, action: Method, ids: seq<nat>, olds: Database, news: Database,
      k: nat)
    requires k < |ids|
    ensures var logs := LogsOf(rule, user, action, ids, olds, news);
            |logs| == |ids| && logs[k] == LogOf(rule, user, action, ids[k], olds, news)
    decreases |ids|
  {
    if |ids| > 1 {
      LogsAre(rule, user, action, ids[1..], olds, news, if k == 0 then 0 else k - 1);
    }
  }

  /** A call of a method without logging, or of a quiet user, logs nothing; and a call never alters older logs. */
  lemma SilentCalls(rule: Rule, db: Database, logs: seq<Log>, op: Op)
    ensures op.action !in rule.logged || op.user in rule.quietUsers ==> Call(rule, db, logs, op) == (op.after, logs)
    ensures Call(rule, db, logs, op).0 == op.after && logs <= Call(rule, db, logs, op).1
  {
    assert logs + [] == logs;
  }

  /** What the log can tell is the watched part of every record. */
  lemma ViewExactly(rule: Rule, db: Database, id: nat, f: string)
    ensures id in View(rule, db) <==> id in db
    ensures id in db ==> (f in View(rule, db)[id] <==> f in db[id] && Watched(rule, f))
    ensures id in db && f in View(rule, db)[id] ==> View(rule, db)[id][f] == db[id][f]
  {
  }

  // ----- replaying the log -----

  function NewValues(lines: map<string, Line>): Values {
    map f | f in lines :: lines[f].newValue
  }

  function ReplayLog(db: Database, log: Log): Database {
    match log.action
    case Create => db[log.resId := NewValues(log.lines)]
    case Write => if log.resId in db then db[log.resId := db[log.resId] + NewValues(log.lines)] else db
    case Unlink => db - {log.resId}
    case Read => db
  }

  function Replay(db: Database, logs: seq<Log>): Database
    decreases |logs|
  {
    if logs == [] then db else Replay(ReplayLog(db, logs[0]), logs[1..])
  }

  lemma {:induction false} ReplayConcat(db: Database, a: seq<Log>, b: seq<Log>)
    ensures Replay(db, a + b) == Replay(Replay(db, a), b)
    decreases |a|
  {
    if a == [] {
      assert a + b == b;
    } else {
      assert (a + b)[1..] == a[1..] + b;
      ReplayConcat(ReplayLog(db, a[0]), a[1..], b);
    }
  }

  /** What the logs of one call do to one record of a replayed view. */
  function Replayed(rule: Rule, db: Database, action: Method, id: nat, olds: Database, news: Database): Option<Values> {
    match action
    case Create => Some(NewValues(LinesOf(rule, Create, ValuesOf(olds, id), ValuesOf(news, id))))
    case Write =>
      if id in db then Some(db[id] + NewValues(LinesOf(rule, Write, ValuesOf(olds, id), ValuesOf(news, id)))) else None
    case Unlink => None
    case Read => if id in db then Some(db[id]) else None
  }

  function At(db: Database, id: nat): Option<Values> {
    if id in db then Some(db[id]) else None
  }

  lemma {:induction false} CallReplays(rule: Rule, db: Database, user: nat, action: Method, ids: seq<nat>,
      olds: Database, news: Database, id: nat)
    ensures At(Replay(db, LogsOf(rule, user, action, ids, olds, news)), id)
         == if id in ids then Replayed(rule, db, action, id, olds, news) else At(db, id)
    decreases |ids|
  {
    if ids == [] {
    } else {
      var log := LogOf(rule, user, action, ids[0], olds, news);
      CallReplays(rule, ReplayLog(db, log), user, action, ids[1..], olds, news, id);
      assert id in ids <==> id == ids[0] || id in ids[1..];
      if action == Write && id == ids[0] && id in db {
        var news_ := NewValues(log.lines);
        assert db[id] + news_ + news_ == db[id] + news_;
      }
    }
  }

  /** Writing down the changed fields makes the past visible values the current ones. */
  lemma ChangedLinesUpdate(rule: Rule, past: Values, current: Values)
    requires past.Keys == current.Keys
    ensures Visible(rule, past) + NewValues(LinesOf(rule, Write, past, current)) == Visible(rule, current)
  {
    var updated := Visible(rule, past) + NewValues(LinesOf(rule, Write, past, current));
    forall f | f in Visible(rule, current) ensures f in updated && updated[f] == current[f] {
      assert f in past;
    }
  }

  lemma SameAt(a: Database, b: Database)
    requires forall id :: At(a, id) == At(b, id)
    ensures a == b
  {
    forall id ensures id in a <==> id in b {
      assert At(a, id) == At(b, id);
    }
    forall id | id in a ensures a[id] == b[id] {
      assert At(a, id) == At(b, id);
    }
  }

  /**
    The call changes what the log can tell only of the records it was called on, those of a create
    exist afterwards, those of a write exist afterwards if they did before, those of an unlink do not
    exist afterwards, and a call that is not logged, or a read, changes nothing.
  */
  ghost predicate Contained(rule: Rule, db: Database, op: Op) {
    forall id :: ContainedAt(rule, db, op, id)
  }

  predicate ContainedAt(rule: Rule, db: Database, op: Op, id: nat) {
    if IsLogged(rule, op) && id in op.ids && op.action != Read then
      match op.action
      case Create => id in op.after
      case Write => id in op.after <==> id in db
      case Unlink => id !in op.after
      case Read => true
    else At(View(rule, op.after), id) == At(View(rule, db), id)
  }

  lemma CallKeepsRecord(rule: Rule, db: Database, op: Op, id: nat)
    requires Shaped(rule, db) && Shaped(rule, op.after)
    ensures At(Replay(View(rule, db), NewLogs(rule, db, op)), id) == At(View(rule, op.after), id)
        <==> ContainedAt(rule, db, op, id)
  {
    if IsLogged(rule, op) {
      var olds, news := Olds(db, op), News(op);
      CallReplays(rule, View(rule, db), op.user, op.action, op.ids, olds, news, id);
      if op.action == Write && id in op.ids && id in db && id in op.after {
        ChangedLinesUpdate(rule, db[id], op.after[id]);
      } else if op.action == Create && id in op.ids && id in op.after {
        assert NewValues(LinesOf(rule, Create, map[], op.after[id])) == Visible(rule, op.after[id]);
      }
    }
  }

  /** Replaying the logs of a call on the view before it gives the view after it exactly when the call is contained. */
  lemma CallReplaysExactly(rule: Rule, db: Database, op: Op)
    requires Shaped(rule, db) && Shaped(rule, op.after)
    ensures Replay(View(rule, db), NewLogs(rule, db, op)) == View(rule, op.after) <==> Contained(rule, db, op)
  {
    forall id
      ensures At(Replay(View(rule, db), NewLogs(rule, db, op)), id) == At(View(rule, op.after), id)
          <==> ContainedAt(rule, db, op, id)
    {
      CallKeepsRecord(rule, db, op, id);
    }
    if Contained(rule, db, op) {
      SameAt(Replay(View(rule, db), NewLogs(rule, db, op)), View(rule, op.after));
    }
  }

  ghost predicate AllContained(rule: Rule, db: Database, ops: seq<Op>)
    decreases |ops|
  {
    ops == [] || (Shaped(rule, ops[0].after) && Contained(rule, db, ops[0])
        && AllContained(rule, ops[0].after, ops[1..]))
  }

  /**
    Event sourcing: after any run of contained calls, replaying the log on what was visible at first
    (nothing, for records created since) rebuilds what is visible now.
  */
  lemma {:induction false} LogRebuilds(rule: Rule, db: Database, logs: seq<Log>, ops: seq<Op>, base: Database)
    requires Shaped(rule, db) && AllContained(rule, db, ops)
    requires Replay(base, logs) == View(rule, db)
    ensures var (db', logs') := Run(rule, db, logs, ops);
            logs <= logs' && Replay(base, logs') == View(rule, db')
    decreases |ops|
  {
    if ops == [] {
    } else {
      CallReplaysExactly(rule, db, ops[0]);
      ReplayConcat(base, logs, NewLogs(rule, db, ops[0]));
      LogRebuilds(rule, ops[0].after, logs + NewLogs(rule, db, ops[0]), ops[1..], base);
    }
  }

  // ----- each line starts from the value the previous one left -----

  /** The new value of the last line about the field, reads aside. */
  function LastNew(logs: seq<Log>, id: nat, f: string): Option<Value>
    decreases |logs|
  {
    if logs == [] then None
    else
      var last := logs[|logs| - 1];
      if last.resId == id && last.action != Read && f in last.lines then Some(last.lines[f].newValue)
      else LastNew(logs[..|logs| - 1], id, f)
  }

  /** The replayed value of a field is the last value that was logged for it. */
  lemma {:induction false} ReplayIsLastNew(logs: seq<Log>, id: nat, f: string)
    requires var db := Replay(map[], logs); id in db && f in db[id]
    ensures LastNew(logs, id, f) == Some(Replay(map[], logs)[id][f])
    decreases |logs|
  {
    if logs == [] {
    } else {
      var front, last := logs[..|logs| - 1], logs[|logs| - 1];
      assert logs == front + [last];
      ReplayConcat(map[], front, [last]);
      assert [last][1..] == [];
      assert Replay(map[], logs) == ReplayLog(Replay(map[], front), last);
      var before := Replay(map[], front);
      if !(last.resId == id && last.action != Read && f in last.lines) {
        ReplayIsLastNew(front, id, f);
      }
    }
  }

  /**
    Every old value in a log line is the value last logged, except that a creation has none and that
    a read may log fields that are not audited, about which nothing else is ever logged.
  */
  ghost predicate Chained(rule: Rule, logs: seq<Log>) {
    forall i, f :: 0 <= i < |logs| && f in logs[i].lines ==> Continues(rule, logs[..i], logs[i], f)
  }

  /** Only audited fields are logged, reads aside. */
  ghost predicate OnlyAudited(rule: Rule, logs: seq<Log>) {
    forall i, f :: 0 <= i < |logs| && logs[i].action != Read && f in logs[i].lines ==> f in rule.fields
  }

  lemma {:induction false} NothingAboutOthers(rule: Rule, logs: seq<Log>, id: nat, f: string)
    requires OnlyAudited(rule, logs) && f !in rule.fields
    ensures LastNew(logs, id, f) == None
    decreases |logs|
  {
    if logs == [] {
    } else {
      NothingAboutOthers(rule, logs[..|logs| - 1], id, f);
    }
  }

  /** What a read returns of the audited fields is what the database holds. */
  predicate ReadsDatabase(rule: Rule, db: Database, op: Op) {
    op.action == Read ==>
      forall id :: id in op.seen ==> id in db && SameAudited(rule, db[id], op.seen[id])
  }

  predicate SameAudited(rule: Rule, held: Values, seen: Values) {
    forall f :: f in seen && f in rule.fields ==> f in held && seen[f] == held[f]
  }

  lemma ReadResultIsRead(rule: Rule, db: Database, user: nat, ids: seq<nat>, fields: set<string>,
      computed: (nat, string) -> Value)
    requires Shaped(rule, db)
    ensures ReadsDatabase(rule, db, Op(user, Read, ids, db, ReadResult(db, ids, fields, computed)))
  {
  }

  lemma {:induction false} LogAt(rule: Rule, user: nat, action: Method, ids: seq<nat>, olds: Database, news: Database,
      k: nat)
    requires k < |LogsOf(rule, user, action, ids, olds, news)|
    ensures |LogsOf(rule, user, action, ids, olds, news)| == |ids|
    ensures LogsOf(rule, user, action, ids, olds, news)[k] == LogOf(rule, user, action, ids[k], olds, news)
    ensures LogsOf(rule, user, action, ids, olds, news)[..k] == LogsOf(rule, user, action, ids[..k], olds, news)
    decreases |ids|
  {
    var rest := LogsOf(rule, user, action, ids[1..], olds, news);
    if k > 0 {
      LogAt(rule, user, action, ids[1..], olds, news, k - 1);
      assert ids[..k][1..] == ids[1..][..k - 1];
      assert ([LogOf(rule, user, action, ids[0], olds, news)] + rest)[..k]
          == [LogOf(rule, user, action, ids[0], olds, news)] + rest[..k - 1];
    } else if ids[1..] != [] {
      LogAt(rule, user, action, ids[1..], olds, news, 0);
    }
  }

  lemma CallAudited(rule: Rule, db: Database, op: Op)
    requires Shaped(rule, db) && Shaped(rule, op.after)
    ensures OnlyAudited(rule, NewLogs(rule, db, op))
  {
    var logs := NewLogs(rule, db, op);
    forall k, f | 0 <= k < |logs| && logs[k].action != Read && f in logs[k].lines ensures f in rule.fields {
      LogAt(rule, op.user, op.action, op.ids, Olds(db, op), News(op), k);
    }
  }

  lemma CallChains(rule: Rule, db: Database, logs: seq<Log>, op: Op, k: nat, f: string)
    requires Replay(map[], logs) == View(rule, db) && Distinct(op.ids) && ReadsDatabase(rule, db, op)
    requires k < |NewLogs(rule, db, op)| && f in NewLogs(rule, db, op)[k].lines
    requires op.action != Create && (op.action == Read ==> f in rule.fields)
    ensures var log := NewLogs(rule, db, op)[k];
            LastNew(logs + NewLogs(rule, db, op)[..k], log.resId, f) == Some(log.lines[f].oldValue)
  {
    var olds, news := Olds(db, op), News(op);
    LogAt(rule, op.user, op.action, op.ids, olds, news, k);
    var id := op.ids[k];
    var before := logs + NewLogs(rule, db, op)[..k];
    ReplayConcat(map[], logs, NewLogs(rule, db, op)[..k]);
    CallReplays(rule, View(rule, db), op.user, op.action, op.ids[..k], olds, news, id);
    assert id !in op.ids[..k];
    assert At(Replay(map[], before), id) == At(View(rule, db), id);
    ReplayIsLastNew(before, id, f);
  }

  lemma NewLogIs(rule: Rule, db: Database, op: Op, k: nat)
    requires k < |NewLogs(rule, db, op)|
    ensures NewLogs(rule, db, op)[k].action == op.action
    ensures op.action == Create ==> forall f :: f in NewLogs(rule, db, op)[k].lines ==>
        NewLogs(rule, db, op)[k].lines[f].oldValue == Empty
  {
    LogAt(rule, op.user, op.action, op.ids, Olds(db, op), News(op), k);
  }

  lemma AuditedPrefix(rule: Rule, a: seq<Log>, b: seq<Log>, k: nat)
    requires OnlyAudited(rule, a) && OnlyAudited(rule, b) && k <= |b|
    ensures OnlyAudited(rule, a + b[..k])
  {
    var c := a + b[..k];
    forall i, f | 0 <= i < |c| && c[i].action != Read && f in c[i].lines ensures f in rule.fields {
      if i >= |a| {
        assert c[i] == b[i - |a|];
      }
    }
  }

  lemma UnauditedLineIsAlone(rule: Rule, db: Database, logs: seq<Log>, op: Op, k: nat, id: nat, f: string)
    requires Shaped(rule, db) && Shaped(rule, op.after) && OnlyAudited(rule, logs)
    requires k < |NewLogs(rule, db, op)| && f !in rule.fields
    ensures LastNew(logs + NewLogs(rule, db, op)[..k], id, f) == None
  {
    CallAudited(rule, db, op);
    AuditedPrefix(rule, logs, NewLogs(rule, db, op), k);
    NothingAboutOthers(rule, logs + NewLogs(rule, db, op)[..k], id, f);
  }

  /** How a line of a log that comes after `before` has to start. */
  predicate Continues(rule: Rule, before: seq<Log>, log: Log, f: string)
    requires f in log.lines
  {
    if log.action == Create then log.lines[f].oldValue == Empty
    else LastNew(before, log.resId, f) == Some(log.lines[f].oldValue) <==> log.action != Read || f in rule.fields
  }

  /** A line of a new log continues what was logged before. */
  lemma NewLineContinues(rule: Rule, db: Database, logs: seq<Log>, op: Op, k: nat, f: string)
    requires Shaped(rule, db) && Shaped(rule, op.after) && ReadsDatabase(rule, db, op) && Distinct(op.ids)
    requires Replay(map[], logs) == View(rule, db) && OnlyAudited(rule, logs)
    requires k < |NewLogs(rule, db, op)| && f in NewLogs(rule, db, op)[k].lines
    ensures Continues(rule, logs + NewLogs(rule, db, op)[..k], NewLogs(rule, db, op)[k], f)
  {
    NewLogIs(rule, db, op, k);
    if op.action == Read && f !in rule.fields {
      UnauditedLineIsAlone(rule, db, logs, op, k, NewLogs(rule, db, op)[k].resId, f);
    } else if op.action != Create {
      CallChains(rule, db, logs, op, k, f);
    }
  }

  lemma ChainsGrow(rule: Rule, logs: seq<Log>, added: seq<Log>)
    requires Chained(rule, logs)
    requires forall k, f :: 0 <= k < |added| && f in added[k].lines ==> Continues(rule, logs + added[..k], added[k], f)
    ensures Chained(rule, logs + added)
  {
    var all := logs + added;
    forall i, f | 0 <= i < |all| && f in all[i].lines ensures Continues(rule, all[..i], all[i], f) {
      if i < |logs| {
        assert all[i] == logs[i] && all[..i] == logs[..i];
      } else {
        assert all[i] == added[i - |logs|] && all[..i] == logs + added[..i - |logs|];
      }
    }
  }

  ghost predicate ProperCalls(rule: Rule, db: Database, ops: seq<Op>)
    decreases |ops|
  {
    ops == [] || (ReadsDatabase(rule, db, ops[0]) && Distinct(ops[0].ids) && ProperCalls(rule, ops[0].after, ops[1..]))
  }

  /**
    The lines of a run are chained: what one line leaves is what the next one on that field starts
    from.  A line of a read is so exactly when its field is audited.
  */
  lemma {:induction false} LogChains(rule: Rule, db: Database, logs: seq<Log>, ops: seq<Op>)
    requires Shaped(rule, db) && AllContained(rule, db, ops) && ProperCalls(rule, db, ops)
    requires Replay(map[], logs) == View(rule, db)
    requires Chained(rule, logs) && OnlyAudited(rule, logs)
    ensures Chained(rule, Run(rule, db, logs, ops).1)
    decreases |ops|
  {
    if ops == [] {
    } else {
      var op, added := ops[0], NewLogs(rule, db, ops[0]);
      forall k, f | 0 <= k < |added| && f in added[k].lines ensures Continues(rule, logs + added[..k], added[k], f) {
        NewLineContinues(rule, db, logs, op, k, f);
      }
      ChainsGrow(rule, logs, added);
      CallAudited(rule, db, op);
      AuditedPrefix(rule, logs, added, |added|);
      assert added[..|added|] == added;
      CallReplaysExactly(rule, db, op);
      ReplayConcat(map[], logs, added);
      LogChains(rule, op.after, logs + added, ops[1..]);
    }
  }

  // A record is created, and then a computed field of it is read: the line of that read starts from a
  // value that no line left.

  const ONE_RECORD: Database := map[1 := map["name" := Text("n")]]
  const BOTH: Rule := Rule({"name"}, {"name", "total"}, {}, {Create, Read}, true, {})

  function Creation(): Op {
    Op(0, Create, [1], ONE_RECORD, map[])
  }

  function Reading(): Op {
    Op(0, Read, [1], ONE_RECORD, ReadResult(ONE_RECORD, [1], {"total"}, (id, f) => Text("7")))
  }

  lemma CreationLogs()
    ensures NewLogs(BOTH, map[], Creation()) == [Log(0, Create, 1, map["name" := Line(Empty, Text("n"))])]
    ensures Contained(BOTH, map[], Creation())
  {
    var ids: seq<nat> := [1];
    assert ids[1..] == [];
    assert Snapshot(ONE_RECORD, ids) == ONE_RECORD;
    assert LinesOf(BOTH, Create, map[], ONE_RECORD[1]) == map["name" := Line(Empty, Text("n"))];
  }

  lemma ReadingLogs()
    ensures NewLogs(BOTH, ONE_RECORD, Reading()) == [Log(0, Read, 1, map["total" := Line(Text("7"), Empty)])]
    ensures Contained(BOTH, ONE_RECORD, Reading()) && ReadsDatabase(BOTH, ONE_RECORD, Reading())
  {
    var ids: seq<nat> := [1];
    assert ids[1..] == [];
    ReadResultIsRead(BOTH, ONE_RECORD, 0, ids, {"total"}, (id, f) => Text("7"));
    assert LinesOf(BOTH, Read, Reading().seen[1], map[]) == map["total" := Line(Text("7"), Empty)];
  }

  lemma RunOfTwo(rule: Rule, db: Database, logs: seq<Log>, a: Op, b: Op)
    ensures Run(rule, db, logs, [a, b]).1 == logs + NewLogs(rule, db, a) + NewLogs(rule, a.after, b)
  {
    var first := logs + NewLogs(rule, db, a);
    assert [a, b][1..] == [b] && [b][1..] == [];
    assert Run(rule, a.after, first, [b]) == Call(rule, a.after, first, b);
  }

  lemma TwoCalls(rule: Rule, db: Database, a: Op, b: Op)
    requires Shaped(rule, a.after) && Contained(rule, db, a) && ReadsDatabase(rule, db, a) && Distinct(a.ids)
    requires Shaped(rule, b.after) && Contained(rule, a.after, b) && ReadsDatabase(rule, a.after, b) && Distinct(b.ids)
    ensures AllContained(rule, db, [a, b]) && ProperCalls(rule, db, [a, b])
  {
    assert [a, b][1..] == [b] && [b][1..] == [];
    assert AllContained(rule, a.after, [b]) && ProperCalls(rule, a.after, [b]);
  }

  lemma UnauditedReadStartsAnew()
    ensures AllContained(BOTH, map[], [Creation(), Reading()]) && ProperCalls(BOTH, map[], [Creation(), Reading()])
    ensures var logs := Run(BOTH, map[], [], [Creation(), Reading()]).1;
            && |logs| == 2 && logs[1].action == Read
            && "total" in logs[1].lines && "total" !in BOTH.fields
            && LastNew(logs[..1], 1, "total") != Some(logs[1].lines["total"].oldValue)
  {
    CreationLogs();
    ReadingLogs();
    TwoCalls(BOTH, map[], Creation(), Reading());
    RunOfTwo(BOTH, map[], [], Creation(), Reading());
    var made := Log(0, Create, 1, map["name" := Line(Empty, Text("n"))]);
    var read := Log(0, Read, 1, map["total" := Line(Text("7"), Empty)]);
    assert [] + [made] + [read] == [made, read] && [made, read][..1] == [made];
    assert LastNew([made], 1, "total") == LastNew([], 1, "total") by { assert [made][..0] == []; }
  }
}
