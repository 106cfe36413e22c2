/** What holds over every run of writes, creations, approvals and rejections (base_changeset). */
module ChangesetLaws {
  import opened Sequences
  import opened Wrappers
  import opened Changeset

  // ----- runs -----

  datatype Step =
    | WriteStep(res: nat, vals: seq<(string, Value)>, rules: Rules)
    | CreateStep(res: nat, vals: seq<(string, Value)>, rules: Rules, null_: string -> Value)
    | ApplyStep(ids: seq<nat>, rights: set<nat>, skip: bool, require_: bool)
    | CancelStep(ids: seq<nat>, rights: set<nat>, skip: bool)
    | ClockStep(by_: nat)

  /** A call that raises is rolled back. */
  function Next(sch: Schema, st: State, s: Step): State {
    match s
    case WriteStep(res, vals, rules) => Write(sch, st, res, vals, rules)
    case CreateStep(res, vals, rules, null_) => Create(sch, st, res, vals, rules, null_)
    case ApplyStep(ids, rights, skip, require_) =>
      (match Apply(sch, st, ids, rights, skip, require_) case Ok(st') => st' case Err(_) => st)
    case CancelStep(ids, rights, skip) =>
      (match Cancel(sch, st, ids, rights, skip) case Ok(st') => st' case Err(_) => st)
    case ClockStep(n) => st.(clock := st.clock + n)
  }

  /** Every tracked field that is written is under a rule whose expression holds. */
  ghost predicate TrackedRuled(tracked: set<string>, vals: seq<(string, Value)>, rules: Rules) {
    forall i | 0 <= i < |vals| :: vals[i].0 in tracked ==> Ruled(rules, vals[i].0)
  }

  ghost predicate NewKey(st: State, key: Key) {
    && (forall c | 0 <= c < |st.changes| :: st.changes[c].key != key)
    && key !in st.values && key !in st.initial
  }

  ghost predicate NewRecord(st: State, res: nat) {
    forall f: string :: NewKey(st, Key(res, f))
  }

  /** What callers guarantee: dictionaries, record sets, new ids, and rules on the tracked fields. */
  ghost predicate Allowed(tracked: set<string>, st: State, s: Step) {
    match s
    case WriteStep(res, vals, rules) => IsDict(vals) && TrackedRuled(tracked, vals, rules)
    case CreateStep(res, vals, rules, _) => IsDict(vals) && TrackedRuled(tracked, vals, rules) && NewRecord(st, res)
    case ApplyStep(ids, _, _, _) => Distinct(ids)
    case CancelStep(ids, _, _) => Distinct(ids)
    case ClockStep(_) => true
  }

  function Run(sch: Schema, st: State, steps: seq<Step>): State
    decreases |steps|
  {
    if steps == [] then st else Run(sch, Next(sch, st, steps[0]), steps[1..])
  }

  /** What a call leaves; one that raises leaves what it found. */
  ghost predicate Leaves(sch: Schema, st: State, s: Step, st': State) {
    match s
    case WriteStep(res, vals, rules) => st' == Write(sch, st, res, vals, rules)
    case CreateStep(res, vals, rules, null_) => st' == Create(sch, st, res, vals, rules, null_)
    case ApplyStep(ids, rights, skip, require_) =>
      var r := Apply(sch, st, ids, rights, skip, require_);
      r == Ok(st') || (r.Err? && st' == st)
    case CancelStep(ids, rights, skip) =>
      var r := Cancel(sch, st, ids, rights, skip);
      r == Ok(st') || (r.Err? && st' == st)
    case ClockStep(n) => st' == st.(clock := st'.clock) && st'.clock == st.clock + n
  }

  /** A run goes through one state after another, each left by its call. */
  lemma {:induction false} RunMeans(sch: Schema, states: seq<State>, steps: seq<Step>)
    requires |states| == |steps| + 1
    requires forall i | 0 <= i < |steps| :: Leaves(sch, states[i], steps[i], states[i + 1])
    ensures Run(sch, states[0], steps) == states[|steps|]
    decreases |steps|
  {
    if steps != [] {
      assert Leaves(sch, states[0], steps[0], states[1]);
      var later := states[1..];
      forall i | 0 <= i < |steps[1..]| ensures Leaves(sch, later[i], steps[1..][i], later[i + 1]) {
        assert later[i] == states[i + 1] && steps[1..][i] == steps[i + 1];
      }
      RunMeans(sch, later, steps[1..]);
    }
  }

  ghost predicate AllowedRun(sch: Schema, tracked: set<string>, st: State, steps: seq<Step>)
    decreases |steps|
  {
    steps == [] || (Allowed(tracked, st, steps[0]) && AllowedRun(sch, tracked, Next(sch, st, steps[0]), steps[1..]))
  }

  // ----- the history of a field -----

  /** The value the approved changes of `log` give to a field. */
  ghost function History(changes: seq<Change>, log: seq<nat>, initial: Values, key: Key): Value
    requires AllBelow(|changes|, log)
    decreases |log|
  {
    if log == [] then Get(initial, key)
    else
      var c := changes[log[|log| - 1]];
      if c.key == key then Decode(c.newValue) else History(changes, log[..|log| - 1], initial, key)
  }

  /** Later changes are added behind, and what a change says is never altered. */
  ghost predicate SameOutline(before: seq<Change>, after: seq<Change>) {
    && |before| <= |after|
    && forall i | 0 <= i < |before| ::
         && after[i].key == before[i].key && after[i].newValue == before[i].newValue
         && after[i].changeset == before[i].changeset
  }

  lemma {:induction false} HistorySame(before: seq<Change>, after: seq<Change>, log: seq<nat>, initial: Values,
      initial': Values, key: Key)
    requires AllBelow(|before|, log) && SameOutline(before, after)
    requires Get(initial, key) == Get(initial', key)
    ensures History(after, log, initial', key) == History(before, log, initial, key)
    decreases |log|
  {
    if log != [] {
      HistorySame(before, after, log[..|log| - 1], initial, initial', key);
    }
  }

  lemma HistoryAdd(changes: seq<Change>, log: seq<nat>, id: nat, initial: Values, key: Key)
    requires AllBelow(|changes|, log) && id < |changes|
    ensures AllBelow(|changes|, log + [id])
    ensures History(changes, log + [id], initial, key) ==
            if changes[id].key == key then Decode(changes[id].newValue) else History(changes, log, initial, key)
  {
    assert (log + [id])[..|log|] == log;
  }

  /** `log` explains the values of the tracked fields, and the old value of each of its changes. */
  ghost predicate Explains(sch: Schema, tracked: set<string>, st: State, log: seq<nat>) {
    && AllBelow(|st.changes|, log)
    && (forall key: Key | key.field in tracked :: Get(st.values, key) == History(st.changes, log, st.initial, key))
    && (forall i | 0 <= i < |log| && st.changes[log[i]].key.field in tracked :: OldIsBefore(sch, st, log, i))
  }

  /** The old value kept by the i-th approved change is what the field held just before it. */
  ghost predicate OldIsBefore(sch: Schema, st: State, log: seq<nat>, i: nat)
    requires AllBelow(|st.changes|, log) && i < |log|
  {
    var c := st.changes[log[i]];
    c.oldValue == Encode(sch(c.key.field), History(st.changes, log[..i], st.initial, c.key))
  }

  ghost predicate DoneIsApproved(st: State) {
    forall c | 0 <= c < |st.changes| :: st.changes[c].state == Done <==> c in st.approved
  }

  ghost predicate Good(sch: Schema, tracked: set<string>, st: State) {
    DoneIsApproved(st) && Explains(sch, tracked, st, st.approved)
  }

  /** A state in which only things outside the log changed is explained as before. */
  lemma ExplainsSame(sch: Schema, tracked: set<string>, st: State, st': State, log: seq<nat>)
    requires Explains(sch, tracked, st, log)
    requires SameOutline(st.changes, st'.changes)
    requires forall i | 0 <= i < |log| :: st'.changes[log[i]].oldValue == st.changes[log[i]].oldValue
    requires forall key: Key | key.field in tracked ::
        Get(st'.values, key) == Get(st.values, key) && Get(st'.initial, key) == Get(st.initial, key)
    ensures Explains(sch, tracked, st', log)
  {
    forall key: Key | key.field in tracked ensures Get(st'.values, key) == History(st'.changes, log, st'.initial, key) {
      HistorySame(st.changes, st'.changes, log, st.initial, st'.initial, key);
    }
    forall i | 0 <= i < |log| && st'.changes[log[i]].key.field in tracked ensures OldIsBefore(sch, st', log, i) {
      assert OldIsBefore(sch, st, log, i);
      HistorySame(st.changes, st'.changes, log[..i], st.initial, st'.initial, st.changes[log[i]].key);
    }
  }

  /** One more change is done: it kept the current value and the record takes the new one. */
  lemma ExplainsAdd(sch: Schema, tracked: set<string>, st: State, st': State, log: seq<nat>, id: nat)
    requires Explains(sch, tracked, st, log) && id !in log && id < |st'.changes|
    requires SameOutline(st.changes, st'.changes)
    requires forall i | 0 <= i < |log| :: st'.changes[log[i]].oldValue == st.changes[log[i]].oldValue
    requires st'.initial == st.initial
    requires var c := st'.changes[id];
             && st'.values == st.values[c.key := Decode(c.newValue)]
             && c.oldValue == Encode(sch(c.key.field), Get(st.values, c.key))
    ensures Explains(sch, tracked, st', log + [id])
  {
    var c := st'.changes[id];
    var mid := st'.(values := st.values);
    ExplainsSame(sch, tracked, st, mid, log);
    assert AllBelow(|st'.changes|, log + [id]);
    forall key: Key | key.field in tracked
        ensures Get(st'.values, key) == History(st'.changes, log + [id], st'.initial, key) {
      HistoryAdd(st'.changes, log, id, st'.initial, key);
    }
    forall i | 0 <= i < |log + [id]| && st'.changes[(log + [id])[i]].key.field in tracked
        ensures OldIsBefore(sch, st', log + [id], i) {
      if i < |log| {
        assert OldIsBefore(sch, mid, log, i);
        assert (log + [id])[..i] == log[..i];
      } else {
        assert (log + [id])[..i] == log;
      }
    }
  }

  // ----- writes -----

  lemma WriteFieldGood(sch: Schema, tracked: set<string>, st: State, res: nat, field: string, v: Value, rules: Rules)
    requires Good(sch, tracked, st) && (field in tracked ==> Ruled(rules, field))
    ensures Good(sch, tracked, WriteField(sch, st, res, field, v, rules))
  {
    var st', key := WriteField(sch, st, res, field, v, rules), Key(res, field);
    if Ruled(rules, field) && HasFieldChanged(Get(st.values, key), v) {
      var c := Prepare(sch, |st.changesets|, key, Get(st.values, key), v, rules[field].action).0;
      NewChangeGood(sch, tracked, st, c);
      if c.state == Done {
        DecodeEncode(sch(field), v);
        ExplainsAdd(sch, tracked, st, st', st.approved, |st.changes|);
      } else {
        ExplainsSame(sch, tracked, st, st', st.approved);
      }
    } else {
      ExplainsSame(sch, tracked, st, st', st.approved);
    }
  }

  lemma {:induction false} WriteFieldsGood(sch: Schema, tracked: set<string>, st: State, res: nat,
      vals: seq<(string, Value)>, rules: Rules)
    requires Good(sch, tracked, st) && TrackedRuled(tracked, vals, rules)
    ensures Good(sch, tracked, WriteFields(sch, st, res, vals, rules))
    decreases |vals|
  {
    if vals != [] {
      WriteFieldGood(sch, tracked, st, res, vals[0].0, vals[0].1, rules);
      WriteFieldsGood(sch, tracked, WriteField(sch, st, res, vals[0].0, vals[0].1, rules), res, vals[1..], rules);
    }
  }

  // ----- creations -----

  /** A new field starts from its initial value. */
  lemma NewFieldExplained(sch: Schema, tracked: set<string>, st: State, key: Key, v: Value)
    requires Explains(sch, tracked, st, st.approved) && NewKey(st, key)
    ensures Explains(sch, tracked, st.(values := st.values[key := v], initial := st.initial[key := v]), st.approved)
  {
    var start := st.(values := st.values[key := v], initial := st.initial[key := v]);
    forall k: Key | k.field in tracked
        ensures Get(start.values, k) == History(st.changes, st.approved, start.initial, k) {
      if k == key {
        NoHistory(st.changes, st.approved, start.initial, key);
      } else {
        HistorySame(st.changes, st.changes, st.approved, st.initial, start.initial, k);
      }
    }
    forall i | 0 <= i < |st.approved| && st.changes[st.approved[i]].key.field in tracked
        ensures OldIsBefore(sch, start, st.approved, i) {
      assert OldIsBefore(sch, st, st.approved, i);
      HistorySame(st.changes, st.changes, st.approved[..i], st.initial, start.initial, st.changes[st.approved[i]].key);
    }
  }

  lemma CreateFieldGood(sch: Schema, tracked: set<string>, st: State, res: nat, field: string, v: Value, rules: Rules,
      null_: string -> Value)
    requires Good(sch, tracked, st) && NewKey(st, Key(res, field)) && (field in tracked ==> Ruled(rules, field))
    ensures Good(sch, tracked, CreateField(sch, st, res, field, v, rules, null_))
  {
    var st', key := CreateField(sch, st, res, field, v, rules, null_), Key(res, field);
    var first := st'.initial[key];
    var start := st.(values := st.values[key := first], initial := st.initial[key := first]);
    NewFieldExplained(sch, tracked, st, key, first);
    if Ruled(rules, field) && v != Falsy {
      var c := Prepare(sch, |st.changesets|, key, Falsy, v, rules[field].action).0;
      NewChangeGood(sch, tracked, st, c);
      if c.state == Done {
        DecodeEncode(sch(field), v);
        assert start.values[key := v] == st'.values;
        ExplainsAdd(sch, tracked, start, st', st.approved, |st.changes|);
      } else {
        ExplainsSame(sch, tracked, start, st', st.approved);
      }
    } else {
      ExplainsSame(sch, tracked, start, st', st.approved);
    }
  }

  lemma NewChangeGood(sch: Schema, tracked: set<string>, st: State, c: Change)
    requires Good(sch, tracked, st)
    ensures DoneIsApproved(AddChange(st, c)) && SameOutline(st.changes, AddChange(st, c).changes)
    ensures |st.changes| !in st.approved
  {
    var id, st' := |st.changes|, AddChange(st, c);
    assert forall i :: i in st'.approved <==> i in st.approved || (i == id && c.state == Done);
  }

  lemma {:induction false} NoHistory(changes: seq<Change>, log: seq<nat>, initial: Values, key: Key)
    requires AllBelow(|changes|, log) && forall c | 0 <= c < |changes| :: changes[c].key != key
    ensures History(changes, log, initial, key) == Get(initial, key)
    decreases |log|
  {
    if log != [] {
      NoHistory(changes, log[..|log| - 1], initial, key);
    }
  }

  lemma {:induction false} CreateFieldsGood(sch: Schema, tracked: set<string>, st: State, res: nat,
      vals: seq<(string, Value)>, rules: Rules, null_: string -> Value)
    requires Good(sch, tracked, st) && TrackedRuled(tracked, vals, rules) && IsDict(vals)
    requires forall i | 0 <= i < |vals| :: NewKey(st, Key(res, vals[i].0))
    ensures Good(sch, tracked, CreateFields(sch, st, res, vals, rules, null_))
    decreases |vals|
  {
    if vals != [] {
      CreateFieldGood(sch, tracked, st, res, vals[0].0, vals[0].1, rules, null_);
      var st' := CreateField(sch, st, res, vals[0].0, vals[0].1, rules, null_);
      forall i | 0 <= i < |vals[1..]| ensures NewKey(st', Key(res, vals[1..][i].0)) {
        assert vals[i + 1].0 != vals[0].0;
        assert NewKey(st, Key(res, vals[i + 1].0));
      }
      CreateFieldsGood(sch, tracked, st', res, vals[1..], rules, null_);
    }
  }

  // ----- approvals -----

  lemma ApplyChangeGood(sch: Schema, tracked: set<string>, st: State, id: nat, log: seq<nat>)
    requires Explains(sch, tracked, st, log) && id < |st.changes| && id !in log
    ensures Explains(sch, tracked, ApplyChange(sch, st, id), log + [id])
  {
    ExplainsAdd(sch, tracked, st, ApplyChange(sch, st, id), log, id);
  }

  lemma {:induction false} ApplyFromGood(sch: Schema, tracked: set<string>, st: State, ids: seq<nat>, require_: bool,
      ok: seq<nat>)
    requires AllBelow(|st.changes|, ids) && AllBelow(|st.changes|, ok) && Distinct(ids)
    requires DoneIsApproved(st) && Explains(sch, tracked, st, st.approved + ok)
    requires forall i | 0 <= i < |ids| :: ids[i] !in ok
    requires ApplyFrom(sch, st, ids, require_, ok).Ok?
    ensures var (st', ok') := ApplyFrom(sch, st, ids, require_, ok).value;
            && AllBelow(|st'.changes|, ok')
            && DoneIsApproved(st') && st'.approved == st.approved && Explains(sch, tracked, st', st.approved + ok')
    decreases |ids|
  {
    if ids != [] {
      var id, c := ids[0], st.changes[ids[0]];
      if c.state != Draft {
        ApplyFromGood(sch, tracked, st, ids[1..], require_, ok);
      } else {
        var st1 := ApplyChange(sch, st, id);
        ApplyChangeGood(sch, tracked, st, id, st.approved + ok);
        assert st.approved + ok + [id] == st.approved + (ok + [id]);
        ApplyFromGood(sch, tracked, st1, ids[1..], require_, ok + [id]);
      }
    }
  }

  lemma {:induction false} SetStateFacts(changes: seq<Change>, ids: seq<nat>, s: ChangeState)
    requires AllBelow(|changes|, ids)
    ensures var r := SetState(changes, ids, s);
            && SameOutline(changes, r)
            && forall i | 0 <= i < |changes| ::
                 r[i].oldValue == changes[i].oldValue && r[i].state == if i in ids then s else changes[i].state
    decreases |ids|
  {
    if ids != [] {
      var mid := changes[ids[0] := changes[ids[0]].(state := s)];
      SetStateFacts(mid, ids[1..], s);
      assert forall i :: i in ids <==> i == ids[0] || i in ids[1..];
    }
  }

  lemma ApplyGood(sch: Schema, tracked: set<string>, st: State, ids: seq<nat>, rights: set<nat>, skip: bool,
      require_: bool)
    requires Good(sch, tracked, st) && Distinct(ids) && Apply(sch, st, ids, rights, skip, require_).Ok?
    ensures Good(sch, tracked, Apply(sch, st, ids, rights, skip, require_).value)
  {
    assert AllBelow(|st.changes|, ids) by {
      forall i | 0 <= i < |ids| ensures ids[i] < |st.changes| { assert MayDecide(st.changes, rights, skip, ids[i]); }
    }
    assert st.approved + [] == st.approved;
    ApplyFromGood(sch, tracked, st, ids, require_, []);
    var (mid, ok) := ApplyFrom(sch, st, ids, require_, []).value;
    var st' := Approve(mid, ok);
    SetStateFacts(mid.changes, ok, Done);
    ExplainsSame(sch, tracked, mid, st', st.approved + ok);
    assert forall c :: c in st'.approved <==> c in st.approved || c in ok;
  }

  // ----- rejections -----

  lemma {:induction false} SetOldsFacts(sch: Schema, st: State, ids: seq<nat>)
    requires AllBelow(|st.changes|, ids)
    ensures var r := SetOlds(sch, st, ids);
            && r == st.(changes := r.changes) && SameOutline(st.changes, r.changes)
            && forall i | 0 <= i < |st.changes| ::
                 r.changes[i].state == st.changes[i].state
                 && r.changes[i].oldValue ==
                    if i in ids then Encode(sch(st.changes[i].key.field), Get(st.values, st.changes[i].key))
                    else st.changes[i].oldValue
    decreases |ids|
  {
    if ids != [] {
      SetOldsFacts(sch, SetOld(sch, st, ids[0]), ids[1..]);
      assert forall i :: i in ids <==> i == ids[0] || i in ids[1..];
    }
  }

  lemma CancelGood(sch: Schema, tracked: set<string>, st: State, ids: seq<nat>, rights: set<nat>, skip: bool)
    requires Good(sch, tracked, st) && Cancel(sch, st, ids, rights, skip).Ok?
    ensures Good(sch, tracked, Cancel(sch, st, ids, rights, skip).value)
  {
    assert AllBelow(|st.changes|, ids) by {
      forall i | 0 <= i < |ids| ensures ids[i] < |st.changes| { assert MayDecide(st.changes, rights, skip, ids[i]); }
    }
    SetOldsFacts(sch, st, ids);
    var mid := SetOlds(sch, st, ids);
    SetStateFacts(mid.changes, ids, Cancelled);
    var st' := Cancel(sch, st, ids, rights, skip).value;
    forall i | 0 <= i < |ids| ensures ids[i] !in st.approved {
      assert st.changes[ids[i]].state != Done;
    }
    ExplainsSame(sch, tracked, st, st', st.approved);
  }

  // ----- every run -----

  lemma NextGood(sch: Schema, tracked: set<string>, st: State, s: Step)
    requires Good(sch, tracked, st) && Allowed(tracked, st, s)
    ensures Good(sch, tracked, Next(sch, st, s))
  {
    match s
    case WriteStep(res, vals, rules) =>
      WriteFieldsGood(sch, tracked, st, res, vals, rules);
      var st' := WriteFields(sch, st, res, vals, rules);
      ExplainsSame(sch, tracked, st', AddHeader(st, st', res), st'.approved);
    case CreateStep(res, vals, rules, null_) =>
      CreateFieldsGood(sch, tracked, st, res, vals, rules, null_);
      var st' := CreateFields(sch, st, res, vals, rules, null_);
      ExplainsSame(sch, tracked, st', AddHeader(st, st', res), st'.approved);
    case ApplyStep(ids, rights, skip, require_) =>
      if Apply(sch, st, ids, rights, skip, require_).Ok? {
        ApplyGood(sch, tracked, st, ids, rights, skip, require_);
      }
    case CancelStep(ids, rights, skip) =>
      if Cancel(sch, st, ids, rights, skip).Ok? {
        CancelGood(sch, tracked, st, ids, rights, skip);
      }
    case ClockStep(n) =>
      ExplainsSame(sch, tracked, st, Next(sch, st, s), st.approved);
  }

  /**
    Over every run: a field that is always written under a rule holds the new value of the last
    change that became done, or its initial value, and each done change kept what the field held
    just before it.
  */
  lemma {:induction false} EveryRunIsExplained(sch: Schema, tracked: set<string>, st: State, steps: seq<Step>)
    requires Good(sch, tracked, st) && AllowedRun(sch, tracked, st, steps)
    ensures Good(sch, tracked, Run(sch, st, steps))
    decreases |steps|
  {
    if steps != [] {
      NextGood(sch, tracked, st, steps[0]);
      EveryRunIsExplained(sch, tracked, Next(sch, st, steps[0]), steps[1..]);
    }
  }

  // ----- decisions are final -----

  /** A change keeps its outline, is never left once done or cancelled, and keeps its old value once done. */
  ghost predicate Final(st: State, st': State) {
    && SameOutline(st.changes, st'.changes)
    && forall c | 0 <= c < |st.changes| ::
         && (st.changes[c].state != Draft ==> st'.changes[c].state == st.changes[c].state)
         && (st.changes[c].state == Done ==> st'.changes[c].oldValue == st.changes[c].oldValue)
  }

  lemma {:induction false} WriteFieldsFinal(sch: Schema, st: State, res: nat, vals: seq<(string, Value)>, rules: Rules)
    ensures Final(st, WriteFields(sch, st, res, vals, rules))
    decreases |vals|
  {
    if vals != [] {
      WriteFieldsFinal(sch, WriteField(sch, st, res, vals[0].0, vals[0].1, rules), res, vals[1..], rules);
    }
  }

  lemma {:induction false} CreateFieldsFinal(sch: Schema, st: State, res: nat, vals: seq<(string, Value)>, rules: Rules,
      null_: string -> Value)
    ensures Final(st, CreateFields(sch, st, res, vals, rules, null_))
    decreases |vals|
  {
    if vals != [] {
      var st1 := CreateField(sch, st, res, vals[0].0, vals[0].1, rules, null_);
      CreateFieldsFinal(sch, st1, res, vals[1..], rules, null_);
    }
  }

  /** `apply` works on pending changes only, and keeps everything else about the changes. */
  lemma {:induction false} ApplyFromFinal(sch: Schema, st: State, ids: seq<nat>, require_: bool, ok: seq<nat>)
    requires AllBelow(|st.changes|, ids) && AllBelow(|st.changes|, ok)
    requires forall i | 0 <= i < |ok| :: st.changes[ok[i]].state == Draft
    requires ApplyFrom(sch, st, ids, require_, ok).Ok?
    ensures var (st', ok') := ApplyFrom(sch, st, ids, require_, ok).value;
            && Final(st, st') && |st'.changes| == |st.changes| && AllBelow(|st'.changes|, ok')
            && st'.changesets == st.changesets && st'.manual == st.manual && st'.clock == st.clock
            && (forall c | 0 <= c < |st.changes| :: st'.changes[c].state == st.changes[c].state)
            && (forall i | 0 <= i < |ok'| :: st.changes[ok'[i]].state == Draft)
    decreases |ids|
  {
    if ids != [] {
      if st.changes[ids[0]].state != Draft {
        ApplyFromFinal(sch, st, ids[1..], require_, ok);
      } else {
        var st1 := ApplyChange(sch, st, ids[0]);
        ApplyFromFinal(sch, st1, ids[1..], require_, ok + [ids[0]]);
        var ok' := ApplyFrom(sch, st1, ids[1..], require_, ok + [ids[0]]).value.1;
        forall i | 0 <= i < |ok'| ensures st.changes[ok'[i]].state == Draft {
          assert st1.changes[ok'[i]].state == Draft;
        }
      }
    }
  }

  lemma RightsBelow(st: State, ids: seq<nat>, rights: set<nat>, skip: bool)
    requires forall i | 0 <= i < |ids| :: MayDecide(st.changes, rights, skip, ids[i])
    ensures AllBelow(|st.changes|, ids)
  {
    forall i | 0 <= i < |ids| ensures ids[i] < |st.changes| { assert MayDecide(st.changes, rights, skip, ids[i]); }
  }

  lemma NextFinal(sch: Schema, st: State, s: Step)
    ensures Final(st, Next(sch, st, s))
  {
    match s
    case WriteStep(res, vals, rules) => WriteFieldsFinal(sch, st, res, vals, rules);
    case CreateStep(res, vals, rules, null_) => CreateFieldsFinal(sch, st, res, vals, rules, null_);
    case ApplyStep(ids, rights, skip, require_) =>
      if Apply(sch, st, ids, rights, skip, require_).Ok? {
        RightsBelow(st, ids, rights, skip);
        ApplyFromFinal(sch, st, ids, require_, []);
        var (mid, ok) := ApplyFrom(sch, st, ids, require_, []).value;
        SetStateFacts(mid.changes, ok, Done);
      }
    case CancelStep(ids, rights, skip) =>
      if Cancel(sch, st, ids, rights, skip).Ok? {
        RightsBelow(st, ids, rights, skip);
        SetOldsFacts(sch, st, ids);
        SetStateFacts(SetOlds(sch, st, ids).changes, ids, Cancelled);
      }
    case ClockStep(_) =>
  }

  /** Over every run, done and cancelled are never left. */
  lemma {:induction false} DecisionsAreFinal(sch: Schema, st: State, steps: seq<Step>)
    ensures Final(st, Run(sch, st, steps))
    decreases |steps|
  {
    if steps != [] {
      NextFinal(sch, st, steps[0]);
      DecisionsAreFinal(sch, Next(sch, st, steps[0]), steps[1..]);
    }
  }

  // ----- the order of approvals -----

  ghost predicate Linked(st: State) {
    forall c | 0 <= c < |st.changes| :: st.changes[c].changeset < |st.changesets|
  }

  function HeaderOf(st: State, id: nat): Header
    requires id < |st.changes| && st.changes[id].changeset < |st.changesets|
  {
    st.changesets[st.changes[id].changeset]
  }

  /** No older changeset of the record is pending. */
  ghost predicate NothingOlder(st: State, h: Header) {
    forall s | 0 <= s < |st.changesets| :: st.changesets[s].res == h.res && st.changesets[s].date < h.date ==>
        !IsDraft(st, s)
  }

  ghost predicate InOrder(st: State, log: seq<nat>)
    requires Linked(st) && AllBelow(|st.changes|, log)
  {
    forall i, j | 0 <= i < j < |log| :: HeaderOf(st, log[i]).res == HeaderOf(st, log[j]).res ==>
                                          HeaderOf(st, log[i]).date <= HeaderOf(st, log[j]).date
  }

  ghost predicate Ordered(st: State) {
    && Linked(st) && AllBelow(|st.changes|, st.manual)
    && (forall s | 0 <= s < |st.changesets| :: st.changesets[s].date <= st.clock)
    && (forall i | 0 <= i < |st.manual| :: NothingOlder(st, HeaderOf(st, st.manual[i])))
    && InOrder(st, st.manual)
  }

  /** What keeps approvals ordered: changesets only get decided, and a new one carries the present date. */
  lemma OrderedKeeps(st: State, st': State)
    requires Ordered(st) && Linked(st') && SameOutline(st.changes, st'.changes)
    requires st.changesets <= st'.changesets && st'.manual == st.manual && st.clock <= st'.clock
    requires forall s | |st.changesets| <= s < |st'.changesets| :: st'.changesets[s].date == st.clock
    requires forall s | 0 <= s < |st.changesets| :: IsDraft(st', s) ==> IsDraft(st, s)
    ensures Ordered(st')
  {
    forall i | 0 <= i < |st'.manual| ensures NothingOlder(st', HeaderOf(st', st'.manual[i])) {
      assert HeaderOf(st', st'.manual[i]) == HeaderOf(st, st.manual[i]);
      assert NothingOlder(st, HeaderOf(st, st.manual[i]));
    }
    forall i, j | 0 <= i < j < |st'.manual| && HeaderOf(st', st'.manual[i]).res == HeaderOf(st', st'.manual[j]).res
      ensures HeaderOf(st', st'.manual[i]).date <= HeaderOf(st', st'.manual[j]).date
    {
      assert HeaderOf(st', st'.manual[i]) == HeaderOf(st, st.manual[i]);
      assert HeaderOf(st', st'.manual[j]) == HeaderOf(st, st.manual[j]);
    }
  }

  /** Writes and creations put all their changes into the one changeset they may add. */
  ghost predicate OneChangeset(st: State, st': State, s: nat) {
    && |st.changes| <= |st'.changes|
    && st'.changes[..|st.changes|] == st.changes
    && st'.changesets == st.changesets && st'.manual == st.manual && st'.clock == st.clock
    && forall c | |st.changes| <= c < |st'.changes| :: st'.changes[c].changeset == s
  }

  lemma {:induction false} WriteFieldsOne(sch: Schema, st: State, res: nat, vals: seq<(string, Value)>, rules: Rules)
    ensures OneChangeset(st, WriteFields(sch, st, res, vals, rules), |st.changesets|)
    decreases |vals|
  {
    if vals != [] {
      var st1 := WriteField(sch, st, res, vals[0].0, vals[0].1, rules);
      assert OneChangeset(st, st1, |st.changesets|);
      WriteFieldsOne(sch, st1, res, vals[1..], rules);
      OneChangesetTransitive(st, st1, WriteFields(sch, st1, res, vals[1..], rules), |st.changesets|);
    }
  }

  lemma {:induction false} CreateFieldsOne(sch: Schema, st: State, res: nat, vals: seq<(string, Value)>, rules: Rules,
      null_: string -> Value)
    ensures OneChangeset(st, CreateFields(sch, st, res, vals, rules, null_), |st.changesets|)
    decreases |vals|
  {
    if vals != [] {
      var st1 := CreateField(sch, st, res, vals[0].0, vals[0].1, rules, null_);
      assert OneChangeset(st, st1, |st.changesets|);
      CreateFieldsOne(sch, st1, res, vals[1..], rules, null_);
      OneChangesetTransitive(st, st1, CreateFields(sch, st1, res, vals[1..], rules, null_), |st.changesets|);
    }
  }

  lemma OneChangesetTransitive(st: State, mid: State, st': State, s: nat)
    requires OneChangeset(st, mid, s) && OneChangeset(mid, st', s)
    ensures OneChangeset(st, st', s)
  {
    assert st'.changes[..|st.changes|] == mid.changes[..|st.changes|];
    forall c | |st.changes| <= c < |st'.changes| ensures st'.changes[c].changeset == s {
      if c < |mid.changes| {
        assert st'.changes[..|mid.changes|][c] == mid.changes[c];
      }
    }
  }

  lemma AddHeaderOrdered(st: State, st': State, res: nat)
    requires Ordered(st) && OneChangeset(st, st', |st.changesets|)
    ensures Ordered(AddHeader(st, st', res))
  {
    var end := AddHeader(st, st', res);
    forall c | 0 <= c < |st.changes| ensures end.changes[c] == st.changes[c] {
      assert st'.changes[..|st.changes|][c] == st.changes[c];
    }
    if |st'.changes| == |st.changes| {
      assert st'.changes == st.changes;
    }
    OrderedKeeps(st, end);
  }

  /** Under the check, an approved change has nothing older pending, and is itself pending before the call. */
  lemma {:induction false} ApplyFromChecks(sch: Schema, st: State, ids: seq<nat>, ok: seq<nat>)
    requires AllBelow(|st.changes|, ids) && AllBelow(|st.changes|, ok) && Linked(st)
    requires forall i | 0 <= i < |ok| :: NothingOlder(st, HeaderOf(st, ok[i]))
    requires ApplyFrom(sch, st, ids, true, ok).Ok?
    ensures var ok' := ApplyFrom(sch, st, ids, true, ok).value.1;
            AllBelow(|st.changes|, ok') && forall i | 0 <= i < |ok'| :: NothingOlder(st, HeaderOf(st, ok'[i]))
    decreases |ids|
  {
    if ids != [] {
      var id := ids[0];
      if st.changes[id].state != Draft {
        ApplyFromChecks(sch, st, ids[1..], ok);
      } else {
        var st1 := ApplyChange(sch, st, id);
        SameDrafts(st, st1);
        assert NothingOlder(st, HeaderOf(st, id));
        forall h: Header ensures NothingOlder(st1, h) <==> NothingOlder(st, h) {
        }
        ApplyFromChecks(sch, st1, ids[1..], ok + [id]);
      }
    }
  }

  lemma SameDrafts(st: State, st': State)
    requires |st.changes| == |st'.changes| && st'.changesets == st.changesets
    requires forall c | 0 <= c < |st.changes| ::
               st'.changes[c].state == st.changes[c].state && st'.changes[c].changeset == st.changes[c].changeset
    ensures forall s :: IsDraft(st', s) <==> IsDraft(st, s)
  {
    forall s ensures IsDraft(st', s) <==> IsDraft(st, s) {
      if IsDraft(st, s) {
        var c :| 0 <= c < |st.changes| && st.changes[c].changeset == s && st.changes[c].state == Draft;
        assert st'.changes[c].changeset == s && st'.changes[c].state == Draft;
      }
    }
  }

  lemma ApplyOrdered(sch: Schema, st: State, ids: seq<nat>, rights: set<nat>, skip: bool)
    requires Ordered(st) && Apply(sch, st, ids, rights, skip, true).Ok?
    ensures Ordered(Apply(sch, st, ids, rights, skip, true).value)
  {
    RightsBelow(st, ids, rights, skip);
    ApplyFromFinal(sch, st, ids, true, []);
    ApplyFromChecks(sch, st, ids, []);
    var (mid, ok) := ApplyFrom(sch, st, ids, true, []).value;
    SetStateFacts(mid.changes, ok, Done);
    var st' := Approve(mid, ok);
    var log := st.manual + ok;
    forall i | 0 <= i < |log| ensures NothingOlder(st, HeaderOf(st, log[i])) {
    }
    forall i | 0 <= i < |ok| ensures IsDraft(st, st.changes[ok[i]].changeset) {
      assert st.changes[ok[i]].state == Draft;
    }
    ApprovedInOrder(st, log, ok);
    LogOrdered(st, st', log);
  }

  lemma ApprovedInOrder(st: State, log: seq<nat>, ok: seq<nat>)
    requires Ordered(st) && AllBelow(|st.changes|, ok) && log == st.manual + ok
    requires forall i | 0 <= i < |log| :: NothingOlder(st, HeaderOf(st, log[i]))
    requires forall i | 0 <= i < |ok| :: IsDraft(st, st.changes[ok[i]].changeset)
    ensures InOrder(st, log)
  {
    forall i, j | 0 <= i < j < |log| && HeaderOf(st, log[i]).res == HeaderOf(st, log[j]).res
      ensures HeaderOf(st, log[i]).date <= HeaderOf(st, log[j]).date
    {
      if j >= |st.manual| {
        assert log[j] == ok[j - |st.manual|];
        assert NothingOlder(st, HeaderOf(st, log[i]));
      }
    }
  }

  lemma LogOrdered(st: State, st': State, log: seq<nat>)
    requires Ordered(st) && AllBelow(|st.changes|, log) && InOrder(st, log)
    requires forall i | 0 <= i < |log| :: NothingOlder(st, HeaderOf(st, log[i]))
    requires SameOutline(st.changes, st'.changes) && |st'.changes| == |st.changes|
    requires st'.changesets == st.changesets && st'.clock == st.clock && st'.manual == log
    requires forall c | 0 <= c < |st.changes| :: st'.changes[c].state == Draft ==> st.changes[c].state == Draft
    ensures Ordered(st')
  {
    FewerDrafts(st, st');
    forall i | 0 <= i < |log| ensures NothingOlder(st', HeaderOf(st', log[i])) {
      assert HeaderOf(st', log[i]) == HeaderOf(st, log[i]);
    }
    forall i, j | 0 <= i < j < |log| && HeaderOf(st', log[i]).res == HeaderOf(st', log[j]).res
      ensures HeaderOf(st', log[i]).date <= HeaderOf(st', log[j]).date
    {
      assert HeaderOf(st', log[i]) == HeaderOf(st, log[i]) && HeaderOf(st', log[j]) == HeaderOf(st, log[j]);
    }
  }

  lemma FewerDrafts(st: State, st': State)
    requires SameOutline(st.changes, st'.changes) && |st'.changes| == |st.changes|
    requires forall c | 0 <= c < |st.changes| :: st'.changes[c].state == Draft ==> st.changes[c].state == Draft
    ensures forall s :: IsDraft(st', s) ==> IsDraft(st, s)
  {
    forall s | IsDraft(st', s) ensures IsDraft(st, s) {
      var c :| 0 <= c < |st'.changes| && st'.changes[c].changeset == s && st'.changes[c].state == Draft;
      assert st.changes[c].changeset == s && st.changes[c].state == Draft;
    }
  }

  lemma NextOrdered(sch: Schema, st: State, s: Step)
    requires Ordered(st) && (s.ApplyStep? ==> s.require_)
    ensures Ordered(Next(sch, st, s))
  {
    match s
    case WriteStep(res, vals, rules) =>
      WriteFieldsOne(sch, st, res, vals, rules);
      AddHeaderOrdered(st, WriteFields(sch, st, res, vals, rules), res);
    case CreateStep(res, vals, rules, null_) =>
      CreateFieldsOne(sch, st, res, vals, rules, null_);
      AddHeaderOrdered(st, CreateFields(sch, st, res, vals, rules, null_), res);
    case ApplyStep(ids, rights, skip, _) =>
      if Apply(sch, st, ids, rights, skip, true).Ok? {
        ApplyOrdered(sch, st, ids, rights, skip);
      }
    case CancelStep(ids, rights, skip) =>
      if Cancel(sch, st, ids, rights, skip).Ok? {
        RightsBelow(st, ids, rights, skip);
        SetOldsFacts(sch, st, ids);
        SetStateFacts(SetOlds(sch, st, ids).changes, ids, Cancelled);
        var st' := Next(sch, st, s);
        FewerDrafts(st, st');
        OrderedKeeps(st, st');
      }
    case ClockStep(_) =>
      SameDrafts(st, Next(sch, st, s));
      OrderedKeeps(st, Next(sch, st, s));
  }

  /**
    When every approval asks that previous changesets be done, and the clock never goes back, the
    changesets of a record are applied in the order of their dates, over the whole run.
  */
  lemma {:induction false} AppliedInDateOrder(sch: Schema, st: State, steps: seq<Step>)
    requires Ordered(st) && forall i | 0 <= i < |steps| :: steps[i].ApplyStep? ==> steps[i].require_
    ensures Ordered(Run(sch, st, steps))
    ensures InOrder(Run(sch, st, steps), Run(sch, st, steps).manual)
    decreases |steps|
  {
    if steps != [] {
      NextOrdered(sch, st, steps[0]);
      AppliedInDateOrder(sch, Next(sch, st, steps[0]), steps[1..]);
    }
  }

  // ----- holding and then applying -----

  /** The values a write without any rule gives. */
  function Plainly(values: Values, res: nat, vals: seq<(string, Value)>): Values
    decreases |vals|
  {
    if vals == [] then values else Plainly(values[Key(res, vals[0].0) := vals[0].1], res, vals[1..])
  }

  /** The values after the pending changes from position i on. */
  function Settle(values: Values, changes: seq<Change>, i: nat): Values
    decreases |changes| - i
  {
    if i >= |changes| then values
    else
      var c := changes[i];
      Settle(if c.state == Draft then values[c.key := Decode(c.newValue)] else values, changes, i + 1)
  }

  lemma {:induction false} SettleAppend(values: Values, changes: seq<Change>, i: nat, c: Change)
    requires i <= |changes|
    ensures Settle(values, changes + [c], i) ==
            var s := Settle(values, changes, i); if c.state == Draft then s[c.key := Decode(c.newValue)] else s
    decreases |changes| - i
  {
    if i < |changes| {
      var d := changes[i];
      SettleAppend(if d.state == Draft then values[d.key := Decode(d.newValue)] else values, changes, i + 1, c);
    } else {
      assert (changes + [c])[i] == c;
    }
  }

  lemma {:induction false} SettleOther(values: Values, changes: seq<Change>, i: nat, key: Key, v: Value)
    requires forall c | i <= c < |changes| :: changes[c].key != key
    ensures Settle(values[key := v], changes, i) == Settle(values, changes, i)[key := v]
    decreases |changes| - i
  {
    if i < |changes| {
      var c := changes[i];
      var values' := if c.state == Draft then values[c.key := Decode(c.newValue)] else values;
      assert c.state == Draft ==> values[key := v][c.key := Decode(c.newValue)] == values'[key := v];
      SettleOther(values', changes, i + 1, key, v);
    }
  }

  ghost predicate NoneRefused(vals: seq<(string, Value)>, rules: Rules) {
    forall i | 0 <= i < |vals| && Ruled(rules, vals[i].0) :: rules[vals[i].0].action != Never
  }

  /** Settling after a write under rules gives what the plain write gives. */
  lemma {:induction false} WriteSettles(sch: Schema, st: State, base: nat, res: nat, vals: seq<(string, Value)>,
      rules: Rules)
    requires base <= |st.changes| && IsDict(vals) && NoneRefused(vals, rules)
    requires forall c, i | base <= c < |st.changes| && 0 <= i < |vals| :: st.changes[c].key != Key(res, vals[i].0)
    ensures var st' := WriteFields(sch, st, res, vals, rules);
            Settle(st'.values, st'.changes, base) == Plainly(Settle(st.values, st.changes, base), res, vals)
    decreases |vals|
  {
    if vals != [] {
      var (field, v) := vals[0];
      var key, st1 := Key(res, field), WriteField(sch, st, res, field, v, rules);
      assert Settle(st1.values, st1.changes, base) == Settle(st.values, st.changes, base)[key := v] by {
        FieldSettles(sch, st, base, res, field, v, rules);
      }
      forall c, i | base <= c < |st1.changes| && 0 <= i < |vals[1..]|
          ensures st1.changes[c].key != Key(res, vals[1..][i].0) {
        assert vals[i + 1].0 != field;
      }
      WriteSettles(sch, st1, base, res, vals[1..], rules);
    }
  }

  lemma FieldSettles(sch: Schema, st: State, base: nat, res: nat, field: string, v: Value, rules: Rules)
    requires base <= |st.changes| && (Ruled(rules, field) ==> rules[field].action != Never)
    requires forall c | base <= c < |st.changes| :: st.changes[c].key != Key(res, field)
    ensures var st1 := WriteField(sch, st, res, field, v, rules);
            Settle(st1.values, st1.changes, base) == Settle(st.values, st.changes, base)[Key(res, field) := v]
  {
    var key, current := Key(res, field), Get(st.values, Key(res, field));
    SettleOther(st.values, st.changes, base, key, v);
    if Ruled(rules, field) && HasFieldChanged(current, v) {
      var (c, held) := Prepare(sch, |st.changesets|, key, current, v, rules[field].action);
      DecodeEncode(sch(field), v);
      SettleAppend(if held then st.values else st.values[key := v], st.changes, base, c);
    }
  }

  /** All changes from position `from` on, as a record set. */
  function IdsFrom(from_: nat, n: nat): (r: seq<nat>)
    requires from_ <= n
    ensures AllBelow(n, r)
  {
    seq(n - from_, i requires 0 <= i < n - from_ => from_ + i)
  }

  /** Applying them settles the values. */
  lemma {:induction false} ApplySettles(sch: Schema, st: State, from_: nat, require_: bool, ok: seq<nat>)
    requires from_ <= |st.changes| && AllBelow(|st.changes|, ok)
    requires require_ ==> forall c | from_ <= c < |st.changes| :: !PendingBefore(st, st.changes[c].changeset)
    ensures var r := ApplyFrom(sch, st, IdsFrom(from_, |st.changes|), require_, ok);
            r.Ok? && r.value.0.values == Settle(st.values, st.changes, from_)
    decreases |st.changes| - from_
  {
    if from_ < |st.changes| {
      var ids := IdsFrom(from_, |st.changes|);
      assert ids[1..] == IdsFrom(from_ + 1, |st.changes|);
      if st.changes[from_].state != Draft {
        ApplySettles(sch, st, from_ + 1, require_, ok);
      } else {
        var st1 := ApplyChange(sch, st, from_);
        SameDrafts(st, st1);
        ApplySettles(sch, st1, from_ + 1, require_, ok + [from_]);
        SettleSame(st1.values, st1.changes, st.changes, from_ + 1);
      }
    }
  }

  lemma {:induction false} SettleSame(values: Values, a: seq<Change>, b: seq<Change>, i: nat)
    requires |a| == |b| && forall c | i <= c < |a| :: a[c] == b[c]
    ensures Settle(values, a, i) == Settle(values, b, i)
    decreases |a| - i
  {
    if i < |a| {
      var c := a[i];
      SettleSame(if c.state == Draft then values[c.key := Decode(c.newValue)] else values, a, b, i + 1);
    }
  }

  /** The write holds this field back. */
  ghost predicate Held(st: State, res: nat, field: string, v: Value, rules: Rules) {
    Ruled(rules, field) && rules[field].action != Auto && HasFieldChanged(Get(st.values, Key(res, field)), v)
  }

  /** A write changes exactly the fields that are not held back. */
  lemma {:induction false} WriteLeavesHeld(sch: Schema, st: State, res: nat, vals: seq<(string, Value)>, rules: Rules,
      key: Key)
    requires IsDict(vals)
    ensures var values := WriteFields(sch, st, res, vals, rules).values;
            && ((forall i | 0 <= i < |vals| && key == Key(res, vals[i].0) ::
                Held(st, res, vals[i].0, vals[i].1, rules)) ==>
                  (key in values <==> key in st.values) && Get(values, key) == Get(st.values, key))
            && (forall i | 0 <= i < |vals| && key == Key(res, vals[i].0)
                && !Held(st, res, vals[i].0, vals[i].1, rules) ::
                  Get(values, key) == vals[i].1)
    decreases |vals|
  {
    if vals != [] {
      var (field, v) := vals[0];
      var st1 := WriteField(sch, st, res, field, v, rules);
      WriteLeavesHeld(sch, st1, res, vals[1..], rules, key);
      forall i | 0 < i < |vals| ensures Get(st1.values, Key(res, vals[i].0)) == Get(st.values, Key(res, vals[i].0)) {
        assert vals[i].0 != field;
      }
      forall i | 0 < i < |vals|
          ensures vals[1..][i - 1] == vals[i]
          && (Held(st1, res, vals[i].0, vals[i].1, rules) <==> Held(st, res, vals[i].0, vals[i].1, rules)) {
      }
    }
  }

  /**
    Holding refines writing: applying the changeset of a write, with nothing written in between,
    gives the record the same write would give without rules.
  */
  lemma {:induction false} HoldThenApply(sch: Schema, st: State, res: nat, vals: seq<(string, Value)>, rules: Rules,
      rights: set<nat>, require_: bool)
    requires IsDict(vals) && NoneRefused(vals, rules)
    requires forall id :: |st.changes| <= id < |Write(sch, st, res, vals, rules).changes| ==> id in rights
    requires require_ ==> !PendingBefore(Write(sch, st, res, vals, rules), |st.changesets|)
    ensures var held := Write(sch, st, res, vals, rules);
            && |st.changes| <= |held.changes|
            && var applied := Apply(sch, held, IdsFrom(|st.changes|, |held.changes|), rights, true, require_);
            && applied.Ok?
            && applied.value.values == Write(sch, st, res, vals, map[]).values == Plainly(st.values, res, vals)
  {
    WriteFieldsOne(sch, st, res, vals, rules);
    var held := Write(sch, st, res, vals, rules);
    WriteSettles(sch, st, |st.changes|, res, vals, rules);
    ApplySettles(sch, held, |st.changes|, require_, []);
    PlainWrite(sch, st, res, vals);
  }

  lemma {:induction false} PlainWrite(sch: Schema, st: State, res: nat, vals: seq<(string, Value)>)
    ensures WriteFields(sch, st, res, vals, map[]) == st.(values := Plainly(st.values, res, vals))
    decreases |vals|
  {
    if vals != [] {
      PlainWrite(sch, WriteField(sch, st, res, vals[0].0, vals[0].1, map[]), res, vals[1..]);
    }
  }

  // ----- the fields of a changeset stay distinct -----

  /** Distinct in old changesets and in the one being filled, which has no change for `vals` yet. */
  ghost predicate Filling(st: State, res: nat, vals: seq<(string, Value)>) {
    && DistinctFields(st.changes)
    && (forall c | 0 <= c < |st.changes| :: st.changes[c].changeset <= |st.changesets|)
    && (forall c, i | 0 <= c < |st.changes| && 0 <= i < |vals| ::
          st.changes[c].changeset == |st.changesets| ==> st.changes[c].key != Key(res, vals[i].0))
  }

  lemma FillOne(st: State, st': State, res: nat, vals: seq<(string, Value)>, c: Change)
    requires vals != [] && IsDict(vals) && Filling(st, res, vals)
    requires st'.changesets == st.changesets && (st'.changes == st.changes || st'.changes == st.changes + [c])
    requires c.changeset == |st.changesets| && c.key == Key(res, vals[0].0)
    ensures Filling(st', res, vals[1..])
  {
    forall i | 0 <= i < |vals[1..]| ensures vals[1..][i].0 != vals[0].0 {
      assert vals[1..][i] == vals[i + 1];
    }
  }

  lemma {:induction false} WriteFieldsFill(sch: Schema, st: State, res: nat, vals: seq<(string, Value)>, rules: Rules)
    requires IsDict(vals) && Filling(st, res, vals)
    ensures Filling(WriteFields(sch, st, res, vals, rules), res, [])
    decreases |vals|
  {
    if vals != [] {
      var (field, v) := vals[0];
      var st1 := WriteField(sch, st, res, field, v, rules);
      var c :=
        if |st1.changes| > |st.changes| then st1.changes[|st.changes|]
        else Change(|st.changesets|, Key(res, field), NoValue, NoValue, Draft);
      FillOne(st, st1, res, vals, c);
      WriteFieldsFill(sch, st1, res, vals[1..], rules);
    }
  }

  lemma {:induction false} CreateFieldsFill(sch: Schema, st: State, res: nat, vals: seq<(string, Value)>, rules: Rules,
      null_: string -> Value)
    requires IsDict(vals) && Filling(st, res, vals)
    ensures Filling(CreateFields(sch, st, res, vals, rules, null_), res, [])
    decreases |vals|
  {
    if vals != [] {
      var (field, v) := vals[0];
      var st1 := CreateField(sch, st, res, field, v, rules, null_);
      var c :=
        if |st1.changes| > |st.changes| then st1.changes[|st.changes|]
        else Change(|st.changesets|, Key(res, field), NoValue, NoValue, Draft);
      FillOne(st, st1, res, vals, c);
      CreateFieldsFill(sch, st1, res, vals[1..], rules, null_);
    }
  }

  lemma SameFieldsDistinct(before: seq<Change>, after: seq<Change>)
    requires SameOutline(before, after) && |before| == |after| && DistinctFields(before)
    ensures DistinctFields(after)
  {
  }

  /** What `apply` relies on is kept by every step: each changeset has one change per field. */
  lemma NextKeepsDistinctFields(sch: Schema, tracked: set<string>, st: State, s: Step)
    requires DistinctFields(st.changes) && Linked(st) && Allowed(tracked, st, s)
    ensures DistinctFields(Next(sch, st, s).changes)
  {
    match s
    case WriteStep(res, vals, rules) => WriteFieldsFill(sch, st, res, vals, rules);
    case CreateStep(res, vals, rules, null_) => CreateFieldsFill(sch, st, res, vals, rules, null_);
    case ApplyStep(ids, rights, skip, require_) =>
      if Apply(sch, st, ids, rights, skip, require_).Ok? {
        RightsBelow(st, ids, rights, skip);
        ApplyFromFinal(sch, st, ids, require_, []);
        var (mid, ok) := ApplyFrom(sch, st, ids, require_, []).value;
        SetStateFacts(mid.changes, ok, Done);
        SameFieldsDistinct(st.changes, Approve(mid, ok).changes);
      }
    case CancelStep(ids, rights, skip) =>
      if Cancel(sch, st, ids, rights, skip).Ok? {
        RightsBelow(st, ids, rights, skip);
        SetOldsFacts(sch, st, ids);
        SetStateFacts(SetOlds(sch, st, ids).changes, ids, Cancelled);
        SameFieldsDistinct(st.changes, Next(sch, st, s).changes);
      }
    case ClockStep(_) =>
  }
}
