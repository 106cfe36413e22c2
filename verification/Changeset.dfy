/**
  Changesets (base_changeset/models): what a write, an approval and a rejection do to the record
  and to its changes.  All falsy values of a field (False, "", 0) are the one value `Falsy`.
*/
module Changeset {
  import opened Wrappers

  datatype Value = Falsy | Truthy(n: int)
  datatype FieldType = Plain | Many2one(comodel: string)

  /** A value as a change keeps it: a many2one becomes a "model,id" reference. */
  datatype Stored = NoValue | Content(n: int) | Reference(comodel: string, id: int)

  type Schema = string -> FieldType

  datatype Key = Key(res: nat, field: string)
  type Values = map<Key, Value>

  datatype ChangeState = Draft | Done | Cancelled
  datatype Change = Change(changeset: nat, key: Key, newValue: Stored, oldValue: Stored, state: ChangeState)
  datatype Header = Header(res: nat, date: int)

  datatype Action = Auto | Validate | Never

  /** `applies` is the outcome of the rule's expression on the record. */
  datatype Rule = Rule(action: Action, applies: bool)
  type Rules = map<string, Rule>

  /**
    The record values, the changesets and their changes.  `initial` is the value a record had before
    any change was done on it, `approved` lists the changes in the order they became done, and
    `manual` those among them that became done by `apply`.
  */
  datatype State = State(values: Values, changesets: seq<Header>, changes: seq<Change>, clock: int,
                         initial: Values, approved: seq<nat>, manual: seq<nat>)

  datatype Error = NoRights | AlreadyApplied | PreviousPending

  function Get(values: Values, key: Key): Value {
    if key in values then values[key] else Falsy
  }

  /** The keys of a Python dictionary are distinct. */
  ghost predicate IsDict(vals: seq<(string, Value)>) {
    forall i, j | 0 <= i < j < |vals| :: vals[i].0 != vals[j].0
  }

  /** The fields of a changeset are distinct, as they come from one dictionary. */
  ghost predicate DistinctFields(changes: seq<Change>) {
    forall i, j | 0 <= i < j < |changes| :: changes[i].changeset == changes[j].changeset ==>
        changes[i].key != changes[j].key
  }

  // ----- encoding -----

  /** `_value_for_changeset`. */
  function Encode(t: FieldType, v: Value): Stored {
    if v == Falsy then NoValue
    else match t case Many2one(comodel) => Reference(comodel, v.n) case Plain => Content(v.n)
  }

  /** `get_new_value` followed by `_convert_value_for_write`. */
  function Decode(s: Stored): Value {
    match s case NoValue => Falsy case Content(n) => Truthy(n) case Reference(_, id) => Truthy(id)
  }

  lemma DecodeEncode(t: FieldType, v: Value)
    ensures Decode(Encode(t, v)) == v
  {
  }

  // ----- writing under rules -----

  predicate HasFieldChanged(current: Value, v: Value) {
    if !(current.Truthy? || v.Truthy?) then false else current != v
  }

  predicate Ruled(rules: Rules, field: string) {
    field in rules && rules[field].applies
  }

  /** `_prepare_changeset_change` outside creation: the change, and whether the value is held back. */
  function Prepare(sch: Schema, set_: nat, key: Key, current: Value, v: Value, action: Action): (Change, bool) {
    var t := sch(key.field);
    match action
    case Auto => (Change(set_, key, Encode(t, v), Encode(t, current), Done), false)
    case Validate => (Change(set_, key, Encode(t, v), NoValue, Draft), true)
    case Never => (Change(set_, key, Encode(t, v), Encode(t, current), Cancelled), true)
  }

  function AddChange(st: State, c: Change): State {
    st.(changes := st.changes + [c], approved := if c.state == Done then st.approved + [|st.changes|] else st.approved)
  }

  /** A change is added; the value is written at once unless it is held back. */
  function RecordChange(st: State, key: Key, v: Value, c: Change, held: bool): State {
    var st' := AddChange(st, c);
    if held then st' else st'.(values := st.values[key := v])
  }

  /** The effect of writing one field. */
  function WriteField(sch: Schema, st: State, res: nat, field: string, v: Value, rules: Rules): State {
    var key := Key(res, field);
    var current := Get(st.values, key);
    if !Ruled(rules, field) || !HasFieldChanged(current, v) then st.(values := st.values[key := v])
    else
      var (c, held) := Prepare(sch, |st.changesets|, key, current, v, rules[field].action);
      RecordChange(st, key, v, c, held)
  }

  function WriteFields(sch: Schema, st: State, res: nat, vals: seq<(string, Value)>, rules: Rules): State
    decreases |vals|
  {
    if vals == [] then st
    else WriteFields(sch, WriteField(sch, st, res, vals[0].0, vals[0].1, rules), res, vals[1..], rules)
  }

  /** A changeset is created only if there are changes. */
  function AddHeader(before: State, after: State, res: nat): State {
    if after.changes == before.changes then after
    else after.(changesets := after.changesets + [Header(res, after.clock)])
  }

  function Write(sch: Schema, st: State, res: nat, vals: seq<(string, Value)>, rules: Rules): State {
    AddHeader(st, WriteFields(sch, st, res, vals, rules), res)
  }

  // ----- creation -----

  /**
    One field of a new record, which has the written value already.  A held value is replaced by
    `null(field)`; the change records no old value.
  */
  function CreateField(sch: Schema, st: State, res: nat, field: string, v: Value, rules: Rules, null_: string -> Value)
      : State {
    var key := Key(res, field);
    if !Ruled(rules, field) || v == Falsy then
      st.(values := st.values[key := v], initial := st.initial[key := v])
    else
      var (c, held) := Prepare(sch, |st.changesets|, key, Falsy, v, rules[field].action);
      var st' := AddChange(st, c);
      if held then st'.(values := st.values[key := null_(field)], initial := st.initial[key := null_(field)])
      else st'.(values := st.values[key := v], initial := st.initial[key := Falsy])
  }

  function CreateFields(sch: Schema, st: State, res: nat, vals: seq<(string, Value)>, rules: Rules,
      null_: string -> Value): State
    decreases |vals|
  {
    if vals == [] then st
    else CreateFields(sch, CreateField(sch, st, res, vals[0].0, vals[0].1, rules, null_), res, vals[1..], rules, null_)
  }

  function Create(sch: Schema, st: State, res: nat, vals: seq<(string, Value)>, rules: Rules, null_: string -> Value)
      : State {
    AddHeader(st, CreateFields(sch, st, res, vals, rules, null_), res)
  }

  // ----- approving and rejecting -----

  predicate AllBelow(n: nat, ids: seq<nat>) {
    forall i | 0 <= i < |ids| :: ids[i] < n
  }

  predicate DraftIn(changes: seq<Change>, s: nat) {
    exists c | 0 <= c < |changes| :: changes[c].changeset == s && changes[c].state == Draft
  }

  predicate IsDraft(st: State, s: nat) {
    DraftIn(st.changes, s)
  }

  /** `_check_previous_changesets` finds an older pending changeset of the same record. */
  predicate PreviousIn(changesets: seq<Header>, changes: seq<Change>, s: nat) {
    s < |changesets| &&
    exists p | 0 <= p < |changesets| ::
      changesets[p].date < changesets[s].date && changesets[p].res == changesets[s].res && DraftIn(changes, p)
  }

  predicate PendingBefore(st: State, s: nat) {
    PreviousIn(st.changesets, st.changes, s)
  }

  /** Whether the user may decide on a change; `rights` is the part that does not depend on its state. */
  predicate MayDecide(changes: seq<Change>, rights: set<nat>, skip: bool, id: nat) {
    id < |changes| && (skip || changes[id].state == Draft) && id in rights
  }

  function SetOld(sch: Schema, st: State, id: nat): State
    requires id < |st.changes|
  {
    var c := st.changes[id];
    st.(changes := st.changes[id := c.(oldValue := Encode(sch(c.key.field), Get(st.values, c.key)))])
  }

  /** One pending change: keep the old value and write the new one. */
  function ApplyChange(sch: Schema, st: State, id: nat): State
    requires id < |st.changes|
  {
    var c := st.changes[id];
    SetOld(sch, st, id).(values := st.values[c.key := Decode(c.newValue)])
  }

  function ApplyFrom(sch: Schema, st: State, ids: seq<nat>, require_: bool, ok: seq<nat>)
    : Result<(State, seq<nat>), Error>
    requires AllBelow(|st.changes|, ids)
    decreases |ids|
  {
    if ids == [] then Ok((st, ok))
    else
      var c := st.changes[ids[0]];
      if c.state != Draft then ApplyFrom(sch, st, ids[1..], require_, ok)
      else if require_ && PendingBefore(st, c.changeset) then Err(PreviousPending)
      else ApplyFrom(sch, ApplyChange(sch, st, ids[0]), ids[1..], require_, ok + [ids[0]])
  }

  function SetState(changes: seq<Change>, ids: seq<nat>, s: ChangeState): (r: seq<Change>)
    requires AllBelow(|changes|, ids)
    ensures |r| == |changes|
    decreases |ids|
  {
    if ids == [] then changes
    else SetState(changes[ids[0] := changes[ids[0]].(state := s)], ids[1..], s)
  }

  function Approve(st: State, ok: seq<nat>): State
    requires AllBelow(|st.changes|, ok)
  {
    st.(changes := SetState(st.changes, ok, Done), approved := st.approved + ok, manual := st.manual + ok)
  }

  function Apply(sch: Schema, st: State, ids: seq<nat>, rights: set<nat>, skip: bool, require_: bool)
    : Result<State, Error>
  {
    if exists i | 0 <= i < |ids| :: !MayDecide(st.changes, rights, skip, ids[i]) then Err(NoRights)
    else
      match ApplyFrom(sch, st, ids, require_, [])
      case Err(e) => Err(e)
      case Ok((st', ok)) => ApplyFromFacts(sch, st, ids, require_, []); Ok(Approve(st', ok))
  }

  lemma ApplyFromFacts(sch: Schema, st: State, ids: seq<nat>, require_: bool, ok: seq<nat>)
    requires AllBelow(|st.changes|, ids) && AllBelow(|st.changes|, ok)
    ensures var r := ApplyFrom(sch, st, ids, require_, ok);
            r.Ok? ==> |r.value.0.changes| == |st.changes| && AllBelow(|st.changes|, r.value.1)
    decreases |ids|
  {
    if ids != [] {
      ApplyFromFacts(sch, st, ids[1..], require_, ok);
      ApplyFromFacts(sch, ApplyChange(sch, st, ids[0]), ids[1..], require_, ok + [ids[0]]);
    }
  }

  function SetOlds(sch: Schema, st: State, ids: seq<nat>): (r: State)
    requires AllBelow(|st.changes|, ids)
    ensures |r.changes| == |st.changes|
    decreases |ids|
  {
    if ids == [] then st else SetOlds(sch, SetOld(sch, st, ids[0]), ids[1..])
  }

  function Cancel(sch: Schema, st: State, ids: seq<nat>, rights: set<nat>, skip: bool): Result<State, Error> {
    if exists i | 0 <= i < |ids| :: !MayDecide(st.changes, rights, skip, ids[i]) then Err(NoRights)
    else if exists i | 0 <= i < |ids| :: st.changes[ids[i]].state == Done then Err(AlreadyApplied)
    else
      var st' := SetOlds(sch, st, ids);
      Ok(st'.(changes := SetState(st'.changes, ids, Cancelled)))
  }
}
