/**
  The records, changesets and changes of base_changeset as mutable state, with the loops of
  `add_changeset`, `apply` and `cancel`, proved against the functions of `Changeset`.
*/
module ChangesetStore {
  import opened Sequences
  import opened Wrappers
  import opened Changeset

  function ToMap(vals: seq<(string, Value)>): map<string, Value>
    decreases |vals|
  {
    if vals == [] then map[] else ToMap(vals[1..])[vals[0].0 := vals[0].1]
  }

  lemma {:induction false} ToMapHas(vals: seq<(string, Value)>, field: string)
    ensures field in ToMap(vals) <==> exists i | 0 <= i < |vals| :: vals[i].0 == field
    decreases |vals|
  {
    if vals != [] {
      ToMapHas(vals[1..], field);
      if i :| 0 <= i < |vals| && vals[i].0 == field {
        if i > 0 { assert vals[1..][i - 1].0 == field; }
      }
    }
  }

  /** The values of a dictionary, as values of fields of the record. */
  function OfRecord(res: nat, m: map<string, Value>): Values {
    map f | f in m :: Key(res, f) := m[f]
  }

  /**
    The loop of `add_changeset` half way: the values not popped so far, the changes to create, and,
    for the proof, the values the record keeps and the changes that are done at once.
  */
  datatype Progress = Progress(writeValues: map<string, Value>, created: seq<Change>, kept: map<string, Value>,
      done: seq<nat>)

  /** The state when the values kept so far have been written and the changes created. */
  ghost function Ahead(before: State, res: nat, p: Progress): State {
    before.(values := before.values + OfRecord(res, p.kept), changes := before.changes + p.created, approved := p.done)
  }

  function AddStep(sch: Schema, st: State, res: nat, field: string, value: Value, rules: Rules, p: Progress): Progress {
    var current := Get(st.values, Key(res, field));
    if !Ruled(rules, field) || !HasFieldChanged(current, value) then p.(kept := p.kept[field := value])
    else
      var (c, held) := Prepare(sch, |st.changesets|, Key(res, field), current, value, rules[field].action);
      Prepared(|st.changes| + |p.created|, field, value, c, held, p)
  }

  /** A change with this id is to be created, and the value is popped if it is held back. */
  function Prepared(id: nat, field: string, value: Value, c: Change, held: bool, p: Progress): Progress {
    Progress(if held then p.writeValues - {field} else p.writeValues, p.created + [c],
             if held then p.kept else p.kept[field := value], if c.state == Done then p.done + [id] else p.done)
  }

  ghost predicate KeptFrom(vals: seq<(string, Value)>, i: nat, kept: map<string, Value>) {
    forall f :: f in kept ==> exists j | 0 <= j < i && j < |vals| :: vals[j].0 == f
  }

  lemma AheadStep(sch: Schema, before: State, res: nat, field: string, value: Value, rules: Rules, p: Progress)
    requires field !in p.kept
    ensures WriteField(sch, Ahead(before, res, p), res, field, value, rules)
         == Ahead(before, res, AddStep(sch, before, res, field, value, rules, p))
  {
    OverlayGet(before.values, res, p.kept, field, value);
    if Ruled(rules, field) && HasFieldChanged(Get(before.values, Key(res, field)), value) {
      var key := Key(res, field);
      var (c, held) := Prepare(sch, |before.changesets|, key, Get(before.values, key), value, rules[field].action);
      AheadPrepared(before, res, field, value, c, held, p);
    }
  }

  lemma AheadPrepared(before: State, res: nat, field: string, value: Value, c: Change, held: bool, p: Progress)
    requires before.values + OfRecord(res, p.kept[field := value])
        == Ahead(before, res, p).values[Key(res, field) := value]
    ensures RecordChange(Ahead(before, res, p), Key(res, field), value, c, held)
         == Ahead(before, res, Prepared(|before.changes| + |p.created|, field, value, c, held, p))
  {
    assert before.changes + (p.created + [c]) == before.changes + p.created + [c];
  }

  lemma OverlayGet(values: Values, res: nat, kept: map<string, Value>, field: string, value: Value)
    requires field !in kept
    ensures Get(values + OfRecord(res, kept), Key(res, field)) == Get(values, Key(res, field))
    ensures values + OfRecord(res, kept[field := value]) == (values + OfRecord(res, kept))[Key(res, field) := value]
  {
  }

  /** The loop is at position i; writing the rest of the values gives the state `goal`. */
  ghost predicate Adding(sch: Schema, before: State, res: nat, vals: seq<(string, Value)>, rules: Rules, i: nat,
      p: Progress, goal: State)
    requires i <= |vals|
  {
    && WriteFields(sch, Ahead(before, res, p), res, vals[i..], rules) == goal
    && p.writeValues == p.kept + ToMap(vals[i..]) && KeptFrom(vals, i, p.kept)
  }

  lemma NothingAhead(before: State, res: nat, writeValues: map<string, Value>)
    ensures Ahead(before, res, Progress(writeValues, [], map[], before.approved)) == before
  {
    assert OfRecord(res, map[]) == map[] && before.values + map[] == before.values;
    assert before.changes + [] == before.changes;
  }

  lemma AddingStep(sch: Schema, before: State, res: nat, vals: seq<(string, Value)>, rules: Rules, i: nat, p: Progress,
      goal: State)
    requires i < |vals| && IsDict(vals) && Adding(sch, before, res, vals, rules, i, p, goal)
    ensures var next := AddStep(sch, before, res, vals[i].0, vals[i].1, rules, p);
            Adding(sch, before, res, vals, rules, i + 1, next, goal)
  {
    PopOrKeep(vals, i, p.kept);
    assert vals[i..][0] == vals[i] && vals[i..][1..] == vals[i + 1..];
    AheadStep(sch, before, res, vals[i].0, vals[i].1, rules, p);
  }

  lemma AddingDone(sch: Schema, before: State, res: nat, vals: seq<(string, Value)>, rules: Rules, p: Progress,
      goal: State)
    requires Adding(sch, before, res, vals, rules, |vals|, p, goal)
    ensures goal == Ahead(before, res, p) && p.writeValues == p.kept
  {
    assert vals[|vals|..] == [];
  }

  lemma AheadWithHeader(before: State, res: nat, p: Progress)
    ensures AddHeader(before, Ahead(before, res, p), res) == Ahead(before, res, p).(changesets :=
                if |p.created| > 0 then before.changesets + [Header(res, before.clock)] else before.changesets)
  {
    assert |before.changes + p.created| == |before.changes| + |p.created|;
    assert p.created == [] ==> before.changes + p.created == before.changes;
  }

  /** Popping a field that was not reached before, or leaving it in place. */
  lemma PopOrKeep(vals: seq<(string, Value)>, i: nat, kept: map<string, Value>)
    requires i < |vals| && KeptFrom(vals, i, kept)
    requires IsDict(vals)
    ensures vals[i].0 !in kept
    ensures kept + ToMap(vals[i..]) == kept[vals[i].0 := vals[i].1] + ToMap(vals[i + 1..])
    ensures kept + ToMap(vals[i..]) - {vals[i].0} == kept + ToMap(vals[i + 1..])
    ensures KeptFrom(vals, i + 1, kept) && KeptFrom(vals, i + 1, kept[vals[i].0 := vals[i].1])
  {
    ToMapHas(vals[i + 1..], vals[i].0);
    assert vals[i..][1..] == vals[i + 1..];
    var rest := vals[i + 1..];
    forall j | 0 <= j < |rest| ensures rest[j].0 != vals[i].0 {
      assert rest[j] == vals[i + 1 + j];
    }
  }

  // ----- creation -----

  /** The loop for a new record: the values it shall have, the changes, and the values it starts from. */
  datatype Making = Making(kept: map<string, Value>, created: seq<Change>, start: map<string, Value>, done: seq<nat>)

  ghost function Made(before: State, res: nat, p: Making): State {
    before.(values := before.values + OfRecord(res, p.kept), changes := before.changes + p.created, approved := p.done,
            initial := before.initial + OfRecord(res, p.start))
  }

  function MakeStep(sch: Schema, st: State, res: nat, field: string, v: Value, rules: Rules, null_: string -> Value,
      p: Making): Making {
    if !Ruled(rules, field) || v == Falsy then p.(kept := p.kept[field := v], start := p.start[field := v])
    else
      var (c, held) := Prepare(sch, |st.changesets|, Key(res, field), Falsy, v, rules[field].action);
      Making(p.kept[field := if held then null_(field) else v], p.created + [c],
             p.start[field := if held then null_(field) else Falsy],
             if c.state == Done then p.done + [|st.changes| + |p.created|] else p.done)
  }

  lemma OverlayOneMore(values: Values, res: nat, m: map<string, Value>, field: string, v: Value)
    ensures values + OfRecord(res, m[field := v]) == (values + OfRecord(res, m))[Key(res, field) := v]
  {
  }

  lemma MadeRecorded(before: State, res: nat, field: string, kept: Value, start: Value, c: Change, p: Making)
    requires before.values + OfRecord(res, p.kept[field := kept])
        == Made(before, res, p).values[Key(res, field) := kept]
    requires before.initial + OfRecord(res, p.start[field := start])
        == Made(before, res, p).initial[Key(res, field) := start]
    ensures var st := Made(before, res, p);
            var done := if c.state == Done then p.done + [|before.changes| + |p.created|] else p.done;
            Made(before, res, Making(p.kept[field := kept], p.created + [c], p.start[field := start], done)) ==
            AddChange(st, c).(values := st.values[Key(res, field) := kept],
                initial := st.initial[Key(res, field) := start])
  {
    assert before.changes + (p.created + [c]) == before.changes + p.created + [c];
  }

  lemma MadeStep(sch: Schema, before: State, res: nat, field: string, v: Value, rules: Rules, null_: string -> Value,
      p: Making)
    ensures CreateField(sch, Made(before, res, p), res, field, v, rules, null_)
         == Made(before, res, MakeStep(sch, before, res, field, v, rules, null_, p))
  {
    if !Ruled(rules, field) || v == Falsy {
      OverlayOneMore(before.values, res, p.kept, field, v);
      OverlayOneMore(before.initial, res, p.start, field, v);
    } else {
      var (c, held) := Prepare(sch, |before.changesets|, Key(res, field), Falsy, v, rules[field].action);
      var kept, start := if held then null_(field) else v, if held then null_(field) else Falsy;
      OverlayOneMore(before.values, res, p.kept, field, kept);
      OverlayOneMore(before.initial, res, p.start, field, start);
      MadeRecorded(before, res, field, kept, start, c, p);
    }
  }

  ghost predicate MakingFrom(sch: Schema, before: State, res: nat, vals: seq<(string, Value)>, rules: Rules,
      null_: string -> Value, i: nat, p: Making, writeValues: map<string, Value>, goal: State)
    requires i <= |vals|
  {
    && CreateFields(sch, Made(before, res, p), res, vals[i..], rules, null_) == goal
    && writeValues == p.kept + ToMap(vals[i..]) && KeptFrom(vals, i, p.kept)
  }

  lemma NothingMade(before: State, res: nat)
    ensures Made(before, res, Making(map[], [], map[], before.approved)) == before
  {
    assert OfRecord(res, map[]) == map[] && before.changes + [] == before.changes;
    assert before.values + map[] == before.values && before.initial + map[] == before.initial;
  }

  lemma SetOneMore(vals: seq<(string, Value)>, i: nat, kept: map<string, Value>, v: Value)
    requires i < |vals| && KeptFrom(vals, i, kept) && IsDict(vals)
    ensures kept[vals[i].0 := v] + ToMap(vals[i + 1..]) == (kept + ToMap(vals[i..]))[vals[i].0 := v]
    ensures KeptFrom(vals, i + 1, kept[vals[i].0 := v])
  {
    PopOrKeep(vals, i, kept);
    ToMapHas(vals[i + 1..], vals[i].0);
    assert vals[i..][1..] == vals[i + 1..];
    var rest := vals[i + 1..];
    forall j | 0 <= j < |rest| ensures rest[j].0 != vals[i].0 {
      assert rest[j] == vals[i + 1 + j];
    }
  }

  lemma SameIfInPlace(vals: seq<(string, Value)>, i: nat, kept: map<string, Value>)
    requires i < |vals| && KeptFrom(vals, i, kept) && IsDict(vals)
    ensures (kept + ToMap(vals[i..]))[vals[i].0 := vals[i].1] == kept + ToMap(vals[i..])
  {
  }

  lemma MakingStep(sch: Schema, before: State, res: nat, vals: seq<(string, Value)>, rules: Rules,
      null_: string -> Value, i: nat, p: Making, writeValues: map<string, Value>, goal: State)
    requires i < |vals| && IsDict(vals) && MakingFrom(sch, before, res, vals, rules, null_, i, p, writeValues, goal)
    ensures var p' := MakeStep(sch, before, res, vals[i].0, vals[i].1, rules, null_, p);
            var next := writeValues[vals[i].0 := p'.kept[vals[i].0]];
            MakingFrom(sch, before, res, vals, rules, null_, i + 1, p', next, goal)
  {
    var p' := MakeStep(sch, before, res, vals[i].0, vals[i].1, rules, null_, p);
    assert vals[i..][0] == vals[i] && vals[i..][1..] == vals[i + 1..];
    MadeStep(sch, before, res, vals[i].0, vals[i].1, rules, null_, p);
    SetOneMore(vals, i, p.kept, p'.kept[vals[i].0]);
  }

  predicate Overwrites(sch: Schema, n: nat, key: Key, v: Value, rules: Rules) {
    Ruled(rules, key.field) && v != Falsy && Prepare(sch, n, key, Falsy, v, rules[key.field].action).1
  }

  lemma MakeStepKeeps(sch: Schema, st: State, res: nat, field: string, v: Value, rules: Rules, null_: string -> Value,
      p: Making)
    ensures MakeStep(sch, st, res, field, v, rules, null_, p).kept
         == p.kept[field := if Overwrites(sch, |st.changesets|, Key(res, field), v, rules) then null_(field) else v]
  {
  }

  function NextValues(writeValues: map<string, Value>, field: string, overwrites: bool, nullValue: Value)
    : map<string, Value>
  {
    if overwrites then writeValues[field := nullValue] else writeValues
  }

  lemma NextValuesAre(vals: seq<(string, Value)>, i: nat, kept: map<string, Value>, overwrites: bool, nullValue: Value)
    requires i < |vals| && KeptFrom(vals, i, kept) && IsDict(vals)
    ensures var writeValues := kept + ToMap(vals[i..]);
            var next := NextValues(writeValues, vals[i].0, overwrites, nullValue);
            next == writeValues[vals[i].0 := if overwrites then nullValue else vals[i].1]
                && next.Keys == writeValues.Keys
  {
    SameIfInPlace(vals, i, kept);
    assert vals[i..][0] == vals[i];
  }

  /** Writing only the values that differ from those of the creation. */
  lemma DifferencesWritten(values: Values, res: nat, vals: map<string, Value>, writeValues: map<string, Value>)
    requires vals.Keys == writeValues.Keys
    ensures values + OfRecord(res, vals) + OfRecord(res, Differences(vals, writeValues))
        == values + OfRecord(res, writeValues)
  {
  }

  function Differences(vals: map<string, Value>, writeValues: map<string, Value>): map<string, Value>
    requires vals.Keys == writeValues.Keys
  {
    map f | f in writeValues && vals[f] != writeValues[f] :: writeValues[f]
  }

  /** The state after `create`: the given values, then the differing ones, then the changeset. */
  ghost function RecordMade(before: State, res: nat, vals: map<string, Value>, p: Making,
      writeValues: map<string, Value>): State
    requires vals.Keys == writeValues.Keys
  {
    State(before.values + OfRecord(res, vals) + OfRecord(res, Differences(vals, writeValues)),
          if |p.created| > 0 then before.changesets + [Header(res, before.clock)] else before.changesets,
          before.changes + p.created, before.clock, before.initial + OfRecord(res, p.start), p.done, before.manual)
  }

  lemma MakingDone(sch: Schema, before: State, res: nat, vals: seq<(string, Value)>, rules: Rules,
      null_: string -> Value, p: Making, writeValues: map<string, Value>, goal: State)
    requires MakingFrom(sch, before, res, vals, rules, null_, |vals|, p, writeValues, goal)
    ensures goal == Made(before, res, p) && writeValues == p.kept
  {
    assert vals[|vals|..] == [];
  }

  lemma CreateMakesRecord(before: State, res: nat, vals: map<string, Value>, p: Making)
    requires vals.Keys == p.kept.Keys
    ensures AddHeader(before, Made(before, res, p), res) == RecordMade(before, res, vals, p, p.kept)
  {
    assert |before.changes + p.created| == |before.changes| + |p.created|;
    assert p.created == [] ==> before.changes + p.created == before.changes;
    DifferencesWritten(before.values, res, vals, p.kept);
  }

  class Store {
    const sch: Schema
    var values: Values
    var changesets: seq<Header>
    var changes: seq<Change>
    var clock: int
    ghost var initial: Values
    ghost var approved: seq<nat>
    ghost var manual: seq<nat>

    ghost function Now(): State
      reads this
    {
      State(values, changesets, changes, clock, initial, approved, manual)
    }

    constructor (sch: Schema, values: Values, clock: int)
      ensures this.sch == sch && Now() == State(values, [], [], clock, values, [], [])
    {
      this.sch := sch;
      this.values, this.clock, initial := values, clock, values;
      changesets, changes, approved, manual := [], [], [], [];
    }

    /** The loop of `add_changeset`: every value is compared with the record as it is before the write. */
    method CollectChanges(res: nat, vals: seq<(string, Value)>, rules: Rules)
      returns (writeValues: map<string, Value>, created: seq<Change>, ghost p: Progress)
      requires IsDict(vals)
      ensures p.kept == writeValues && p.created == created
      ensures WriteFields(sch, Now(), res, vals, rules) == Ahead(Now(), res, p)
      ensures var goal := WriteFields(sch, Now(), res, vals, rules);
              goal.values == values + OfRecord(res, writeValues) && goal.changes == changes + created
    {
      writeValues, created := ToMap(vals), [];
      p := Progress(writeValues, [], map[], approved);
      ghost var goal := WriteFields(sch, Now(), res, vals, rules);
      NothingAhead(Now(), res, writeValues);
      assert vals[0..] == vals;
      for i := 0 to |vals|
        invariant p.writeValues == writeValues && p.created == created
        invariant Adding(sch, Now(), res, vals, rules, i, p, goal)
      {
        var field, value := vals[i].0, vals[i].1;
        AddingStep(sch, Now(), res, vals, rules, i, p, goal);
        p := AddStep(sch, Now(), res, field, value, rules, p);
        if Ruled(rules, field) {
          var current := Get(values, Key(res, field));
          if HasFieldChanged(current, value) {
            var (change, pop) := Prepare(sch, |changesets|, Key(res, field), current, value, rules[field].action);
            if pop {
              writeValues := writeValues - {field};
            }
            created := created + [change];
          }
        }
      }
      AddingDone(sch, Now(), res, vals, rules, p, goal);
    }

    /** `add_changeset` for an existing record: the changeset, and the values still to write. */
    method AddChangeset(res: nat, vals: seq<(string, Value)>, rules: Rules) returns (writeValues: map<string, Value>)
      requires IsDict(vals)
      modifies this`changesets, this`changes, this`approved
      ensures Now().(values := old(values) + OfRecord(res, writeValues)) == Write(sch, old(Now()), res, vals, rules)
    {
      var created: seq<Change>;
      ghost var p;
      writeValues, created, p := CollectChanges(res, vals, rules);
      AheadWithHeader(Now(), res, p);
      if |created| > 0 {
        changesets := changesets + [Header(res, clock)];
      }
      changes := changes + created;
      approved := p.done;
    }

    /** `write` of the base model, for one record. */
    method WriteRecord(res: nat, vals: seq<(string, Value)>, rules: Rules)
      requires IsDict(vals)
      modifies this`values, this`changesets, this`changes, this`approved
      ensures Now() == Write(sch, old(Now()), res, vals, rules)
    {
      var writeValues := AddChangeset(res, vals, rules);
      values := values + OfRecord(res, writeValues);
    }

    /** `add_changeset` for a new record, whose held values are overwritten by null values. */
    method CollectNew(res: nat, vals: seq<(string, Value)>, rules: Rules, null_: string -> Value, ghost before: State)
      returns (writeValues: map<string, Value>, created: seq<Change>, ghost p: Making)
      requires IsDict(vals) && changesets == before.changesets
      ensures CreateFields(sch, before, res, vals, rules, null_) == Made(before, res, p) && p.kept == writeValues
      ensures var goal := CreateFields(sch, before, res, vals, rules, null_);
              goal.values == before.values + OfRecord(res, writeValues) && goal.changes == before.changes + created
      ensures p.created == created && writeValues.Keys == ToMap(vals).Keys
    {
      writeValues, created := ToMap(vals), [];
      p := Making(map[], [], map[], before.approved);
      ghost var goal := CreateFields(sch, before, res, vals, rules, null_);
      NothingMade(before, res);
      assert vals[0..] == vals;
      for i := 0 to |vals|
        invariant p.created == created && writeValues.Keys == ToMap(vals).Keys
        invariant MakingFrom(sch, before, res, vals, rules, null_, i, p, writeValues, goal)
      {
        var field, value := vals[i].0, vals[i].1;
        ghost var overwrites := Overwrites(sch, |changesets|, Key(res, field), value, rules);
        MakingStep(sch, before, res, vals, rules, null_, i, p, writeValues, goal);
        MakeStepKeeps(sch, before, res, field, value, rules, null_, p);
        NextValuesAre(vals, i, p.kept, overwrites, null_(field));
        ghost var next := NextValues(writeValues, field, overwrites, null_(field));
        p := MakeStep(sch, before, res, field, value, rules, null_, p);
        if Ruled(rules, field) && value != Falsy {
          var (change, pop) := Prepare(sch, |changesets|, Key(res, field), Falsy, value, rules[field].action);
          if pop {
            writeValues := writeValues[field := null_(field)];
          }
          created := created + [change];
        }
        assert writeValues == next;
      }
      MakingDone(sch, before, res, vals, rules, null_, p, writeValues, goal);
    }

    method PrepareNew(res: nat, vals: seq<(string, Value)>, rules: Rules, null_: string -> Value, ghost before: State)
      returns (writeValues: map<string, Value>, created: seq<Change>, ghost p: Making)
      requires IsDict(vals) && changesets == before.changesets
      ensures p.created == created && writeValues.Keys == ToMap(vals).Keys
      ensures Create(sch, before, res, vals, rules, null_) == RecordMade(before, res, ToMap(vals), p, writeValues)
    {
      writeValues, created, p := CollectNew(res, vals, rules, null_, before);
      CreateMakesRecord(before, res, ToMap(vals), p);
    }

    /** The differing values are written and the changeset is made. */
    method FinishNew(res: nat, vals: map<string, Value>, writeValues: map<string, Value>, created: seq<Change>,
        ghost before: State, ghost p: Making)
      requires writeValues.Keys == vals.Keys && p.created == created
      requires Now() == before.(values := before.values + OfRecord(res, vals))
      modifies this`values, this`changesets, this`changes, this`approved, this`initial
      ensures Now() == RecordMade(before, res, vals, p, writeValues)
    {
      if |created| > 0 {
        changesets := changesets + [Header(res, clock)];
      }
      changes := changes + created;
      values := values + OfRecord(res, Differences(vals, writeValues));
      approved := p.done;
      initial := initial + OfRecord(res, p.start);
    }

    /** `create` of the base model, for one record: it exists with the given values before the changeset is made. */
    method CreateRecord(res: nat, vals: seq<(string, Value)>, rules: Rules, null_: string -> Value)
      requires IsDict(vals)
      modifies this`values, this`changesets, this`changes, this`approved, this`initial
      ensures Now() == Create(sch, old(Now()), res, vals, rules, null_)
    {
      ghost var before := Now();
      values := values + OfRecord(res, ToMap(vals));
      var writeValues, created, p := PrepareNew(res, vals, rules, null_, before);
      FinishNew(res, ToMap(vals), writeValues, created, before, p);
    }

    /** One change of a group: a pending one gives its value and keeps the old one. */
    method CollectNext(ids: seq<nat>, start: nat, i: nat, ghost before: State, ghost ok0: seq<nat>,
        ghost require_: bool, ghost s: nat, vals: Values, okNew: seq<nat>)
      returns (vals': Values, okNew': seq<nat>)
      requires Collecting(sch, before, ids, require_, start, ok0, Now(), i, vals, okNew, s)
      requires i < |ids| && changes[ids[i]].changeset == s
      requires DistinctFields(before.changes) && Distinct(ids)
      modifies this`changes
      ensures |changes| == |old(changes)|
      ensures Collecting(sch, before, ids, require_, start, ok0, Now(), i + 1, vals', okNew', s)
    {
      vals', okNew' := vals, okNew;
      var id, c := ids[i], changes[ids[i]];
      if c.state == Draft {
        CollectingDraft(sch, before, ids, require_, start, ok0, Now(), i, vals, okNew, s);
        vals', okNew' := vals[c.key := Decode(c.newValue)], okNew + [id];
        changes := changes[id := c.(oldValue := Encode(sch(c.key.field), Get(values, c.key)))];
      } else {
        CollectingDecided(sch, before, ids, require_, start, ok0, Now(), i, vals, okNew, s);
      }
    }

    /** One run of changes of one changeset: collect the values of the pending ones and keep the old values. */
    method CollectGroup(ids: seq<nat>, start: nat, ghost ok0: seq<nat>, ghost require_: bool)
      returns (i: nat, vals: Values, okNew: seq<nat>)
      requires start < |ids| && AllBelow(|changes|, ids) && AllBelow(|changes|, ok0)
      requires Distinct(ids)
      requires DistinctFields(changes)
      modifies this`changes
      ensures start < i <= |ids|
      ensures var s := old(changes[ids[start]].changeset);
              Collecting(sch, old(Now()), ids, require_, start, ok0, Now(), i, vals, okNew, s)
    {
      var s := changes[ids[start]].changeset;
      ghost var before := Now();
      i, vals, okNew := start, map[], [];
      CollectingStarts(sch, before, ids, require_, start, ok0);
      vals, okNew := CollectNext(ids, start, i, before, ok0, require_, s, vals, okNew);
      i := i + 1;
      while i < |ids| && changes[ids[i]].changeset == s
        invariant start < i <= |ids| && |changes| == |before.changes|
        invariant Collecting(sch, before, ids, require_, start, ok0, Now(), i, vals, okNew, s)
      {
        vals, okNew := CollectNext(ids, start, i, before, ok0, require_, s, vals, okNew);
        i := i + 1;
      }
    }

    /** `apply`: one write for each run of changes of one changeset; an exception undoes everything. */
    method ApplyChanges(ids: seq<nat>, rights: set<nat>, skip: bool, require_: bool) returns (r: Result<(), Error>)
      requires Distinct(ids)
      requires DistinctFields(changes)
      modifies this`values, this`changes, this`approved, this`manual
      ensures match Apply(sch, old(Now()), ids, rights, skip, require_)
              case Ok(st) => r == Ok(()) && Now() == st
              case Err(e) => r == Err(e) && Now() == old(Now())
    {
      if exists i | 0 <= i < |ids| :: !MayDecide(changes, rights, skip, ids[i]) {
        return Err(NoRights);
      }
      assert AllBelow(|changes|, ids) by {
        assert forall i | 0 <= i < |ids| :: MayDecide(changes, rights, skip, ids[i]);
      }
      var savedValues, savedChanges := values, changes;
      var ok, failed := ApplyGroups(ids, require_);
      if failed {
        values, changes := savedValues, savedChanges;
        return Err(PreviousPending);
      }
      changes := SetState(changes, ok, Done);
      approved, manual := approved + ok, manual + ok;
      r := Ok(());
    }

    method ApplyGroups(ids: seq<nat>, require_: bool) returns (ok: seq<nat>, failed: bool)
      requires AllBelow(|changes|, ids) && DistinctFields(changes)
      requires Distinct(ids)
      modifies this`values, this`changes
      ensures |changes| == |old(changes)| && AllBelow(|changes|, ok)
      ensures ApplyFrom(sch, old(Now()), ids, require_, []) == if failed then Err(PreviousPending) else Ok((Now(), ok))
    {
      ok, failed := [], false;
      var i := 0;
      ghost var before := Now();
      assert ids[0..] == ids;
      while i < |ids|
        invariant i <= |ids| && |changes| == |before.changes| && AllBelow(|changes|, ok) && AllBelow(|changes|, ids)
        invariant DistinctFields(changes)
        invariant ApplyFrom(sch, Now(), ids[i..], require_, ok) == ApplyFrom(sch, before, ids, require_, [])
      {
        var s := changes[ids[i]].changeset;
        ghost var here := Now();
        var next, vals, okNew := CollectGroup(ids, i, ok, require_);
        SamePending(here, Now());
        if vals != map[] && require_ && PreviousIn(changesets, changes, s) {
          failed := true;
          return;
        }
        values := values + vals;
        i, ok := next, ok + okNew;
      }
    }

    /** `cancel`. */
    method CancelChanges(ids: seq<nat>, rights: set<nat>, skip: bool) returns (r: Result<(), Error>)
      modifies this`changes
      ensures match Cancel(sch, old(Now()), ids, rights, skip)
              case Ok(st) => r == Ok(()) && Now() == st
              case Err(e) => r == Err(e) && Now() == old(Now())
    {
      if exists i | 0 <= i < |ids| :: !MayDecide(changes, rights, skip, ids[i]) {
        return Err(NoRights);
      }
      assert AllBelow(|changes|, ids) by {
        assert forall i | 0 <= i < |ids| :: MayDecide(changes, rights, skip, ids[i]);
      }
      if exists i | 0 <= i < |ids| :: changes[ids[i]].state == Done {
        return Err(AlreadyApplied);
      }
      ghost var before := Now();
      assert ids[0..] == ids;
      for i := 0 to |ids|
        invariant |changes| == |before.changes| && AllBelow(|changes|, ids)
        invariant Now() == before.(changes := changes)
        invariant SetOlds(sch, Now(), ids[i..]) == SetOlds(sch, before, ids)
      {
        var c := changes[ids[i]];
        assert ids[i..][0] == ids[i] && ids[i..][1..] == ids[i + 1..];
        changes := changes[ids[i] := c.(oldValue := Encode(sch(c.key.field), Get(values, c.key)))];
      }
      changes := SetState(changes, ids, Cancelled);
      r := Ok(());
    }
  }

  /** Only the kept old values differ. */
  ghost predicate SameButOld(before: seq<Change>, after: seq<Change>) {
    |after| == |before| && forall c | 0 <= c < |before| :: after[c] == before[c].(oldValue := after[c].oldValue)
  }

  /** The collected keys belong to changes of the group. */
  ghost predicate FromGroup(changes: seq<Change>, ids: seq<nat>, start: nat, i: nat, s: nat, vals: Values)
    requires AllBelow(|changes|, ids) && i <= |ids|
  {
    forall key :: key in vals ==>
        exists j | start <= j < i :: changes[ids[j]].changeset == s && changes[ids[j]].key == key
  }

  /**
    What the values collected so far mean for the approval one change at a time: it has failed
    already, or it goes on from the state in which they are written.
  */
  ghost predicate Collected(sch: Schema, before: State, ids: seq<nat>, require_: bool, start: nat, ok0: seq<nat>,
      now: State, i: nat, vals: Values, okNew: seq<nat>)
    requires AllBelow(|before.changes|, ids) && |now.changes| == |before.changes| && start < |ids| && i <= |ids|
  {
    var s := before.changes[ids[start]].changeset;
    ApplyFrom(sch, before, ids[start..], require_, ok0) ==
    if require_ && PendingBefore(before, s) && vals != map[] then Err(PreviousPending)
    else ApplyFrom(sch, now.(values := now.values + vals), ids[i..], require_, ok0 + okNew)
  }

  ghost predicate Collecting(sch: Schema, before: State, ids: seq<nat>, require_: bool, start: nat, ok0: seq<nat>,
      now: State, i: nat, vals: Values, okNew: seq<nat>, s: nat)
  {
    && AllBelow(|before.changes|, ids) && start <= i <= |ids| && start < |ids|
        && s == before.changes[ids[start]].changeset
    && SameButOld(before.changes, now.changes) && now == before.(changes := now.changes)
    && AllBelow(|before.changes|, okNew) && (vals == map[] <==> okNew == [])
    && FromGroup(now.changes, ids, start, i, s, vals)
    && Collected(sch, before, ids, require_, start, ok0, now, i, vals, okNew)
  }

  /** The next change of the group has a key that was not collected before. */
  lemma NotCollected(changes: seq<Change>, ids: seq<nat>, start: nat, i: nat, s: nat, vals: Values)
    requires AllBelow(|changes|, ids) && start <= i < |ids| && changes[ids[i]].changeset == s
    requires Distinct(ids)
    requires DistinctFields(changes) && FromGroup(changes, ids, start, i, s, vals)
    ensures changes[ids[i]].key !in vals
  {
    forall j | start <= j < i && changes[ids[j]].changeset == s ensures changes[ids[j]].key != changes[ids[i]].key {
      assert ids[j] != ids[i];
    }
  }

  lemma GroupGrows(before: seq<Change>, after: seq<Change>, ids: seq<nat>, start: nat, i: nat, s: nat, vals: Values,
      v: Value)
    requires AllBelow(|before|, ids) && SameButOld(before, after)
    requires start <= i < |ids| && before[ids[i]].changeset == s && FromGroup(before, ids, start, i, s, vals)
    ensures FromGroup(after, ids, start, i + 1, s, vals)
        && FromGroup(after, ids, start, i + 1, s, vals[before[ids[i]].key := v])
  {
    forall key | key in vals
        ensures exists j | start <= j < i + 1 :: after[ids[j]].changeset == s && after[ids[j]].key == key {
      var j :| start <= j < i && before[ids[j]].changeset == s && before[ids[j]].key == key;
      assert after[ids[j]].changeset == s && after[ids[j]].key == key;
    }
    assert after[ids[i]].changeset == s && after[ids[i]].key == before[ids[i]].key;
  }

  /** Passing over a decided change. */
  lemma CollectNone(sch: Schema, before: State, ids: seq<nat>, require_: bool, start: nat, ok0: seq<nat>, now: State,
      i: nat, vals: Values, okNew: seq<nat>)
    requires AllBelow(|before.changes|, ids) && start <= i < |ids| && |now.changes| == |before.changes|
    requires now.changes[ids[i]].state != Draft
    requires Collected(sch, before, ids, require_, start, ok0, now, i, vals, okNew)
    ensures Collected(sch, before, ids, require_, start, ok0, now, i + 1, vals, okNew)
  {
    assert ids[i..][0] == ids[i] && ids[i..][1..] == ids[i + 1..];
  }

  /** Collecting a pending change. */
  lemma CollectOne(sch: Schema, before: State, ids: seq<nat>, require_: bool, start: nat, ok0: seq<nat>, now: State,
      i: nat, vals: Values, okNew: seq<nat>)
    requires AllBelow(|before.changes|, ids) && start <= i < |ids|
    requires SameButOld(before.changes, now.changes) && now == before.(changes := now.changes)
    requires now.changes[ids[i]].changeset == before.changes[ids[start]].changeset
    requires now.changes[ids[i]].state == Draft && now.changes[ids[i]].key !in vals
    requires Collected(sch, before, ids, require_, start, ok0, now, i, vals, okNew)
    ensures var id, c := ids[i], now.changes[ids[i]];
            var kept := c.(oldValue := Encode(sch(c.key.field), Get(now.values, c.key)));
            var now' := now.(changes := now.changes[id := kept]);
            var vals' := vals[c.key := Decode(c.newValue)];
            Collected(sch, before, ids, require_, start, ok0, now', i + 1, vals', okNew + [id])
  {
    var id, c, s := ids[i], now.changes[ids[i]], now.changes[ids[i]].changeset;
    var here := now.(values := now.values + vals);
    SamePending(before, here);
    ApplyFromDraft(sch, here, ids, i, require_, ok0 + okNew);
    if !(require_ && PendingBefore(before, s)) {
      var now' := now.(changes := now.changes[id := c.(oldValue := Encode(sch(c.key.field), Get(now.values, c.key)))]);
      OverlayOne(sch, now, vals, id);
      assert ok0 + (okNew + [id]) == (ok0 + okNew) + [id];
    }
  }

  lemma CollectingStarts(sch: Schema, before: State, ids: seq<nat>, require_: bool, start: nat, ok0: seq<nat>)
    requires start < |ids| && AllBelow(|before.changes|, ids)
    ensures var s := before.changes[ids[start]].changeset;
            Collecting(sch, before, ids, require_, start, ok0, before, start, map[], [], s)
  {
    assert before.values + map[] == before.values && ok0 + [] == ok0;
  }

  lemma CollectingDecided(sch: Schema, before: State, ids: seq<nat>, require_: bool, start: nat, ok0: seq<nat>,
      now: State, i: nat, vals: Values, okNew: seq<nat>, s: nat)
    requires Collecting(sch, before, ids, require_, start, ok0, now, i, vals, okNew, s)
    requires i < |ids| && now.changes[ids[i]].changeset == s && now.changes[ids[i]].state != Draft
    ensures Collecting(sch, before, ids, require_, start, ok0, now, i + 1, vals, okNew, s)
  {
    GroupGrows(now.changes, now.changes, ids, start, i, s, vals, Falsy);
    CollectNone(sch, before, ids, require_, start, ok0, now, i, vals, okNew);
  }

  lemma CollectingDraft(sch: Schema, before: State, ids: seq<nat>, require_: bool, start: nat, ok0: seq<nat>,
      now: State, i: nat, vals: Values, okNew: seq<nat>, s: nat)
    requires Collecting(sch, before, ids, require_, start, ok0, now, i, vals, okNew, s)
    requires i < |ids| && now.changes[ids[i]].changeset == s && now.changes[ids[i]].state == Draft
    requires DistinctFields(before.changes) && Distinct(ids)
    ensures var id, c := ids[i], now.changes[ids[i]];
            var kept := c.(oldValue := Encode(sch(c.key.field), Get(now.values, c.key)));
            var now' := now.(changes := now.changes[id := kept]);
            var vals' := vals[c.key := Decode(c.newValue)];
            Collecting(sch, before, ids, require_, start, ok0, now', i + 1, vals', okNew + [id], s)
  {
    var id, c := ids[i], now.changes[ids[i]];
    var kept := now.changes[id := c.(oldValue := Encode(sch(c.key.field), Get(now.values, c.key)))];
    NotCollected(now.changes, ids, start, i, s, vals);
    CollectOne(sch, before, ids, require_, start, ok0, now, i, vals, okNew);
    GroupGrows(now.changes, kept, ids, start, i, s, vals, Decode(c.newValue));
  }

  lemma ApplyFromDraft(sch: Schema, st: State, ids: seq<nat>, i: nat, require_: bool, ok: seq<nat>)
    requires AllBelow(|st.changes|, ids) && i < |ids| && st.changes[ids[i]].state == Draft
    ensures ApplyFrom(sch, st, ids[i..], require_, ok) ==
            if require_ && PendingBefore(st, st.changes[ids[i]].changeset) then Err(PreviousPending)
            else ApplyFrom(sch, ApplyChange(sch, st, ids[i]), ids[i + 1..], require_, ok + [ids[i]])
  {
    assert ids[i..][0] == ids[i] && ids[i..][1..] == ids[i + 1..];
  }

  /** Applying a change on top of collected values is collecting its value. */
  lemma OverlayOne(sch: Schema, now: State, vals: Values, id: nat)
    requires id < |now.changes| && now.changes[id].key !in vals
    ensures var c := now.changes[id];
            var kept := c.(oldValue := Encode(sch(c.key.field), Get(now.values, c.key)));
            var now' := now.(changes := now.changes[id := kept]);
            ApplyChange(sch, now.(values := now.values + vals), id)
            == now'.(values := now.values + vals[c.key := Decode(c.newValue)])
  {
    var c := now.changes[id];
    assert now.values + vals[c.key := Decode(c.newValue)] == (now.values + vals)[c.key := Decode(c.newValue)];
    assert Get(now.values + vals, c.key) == Get(now.values, c.key);
  }

  /** Old values play no part in what is pending. */
  lemma SamePending(st: State, st': State)
    requires |st.changes| == |st'.changes| && st'.changesets == st.changesets
    requires forall c | 0 <= c < |st.changes| ::
               st'.changes[c].state == st.changes[c].state && st'.changes[c].changeset == st.changes[c].changeset
    ensures forall s: nat :: PendingBefore(st', s) <==> PendingBefore(st, s)
  {
    forall s: nat ensures IsDraft(st', s) <==> IsDraft(st, s) {
      if IsDraft(st, s) {
        var c :| 0 <= c < |st.changes| && st.changes[c].changeset == s && st.changes[c].state == Draft;
        assert st'.changes[c].changeset == s && st'.changes[c].state == Draft;
      }
    }
  }
}
