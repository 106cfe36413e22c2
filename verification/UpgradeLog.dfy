/**
  The registry comparison of upgrade_analysis/upgrade_log.py: the attributes of a module's fields are
  compared with the merged registry, and differences are logged in two tables.
*/
module UpgradeLog {
  import opened Wrappers

  datatype Key = Key(model: string, field: string)
  datatype Mode = Create | Modify

  /** A row of upgrade_record; its id is its position. */
  datatype RecordRow = RecordRow(addon: string, key: Key, mode: Mode)

  /** A row of upgrade_attribute. */
  datatype AttributeRow = AttributeRow(name: string, value: string, recordId: nat)

  type Attributes = map<string, string>

  datatype Tables = Tables(records: seq<RecordRow>, attributes: seq<AttributeRow>, registry: map<Key, Attributes>)

  /** The attributes of one field, in the order of the dictionary. */
  datatype Entry = Entry(key: Key, items: seq<(string, string)>)

  function OldField(t: Tables, key: Key): Attributes {
    if key in t.registry then t.registry[key] else map[]
  }

  // ----- the steps, on values -----

  function IndexOf<T(==)>(s: seq<T>, x: T): (i: nat)
    ensures i <= |s|
    ensures i < |s| ==> s[i] == x
    ensures i == |s| ==> x !in s
  {
    if s == [] then 0 else if s[0] == x then 0 else 1 + IndexOf(s[1..], x)
  }

  /** `get_record_id`: the id of the row, which is added if it is missing. */
  function GetRecord(records: seq<RecordRow>, row: RecordRow): (r: (seq<RecordRow>, nat))
    ensures records <= r.0 && r.1 < |r.0| && r.0[r.1] == row
    ensures row in records ==> r.0 == records
    ensures row !in records ==> r.0 == records + [row]
  {
    var i := IndexOf(records, row);
    if i < |records| then (records, i) else (records + [row], |records|)
  }

  function LogItem(t: Tables, addon: string, key: Key, mode: Mode, item: (string, string)): Tables {
    var old_ := OldField(t, key);
    if item.0 in old_ && old_[item.0] == item.1 then t
    else
      var (records, id) := GetRecord(t.records, RecordRow(addon, key, mode));
      var row := AttributeRow(item.0, item.1, id);
      Tables(records, if row in t.attributes then t.attributes else t.attributes + [row],
             t.registry[key := old_[item.0 := item.1]])
  }

  function LogItems(t: Tables, addon: string, key: Key, mode: Mode, items: seq<(string, string)>): Tables
    decreases |items|
  {
    if items == [] then t
    else LogItem(LogItems(t, addon, key, mode, items[..|items| - 1]), addon, key, mode, items[|items| - 1])
  }

  /** The mode is fixed before the attributes are compared. */
  function ModeOf(t: Tables, key: Key): Mode {
    if OldField(t, key) != map[] then Modify else Create
  }

  function SetDefault(t: Tables, key: Key): Tables {
    t.(registry := t.registry[key := OldField(t, key)])
  }

  function LogField(t: Tables, addon: string, e: Entry): Tables {
    LogItems(SetDefault(t, e.key), addon, e.key, ModeOf(t, e.key), e.items)
  }

  function Compare(t: Tables, addon: string, local: seq<Entry>): Tables
    decreases |local|
  {
    if local == [] then t
    else LogField(Compare(t, addon, local[..|local| - 1]), addon, local[|local| - 1])
  }

  /** The tables and the registry, changed in place. */
  class UpgradeDatabase {
    var records: seq<RecordRow>
    var attributes: seq<AttributeRow>
    var registry: map<Key, Attributes>

    function State(): Tables
      reads this
    {
      Tables(records, attributes, registry)
    }

    constructor ()
      ensures State() == Tables([], [], map[])
    {
      records, attributes, registry := [], [], map[];
    }

    method GetRecordId(addon: string, key: Key, mode: Mode) returns (id: nat)
      modifies this`records
      ensures (records, id) == GetRecord(old(records), RecordRow(addon, key, mode))
    {
      var row := RecordRow(addon, key, mode);
      id := IndexOf(records, row);
      if id == |records| {
        records := records + [row];
      }
    }

    /** One attribute; the record id is looked up at the first difference and then kept. */
    method CompareItem(addon: string, key: Key, mode: Mode, item: (string, string), known: Option<nat>)
      returns (recordId: Option<nat>)
      requires key in registry
      requires known.Some? ==> (records, known.value) == GetRecord(records, RecordRow(addon, key, mode))
      modifies this
      ensures key in registry
      ensures State() == LogItem(old(State()), addon, key, mode, item)
      ensures recordId.Some? ==> (records, recordId.value) == GetRecord(records, RecordRow(addon, key, mode))
    {
      recordId := known;
      if item.0 !in registry[key] || registry[key][item.0] != item.1 {
        if recordId.None? {
          var id := GetRecordId(addon, key, mode);
          FirstIndex(old(records), RecordRow(addon, key, mode));
          recordId := Some(id);
        }
        var row := AttributeRow(item.0, item.1, recordId.value);
        if row !in attributes {
          attributes := attributes + [row];
        }
        registry := registry[key := registry[key][item.0 := item.1]];
      }
    }

    method CompareField(addon: string, e: Entry)
      modifies this
      ensures State() == LogField(old(State()), addon, e)
    {
      registry := registry[e.key := if e.key in registry then registry[e.key] else map[]];
      var mode := if registry[e.key] != map[] then Modify else Create;
      ghost var start := State();
      var recordId: Option<nat> := None;
      for j := 0 to |e.items|
        invariant e.key in registry
        invariant State() == LogItems(start, addon, e.key, mode, e.items[..j])
        invariant recordId.Some? ==> (records, recordId.value) == GetRecord(records, RecordRow(addon, e.key, mode))
      {
        assert e.items[..j + 1][..j] == e.items[..j];
        recordId := CompareItem(addon, e.key, mode, e.items[j], recordId);
      }
      assert e.items[..|e.items|] == e.items;
    }

    method CompareRegistries(addon: string, local: seq<Entry>)
      modifies this
      ensures State() == Compare(old(State()), addon, local)
    {
      for i := 0 to |local|
        invariant State() == Compare(old(State()), addon, local[..i])
      {
        assert local[..i + 1][..i] == local[..i];
        CompareField(addon, local[i]);
      }
      assert local[..|local|] == local;
    }
  }

  /** Asking again for a row just found or added gives the same id. */
  lemma FirstIndex(records: seq<RecordRow>, row: RecordRow)
    ensures var r := GetRecord(records, row); GetRecord(r.0, row) == r
  {
    if row !in records {
      IndexOfAppended(records, row);
    }
  }

  lemma {:induction false} IndexOfAppended<T>(s: seq<T>, x: T)
    requires x !in s
    ensures IndexOf(s + [x], x) == |s|
  {
    if s != [] {
      assert (s + [x])[1..] == s[1..] + [x];
      IndexOfAppended(s[1..], x);
    }
  }

  // ----- the registry is the last-writer-wins merge -----

  // ----- what one attribute and one field log -----

  /** An attribute with its old value logs nothing; any other one is stored and has a row for its record. */
  lemma LogsExactly(t: Tables, addon: string, key: Key, mode: Mode, item: (string, string))
    ensures var t' := LogItem(t, addon, key, mode, item);
            var old_ := if key in t.registry then t.registry[key] else map[];
            if item.0 in old_ && old_[item.0] == item.1 then t' == t
            else
              && t'.registry == t.registry[key := old_[item.0 := item.1]]
              && (t'.records == t.records || t'.records == t.records + [RecordRow(addon, key, mode)])
              && (t'.attributes == t.attributes || |t'.attributes| == |t.attributes| + 1)
              && t.attributes <= t'.attributes
              && HasRow(t', RecordRow(addon, key, mode), item)
              && (t'.attributes != t.attributes ==>
                    var row := t'.attributes[|t.attributes|];
                    && row.name == item.0 && row.value == item.1 && row.recordId < |t'.records|
                    && t'.records[row.recordId] == RecordRow(addon, key, mode))
  {
    var old_ := OldField(t, key);
    if !(item.0 in old_ && old_[item.0] == item.1) {
      var (records, id) := GetRecord(t.records, RecordRow(addon, key, mode));
      assert IsRow(records, AttributeRow(item.0, item.1, id), RecordRow(addon, key, mode), item);
    }
  }

  predicate IsRow(records: seq<RecordRow>, row: AttributeRow, record: RecordRow, item: (string, string)) {
    row.recordId < |records| && records[row.recordId] == record && row.name == item.0 && row.value == item.1
  }

  ghost predicate HasRow(t: Tables, record: RecordRow, item: (string, string)) {
    exists row :: row in t.attributes && IsRow(t.records, row, record, item)
  }

  /** The records a field adds say "create" if it had no attribute before, and "modify" otherwise. */
  lemma FieldModeExactly(t: Tables, addon: string, e: Entry)
    ensures var t' := LogField(t, addon, e);
            && t.records <= t'.records
            && forall r :: r in t'.records && r !in t.records ==>
                 && r.addon == addon && r.key == e.key
                 && (r.mode == Create <==> e.key !in t.registry || t.registry[e.key] == map[])
  {
    ItemsRecords(SetDefault(t, e.key), addon, e.key, ModeOf(t, e.key), e.items);
  }

  lemma {:induction false} ItemsRecords(t: Tables, addon: string, key: Key, mode: Mode, items: seq<(string, string)>)
    ensures var t' := LogItems(t, addon, key, mode, items);
            && t.records <= t'.records
            && forall r :: r in t'.records && r !in t.records ==> r == RecordRow(addon, key, mode)
    decreases |items|
  {
    if items != [] {
      var front, last := items[..|items| - 1], items[|items| - 1];
      ItemsRecords(t, addon, key, mode, front);
      LogsExactly(LogItems(t, addon, key, mode, front), addon, key, mode, last);
    }
  }

  function ItemsMap(items: seq<(string, string)>): Attributes
    decreases |items|
  {
    if items == [] then map[]
    else ItemsMap(items[..|items| - 1])[items[|items| - 1].0 := items[|items| - 1].1]
  }

  function Merge(registry: map<Key, Attributes>, local: seq<Entry>): map<Key, Attributes>
    decreases |local|
  {
    if local == [] then registry
    else
      var r, e := Merge(registry, local[..|local| - 1]), local[|local| - 1];
      r[e.key := (if e.key in r then r[e.key] else map[]) + ItemsMap(e.items)]
  }

  lemma {:induction false} LogItemsMerge(t: Tables, addon: string, key: Key, mode: Mode, items: seq<(string, string)>)
    requires key in t.registry
    ensures LogItems(t, addon, key, mode, items).registry == t.registry[key := t.registry[key] + ItemsMap(items)]
    decreases |items|
  {
    if items == [] {
      assert t.registry[key] + map[] == t.registry[key];
    } else {
      var front, item := items[..|items| - 1], items[|items| - 1];
      LogItemsMerge(t, addon, key, mode, front);
      var merged := t.registry[key] + ItemsMap(front);
      MergeOne(t.registry, key, t.registry[key], ItemsMap(front), item.0, item.1);
    }
  }

  lemma MergeOne(registry: map<Key, Attributes>, key: Key, x: Attributes, y: Attributes, name: string, value: string)
    ensures (x + y)[name := value] == x + y[name := value]
    ensures registry[key := x + y][key := x + y[name := value]] == registry[key := x + y[name := value]]
    ensures name in x + y && (x + y)[name] == value ==> x + y[name := value] == x + y
  {
  }

  /** Comparing merges the local registry into the global one. */
  lemma {:induction false} RegistryIsMerge(t: Tables, addon: string, local: seq<Entry>)
    ensures Compare(t, addon, local).registry == Merge(t.registry, local)
    decreases |local|
  {
    if local != [] {
      var front, e := local[..|local| - 1], local[|local| - 1];
      RegistryIsMerge(t, addon, front);
      var before := Compare(t, addon, front);
      LogItemsMerge(SetDefault(before, e.key), addon, e.key, ModeOf(before, e.key), e.items);
    }
  }

  // ----- one creation record per field with attributes -----

  ghost predicate CreatedOnce(t: Tables) {
    && (forall k :: (exists r :: r in t.records && r.key == k && r.mode == Create) <==> OldField(t, k) != map[])
    && (forall i, j | 0 <= i < j < |t.records| :: t.records[i].mode == t.records[j].mode == Create ==>
        t.records[i].key != t.records[j].key)
  }

  /** CreatedOnce for every key but `key`, about which `has` says whether it has a creation record. */
  ghost predicate CreatedBut(t: Tables, key: Key, has: bool) {
    && (forall k :: k != key ==>
        ((exists r :: r in t.records && r.key == k && r.mode == Create) <==> OldField(t, k) != map[]))
    && ((exists r :: r in t.records && r.key == key && r.mode == Create) <==> has)
    && (forall i, j | 0 <= i < j < |t.records| :: t.records[i].mode == t.records[j].mode == Create ==>
        t.records[i].key != t.records[j].key)
  }

  lemma LogItemCreates(t: Tables, addon: string, key: Key, mode: Mode, item: (string, string))
    requires CreatedBut(t, key, OldField(t, key) != map[])
    requires OldField(t, key) == map[] ==> mode == Create
    requires mode == Create && OldField(t, key) != map[] ==> RecordRow(addon, key, Create) in t.records
    ensures var t' := LogItem(t, addon, key, mode, item);
            && OldField(t', key) != map[]
            && CreatedBut(t', key, true)
            && (mode == Create ==> RecordRow(addon, key, Create) in t'.records)
  {
    var old_, row := OldField(t, key), RecordRow(addon, key, mode);
    var t' := LogItem(t, addon, key, mode, item);
    if !(item.0 in old_ && old_[item.0] == item.1) {
      assert item.0 in OldField(t', key);
      assert forall k :: k != key ==> OldField(t', k) == OldField(t, k);
      if row !in t.records {
        assert t'.records == t.records + [row];
        assert forall r :: r in t'.records <==> r in t.records || r == row;
      }
    }
  }

  lemma {:induction false} LogItemsCreate(t: Tables, addon: string, key: Key, mode: Mode, items: seq<(string, string)>)
    requires CreatedOnce(t) && mode == ModeOf(t, key)
    ensures var t' := LogItems(t, addon, key, mode, items);
            && CreatedBut(t', key, OldField(t', key) != map[])
            && (OldField(t', key) == map[] ==> mode == Create)
            && (mode == Create && OldField(t', key) != map[] ==> RecordRow(addon, key, Create) in t'.records)
    decreases |items|
  {
    if items != [] {
      var front := items[..|items| - 1];
      LogItemsCreate(t, addon, key, mode, front);
      LogItemCreates(LogItems(t, addon, key, mode, front), addon, key, mode, items[|items| - 1]);
    }
  }

  /** Each (model, field) has a creation record exactly when its entry is not empty, and then only one. */
  lemma {:induction false} CompareCreatesOnce(t: Tables, addon: string, local: seq<Entry>)
    requires CreatedOnce(t)
    ensures CreatedOnce(Compare(t, addon, local))
    decreases |local|
  {
    if local != [] {
      var front, e := local[..|local| - 1], local[|local| - 1];
      CompareCreatesOnce(t, addon, front);
      var before := Compare(t, addon, front);
      assert forall k :: OldField(SetDefault(before, e.key), k) == OldField(before, k);
      LogItemsCreate(SetDefault(before, e.key), addon, e.key, ModeOf(before, e.key), e.items);
    }
  }

  // ----- repeating a comparison -----

  /** Keys of a Python dictionary are unique. */
  ghost predicate IsDict(local: seq<Entry>) {
    && (forall i, j | 0 <= i < j < |local| :: local[i].key != local[j].key)
    && (forall e | e in local :: forall i, j | 0 <= i < j < |e.items| :: e.items[i].0 != e.items[j].0)
  }

  ghost predicate Covers(t: Tables, e: Entry) {
    && e.key in t.registry
    && forall item | item in e.items :: item.0 in t.registry[e.key] && t.registry[e.key][item.0] == item.1
  }

  lemma {:induction false} ItemsMapHas(items: seq<(string, string)>, item: (string, string))
    requires forall i, j | 0 <= i < j < |items| :: items[i].0 != items[j].0
    requires item in items
    ensures item.0 in ItemsMap(items) && ItemsMap(items)[item.0] == item.1
    decreases |items|
  {
    var front, last := items[..|items| - 1], items[|items| - 1];
    if item != last {
      assert items == front + [last];
      var i :| 0 <= i < |items| && items[i] == item;
      assert front[i] == item;
      ItemsMapHas(front, item);
    }
  }

  lemma {:induction false} MergeCovers(t: Tables, addon: string, local: seq<Entry>, i: nat)
    requires IsDict(local) && i < |local|
    ensures Covers(Compare(t, addon, local), local[i])
    decreases |local|
  {
    var front, e := local[..|local| - 1], local[|local| - 1];
    var before := Compare(t, addon, front);
    LogItemsMerge(SetDefault(before, e.key), addon, e.key, ModeOf(before, e.key), e.items);
    if i < |front| {
      assert forall x :: x in front ==> x in local;
      MergeCovers(t, addon, front, i);
      assert front[i] == local[i] && local[i].key != e.key;
    } else {
      assert e in local;
      LastCovered(e, OldField(before, e.key));
    }
  }

  lemma LastCovered(e: Entry, old_: Attributes)
    requires forall i, j | 0 <= i < j < |e.items| :: e.items[i].0 != e.items[j].0
    ensures forall item | item in e.items ::
        item.0 in old_ + ItemsMap(e.items) && (old_ + ItemsMap(e.items))[item.0] == item.1
  {
    forall item | item in e.items ensures item.0 in ItemsMap(e.items) && ItemsMap(e.items)[item.0] == item.1 {
      ItemsMapHas(e.items, item);
    }
  }

  lemma {:induction false} CoveredItemsIdle(t: Tables, addon: string, key: Key, mode: Mode,
      items: seq<(string, string)>)
    requires Covers(t, Entry(key, items))
    ensures LogItems(t, addon, key, mode, items) == t
    decreases |items|
  {
    if items != [] {
      var front, last := items[..|items| - 1], items[|items| - 1];
      assert forall x :: x in front ==> x in items;
      CoveredItemsIdle(t, addon, key, mode, front);
      assert last in items;
    }
  }

  lemma {:induction false} CoveredIdle(t: Tables, addon: string, local: seq<Entry>)
    requires forall i | 0 <= i < |local| :: Covers(t, local[i])
    ensures Compare(t, addon, local) == t
    decreases |local|
  {
    if local != [] {
      var front, e := local[..|local| - 1], local[|local| - 1];
      CoveredIdle(t, addon, front);
      assert Covers(t, e);
      assert t.registry[e.key := t.registry[e.key]] == t.registry;
      CoveredItemsIdle(t, addon, e.key, ModeOf(t, e.key), e.items);
    }
  }

  /** Repeating a call at once, for whatever module, changes neither the tables nor the registry. */
  lemma RepeatIsIdle(t: Tables, addon: string, addon': string, local: seq<Entry>)
    requires IsDict(local)
    ensures Compare(Compare(t, addon, local), addon', local) == Compare(t, addon, local)
  {
    forall i | 0 <= i < |local| ensures Covers(Compare(t, addon, local), local[i]) {
      MergeCovers(t, addon, local, i);
    }
    CoveredIdle(Compare(t, addon, local), addon', local);
  }

  // ----- replaying the log -----

  ghost predicate IdsValid(t: Tables) {
    forall i | 0 <= i < |t.attributes| :: t.attributes[i].recordId < |t.records|
  }

  /** The registry told by the rows alone, read in the order they were added. */
  ghost function Replay(records: seq<RecordRow>, rows: seq<AttributeRow>, key: Key): Attributes
    requires forall i | 0 <= i < |rows| :: rows[i].recordId < |records|
    decreases |rows|
  {
    if rows == [] then map[]
    else
      var front, last := rows[..|rows| - 1], rows[|rows| - 1];
      var r := Replay(records, front, key);
      if records[last.recordId].key == key then r[last.name := last.value] else r
  }

  ghost predicate Replays(t: Tables) {
    IdsValid(t) && forall key :: Replay(t.records, t.attributes, key) == OldField(t, key)
  }

  lemma {:induction false} ReplayPrefix(records: seq<RecordRow>, more: seq<RecordRow>, rows: seq<AttributeRow>,
      key: Key)
    requires records <= more
    requires forall i | 0 <= i < |rows| :: rows[i].recordId < |records|
    ensures Replay(more, rows, key) == Replay(records, rows, key)
    decreases |rows|
  {
    if rows != [] {
      ReplayPrefix(records, more, rows[..|rows| - 1], key);
    }
  }

  /** The attributes logged for this module and field are among `names`. */
  ghost predicate Logged(t: Tables, addon: string, key: Key, names: set<string>)
    requires IdsValid(t)
  {
    forall i | 0 <= i < |t.attributes| ::
      var r := t.records[t.attributes[i].recordId];
      r.addon == addon && r.key == key ==> t.attributes[i].name in names
  }

  /** The row that logs an attribute. */
  function RowOf(t: Tables, addon: string, key: Key, mode: Mode, item: (string, string)): AttributeRow {
    AttributeRow(item.0, item.1, GetRecord(t.records, RecordRow(addon, key, mode)).1)
  }

  predicate Differs(t: Tables, key: Key, item: (string, string)) {
    !(item.0 in OldField(t, key) && OldField(t, key)[item.0] == item.1)
  }

  /**
    A change is lost to the replay exactly when its row is there already: the same module gave the
    attribute this value before, in a record of the same mode, and it has changed since.
  */
  lemma LogItemReplaysExactly(t: Tables, addon: string, key: Key, mode: Mode, item: (string, string))
    requires Replays(t)
    ensures Replays(LogItem(t, addon, key, mode, item)) <==>
              !(Differs(t, key, item) && RowOf(t, addon, key, mode, item) in t.attributes)
  {
    var t' := LogItem(t, addon, key, mode, item);
    if Differs(t, key, item) {
      var (records, id) := GetRecord(t.records, RecordRow(addon, key, mode));
      forall k ensures Replay(records, t.attributes, k) == OldField(t, k) {
        ReplayPrefix(t.records, records, t.attributes, k);
      }
      if RowOf(t, addon, key, mode, item) in t.attributes {
        assert Replay(t'.records, t'.attributes, key) == OldField(t, key);
        assert OldField(t', key)[item.0] == item.1;
      } else {
        assert t'.attributes[..|t'.attributes| - 1] == t.attributes;
        forall k ensures Replay(t'.records, t'.attributes, k) == OldField(t', k) {
          assert k != key ==> OldField(t', k) == OldField(t, k);
        }
      }
    }
  }

  lemma LogItemReplays(t: Tables, addon: string, key: Key, mode: Mode, item: (string, string), names: set<string>)
    requires Replays(t) && Logged(t, addon, key, names) && item.0 !in names
    ensures var t' := LogItem(t, addon, key, mode, item);
            Replays(t') && Logged(t', addon, key, names + {item.0})
  {
    assert RowOf(t, addon, key, mode, item) !in t.attributes;
    LogItemReplaysExactly(t, addon, key, mode, item);
  }

  function Names(items: seq<(string, string)>): set<string> {
    set item | item in items :: item.0
  }

  lemma {:induction false} LogItemsReplay(t: Tables, addon: string, key: Key, mode: Mode, items: seq<(string, string)>)
    requires Replays(t) && Logged(t, addon, key, {})
    requires forall i, j | 0 <= i < j < |items| :: items[i].0 != items[j].0
    ensures var t' := LogItems(t, addon, key, mode, items);
            Replays(t') && Logged(t', addon, key, Names(items))
    decreases |items|
  {
    if items != [] {
      var front, last := items[..|items| - 1], items[|items| - 1];
      LogItemsReplay(t, addon, key, mode, front);
      assert Names(items) == Names(front) + {last.0} by {
        assert items == front + [last];
        assert forall x :: x in items <==> x in front || x == last;
      }
      LogItemReplays(LogItems(t, addon, key, mode, front), addon, key, mode, last, Names(front));
    }
  }

  lemma {:induction false} LogItemsRecords(t: Tables, addon: string, key: Key, mode: Mode, items: seq<(string, string)>)
    ensures forall r :: r in LogItems(t, addon, key, mode, items).records ==>
        r in t.records || (r.addon == addon && r.key == key)
    decreases |items|
  {
    if items != [] {
      LogItemsRecords(t, addon, key, mode, items[..|items| - 1]);
    }
  }

  lemma {:induction false} CompareRecordsOf(t: Tables, addon: string, local: seq<Entry>)
    ensures forall r :: r in Compare(t, addon, local).records ==>
              r in t.records || (r.addon == addon && exists e :: e in local && e.key == r.key)
    decreases |local|
  {
    if local != [] {
      var front, e := local[..|local| - 1], local[|local| - 1];
      CompareRecordsOf(t, addon, front);
      var before := Compare(t, addon, front);
      LogItemsRecords(SetDefault(before, e.key), addon, e.key, ModeOf(before, e.key), e.items);
      assert forall x :: x in front ==> x in local;
      assert e in local;
    }
  }

  ghost predicate NewModule(t: Tables, addon: string) {
    forall r :: r in t.records ==> r.addon != addon
  }

  lemma {:induction false} CompareReplays(t: Tables, addon: string, local: seq<Entry>)
    requires Replays(t) && NewModule(t, addon) && IsDict(local)
    ensures Replays(Compare(t, addon, local))
    decreases |local|
  {
    if local != [] {
      var front, e := local[..|local| - 1], local[|local| - 1];
      assert forall x :: x in front ==> x in local;
      CompareReplays(t, addon, front);
      CompareRecordsOf(t, addon, front);
      var before := Compare(t, addon, front);
      var start := SetDefault(before, e.key);
      assert forall k :: OldField(start, k) == OldField(before, k);
      assert e in local;
      forall i | 0 <= i < |start.attributes|
        ensures var r := start.records[start.attributes[i].recordId]; !(r.addon == addon && r.key == e.key)
      {
        var r := start.records[start.attributes[i].recordId];
        assert r in before.records;
        forall x | x in front ensures x.key != e.key {
          var j :| 0 <= j < |front| && front[j] == x;
          assert local[j].key != local[|local| - 1].key;
        }
      }
      LogItemsReplay(start, addon, e.key, ModeOf(before, e.key), e.items);
    }
  }

  // ----- whole runs -----

  datatype Call = Call(addon: string, local: seq<Entry>)

  function RunAll(calls: seq<Call>): Tables
    decreases |calls|
  {
    if calls == [] then Tables([], [], map[])
    else Compare(RunAll(calls[..|calls| - 1]), calls[|calls| - 1].addon, calls[|calls| - 1].local)
  }

  function MergeAll(calls: seq<Call>): map<Key, Attributes>
    decreases |calls|
  {
    if calls == [] then map[] else Merge(MergeAll(calls[..|calls| - 1]), calls[|calls| - 1].local)
  }

  /** Every run from empty tables merges the local registries and creates each field once. */
  lemma {:induction false} EveryRunMerges(calls: seq<Call>)
    ensures RunAll(calls).registry == MergeAll(calls) && CreatedOnce(RunAll(calls))
    decreases |calls|
  {
    if calls != [] {
      var front, last := calls[..|calls| - 1], calls[|calls| - 1];
      EveryRunMerges(front);
      RegistryIsMerge(RunAll(front), last.addon, last.local);
      CompareCreatesOnce(RunAll(front), last.addon, last.local);
    }
  }

  /** If each module is compared once, replaying the rows rebuilds the registry. */
  lemma {:induction false} ReplayRebuilds(calls: seq<Call>)
    requires forall i, j | 0 <= i < j < |calls| :: calls[i].addon != calls[j].addon
    requires forall i | 0 <= i < |calls| :: IsDict(calls[i].local)
    ensures Replays(RunAll(calls))
    ensures forall r :: r in RunAll(calls).records ==> exists i :: 0 <= i < |calls| && calls[i].addon == r.addon
    decreases |calls|
  {
    if calls != [] {
      var front, last := calls[..|calls| - 1], calls[|calls| - 1];
      ReplayRebuilds(front);
      CompareReplays(RunAll(front), last.addon, last.local);
      CompareRecordsOf(RunAll(front), last.addon, last.local);
      forall r | r in RunAll(calls).records ensures exists i :: 0 <= i < |calls| && calls[i].addon == r.addon {
        if r in RunAll(front).records {
          var i :| 0 <= i < |front| && front[i].addon == r.addon;
          assert calls[i].addon == r.addon;
        } else {
          assert calls[|calls| - 1].addon == r.addon;
        }
      }
    }
  }

  // ----- a run that loses a change -----

  /** A module that sets one attribute of one field. */
  function Sets(key: Key, value: string): seq<Entry> {
    [Entry(key, [("x", value)])]
  }

  lemma OneItem(t: Tables, addon: string, key: Key, value: string)
    ensures Compare(t, addon, Sets(key, value)) == LogItem(SetDefault(t, key), addon, key, ModeOf(t, key), ("x", value))
  {
    var local, items := Sets(key, value), [("x", value)];
    assert local[..0] == [] && items[..0] == [];
    assert Compare(t, addon, local[..0]) == t;
    assert LogItems(SetDefault(t, key), addon, key, ModeOf(t, key), items[..0]) == SetDefault(t, key);
  }

  /** What the table of records holds after a creation and a modification by the same module. */
  function Both(addon: string, key: Key): seq<RecordRow> {
    [RecordRow(addon, key, Create), RecordRow(addon, key, Modify)]
  }

  function Rows(n: nat): seq<AttributeRow>
    requires n <= 3
  {
    [AttributeRow("x", "1", 0), AttributeRow("x", "2", 1), AttributeRow("x", "1", 1)][..n]
  }

  lemma FirstSet(addon: string, key: Key)
    ensures Compare(Tables([], [], map[]), addon, Sets(key, "1"))
         == Tables([RecordRow(addon, key, Create)], Rows(1), map[key := map["x" := "1"]])
  {
    OneItem(Tables([], [], map[]), addon, key, "1");
    assert Rows(1) == [] + [AttributeRow("x", "1", 0)];
  }

  lemma HasEntry(key: Key, value: string, next: string)
    ensures var registry := map[key := map["x" := value]];
            && registry[key] != map[] && registry[key := registry[key]] == registry
            && registry[key := registry[key]["x" := next]] == map[key := map["x" := next]]
  {
    assert "x" in map["x" := value];
    assert map["x" := value]["x" := next] == map["x" := next];
  }

  lemma SecondSet(addon: string, key: Key)
    ensures var first := Tables([RecordRow(addon, key, Create)], Rows(1), map[key := map["x" := "1"]]);
            Compare(first, addon, Sets(key, "2")) == Tables(Both(addon, key), Rows(2), map[key := map["x" := "2"]])
  {
    var records := [RecordRow(addon, key, Create)];
    HasEntry(key, "1", "2");
    OneItem(Tables(records, Rows(1), map[key := map["x" := "1"]]), addon, key, "2");
    assert records[1..] == [] && records + [RecordRow(addon, key, Modify)] == Both(addon, key);
    assert Rows(1) == [AttributeRow("x", "1", 0)];
    assert Rows(2) == Rows(1) + [AttributeRow("x", "2", 1)];
  }

  lemma ModifyIsSecond(addon: string, key: Key)
    ensures GetRecord(Both(addon, key), RecordRow(addon, key, Modify)) == (Both(addon, key), 1)
  {
    assert Both(addon, key)[1..] == [RecordRow(addon, key, Modify)];
  }

  lemma ThirdSet(addon: string, key: Key)
    ensures Compare(Tables(Both(addon, key), Rows(2), map[key := map["x" := "2"]]), addon, Sets(key, "1"))
         == Tables(Both(addon, key), Rows(3), map[key := map["x" := "1"]])
  {
    HasEntry(key, "2", "1");
    OneItem(Tables(Both(addon, key), Rows(2), map[key := map["x" := "2"]]), addon, key, "1");
    ModifyIsSecond(addon, key);
    assert Rows(2) == [AttributeRow("x", "1", 0), AttributeRow("x", "2", 1)];
    assert Rows(3) == Rows(2) + [AttributeRow("x", "1", 1)];
  }

  lemma FourthSet(addon: string, key: Key)
    ensures Compare(Tables(Both(addon, key), Rows(3), map[key := map["x" := "1"]]), addon, Sets(key, "2"))
         == Tables(Both(addon, key), Rows(3), map[key := map["x" := "2"]])
  {
    HasEntry(key, "1", "2");
    OneItem(Tables(Both(addon, key), Rows(3), map[key := map["x" := "1"]]), addon, key, "2");
    ModifyIsSecond(addon, key);
    assert Rows(3)[1] == AttributeRow("x", "2", 1);
  }

  /** The values 1, 2, 1, 2 given by one module: the last change finds its row, and the rows end with 1. */
  lemma FourthChangeIsLost(addon: string, key: Key)
    ensures var one, two := Call(addon, Sets(key, "1")), Call(addon, Sets(key, "2"));
            && RunAll([one, two, one, two]).registry == map[key := map["x" := "2"]]
            && Replays(RunAll([one, two, one]))
            && !Replays(RunAll([one, two, one, two]))
  {
    var one, two := Call(addon, Sets(key, "1")), Call(addon, Sets(key, "2"));
    assert [one, two, one, two][..3] == [one, two, one] && [one, two, one][..2] == [one, two];
    assert [one, two][..1] == [one] && [one][..0] == [];
    FirstSet(addon, key);
    SecondSet(addon, key);
    ThirdSet(addon, key);
    FourthSet(addon, key);
    assert RunAll([one]) == Compare(Tables([], [], map[]), addon, Sets(key, "1"));
    assert RunAll([one, two]) == Compare(RunAll([one]), addon, Sets(key, "2"));
    assert RunAll([one, two, one]) == Compare(RunAll([one, two]), addon, Sets(key, "1"));
    var t3, t4 := RunAll([one, two, one]), RunAll([one, two, one, two]);
    assert t3 == Tables(Both(addon, key), Rows(3), map[key := map["x" := "1"]]);
    assert t4 == Tables(Both(addon, key), Rows(3), map[key := map["x" := "2"]]);
    RowsReplay(addon, key);
    assert Replay(t4.records, t4.attributes, key)["x"] == "1" && OldField(t4, key)["x"] == "2";
  }

  lemma RowsReplay(addon: string, key: Key)
    ensures forall k :: Replay(Both(addon, key), Rows(3), k) == if k == key then map["x" := "1"] else map[]
  {
    assert Rows(3)[..2] == Rows(2) && Rows(2)[..1] == Rows(1) && Rows(1)[..0] == [];
    forall k ensures Replay(Both(addon, key), Rows(3), k) == if k == key then map["x" := "1"] else map[] {
      assert Replay(Both(addon, key), Rows(1), k) == if k == key then map["x" := "1"] else map[];
      assert Replay(Both(addon, key), Rows(2), k) == if k == key then map["x" := "2"] else map[];
    }
  }
}
