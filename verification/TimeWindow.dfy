/**
  The time windows of base_time_window/models/time_window_mixin.py: a check after each write looks
  for overlaps with the written windows only, and must keep all windows apart.
*/
module TimeWindow {
  import opened Wrappers

  /** Hours are exact numbers; `owner` is the field that the overlap check compares, which may be unset. */
  datatype Window = Window(owner: Option<nat>, start: real, end: real, days: set<nat>)

  type Table = map<nat, Window>

  // ----- hours and minutes -----

  /** Python's `round`: to the nearest integer, and halfway to the even one. */
  function Round(x: real): int {
    var n := x.Floor;
    var d := x - n as real;
    if d < 0.5 || (d == 0.5 && n % 2 == 0) then n else n + 1
  }

  method HourMinute(value: real) returns (hour: int, minute: int)
    ensures 0 <= minute < 60
    ensures 60 * hour + minute == Round(60.0 * value)
    ensures var error := (60 * hour + minute) as real - 60.0 * value;
            -0.5 <= error <= 0.5 && (error == 0.5 || error == -0.5 ==> minute % 2 == 0)
  {
    hour := value.Floor;
    minute := Round((value - value.Floor as real) * 60.0);
    RoundShifts((value - value.Floor as real) * 60.0, 30 * hour);
    RoundIsNearest(60.0 * value);
    assert (value - value.Floor as real) * 60.0 + (2 * (30 * hour)) as real == 60.0 * value;
    if minute == 60 {
      minute := 0;
      hour := hour + 1;
    }
  }

  lemma RoundShifts(x: real, k: int)
    ensures Round(x + (2 * k) as real) == Round(x) + 2 * k
  {
    assert (x + (2 * k) as real).Floor == x.Floor + 2 * k;
  }

  /** The hour that `_get_hour_min_from_value` returns. */
  function Hour(value: real): int {
    Round(60.0 * value) / 60
  }

  lemma RoundIsNearest(x: real)
    ensures -0.5 <= Round(x) as real - x <= 0.5
    ensures Round(x) as real - x == 0.5 || Round(x) as real - x == -0.5 ==> Round(x) % 2 == 0
  {
  }

  lemma RoundIsMonotone(x: real, y: real)
    requires x <= y
    ensures Round(x) <= Round(y)
  {
    assert x.Floor <= y.Floor;
  }

  /** The hour is at most 23 exactly up to 23:59:30, which is already rounded up to 24:00. */
  lemma UnderTwentyFourExactly(value: real)
    ensures Hour(value) <= 23 <==> 120.0 * value < 2879.0
  {
    var x := 60.0 * value;
    if 120.0 * value < 2879.0 {
      assert x.Floor <= 1439;
    } else {
      RoundIsMonotone(1439.5, x);
      assert Round(1439.5) == 1440;
    }
  }

  // ----- the constraints -----

  /** Half-open ranges; an empty range overlaps nothing. */
  predicate Overlap(a: Window, b: Window) {
    a.start < a.end && b.start < b.end && a.start < b.end && b.start < a.end
  }

  predicate ShareDay(a: Window, b: Window) {
    a.days * b.days != {}
  }

  predicate Clash(a: Window, b: Window) {
    ShareDay(a, b) && Overlap(a, b)
  }

  /** Windows of the same owner; a window without owner has no company. */
  predicate SameOwner(a: Window, b: Window) {
    a.owner.Some? && a.owner == b.owner
  }

  /** The rows that the query finds for a window. */
  function Overlapping(t: Table, id: nat): set<nat>
    requires id in t
  {
    set j | j in t && j != id && SameOwner(t[j], t[id]) && Clash(t[j], t[id])
  }

  /** Without an owner the query compares an id with False, which the database refuses. */
  predicate NoOverlaps(t: Table, id: nat)
    requires id in t
  {
    t[id].start <= t[id].end && t[id].days != {} && t[id].owner.Some? && Overlapping(t, id) == {}
  }

  /** A zero is not looked at. */
  predicate UnderTwentyFour(w: Window) {
    (w.start == 0.0 || Hour(w.start) <= 23) && (w.end == 0.0 || Hour(w.end) <= 23)
  }

  // ----- writing -----

  datatype Vals = Vals(owner: Option<Option<nat>>, start: Option<real>, end: Option<real>, days: Option<set<nat>>)

  function Get<T>(o: Option<T>, default_: T): T {
    match o case Some(v) => v case None => default_
  }

  function Assign(w: Window, v: Vals): Window {
    Window(Get(v.owner, w.owner), Get(v.start, w.start), Get(v.end, w.end), Get(v.days, w.days))
  }

  /** A constraint runs when one of its fields is written. */
  predicate TriggersOverlaps(v: Vals) {
    v.start.Some? || v.end.Some? || v.days.Some?
  }

  predicate TriggersHours(v: Vals) {
    v.start.Some? || v.end.Some?
  }

  function Assigned(t: Table, ids: set<nat>, v: Vals): Table {
    map i | i in t :: if i in ids then Assign(t[i], v) else t[i]
  }

  predicate Accepts(t: Table, ids: set<nat>, overlaps: bool, hours: bool)
    requires ids <= t.Keys
  {
    (overlaps ==> forall i :: i in ids ==> NoOverlaps(t, i))
        && (hours ==> forall i :: i in ids ==> UnderTwentyFour(t[i]))
  }

  /** A create sets all fields, a write some of them, on a batch of windows; a failing constraint undoes the call. */
  datatype Op = Create(windows: Table) | Write(ids: set<nat>, vals: Vals) | Unlink(ids: set<nat>)

  function Step(t: Table, op: Op): Option<Table> {
    match op
    case Create(windows) =>
      if windows.Keys !! t.Keys && Accepts(t + windows, windows.Keys, true, true) then Some(t + windows) else None
    case Write(ids, v) =>
      if ids <= t.Keys && Accepts(Assigned(t, ids, v), ids, TriggersOverlaps(v), TriggersHours(v)) then
        Some(Assigned(t, ids, v))
      else None
    case Unlink(ids) => Some(t - ids)
  }

  function Run(t: Table, ops: seq<Op>): Table
    decreases |ops|
  {
    if ops == [] then t
    else match Step(t, ops[0])
      case Some(t') => Run(t', ops[1..])
      case None => Run(t, ops[1..])
  }

  class Windows {
    var table: Table

    constructor ()
      ensures table == map[]
    {
      table := map[];
    }

    /** `check_window_no_overlaps` on a batch. */
    method CheckNoOverlaps(ids: seq<nat>) returns (ok: bool)
      requires forall i :: i in ids ==> i in table
      ensures ok <==> forall i :: i in ids ==> NoOverlaps(table, i)
    {
      ok := true;
      for k := 0 to |ids|
        invariant forall j :: 0 <= j < k ==> NoOverlaps(table, ids[j])
      {
        var record := table[ids[k]];
        assert ids[k] in ids;
        if record.start > record.end || record.days == {} || record.owner == None {
          return false;
        }
        var res := set j | j in table && j != ids[k] && SameOwner(table[j], record) && Clash(table[j], record);
        assert res == Overlapping(table, ids[k]);
        if res != {} {
          return false;
        }
      }
    }

    method CheckHours(ids: seq<nat>) returns (ok: bool)
      requires forall i :: i in ids ==> i in table
      ensures ok <==> forall i :: i in ids ==> UnderTwentyFour(table[i])
    {
      ok := true;
      for k := 0 to |ids|
        invariant forall j :: 0 <= j < k ==> UnderTwentyFour(table[ids[j]])
      {
        var record := table[ids[k]];
        assert ids[k] in ids;
        if record.start != 0.0 {
          var hour, minute := HourMinute(record.start);
          if hour > 23 {
            return false;
          }
        }
        if record.end != 0.0 {
          var hour, minute := HourMinute(record.end);
          if hour > 23 {
            return false;
          }
        }
      }
    }

    method Write(ids: seq<nat>, v: Vals) returns (ok: bool)
      modifies this
      ensures ok == Step(old(table), Op.Write(SetOf(ids), v)).Some?
      ensures table == if ok then Step(old(table), Op.Write(SetOf(ids), v)).value else old(table)
    {
      ok := true;
      var savepoint := table;
      for k := 0 to |ids|
        invariant table == Assigned(savepoint, SetOf(ids[..k]), v)
        invariant SetOf(ids[..k]) <= savepoint.Keys
      {
        SetOfSnoc(ids, k);
        if ids[k] !in table {
          assert ids[k] in SetOf(ids);
          table := savepoint;
          return false;
        }
        AssignedOnce(savepoint, SetOf(ids[..k]), ids[k], v);
        if ids[k] !in ids[..k] {
          table := table[ids[k] := Assign(table[ids[k]], v)];
        }
      }
      assert ids[..|ids|] == ids;
      if TriggersOverlaps(v) {
        ok := CheckNoOverlaps(ids);
      }
      if ok && TriggersHours(v) {
        ok := CheckHours(ids);
      }
      if !ok {
        table := savepoint;
      }
    }
  }

  function SetOf(ids: seq<nat>): set<nat> {
    set i | i in ids
  }

  lemma SetOfSnoc(ids: seq<nat>, k: nat)
    requires k < |ids|
    ensures SetOf(ids[..k + 1]) == SetOf(ids[..k]) + {ids[k]}
  {
    assert ids[..k + 1] == ids[..k] + [ids[k]];
  }

  lemma AssignedOnce(t: Table, ids: set<nat>, i: nat, v: Vals)
    requires i in t
    ensures Assigned(t, ids + {i}, v) ==
            if i in ids then Assigned(t, ids, v) else Assigned(t, ids, v)[i := Assign(Assigned(t, ids, v)[i], v)]
  {
    if i in ids {
      assert ids + {i} == ids;
    }
  }

  // ----- what the constraints mean -----

  predicate OpenAt(w: Window, day: nat, hour: real) {
    day in w.days && w.start <= hour < w.end
  }

  /** Both windows are open at one moment of the week. */
  ghost predicate OpenTogether(a: Window, b: Window) {
    exists day, hour :: OpenAt(a, day, hour) && OpenAt(b, day, hour)
  }

  lemma ClashExactly(a: Window, b: Window)
    ensures Clash(a, b) <==> OpenTogether(a, b)
  {
    if Clash(a, b) {
      var day :| day in a.days * b.days;
      var hour := if a.start <= b.start then b.start else a.start;
      assert OpenAt(a, day, hour) && OpenAt(b, day, hour);
    }
    if day, hour :| OpenAt(a, day, hour) && OpenAt(b, day, hour) {
      assert day in a.days * b.days;
    }
  }

  /** The window is proper, has an owner, and is never open together with another one of that owner. */
  ghost predicate StandsAlone(t: Table, i: nat)
    requires i in t
  {
    && t[i].start <= t[i].end && t[i].days != {} && t[i].owner != None
    && forall j | j in t && j != i && t[j].owner == t[i].owner :: !OpenTogether(t[j], t[i])
  }

  lemma NoOverlapsExactly(t: Table, i: nat)
    requires i in t
    ensures NoOverlaps(t, i) <==> StandsAlone(t, i)
  {
    forall j | j in t ensures Clash(t[j], t[i]) <==> OpenTogether(t[j], t[i]) {
      ClashExactly(t[j], t[i]);
    }
    if StandsAlone(t, i) {
      assert forall j :: j !in Overlapping(t, i);
    }
    if NoOverlaps(t, i) {
      forall j | j in t && j != i && t[j].owner == t[i].owner ensures !OpenTogether(t[j], t[i]) {
        assert j !in Overlapping(t, i);
      }
    }
  }

  /** Both bounds are zero or before 23:59:30. */
  predicate WithinDay(w: Window) {
    (w.start == 0.0 || 120.0 * w.start < 2879.0) && (w.end == 0.0 || 120.0 * w.end < 2879.0)
  }

  lemma UnderTwentyFourMeans(w: Window)
    ensures UnderTwentyFour(w) <==> WithinDay(w)
  {
    UnderTwentyFourExactly(w.start);
    UnderTwentyFourExactly(w.end);
  }

  /** A create is accepted exactly when each new window stands alone in the new table and is within the day. */
  lemma CreateExactly(t: Table, windows: Table)
    ensures Step(t, Create(windows)).Some? <==>
            windows.Keys !! t.Keys &&
            forall i :: i in windows ==> StandsAlone(t + windows, i) && WithinDay(windows[i])
    ensures Step(t, Create(windows)).Some? ==> Step(t, Create(windows)) == Some(t + windows)
  {
    forall i | i in windows
      ensures NoOverlaps(t + windows, i) <==> StandsAlone(t + windows, i)
      ensures UnderTwentyFour(windows[i]) <==> WithinDay(windows[i])
    {
      NoOverlapsExactly(t + windows, i);
      UnderTwentyFourMeans(windows[i]);
    }
  }

  /** The values of a write are taken over, and nothing else changes. */
  ghost predicate TakesOver(t: Table, ids: set<nat>, v: Vals, t': Table) {
    && t'.Keys == t.Keys
    && (forall i :: i in t && i !in ids ==> t'[i] == t[i])
    && forall i :: i in t && i in ids ==>
         && (if v.owner == None then t'[i].owner == t[i].owner else Some(t'[i].owner) == v.owner)
         && (if v.start == None then t'[i].start == t[i].start else Some(t'[i].start) == v.start)
         && (if v.end == None then t'[i].end == t[i].end else Some(t'[i].end) == v.end)
         && (if v.days == None then t'[i].days == t[i].days else Some(t'[i].days) == v.days)
  }

  /** An accepted write gives the written windows the values it sets. */
  lemma WriteTakesOver(t: Table, ids: set<nat>, v: Vals)
    requires ids <= t.Keys && Step(t, Write(ids, v)).Some?
    ensures TakesOver(t, ids, v, Step(t, Write(ids, v)).value)
  {
  }

  /**
    A write to existing windows is accepted exactly when, if it sets a bound or the days, each written
    window then stands alone, and if it sets a bound, is within the day.
  */
  lemma WriteExactly(t: Table, ids: set<nat>, v: Vals, t': Table)
    requires TakesOver(t, ids, v, t') && ids <= t.Keys
    ensures Step(t, Write(ids, v)) == Some(t') || Step(t, Write(ids, v)) == None
    ensures Step(t, Write(ids, v)).Some? <==>
            && (v.start != None || v.end != None || v.days != None ==> forall i :: i in ids ==> StandsAlone(t', i))
            && (v.start != None || v.end != None ==> forall i :: i in ids ==> WithinDay(t'[i]))
  {
    assert t' == Assigned(t, ids, v);
    forall i | i in ids
      ensures NoOverlaps(t', i) <==> StandsAlone(t', i)
      ensures UnderTwentyFour(t'[i]) <==> WithinDay(t'[i])
    {
      NoOverlapsExactly(t', i);
      UnderTwentyFourMeans(t'[i]);
    }
  }

  /** An unlink always goes through and removes the windows, no others. */
  lemma UnlinkExactly(t: Table, ids: set<nat>)
    ensures Step(t, Unlink(ids)).Some?
    ensures forall i :: i in Step(t, Unlink(ids)).value <==> i in t && i !in ids
    ensures forall i :: i in t && i !in ids ==> Step(t, Unlink(ids)).value[i] == t[i]
  {
  }

  // ----- windows are kept apart -----

  ghost predicate Apart(t: Table) {
    forall i, j :: i in t && j in t && i != j && SameOwner(t[i], t[j]) ==> !Clash(t[i], t[j])
  }

  ghost predicate Proper(t: Table) {
    forall i :: i in t ==> t[i].start <= t[i].end && t[i].days != {} && WithinDay(t[i])
  }

  /** No two windows of one owner are ever open together. */
  lemma ApartMeans(t: Table)
    ensures Apart(t) <==>
            forall i, j :: i in t && j in t && i != j && t[i].owner != None && t[i].owner == t[j].owner ==>
                !OpenTogether(t[i], t[j])
  {
    forall i, j | i in t && j in t ensures Clash(t[i], t[j]) <==> OpenTogether(t[i], t[j]) {
      ClashExactly(t[i], t[j]);
    }
  }

  lemma NoOverlapsMeans(t: Table, i: nat, j: nat)
    requires i in t && NoOverlaps(t, i) && j in t && i != j && SameOwner(t[i], t[j])
    ensures !Clash(t[i], t[j]) && !Clash(t[j], t[i])
  {
    assert j !in Overlapping(t, i);
    assert t[i].days * t[j].days == t[j].days * t[i].days;
  }

  /** Checking the changed windows alone is enough: windows that did not change were apart before. */
  lemma ChangedAreChecked(t: Table, t': Table, ids: set<nat>)
    requires Apart(t) && ids <= t'.Keys
    requires forall i :: i in t' && i !in ids ==> i in t && t'[i] == t[i]
    requires forall i :: i in ids ==> NoOverlaps(t', i)
    ensures Apart(t')
  {
    forall i, j | i in t' && j in t' && i != j && SameOwner(t'[i], t'[j]) ensures !Clash(t'[i], t'[j]) {
      if i in ids {
        NoOverlapsMeans(t', i, j);
      } else if j in ids {
        NoOverlapsMeans(t', j, i);
      }
    }
  }

  /**
    A write of the owner alone runs no check; then the moved windows must clash neither with each
    other nor with their new neighbours.
  */
  predicate MovesApart(t: Table, ids: set<nat>, owner: Option<nat>)
    requires ids <= t.Keys
  {
    owner.Some? ==> forall i, j :: i in ids && j in t && i != j && (j in ids || t[j].owner == owner) ==>
        !Clash(t[i], t[j])
  }

  predicate KeepsApart(t: Table, op: Op) {
    op.Write? && op.ids <= t.Keys && op.vals.owner.Some? && !TriggersOverlaps(op.vals) ==>
        MovesApart(t, op.ids, op.vals.owner.value)
  }

  lemma MoveKeepsApartExactly(t: Table, ids: set<nat>, v: Vals)
    requires Apart(t) && ids <= t.Keys && v.owner.Some? && !TriggersOverlaps(v)
    ensures Apart(Assigned(t, ids, v)) <==> MovesApart(t, ids, v.owner.value)
  {
    var t' := Assigned(t, ids, v);
    if Apart(t') && v.owner.value.Some? {
      forall i, j | i in ids && j in t && i != j && (j in ids || t[j].owner == v.owner.value)
          ensures !Clash(t[i], t[j]) {
        assert !Clash(t'[i], t'[j]);
      }
    }
    if MovesApart(t, ids, v.owner.value) {
      forall i, j | i in t' && j in t' && i != j && SameOwner(t'[i], t'[j]) ensures !Clash(t'[i], t'[j]) {
        assert t[i].days * t[j].days == t[j].days * t[i].days;
        assert Clash(t'[i], t'[j]) <==> Clash(t[j], t[i]);
      }
    }
  }

  /** An accepted call keeps all windows of an owner apart exactly when it is no clashing move to another owner. */
  lemma StepKeepsApartExactly(t: Table, op: Op)
    requires Apart(t) && Proper(t) && Step(t, op).Some?
    ensures Proper(Step(t, op).value)
    ensures Apart(Step(t, op).value) <==> KeepsApart(t, op)
  {
    var t' := Step(t, op).value;
    forall i | i in t' ensures UnderTwentyFour(t'[i]) <==> WithinDay(t'[i]) {
      UnderTwentyFourMeans(t'[i]);
    }
    match op
    case Create(windows) => ChangedAreChecked(t, t', windows.Keys);
    case Unlink(_) =>
    case Write(ids, v) =>
      if TriggersOverlaps(v) {
        ChangedAreChecked(t, t', ids);
      } else if v.owner.Some? {
        MoveKeepsApartExactly(t, ids, v);
      } else {
        assert t' == t;
      }
  }

  ghost predicate AllKeepApart(t: Table, ops: seq<Op>)
    decreases |ops|
  {
    ops == [] || (KeepsApart(t, ops[0]) &&
      match Step(t, ops[0])
      case Some(t') => AllKeepApart(t', ops[1..])
      case None => AllKeepApart(t, ops[1..]))
  }

  /** A run goes through one table after another: an accepted call leaves its own, a rejected one what it found. */
  lemma {:induction false} RunMeans(tables: seq<Table>, ops: seq<Op>)
    requires |tables| == |ops| + 1
    requires forall i | 0 <= i < |ops| ::
               Step(tables[i], ops[i]) == Some(tables[i + 1])
               || (Step(tables[i], ops[i]) == None && tables[i + 1] == tables[i])
    ensures Run(tables[0], ops) == tables[|ops|]
    decreases |ops|
  {
    if ops != [] {
      var later := tables[1..];
      assert later[0] == tables[1] == tables[0 + 1];
      forall i | 0 <= i < |ops[1..]|
        ensures Step(later[i], ops[1..][i]) == Some(later[i + 1])
                || (Step(later[i], ops[1..][i]) == None && later[i + 1] == later[i])
      {
        assert later[i] == tables[i + 1] && ops[1..][i] == ops[i + 1];
      }
      RunMeans(later, ops[1..]);
    }
  }

  /** Over every run of accepted and rejected calls, no two windows of one owner that share a weekday overlap. */
  lemma {:induction false} RunKeepsApart(t: Table, ops: seq<Op>)
    requires Apart(t) && Proper(t) && AllKeepApart(t, ops)
    ensures Apart(Run(t, ops)) && Proper(Run(t, ops))
    decreases |ops|
  {
    if ops == [] {
    } else {
      match Step(t, ops[0])
      case None => RunKeepsApart(t, ops[1..]);
      case Some(t') =>
        StepKeepsApartExactly(t, ops[0]);
        RunKeepsApart(t', ops[1..]);
    }
  }

  /** The check is missed when a window is only moved to another owner. */
  lemma MovedWindowOverlaps()
    ensures var w := Window(Some(1), 8.0, 12.0, {0});
            var t := map[1 := w, 2 := w.(owner := Some(2))];
            var move := Write({2}, Vals(Some(Some(1)), None, None, None));
            Apart(t) && Proper(t) && Step(t, move).Some? && !Apart(Step(t, move).value)
  {
    var w := Window(Some(1), 8.0, 12.0, {0});
    var t := map[1 := w, 2 := w.(owner := Some(2))];
    var v := Vals(Some(Some(1)), None, None, None);
    UnderTwentyFourExactly(8.0);
    UnderTwentyFourExactly(12.0);
    assert 0 in w.days * w.days;
    var t' := Assigned(t, {2}, v);
    assert t'[1] == w && t'[2] == w && Clash(t'[1], t'[2]);
  }
}
