/** What one call of base_changeset does: who may decide, what is decided, and what is recorded. */
module ChangesetCalls {
  import opened Sequences
  import opened Wrappers
  import opened Changeset

  // ----- who may decide -----

  /** The change exists, the user has the right to decide on it, and it is pending unless that is not asked for. */
  predicate Entitled(changes: seq<Change>, rights: set<nat>, skip: bool, id: nat) {
    id < |changes| && id in rights && (skip || changes[id].state == Draft)
  }

  ghost predicate AllEntitled(changes: seq<Change>, ids: seq<nat>, rights: set<nat>, skip: bool) {
    forall id :: id in ids ==> Entitled(changes, rights, skip, id)
  }

  lemma EntitledMayDecide(changes: seq<Change>, ids: seq<nat>, rights: set<nat>, skip: bool)
    ensures AllEntitled(changes, ids, rights, skip) <==>
            forall i | 0 <= i < |ids| :: MayDecide(changes, rights, skip, ids[i])
  {
    if AllEntitled(changes, ids, rights, skip) {
      forall i | 0 <= i < |ids| ensures MayDecide(changes, rights, skip, ids[i]) {
        assert ids[i] in ids;
      }
    }
  }

  // ----- rejecting -----

  /** Rejecting succeeds exactly when the user may decide on every change and none has been applied. */
  lemma CancelSucceedsExactly(sch: Schema, st: State, ids: seq<nat>, rights: set<nat>, skip: bool)
    ensures Cancel(sch, st, ids, rights, skip).Ok? <==>
            AllEntitled(st.changes, ids, rights, skip) && forall id :: id in ids ==> st.changes[id].state != Done
    ensures Cancel(sch, st, ids, rights, skip) == Err(NoRights) <==> !AllEntitled(st.changes, ids, rights, skip)
    ensures Cancel(sch, st, ids, rights, skip) == Err(AlreadyApplied) <==>
            AllEntitled(st.changes, ids, rights, skip) && exists id :: id in ids && st.changes[id].state == Done
  {
    EntitledMayDecide(st.changes, ids, rights, skip);
    if AllEntitled(st.changes, ids, rights, skip) {
      assert (exists id :: id in ids && st.changes[id].state == Done) <==>
             exists i | 0 <= i < |ids| :: st.changes[ids[i]].state == Done;
    }
  }

  lemma {:induction false} SetStateIs(changes: seq<Change>, ids: seq<nat>, s: ChangeState, k: nat)
    requires AllBelow(|changes|, ids) && k < |changes|
    ensures SetState(changes, ids, s)[k] == if k in ids then changes[k].(state := s) else changes[k]
    decreases |ids|
  {
    if ids != [] {
      SetStateIs(changes[ids[0] := changes[ids[0]].(state := s)], ids[1..], s, k);
      assert k in ids <==> k == ids[0] || k in ids[1..];
    }
  }

  lemma {:induction false} SetOldsFrame(sch: Schema, st: State, ids: seq<nat>)
    requires AllBelow(|st.changes|, ids)
    ensures SetOlds(sch, st, ids) == st.(changes := SetOlds(sch, st, ids).changes)
    decreases |ids|
  {
    if ids != [] {
      SetOldsFrame(sch, SetOld(sch, st, ids[0]), ids[1..]);
    }
  }

  lemma {:induction false} SetOldsIs(sch: Schema, st: State, ids: seq<nat>, k: nat)
    requires AllBelow(|st.changes|, ids) && k < |st.changes|
    ensures var c := st.changes[k];
            SetOlds(sch, st, ids).changes[k] ==
            if k in ids then c.(oldValue := Encode(sch(c.key.field), Get(st.values, c.key))) else c
    decreases |ids|
  {
    if ids != [] {
      SetOldsIs(sch, SetOld(sch, st, ids[0]), ids[1..], k);
      assert k in ids <==> k == ids[0] || k in ids[1..];
    }
  }

  /** Rejected changes are cancelled and keep the value the record has; nothing else changes. */
  lemma CancelDecides(sch: Schema, st: State, ids: seq<nat>, rights: set<nat>, skip: bool)
    requires Cancel(sch, st, ids, rights, skip).Ok?
    ensures var st' := Cancel(sch, st, ids, rights, skip).value;
            && st' == st.(changes := st'.changes) && |st'.changes| == |st.changes|
            && forall k | 0 <= k < |st.changes| ::
                 var c, c' := st.changes[k], st'.changes[k];
                 if k in ids then
                   && c'.state == Cancelled && Decode(c'.oldValue) == Get(st.values, c.key)
                   && c'.changeset == c.changeset && c'.key == c.key && c'.newValue == c.newValue
                 else c' == c
  {
    CancelSucceedsExactly(sch, st, ids, rights, skip);
    assert AllBelow(|st.changes|, ids) by {
      assert forall i | 0 <= i < |ids| :: ids[i] in ids;
    }
    var mid := SetOlds(sch, st, ids);
    SetOldsFrame(sch, st, ids);
    forall k | 0 <= k < |st.changes|
      ensures var c := st.changes[k];
              var kept := Encode(sch(c.key.field), Get(st.values, c.key));
              SetState(mid.changes, ids, Cancelled)[k] ==
              if k in ids then c.(oldValue := kept, state := Cancelled) else c
      ensures Decode(Encode(sch(st.changes[k].key.field), Get(st.values, st.changes[k].key)))
           == Get(st.values, st.changes[k].key)
    {
      SetOldsIs(sch, st, ids, k);
      SetStateIs(mid.changes, ids, Cancelled, k);
      DecodeEncode(sch(st.changes[k].key.field), Get(st.values, st.changes[k].key));
    }
  }

  // ----- approving -----

  /** The pending changes among `ids`, in order. */
  function PendingOf(changes: seq<Change>, ids: seq<nat>): (r: seq<nat>)
    requires AllBelow(|changes|, ids)
    ensures forall id :: id in r <==> id in ids && changes[id].state == Draft
    decreases |ids|
  {
    if ids == [] then []
    else (if changes[ids[0]].state == Draft then [ids[0]] else []) + PendingOf(changes, ids[1..])
  }

  /** A pending change of an older changeset of the same record. */
  ghost predicate OlderPending(st: State, s: nat) {
    exists p, c | 0 <= p < |st.changesets| && 0 <= c < |st.changes| ::
      && s < |st.changesets| && st.changesets[p].res == st.changesets[s].res
      && st.changesets[p].date < st.changesets[s].date
      && st.changes[c].changeset == p && st.changes[c].state == Draft
  }

  lemma OlderPendingIs(st: State, s: nat)
    ensures PendingBefore(st, s) <==> OlderPending(st, s)
  {
    if PendingBefore(st, s) {
      var p :| 0 <= p < |st.changesets| && st.changesets[p].date < st.changesets[s].date
          && st.changesets[p].res == st.changesets[s].res && DraftIn(st.changes, p);
      var c :| 0 <= c < |st.changes| && st.changes[c].changeset == p && st.changes[c].state == Draft;
    }
  }

  ghost predicate Blocked(st: State, ids: seq<nat>, require_: bool)
    requires AllBelow(|st.changes|, ids)
  {
    require_ && exists id :: id in ids && st.changes[id].state == Draft && OlderPending(st, st.changes[id].changeset)
  }

  /** Applying one change keeps the states of all. */
  ghost predicate SameStates(st: State, st': State) {
    && st'.changesets == st.changesets && |st'.changes| == |st.changes|
    && forall k | 0 <= k < |st.changes| ::
         st'.changes[k].state == st.changes[k].state && st'.changes[k].changeset == st.changes[k].changeset
  }

  lemma SameOlder(st: State, st': State, s: nat)
    requires SameStates(st, st') && OlderPending(st, s)
    ensures OlderPending(st', s)
  {
    var p, c :| 0 <= p < |st.changesets| && 0 <= c < |st.changes| && s < |st.changesets|
        && st.changesets[p].res == st.changesets[s].res && st.changesets[p].date < st.changesets[s].date
        && st.changes[c].changeset == p && st.changes[c].state == Draft;
    assert st'.changes[c].state == Draft && st'.changes[c].changeset == p;
  }

  lemma SameBlocked(st: State, st': State, ids: seq<nat>, require_: bool)
    requires SameStates(st, st') && AllBelow(|st.changes|, ids) && Blocked(st, ids, require_)
    ensures Blocked(st', ids, require_)
  {
    var id :| id in ids && st.changes[id].state == Draft && OlderPending(st, st.changes[id].changeset);
    SameOlder(st, st', st.changes[id].changeset);
  }

  lemma BlockedCons(st: State, ids: seq<nat>, require_: bool)
    requires AllBelow(|st.changes|, ids) && ids != []
    ensures AllBelow(|st.changes|, ids[1..])
    ensures Blocked(st, ids, require_) <==>
            (require_ && st.changes[ids[0]].state == Draft && OlderPending(st, st.changes[ids[0]].changeset))
            || Blocked(st, ids[1..], require_)
  {
    assert forall id :: id in ids <==> id == ids[0] || id in ids[1..];
  }

  /** The loop of `apply` raises exactly when it is blocked. */
  lemma {:induction false} ApplyFromExactly(sch: Schema, st: State, ids: seq<nat>, require_: bool, ok: seq<nat>)
    requires AllBelow(|st.changes|, ids)
    ensures var r := ApplyFrom(sch, st, ids, require_, ok);
            (r == Err(PreviousPending) <==> Blocked(st, ids, require_)) && (r.Ok? <==> !Blocked(st, ids, require_))
    decreases |ids|
  {
    if ids != [] {
      var c := st.changes[ids[0]];
      BlockedCons(st, ids, require_);
      OlderPendingIs(st, c.changeset);
      if c.state != Draft {
        ApplyFromExactly(sch, st, ids[1..], require_, ok);
      } else {
        var st1 := ApplyChange(sch, st, ids[0]);
        assert SameStates(st, st1);
        if Blocked(st, ids[1..], require_) {
          SameBlocked(st, st1, ids[1..], require_);
        }
        if Blocked(st1, ids[1..], require_) {
          SameBlocked(st1, st, ids[1..], require_);
        }
        ApplyFromExactly(sch, st1, ids[1..], require_, ok + [ids[0]]);
      }
    }
  }

  /** Else it collects the pending changes and writes values only. */
  lemma {:induction false} ApplyFromCollects(sch: Schema, st: State, ids: seq<nat>, require_: bool, ok: seq<nat>)
    requires AllBelow(|st.changes|, ids) && ApplyFrom(sch, st, ids, require_, ok).Ok?
    ensures var (st', ok') := ApplyFrom(sch, st, ids, require_, ok).value;
            && ok' == ok + PendingOf(st.changes, ids) && |st'.changes| == |st.changes|
            && st' == st.(values := st'.values, changes := st'.changes)
    decreases |ids|
  {
    if ids == [] {
      assert ok + [] == ok;
    } else if st.changes[ids[0]].state != Draft {
      ApplyFromCollects(sch, st, ids[1..], require_, ok);
      assert [] + PendingOf(st.changes, ids[1..]) == PendingOf(st.changes, ids[1..]);
    } else {
      var st1 := ApplyChange(sch, st, ids[0]);
      ApplyFromCollects(sch, st1, ids[1..], require_, ok + [ids[0]]);
      SamePending(st.changes, st1.changes, ids[1..]);
      assert ok + [ids[0]] + PendingOf(st.changes, ids[1..]) == ok + ([ids[0]] + PendingOf(st.changes, ids[1..]));
    }
  }

  lemma {:induction false} SamePending(a: seq<Change>, b: seq<Change>, ids: seq<nat>)
    requires |a| == |b| && AllBelow(|a|, ids) && forall k | 0 <= k < |a| :: a[k].state == b[k].state
    ensures PendingOf(a, ids) == PendingOf(b, ids)
    decreases |ids|
  {
    if ids != [] {
      SamePending(a, b, ids[1..]);
    }
  }

  /** What the loop leaves of one change that is not pending or not in the list. */
  lemma {:induction false} ApplyFromLeaves(sch: Schema, st: State, ids: seq<nat>, require_: bool, ok: seq<nat>, k: nat)
    requires AllBelow(|st.changes|, ids) && ApplyFrom(sch, st, ids, require_, ok).Ok? && k < |st.changes|
    ensures var c, after := st.changes[k], ApplyFrom(sch, st, ids, require_, ok).value.0.changes;
            && k < |after| && after[k] == c.(oldValue := after[k].oldValue)
            && ((k in ids && c.state == Draft) || after[k] == c)
    decreases |ids|
  {
    if ids != [] {
      assert k in ids <==> k == ids[0] || k in ids[1..];
      if st.changes[ids[0]].state != Draft {
        ApplyFromLeaves(sch, st, ids[1..], require_, ok, k);
      } else {
        ApplyFromLeaves(sch, ApplyChange(sch, st, ids[0]), ids[1..], require_, ok + [ids[0]], k);
      }
    }
  }

  ghost predicate WritesKey(st: State, ids: seq<nat>, i: nat, key: Key)
    requires AllBelow(|st.changes|, ids) && i < |ids|
  {
    st.changes[ids[i]].state == Draft && st.changes[ids[i]].key == key
  }

  /** What the last pending change on a field asks for. */
  function Asked(changes: seq<Change>, ids: seq<nat>, key: Key): Option<Value>
    requires AllBelow(|changes|, ids)
    decreases |ids|
  {
    if ids == [] then None
    else
      var c, later := changes[ids[0]], Asked(changes, ids[1..], key);
      if later.None? && c.state == Draft && c.key == key then Some(Decode(c.newValue)) else later
  }

  lemma {:induction false} AskedIs(st: State, ids: seq<nat>, key: Key)
    requires AllBelow(|st.changes|, ids)
    ensures Asked(st.changes, ids, key) == None <==> forall i | 0 <= i < |ids| :: !WritesKey(st, ids, i, key)
    ensures forall i | 0 <= i < |ids| && WritesKey(st, ids, i, key)
                       && (forall j | i < j < |ids| :: !WritesKey(st, ids, j, key)) ::
              Asked(st.changes, ids, key) == Some(Decode(st.changes[ids[i]].newValue))
    decreases |ids|
  {
    if ids != [] {
      var rest := ids[1..];
      AskedIs(st, rest, key);
      forall i | 0 <= i < |rest| ensures WritesKey(st, rest, i, key) <==> WritesKey(st, ids, i + 1, key) {
      }
      forall i | 0 <= i < |ids| && WritesKey(st, ids, i, key)
                 && (forall j | i < j < |ids| :: !WritesKey(st, ids, j, key))
        ensures Asked(st.changes, ids, key) == Some(Decode(st.changes[ids[i]].newValue))
      {
        if i > 0 {
          assert WritesKey(st, rest, i - 1, key);
        }
      }
      if forall i | 0 <= i < |ids| :: !WritesKey(st, ids, i, key) {
        assert !WritesKey(st, ids, 0, key);
      }
    }
  }

  lemma {:induction false} SameAsked(a: seq<Change>, b: seq<Change>, ids: seq<nat>, key: Key)
    requires |a| == |b| && AllBelow(|a|, ids)
    requires forall k | 0 <= k < |a| :: b[k] == a[k].(oldValue := b[k].oldValue)
    ensures Asked(a, ids, key) == Asked(b, ids, key)
    decreases |ids|
  {
    if ids != [] {
      SameAsked(a, b, ids[1..], key);
    }
  }

  /** What the loop leaves of one field. */
  lemma {:induction false} ApplyFromWrites(sch: Schema, st: State, ids: seq<nat>, require_: bool, ok: seq<nat>,
      key: Key)
    requires AllBelow(|st.changes|, ids) && ApplyFrom(sch, st, ids, require_, ok).Ok?
    ensures var values := ApplyFrom(sch, st, ids, require_, ok).value.0.values;
            match Asked(st.changes, ids, key)
            case None => (key in values <==> key in st.values) && Get(values, key) == Get(st.values, key)
            case Some(v) => key in values && values[key] == v
    decreases |ids|
  {
    if ids != [] {
      if st.changes[ids[0]].state != Draft {
        ApplyFromWrites(sch, st, ids[1..], require_, ok, key);
      } else {
        var st1 := ApplyChange(sch, st, ids[0]);
        ApplyFromWrites(sch, st1, ids[1..], require_, ok + [ids[0]], key);
        SameAsked(st.changes, st1.changes, ids[1..], key);
      }
    }
  }

  /** Approving raises exactly without the rights, or else when it is to respect an older pending changeset. */
  lemma ApplySucceedsExactly(sch: Schema, st: State, ids: seq<nat>, rights: set<nat>, skip: bool, require_: bool)
    ensures Apply(sch, st, ids, rights, skip, require_) == Err(NoRights) <==>
            !AllEntitled(st.changes, ids, rights, skip)
    ensures AllEntitled(st.changes, ids, rights, skip) ==> AllBelow(|st.changes|, ids)
    ensures AllEntitled(st.changes, ids, rights, skip) ==>
            (Apply(sch, st, ids, rights, skip, require_) == Err(PreviousPending) <==> Blocked(st, ids, require_))
    ensures AllEntitled(st.changes, ids, rights, skip) ==>
            (Apply(sch, st, ids, rights, skip, require_).Ok? <==> !Blocked(st, ids, require_))
  {
    EntitledMayDecide(st.changes, ids, rights, skip);
    if AllEntitled(st.changes, ids, rights, skip) {
      assert forall i | 0 <= i < |ids| :: ids[i] < |st.changes|;
      ApplyFromExactly(sch, st, ids, require_, []);
    }
  }

  /** Exactly the pending changes of the list become done; they are written to the record, and nothing else is. */
  lemma ApplyDecides(sch: Schema, st: State, ids: seq<nat>, rights: set<nat>, skip: bool, require_: bool)
    requires Apply(sch, st, ids, rights, skip, require_).Ok?
    ensures AllBelow(|st.changes|, ids)
    ensures var st' := Apply(sch, st, ids, rights, skip, require_).value;
            var pending := PendingOf(st.changes, ids);
            && |st'.changes| == |st.changes|
            && (forall k | 0 <= k < |st.changes| :: st'.changes[k] ==
                  if k in pending then st.changes[k].(state := Done, oldValue := st'.changes[k].oldValue)
                  else st.changes[k])
            && st'.approved == st.approved + pending && st'.manual == st.manual + pending
            && st'.changesets == st.changesets && st'.clock == st.clock && st'.initial == st.initial
  {
    ApplySucceedsExactly(sch, st, ids, rights, skip, require_);
    ApplyFromCollects(sch, st, ids, require_, []);
    var (mid, ok) := ApplyFrom(sch, st, ids, require_, []).value;
    assert [] + PendingOf(st.changes, ids) == PendingOf(st.changes, ids);
    ApplyFromFacts(sch, st, ids, require_, []);
    forall k | 0 <= k < |st.changes|
      ensures SetState(mid.changes, ok, Done)[k] ==
              if k in ok then st.changes[k].(state := Done, oldValue := mid.changes[k].oldValue) else st.changes[k]
    {
      ApplyFromLeaves(sch, st, ids, require_, [], k);
      SetStateIs(mid.changes, ok, Done, k);
    }
  }

  /** A field without a pending change in the list stays; any other gets what the last of them asks for. */
  lemma ApplyWrites(sch: Schema, st: State, ids: seq<nat>, rights: set<nat>, skip: bool, require_: bool, key: Key)
    requires Apply(sch, st, ids, rights, skip, require_).Ok?
    ensures AllBelow(|st.changes|, ids)
    ensures var values := Apply(sch, st, ids, rights, skip, require_).value.values;
            && ((forall i | 0 <= i < |ids| :: !WritesKey(st, ids, i, key)) ==>
                  (key in values <==> key in st.values) && Get(values, key) == Get(st.values, key))
            && (forall i | 0 <= i < |ids| && WritesKey(st, ids, i, key)
                           && (forall j | i < j < |ids| :: !WritesKey(st, ids, j, key)) ::
                  key in values && values[key] == Decode(st.changes[ids[i]].newValue))
  {
    ApplySucceedsExactly(sch, st, ids, rights, skip, require_);
    ApplyFromWrites(sch, st, ids, require_, [], key);
    AskedIs(st, ids, key);
  }

  // ----- what is kept in a change -----

  /** A falsy value is kept as nothing, a many2one value as a reference to its model. */
  lemma EncodeExactly(t: FieldType, v: Value)
    ensures Encode(t, v) == NoValue <==> v == Falsy
    ensures Encode(t, v).Reference? <==> v != Falsy && t.Many2one?
    ensures Encode(t, v).Reference? ==> Encode(t, v).comodel == t.comodel
  {
  }

  // ----- what a write records -----

  /** The change that is recorded when a field that holds `current` is written under its rule. */
  ghost predicate Records(c: Change, set_: nat, key: Key, current: Value, v: Value, action: Action) {
    && c.changeset == set_ && c.key == key && Decode(c.newValue) == v
    && match action
       case Auto => c.state == Done && Decode(c.oldValue) == current
       case Validate => c.state == Draft && c.oldValue == NoValue
       case Never => c.state == Cancelled && Decode(c.oldValue) == current
  }

  ghost predicate UnderRule(rules: Rules, field: string) {
    field in rules && rules[field].applies
  }

  /** The values that a write would alter and that a rule applies to, in order. */
  ghost function Altered(values: Values, res: nat, vals: seq<(string, Value)>, rules: Rules): (r: seq<(string, Value)>)
    ensures forall x :: x in r <==> x in vals && UnderRule(rules, x.0) && Get(values, Key(res, x.0)) != x.1
    decreases |vals|
  {
    if vals == [] then []
    else
      var (f, v) := vals[0];
      (if UnderRule(rules, f) && Get(values, Key(res, f)) != v then [vals[0]] else [])
      + Altered(values, res, vals[1..], rules)
  }

  lemma {:induction false} SameAltered(a: Values, b: Values, res: nat, vals: seq<(string, Value)>, rules: Rules)
    requires forall i | 0 <= i < |vals| :: Get(a, Key(res, vals[i].0)) == Get(b, Key(res, vals[i].0))
    ensures Altered(a, res, vals, rules) == Altered(b, res, vals, rules)
    decreases |vals|
  {
    if vals != [] {
      assert Get(a, Key(res, vals[0].0)) == Get(b, Key(res, vals[0].0));
      forall i | 0 <= i < |vals[1..]| ensures Get(a, Key(res, vals[1..][i].0)) == Get(b, Key(res, vals[1..][i].0)) {
        assert vals[1..][i] == vals[i + 1];
      }
      SameAltered(a, b, res, vals[1..], rules);
    }
  }

  /** One change for each of these, in order, and those of automatic rules are approved at once. */
  ghost predicate Recorded(before: State, res: nat, asked: seq<(string, Value)>, rules: Rules, after: State) {
    && |after.changes| == |before.changes| + |asked| && before.changes <= after.changes
    && after.changesets == before.changesets && after.clock == before.clock && after.manual == before.manual
    && (forall k | 0 <= k < |asked| ::
          UnderRule(rules, asked[k].0) &&
          Records(after.changes[|before.changes| + k], |before.changesets|, Key(res, asked[k].0),
                  Get(before.values, Key(res, asked[k].0)), asked[k].1, rules[asked[k].0].action))
    && before.approved <= after.approved
    && (forall id: nat :: id in after.approved[|before.approved|..] <==>
          |before.changes| <= id < |after.changes| && after.changes[id].state == Done)
  }

  lemma RecordedOne(sch: Schema, st: State, res: nat, field: string, v: Value, rules: Rules)
    ensures var st1 := WriteField(sch, st, res, field, v, rules);
            Recorded(st, res, Altered(st.values, res, [(field, v)], rules), rules, st1)
    ensures Altered(st.values, res, [(field, v)], rules) ==
            if UnderRule(rules, field) && Get(st.values, Key(res, field)) != v then [(field, v)] else []
  {
    var key, t := Key(res, field), sch(field);
    DecodeEncode(t, v);
    DecodeEncode(t, Get(st.values, key));
    assert [(field, v)][1..] == [];
  }

  lemma RecordedMore(before: State, res: nat, a: seq<(string, Value)>, b: seq<(string, Value)>, rules: Rules,
      mid: State, after: State)
    requires Recorded(before, res, a, rules, mid) && Recorded(mid, res, b, rules, after)
    requires forall k | 0 <= k < |b| :: Get(mid.values, Key(res, b[k].0)) == Get(before.values, Key(res, b[k].0))
    ensures Recorded(before, res, a + b, rules, after)
  {
    var n, m := |before.changes|, |mid.changes|;
    forall k | 0 <= k < |a + b|
      ensures UnderRule(rules, (a + b)[k].0)
      ensures Records(after.changes[n + k], |before.changesets|, Key(res, (a + b)[k].0),
                      Get(before.values, Key(res, (a + b)[k].0)), (a + b)[k].1, rules[(a + b)[k].0].action)
    {
      if k < |a| {
        assert after.changes[n + k] == mid.changes[n + k];
      } else {
        assert (a + b)[k] == b[k - |a|] && n + k == m + (k - |a|);
      }
    }
    var p, q := |before.approved|, |mid.approved|;
    assert after.approved[p..] == mid.approved[p..] + after.approved[q..];
    forall id: nat
      ensures id in after.approved[p..] <==> n <= id < |after.changes| && after.changes[id].state == Done
    {
      assert n <= id < m ==> after.changes[id] == mid.changes[id];
    }
  }

  lemma {:induction false} FieldsRecorded(sch: Schema, st: State, res: nat, vals: seq<(string, Value)>, rules: Rules)
    requires IsDict(vals)
    ensures Recorded(st, res, Altered(st.values, res, vals, rules), rules, WriteFields(sch, st, res, vals, rules))
    decreases |vals|
  {
    if vals != [] {
      var (field, v) := vals[0];
      var rest, st1 := vals[1..], WriteField(sch, st, res, field, v, rules);
      RecordedOne(sch, st, res, field, v, rules);
      FieldsRecorded(sch, st1, res, rest, rules);
      forall i | 0 <= i < |rest| ensures Get(st1.values, Key(res, rest[i].0)) == Get(st.values, Key(res, rest[i].0)) {
        assert rest[i].0 == vals[i + 1].0 != field;
      }
      SameAltered(st.values, st1.values, res, rest, rules);
      var b := Altered(st.values, res, rest, rules);
      forall k | 0 <= k < |b| ensures Get(st1.values, Key(res, b[k].0)) == Get(st.values, Key(res, b[k].0)) {
        assert b[k] in rest;
      }
      RecordedMore(st, res, Altered(st.values, res, [vals[0]], rules), b, rules, st1,
                   WriteFields(sch, st, res, vals, rules));
    }
  }

  /** A write records one change for each altered value under a rule, and makes a changeset when there is one. */
  lemma WriteRecords(sch: Schema, st: State, res: nat, vals: seq<(string, Value)>, rules: Rules)
    requires IsDict(vals)
    ensures var asked, st' := Altered(st.values, res, vals, rules), Write(sch, st, res, vals, rules);
            && Recorded(st, res, asked, rules, st'.(changesets := st.changesets))
            && st'.changesets == if asked == [] then st.changesets else st.changesets + [Header(res, st.clock)]
  {
    FieldsRecorded(sch, st, res, vals, rules);
    var after := WriteFields(sch, st, res, vals, rules);
    assert |after.changes| == |st.changes| ==> after.changes == st.changes;
  }

  // ----- what a creation records -----

  /** The truthy values that a rule applies to, in order. */
  ghost function Given(vals: seq<(string, Value)>, rules: Rules): (r: seq<(string, Value)>)
    ensures forall x :: x in r <==> x in vals && UnderRule(rules, x.0) && x.1 != Falsy
    decreases |vals|
  {
    if vals == [] then []
    else (if UnderRule(rules, vals[0].0) && vals[0].1 != Falsy then [vals[0]] else []) + Given(vals[1..], rules)
  }

  /** The value a new record has for a field: a null value if the rule holds the given one back. */
  ghost function NewValue(rules: Rules, field: string, v: Value, null_: string -> Value): Value {
    if UnderRule(rules, field) && v != Falsy && rules[field].action != Auto then null_(field) else v
  }

  lemma {:induction false} CreatedValues(sch: Schema, st: State, res: nat, vals: seq<(string, Value)>, rules: Rules,
      null_: string -> Value)
    requires IsDict(vals)
    ensures var values := CreateFields(sch, st, res, vals, rules, null_).values;
            && (forall i | 0 <= i < |vals| ::
                  Key(res, vals[i].0) in values
                  && values[Key(res, vals[i].0)] == NewValue(rules, vals[i].0, vals[i].1, null_))
            && (forall key | (forall i | 0 <= i < |vals| :: key != Key(res, vals[i].0)) ::
                  (key in values <==> key in st.values) && Get(values, key) == Get(st.values, key))
    decreases |vals|
  {
    if vals != [] {
      var rest, st1 := vals[1..], CreateField(sch, st, res, vals[0].0, vals[0].1, rules, null_);
      var values := CreateFields(sch, st, res, vals, rules, null_).values;
      CreatedValues(sch, st1, res, rest, rules, null_);
      forall i | 0 <= i < |rest| ensures rest[i] == vals[i + 1] && rest[i].0 != vals[0].0 {
      }
      forall i | 0 <= i < |vals|
        ensures Key(res, vals[i].0) in values
        ensures values[Key(res, vals[i].0)] == NewValue(rules, vals[i].0, vals[i].1, null_)
      {
        if i > 0 {
          assert vals[i] == rest[i - 1];
        }
      }
    }
  }

  /** One change for each of the given values, in order; a record that did not exist has no old value. */
  ghost predicate Started(before: State, res: nat, given: seq<(string, Value)>, rules: Rules, after: State) {
    && |after.changes| == |before.changes| + |given| && before.changes <= after.changes
    && after.changesets == before.changesets && after.clock == before.clock
    && forall k | 0 <= k < |given| ::
         UnderRule(rules, given[k].0) &&
         Records(after.changes[|before.changes| + k], |before.changesets|, Key(res, given[k].0), Falsy, given[k].1,
                 rules[given[k].0].action)
  }

  lemma StartedOne(sch: Schema, st: State, res: nat, field: string, v: Value, rules: Rules, null_: string -> Value)
    ensures Started(st, res, Given([(field, v)], rules), rules, CreateField(sch, st, res, field, v, rules, null_))
  {
    DecodeEncode(sch(field), v);
    assert [(field, v)][1..] == [];
  }

  lemma StartedMore(before: State, res: nat, a: seq<(string, Value)>, b: seq<(string, Value)>, rules: Rules, mid: State,
      after: State)
    requires Started(before, res, a, rules, mid) && Started(mid, res, b, rules, after)
    ensures Started(before, res, a + b, rules, after)
  {
    var n := |before.changes|;
    forall k | 0 <= k < |a + b|
      ensures UnderRule(rules, (a + b)[k].0)
      ensures Records(after.changes[n + k], |before.changesets|, Key(res, (a + b)[k].0), Falsy, (a + b)[k].1,
                      rules[(a + b)[k].0].action)
    {
      if k < |a| {
        assert after.changes[n + k] == mid.changes[n + k];
      } else {
        assert (a + b)[k] == b[k - |a|] && n + k == |mid.changes| + (k - |a|);
      }
    }
  }

  lemma GivenCons(vals: seq<(string, Value)>, rules: Rules)
    requires vals != []
    ensures Given([(vals[0].0, vals[0].1)], rules) + Given(vals[1..], rules) == Given(vals, rules)
  {
    assert [vals[0]][1..] == [];
  }

  lemma {:induction false} FieldsStarted(sch: Schema, st: State, res: nat, vals: seq<(string, Value)>, rules: Rules,
      null_: string -> Value)
    ensures Started(st, res, Given(vals, rules), rules, CreateFields(sch, st, res, vals, rules, null_))
    decreases |vals|
  {
    if vals != [] {
      var st1 := CreateField(sch, st, res, vals[0].0, vals[0].1, rules, null_);
      StartedOne(sch, st, res, vals[0].0, vals[0].1, rules, null_);
      FieldsStarted(sch, st1, res, vals[1..], rules, null_);
      GivenCons(vals, rules);
      StartedMore(st, res, Given([(vals[0].0, vals[0].1)], rules), Given(vals[1..], rules), rules, st1,
                  CreateFields(sch, st, res, vals, rules, null_));
    }
  }

  /** A creation gives the record its values, held ones aside, and records one change for each value under a rule. */
  lemma CreateRecords(sch: Schema, st: State, res: nat, vals: seq<(string, Value)>, rules: Rules,
      null_: string -> Value)
    requires IsDict(vals)
    ensures var given, st' := Given(vals, rules), Create(sch, st, res, vals, rules, null_);
            && Started(st, res, given, rules, st'.(changesets := st.changesets))
            && st'.changesets == (if given == [] then st.changesets else st.changesets + [Header(res, st.clock)])
            && forall i | 0 <= i < |vals| ::
                 Get(st'.values, Key(res, vals[i].0)) == NewValue(rules, vals[i].0, vals[i].1, null_)
  {
    FieldsStarted(sch, st, res, vals, rules, null_);
    CreatedValues(sch, st, res, vals, rules, null_);
    var after := CreateFields(sch, st, res, vals, rules, null_);
    assert |after.changes| == |st.changes| ==> after.changes == st.changes;
  }
}
