/**
  `ast_dict_update` of base_view_inheritance_extension/models/ir_ui_view.py: the entries of a
  dictionary display are updated in place by those of another one.
*/
module ViewDict {
  import opened Sequences
  import opened Wrappers

  /** A constant key, or an expression, which is not compared with anything. */
  datatype Key = Constant(value: string) | Expression(code: string)

  datatype Entry = Entry(key: Key, value: string)

  predicate KeyEq(a: Key, b: Key) {
    a.Constant? && b.Constant? && a.value == b.value
  }

  /** The place of the first equal key, or the length. */
  function First(es: seq<Entry>, key: Key): (i: nat)
    ensures i <= |es|
    ensures i < |es| ==> KeyEq(key, es[i].key)
    ensures forall j :: 0 <= j < i ==> !KeyEq(key, es[j].key)
  {
    if es == [] || KeyEq(key, es[0].key) then 0 else 1 + First(es[1..], key)
  }

  function SetFirst(es: seq<Entry>, e: Entry): seq<Entry> {
    var i := First(es, e.key);
    if i < |es| then es[i := Entry(es[i].key, e.value)] else es
  }

  function SetAll(es: seq<Entry>, update: seq<Entry>): seq<Entry>
    decreases |update|
  {
    if update == [] then es else SetAll(SetFirst(es, update[0]), update[1..])
  }

  predicate Has(es: seq<Entry>, key: Key) {
    First(es, key) < |es|
  }

  function Missing(es: seq<Entry>, update: seq<Entry>): seq<Entry>
    decreases |update|
  {
    if update == [] then []
    else if Has(es, update[0].key) then Missing(es, update[1..])
    else [update[0]] + Missing(es, update[1..])
  }

  function Updated(source: seq<Entry>, update: seq<Entry>): seq<Entry> {
    SetAll(source, update) + Missing(source, update)
  }

  function Zip(keys: seq<Key>, values: seq<string>): (es: seq<Entry>)
    requires |keys| == |values|
    ensures |es| == |keys| && forall i :: 0 <= i < |es| ==> es[i] == Entry(keys[i], values[i])
  {
    seq(|keys|, i requires 0 <= i < |keys| => Entry(keys[i], values[i]))
  }

  /** The dictionary node, updated in place: two parallel lists. */
  class AstDict {
    var keys: seq<Key>
    var values: seq<string>

    ghost predicate Valid()
      reads this
    {
      |keys| == |values|
    }

    function Entries(): (es: seq<Entry>)
      reads this
      requires Valid()
    {
      Zip(keys, values)
    }

    constructor (keys: seq<Key>, values: seq<string>)
      requires |keys| == |values|
      ensures Valid() && this.keys == keys && this.values == values
    {
      this.keys, this.values := keys, values;
    }

    /** The inner loop, which stops at the first equal key. */
    method Replace(e: Entry) returns (found: bool)
      requires Valid()
      modifies this`values
      ensures Valid()
      ensures found == Has(old(Entries()), e.key)
      ensures Entries() == SetFirst(old(Entries()), e)
    {
      ghost var es := Entries();
      var i := 0;
      while i < |keys|
        invariant 0 <= i <= |keys| && Valid() && Entries() == es
        invariant forall j :: 0 <= j < i ==> !KeyEq(e.key, keys[j])
      {
        if KeyEq(e.key, keys[i]) {
          FirstIs(es, e.key, i);
          values := values[i := e.value];
          return true;
        }
        i := i + 1;
      }
      FirstIs(es, e.key, |es|);
      found := false;
    }

    /** The outer loop; the entries that were not found are kept for later. */
    method ReplaceAll(update: AstDict) returns (toAdd: seq<nat>)
      requires Valid() && update.Valid() && update != this
      modifies this`values
      ensures Valid() && Entries() == SetAll(old(Entries()), update.Entries())
      ensures forall i :: 0 <= i < |toAdd| ==> toAdd[i] < |update.Entries()|
      ensures Picked(update.Entries(), toAdd) == Missing(old(Entries()), update.Entries())
    {
      ghost var source, us := Entries(), update.Entries();
      toAdd := [];
      var i := 0;
      while i < |update.keys|
        invariant 0 <= i <= |update.keys| == |us| && Valid() && update.Valid() && update.Entries() == us
        invariant SetAll(Entries(), us[i..]) == SetAll(source, us)
        invariant forall k :: 0 <= k < |toAdd| ==> toAdd[k] < |us|
        invariant Picked(us, toAdd) + Missing(source, us[i..]) == Missing(source, us)
      {
        assert us[i] == Entry(update.keys[i], update.values[i]);
        Unfold(Entries(), source, us, i);
        SameKeysSameFirst(keys, values, old(values), us[i].key);
        var found := Replace(Entry(update.keys[i], update.values[i]));
        if !found {
          PickedSnoc(us, toAdd, i, Missing(source, us[i + 1..]));
          toAdd := toAdd + [i];
        }
        i := i + 1;
      }
      assert us[i..] == [];
    }

    method Append(update: AstDict, toAdd: seq<nat>)
      requires Valid() && update.Valid() && update != this
      requires forall i :: 0 <= i < |toAdd| ==> toAdd[i] < |update.keys|
      modifies this
      ensures Valid() && Entries() == old(Entries()) + Picked(update.Entries(), toAdd)
    {
      ghost var base, us := Entries(), update.Entries();
      var i := 0;
      while i < |toAdd|
        invariant 0 <= i <= |toAdd| && Valid() && update.Valid() && update.Entries() == us
        invariant Entries() == base + Picked(us, toAdd[..i])
      {
        var u := toAdd[i];
        assert us[u] == Entry(update.keys[u], update.values[u]);
        keys, values := keys + [update.keys[u]], values + [update.values[u]];
        assert Entries() == base + Picked(us, toAdd[..i]) + [us[u]];
        assert toAdd[..i + 1][..i] == toAdd[..i];
        Regroup(base, Picked(us, toAdd[..i]), [us[u]]);
        i := i + 1;
      }
      assert toAdd[..|toAdd|] == toAdd;
    }

    method Update(update: AstDict)
      requires Valid() && update.Valid() && update != this
      modifies this
      ensures Valid() && Entries() == Updated(old(Entries()), update.Entries())
    {
      var toAdd := ReplaceAll(update);
      Append(update, toAdd);
    }
  }

  function Picked(es: seq<Entry>, indices: seq<nat>): seq<Entry>
    requires forall i :: 0 <= i < |indices| ==> indices[i] < |es|
    decreases |indices|
  {
    if indices == [] then []
    else Picked(es, indices[..|indices| - 1]) + [es[indices[|indices| - 1]]]
  }

  lemma PickedSnoc(es: seq<Entry>, indices: seq<nat>, i: nat, rest: seq<Entry>)
    requires i < |es| && forall j :: 0 <= j < |indices| ==> indices[j] < |es|
    ensures Picked(es, indices + [i]) + rest == Picked(es, indices) + ([es[i]] + rest)
  {
    assert (indices + [i])[..|indices|] == indices;
    Regroup(Picked(es, indices), [es[i]], rest);
  }

  lemma Unfold(es: seq<Entry>, source: seq<Entry>, us: seq<Entry>, i: nat)
    requires i < |us|
    ensures SetAll(es, us[i..]) == SetAll(SetFirst(es, us[i]), us[i + 1..])
    ensures Missing(source, us[i..]) ==
            if Has(source, us[i].key) then Missing(source, us[i + 1..]) else [us[i]] + Missing(source, us[i + 1..])
  {
    assert us[i..][1..] == us[i + 1..];
  }

  lemma {:induction false} FirstIs(es: seq<Entry>, key: Key, i: nat)
    requires i <= |es| && (i < |es| ==> KeyEq(key, es[i].key))
    requires forall j :: 0 <= j < i ==> !KeyEq(key, es[j].key)
    ensures First(es, key) == i
  {
  }

  lemma SameKeysSameFirst(keys: seq<Key>, a: seq<string>, b: seq<string>, key: Key)
    requires |keys| == |a| == |b|
    ensures First(Zip(keys, a), key) == First(Zip(keys, b), key)
  {
    FirstIs(Zip(keys, b), key, First(Zip(keys, a), key));
  }

  // ----- the dictionary a display denotes -----

  /** The value of a constant key: of equal keys the last one counts. */
  function Lookup(es: seq<Entry>, k: string): Option<string>
    decreases |es|
  {
    if es == [] then None
    else if Lookup(es[1..], k).Some? then Lookup(es[1..], k)
    else if es[0].key == Constant(k) then Some(es[0].value)
    else None
  }

  function Count(es: seq<Entry>, k: string): nat
    decreases |es|
  {
    if es == [] then 0 else (if es[0].key == Constant(k) then 1 else 0) + Count(es[1..], k)
  }

  lemma {:induction false} LookupConcat(a: seq<Entry>, b: seq<Entry>, k: string)
    ensures Lookup(a + b, k) == if Lookup(b, k).Some? then Lookup(b, k) else Lookup(a, k)
    decreases |a|
  {
    if a == [] {
      assert a + b == b;
    } else {
      assert (a + b)[1..] == a[1..] + b;
      LookupConcat(a[1..], b, k);
    }
  }

  lemma {:induction false} CountsAgree(es: seq<Entry>, k: string)
    ensures Lookup(es, k).Some? <==> Count(es, k) > 0
    ensures Has(es, Constant(k)) <==> Count(es, k) > 0
    decreases |es|
  {
    if es == [] {
    } else {
      CountsAgree(es[1..], k);
    }
  }

  /** Replacing the first value of a key shows only if there is no other one. */
  lemma {:induction false} SetFirstMeans(es: seq<Entry>, e: Entry, k: string)
    ensures Count(SetFirst(es, e), k) == Count(es, k)
    ensures Lookup(SetFirst(es, e), k) ==
            if e.key == Constant(k) && Count(es, k) == 1 then Some(e.value) else Lookup(es, k)
    decreases |es|
  {
    if es == [] {
    } else if KeyEq(e.key, es[0].key) {
      assert SetFirst(es, e)[1..] == es[1..];
      CountsAgree(es[1..], k);
    } else {
      SetFirstMeans(es[1..], e, k);
      assert SetFirst(es, e) == [es[0]] + SetFirst(es[1..], e);
      assert SetFirst(es, e)[1..] == SetFirst(es[1..], e);
      CountsAgree(es[1..], k);
    }
  }

  lemma {:induction false} SetAllMeans(es: seq<Entry>, update: seq<Entry>, k: string)
    ensures Lookup(SetAll(es, update), k) ==
            if Lookup(update, k).Some? && Count(es, k) == 1 then Lookup(update, k) else Lookup(es, k)
    decreases |update|
  {
    if update == [] {
    } else {
      SetFirstMeans(es, update[0], k);
      SetAllMeans(SetFirst(es, update[0]), update[1..], k);
    }
  }

  lemma {:induction false} MissingMeans(es: seq<Entry>, update: seq<Entry>, k: string)
    ensures Lookup(Missing(es, update), k) == if Count(es, k) > 0 then None else Lookup(update, k)
    decreases |update|
  {
    if update == [] {
    } else {
      MissingMeans(es, update[1..], k);
      CountsAgree(es, k);
      if !Has(es, update[0].key) {
        assert [update[0]][1..] == [];
        LookupConcat([update[0]], Missing(es, update[1..]), k);
      }
    }
  }

  /** What `dict.update` gives for a key. */
  function Merged(source: seq<Entry>, update: seq<Entry>, k: string): Option<string> {
    if Lookup(update, k).Some? then Lookup(update, k) else Lookup(source, k)
  }

  predicate MeansUpdate(source: seq<Entry>, update: seq<Entry>, k: string) {
    Lookup(Updated(source, update), k) == Merged(source, update, k)
  }

  /** The update does not change the value of a key that occurs several times. */
  predicate SparesRepeated(source: seq<Entry>, update: seq<Entry>, k: string) {
    Lookup(update, k).Some? && Count(source, k) > 1 ==> Lookup(update, k) == Lookup(source, k)
  }

  lemma KeyMeansUpdate(source: seq<Entry>, update: seq<Entry>, k: string)
    ensures MeansUpdate(source, update, k) <==> SparesRepeated(source, update, k)
  {
    LookupConcat(SetAll(source, update), Missing(source, update), k);
    SetAllMeans(source, update, k);
    MissingMeans(source, update, k);
    CountsAgree(source, k);
  }

  /**
    The updated display denotes the updated dictionary exactly when no key that occurs several times
    in the source is given another value.
  */
  lemma UpdateMeansExactly(source: seq<Entry>, update: seq<Entry>)
    ensures (forall k :: MeansUpdate(source, update, k)) <==> (forall k :: SparesRepeated(source, update, k))
  {
    forall k ensures MeansUpdate(source, update, k) <==> SparesRepeated(source, update, k) {
      KeyMeansUpdate(source, update, k);
    }
  }

  /** The smallest failure: the first of two equal keys is replaced, and the last one still counts. */
  lemma RepeatedKeyKeepsOldValue(k: string)
    ensures var a := Constant(k);
            var source, update := [Entry(a, "1"), Entry(a, "2")], [Entry(a, "3")];
            && Updated(source, update) == [Entry(a, "3"), Entry(a, "2")]
            && Lookup(Updated(source, update), k) == Some("2")
            && !MeansUpdate(source, update, k)
  {
    var a := Constant(k);
    var source, update := [Entry(a, "1"), Entry(a, "2")], [Entry(a, "3")];
    assert update[1..] == [];
    assert SetFirst(source, update[0]) == [Entry(a, "3"), Entry(a, "2")];
    assert SetAll(source, update) == SetAll(SetFirst(source, update[0]), []);
    assert Missing(source, update) == [];
    assert [Entry(a, "3"), Entry(a, "2")] + [] == [Entry(a, "3"), Entry(a, "2")];
    assert [Entry(a, "3"), Entry(a, "2")][1..] == [Entry(a, "2")] && [Entry(a, "2")][1..] == [];
    assert Lookup([Entry(a, "2")], k) == Some("2");
    assert Lookup(update, k) == Some("3");
  }
}
