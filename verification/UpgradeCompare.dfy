/**
  Comparison of two database layouts (upgrade_analysis/compare.py): the matching passes over
  field records and over XML records.  Records are values, so Python's `list.remove`, which
  compares dictionaries by content, is `Matching.Remove`.
*/
module UpgradeCompare {
  import opened Wrappers
  import opened Matching

  /** `addon` is the "module" key; keys other than these three are looked up in `attrs`. */
  datatype Rec = Rec(addon: string, model: string, prefix: string, attrs: map<string, string>) {
    function Get(key: string): Option<string> {
      if key == "module" then Some(addon)
      else if key == "model" then Some(model)
      else if key == "prefix" then Some(prefix)
      else if key in attrs then Some(attrs[key])
      else None
    }

    predicate Truthy(key: string) {
      Get(key).Some? && Get(key) != Some("")
    }
  }

  /** The rename knowledge shipped by the migration scripts. */
  datatype Apriori = Apriori(renamedModules: map<string, string>, mergedModules: map<string, string>,
                             renamedModels: map<string, string>, mergedModels: map<string, string>)

  function Lookup(m: map<string, string>, key: string, default: string): string {
    if key in m then m[key] else default
  }

  function ModuleMap(ap: Apriori, addon: string): string {
    Lookup(ap.renamedModules, addon, Lookup(ap.mergedModules, addon, addon))
  }

  function ModelRenameMap(ap: Apriori, model: string): string {
    Lookup(ap.renamedModels, model, model)
  }

  function ModelMap(ap: Apriori, model: string): string {
    Lookup(ap.renamedModels, model, Lookup(ap.mergedModels, model, model))
  }

  // ----- comparing two records -----

  predicate Agrees(ap: Apriori, o: Rec, n: Rec, field: string) {
    if field == "module" then ModuleMap(ap, o.addon) == n.addon
    else if field == "model" then ModelRenameMap(ap, o.model) == n.model
    else if field == "other_prefix" then
      o.addon == o.prefix && n.addon == n.prefix && o.model != "ir.ui.view"
    else o.Get(field) == n.Get(field)
  }

  predicate CompareRecords(ap: Apriori, o: Rec, n: Rec, fields: seq<string>) {
    forall i | 0 <= i < |fields| :: Agrees(ap, o, n, fields[i])
  }

  /** First loop of `search`: the first record of the list that compares equal. */
  function SearchList(ap: Apriori, item: Rec, items: seq<Rec>, fields: seq<string>): Option<Rec> {
    if items == [] then None
    else if CompareRecords(ap, item, items[0], fields) then Some(items[0])
    else SearchList(ap, item, items[1..], fields)
  }

  /** The guard of the second loop of `search`, which skips a candidate unless this holds. */
  predicate RenameAllowed(item: Rec) {
    !(!item.Truthy("field") || item.Get("field").Some? || item.Truthy("isproperty"))
  }

  function WithFieldOf(item: Rec, other: Rec): Rec {
    match other.Get("field")
    case Some(v) => item.(attrs := item.attrs["field" := v])
    case None => item.(attrs := item.attrs - {"field"})
  }

  /** Second loop of `search`, meant to find renamed fields. */
  function SearchRenamed(ap: Apriori, item: Rec, items: seq<Rec>, fields: seq<string>): Option<Rec> {
    if items == [] then None
    else
      var other, rest := items[0], items[1..];
      var later := SearchRenamed(ap, item, rest, fields);
      if RenameAllowed(item) && CompareRecords(ap, WithFieldOf(item, other), other, fields) then Some(other)
      else later
  }

  function Search(ap: Apriori, item: Rec, items: seq<Rec>, fields: seq<string>): Option<Rec> {
    var direct := SearchList(ap, item, items, fields);
    if direct.Some? then direct
    else if "field" in fields then SearchRenamed(ap, item, items, fields)
    else None
  }

  // ----- comparison as equality of keys -----

  predicate Eligible(r: Rec, fields: seq<string>) {
    "other_prefix" in fields ==> r.addon == r.prefix
  }

  function OldPart(ap: Apriori, r: Rec, field: string): Option<string> {
    if field == "module" then Some(ModuleMap(ap, r.addon))
    else if field == "model" then Some(ModelRenameMap(ap, r.model))
    else if field == "other_prefix" then None
    else r.Get(field)
  }

  function NewPart(r: Rec, field: string): Option<string> {
    if field == "other_prefix" then None else r.Get(field)
  }

  function OldKey(ap: Apriori, fields: seq<string>): Rec -> Option<seq<Option<string>>> {
    (r: Rec) =>
      if Eligible(r, fields) && ("other_prefix" in fields ==> r.model != "ir.ui.view")
      then Some(seq(|fields|, i requires 0 <= i < |fields| => OldPart(ap, r, fields[i])))
      else None
  }

  function NewKey(fields: seq<string>): Rec -> Option<seq<Option<string>>> {
    (r: Rec) =>
      if Eligible(r, fields)
      then Some(seq(|fields|, i requires 0 <= i < |fields| => NewPart(r, fields[i])))
      else None
  }

  /** Comparing modulo the rename maps is equality of a key of the old and one of the new record. */
  lemma CompareIsKeyEquality(ap: Apriori, o: Rec, n: Rec, fields: seq<string>)
    ensures CompareRecords(ap, o, n, fields) <==> Fits(OldKey(ap, fields), NewKey(fields), o, n)
  {
    var f, g := OldKey(ap, fields), NewKey(fields);
    if CompareRecords(ap, o, n, fields) {
      forall i | 0 <= i < |fields| ensures OldPart(ap, o, fields[i]) == NewPart(n, fields[i]) {
        assert Agrees(ap, o, n, fields[i]);
      }
      if "other_prefix" in fields {
        var i :| 0 <= i < |fields| && fields[i] == "other_prefix";
        assert Agrees(ap, o, n, fields[i]);
      }
      assert f(o).value == g(n).value;
    } else if Fits(f, g, o, n) {
      forall i | 0 <= i < |fields| ensures Agrees(ap, o, n, fields[i]) {
        assert f(o).value[i] == g(n).value[i];
      }
    }
  }

  // ----- what the comparison means, in terms of the records and the rename tables -----

  /** A list of keys is compared key by key. */
  lemma ComparesEachKey(ap: Apriori, o: Rec, n: Rec, fields: seq<string>)
    ensures CompareRecords(ap, o, n, fields) <==> forall f :: f in fields ==> CompareRecords(ap, o, n, [f])
  {
    if forall f :: f in fields ==> CompareRecords(ap, o, n, [f]) {
      forall i | 0 <= i < |fields| ensures Agrees(ap, o, n, fields[i]) {
        assert CompareRecords(ap, o, n, [fields[i]]);
        assert Agrees(ap, o, n, [fields[i]][0]);
      }
    }
  }

  /** A renamed module must have its new name, else a merged one the name it was merged into, else its own. */
  lemma ModulesMatchExactly(ap: Apriori, o: Rec, n: Rec)
    ensures CompareRecords(ap, o, n, ["module"]) <==>
            if o.addon in ap.renamedModules then n.addon == ap.renamedModules[o.addon]
            else if o.addon in ap.mergedModules then n.addon == ap.mergedModules[o.addon]
            else n.addon == o.addon
  {
    assert CompareRecords(ap, o, n, ["module"]) <==> Agrees(ap, o, n, ["module"][0]);
  }

  /** A renamed model must have its new name; a merged one keeps its own here. */
  lemma ModelsMatchExactly(ap: Apriori, o: Rec, n: Rec)
    ensures CompareRecords(ap, o, n, ["model"]) <==>
            if o.model in ap.renamedModels then n.model == ap.renamedModels[o.model] else n.model == o.model
  {
    assert CompareRecords(ap, o, n, ["model"]) <==> Agrees(ap, o, n, ["model"][0]);
  }

  /** Both modules are the prefixes of the identifiers, and the record is no view. */
  lemma OtherPrefixMatchesExactly(ap: Apriori, o: Rec, n: Rec)
    ensures CompareRecords(ap, o, n, ["other_prefix"]) <==>
            o.addon == o.prefix && n.addon == n.prefix && o.model != "ir.ui.view"
  {
    assert CompareRecords(ap, o, n, ["other_prefix"]) <==> Agrees(ap, o, n, ["other_prefix"][0]);
  }

  /** Any other key must have the same value in both records. */
  lemma OtherKeysMatchExactly(ap: Apriori, o: Rec, n: Rec, key: string)
    requires key !in {"module", "model", "other_prefix"}
    ensures CompareRecords(ap, o, n, [key]) <==>
            if key == "prefix" then o.prefix == n.prefix
            else if key in o.attrs && key in n.attrs then o.attrs[key] == n.attrs[key]
            else key !in o.attrs && key !in n.attrs
  {
    assert CompareRecords(ap, o, n, [key]) <==> Agrees(ap, o, n, [key][0]);
  }

  lemma {:induction false} RenamedSearchNeverFires(ap: Apriori, item: Rec, items: seq<Rec>, fields: seq<string>)
    ensures SearchRenamed(ap, item, items, fields) == None
  {
    if items != [] {
      RenamedSearchNeverFires(ap, item, items[1..], fields);
    }
  }

  /** `search` finds the first record with the right key, and nothing else. */
  lemma SearchIsFirstFit(ap: Apriori, item: Rec, items: seq<Rec>, fields: seq<string>)
    ensures Search(ap, item, items, fields) == FirstFit(OldKey(ap, fields), NewKey(fields), item, items)
  {
    RenamedSearchNeverFires(ap, item, items, fields);
    SearchListIsFirstFit(ap, item, items, fields);
  }

  lemma {:induction false} SearchListIsFirstFit(ap: Apriori, item: Rec, items: seq<Rec>, fields: seq<string>)
    ensures SearchList(ap, item, items, fields) == FirstFit(OldKey(ap, fields), NewKey(fields), item, items)
  {
    if items != [] {
      CompareIsKeyEquality(ap, item, items[0], fields);
      SearchListIsFirstFit(ap, item, items[1..], fields);
    }
  }

  // ----- field records -----

  const IGNORE_FIELDS: set<string> := {"create_date", "create_uid", "id", "write_date", "write_uid"}
  const SAME_MODULE: seq<string> := ["module", "mode", "model", "field"]
  const SAME_TYPE: seq<string> := ["mode", "model", "field", "type"]

  /** A field is the same in the same module, or the same with the same type in any module. */
  lemma PassesCompare(ap: Apriori, o: Rec, n: Rec)
    ensures CompareRecords(ap, o, n, SAME_MODULE) <==>
            && CompareRecords(ap, o, n, ["module"]) && CompareRecords(ap, o, n, ["model"])
            && CompareRecords(ap, o, n, ["mode"]) && CompareRecords(ap, o, n, ["field"])
    ensures CompareRecords(ap, o, n, SAME_TYPE) <==>
            && CompareRecords(ap, o, n, ["model"]) && CompareRecords(ap, o, n, ["mode"])
            && CompareRecords(ap, o, n, ["field"]) && CompareRecords(ap, o, n, ["type"])
  {
    ComparesEachKey(ap, o, n, SAME_MODULE);
    ComparesEachKey(ap, o, n, SAME_TYPE);
  }

  /** The items of `s` for which `p` is `keep`, in order. */
  function Filter<T>(s: seq<T>, p: T -> bool, keep: bool): seq<T> {
    if s == [] then []
    else if p(s[0]) == keep then [s[0]] + Filter(s[1..], p, keep)
    else Filter(s[1..], p, keep)
  }

  lemma {:induction false} FilterSplits<T>(s: seq<T>, p: T -> bool)
    ensures multiset(s) == multiset(Filter(s, p, true)) + multiset(Filter(s, p, false))
  {
    if s != [] {
      assert s == [s[0]] + s[1..];
      FilterSplits(s[1..], p);
    }
  }

  lemma {:induction false} FilterHas<T>(s: seq<T>, p: T -> bool, keep: bool, x: T)
    ensures x in Filter(s, p, keep) <==> x in s && p(x) == keep
  {
    if s != [] {
      assert x in s <==> x == s[0] || x in s[1..];
      FilterHas(s[1..], p, keep, x);
    }
  }

  predicate Tracked(r: Rec) {
    match r.Get("field") case Some(f) => f !in IGNORE_FIELDS case None => true
  }

  function CleanRecords(s: seq<Rec>): seq<Rec> {
    Filter(s, Tracked, true)
  }

  /** Only records of the five technical fields are dropped. */
  lemma CleanedExactly(s: seq<Rec>, r: Rec)
    ensures r in CleanRecords(s) <==>
            r in s && !("field" in r.attrs &&
                        r.attrs["field"] in {"create_date", "create_uid", "id", "write_date", "write_uid"})
  {
    FilterHas(s, Tracked, true, r);
  }

  function Models(s: seq<Rec>): set<string> {
    set r | r in s :: r.model
  }

  /** A model with no counterpart, neither under its own name nor renamed nor merged. */
  predicate Obsolete(ap: Apriori, news: seq<Rec>, r: Rec) {
    r.model !in Models(news) && ModelMap(ap, r.model) !in Models(news)
  }

  /** A record is obsolete when no new record has its model, nor the name it was renamed to or else merged into. */
  lemma ObsoleteExactly(ap: Apriori, news: seq<Rec>, r: Rec)
    ensures Obsolete(ap, news, r) <==>
            && (forall n :: n in news ==> n.model != r.model)
            && (r.model in ap.renamedModels ==> forall n :: n in news ==> n.model != ap.renamedModels[r.model])
            && (r.model !in ap.renamedModels && r.model in ap.mergedModels ==>
                  forall n :: n in news ==> n.model != ap.mergedModels[r.model])
  {
    assert forall m :: m in Models(news) <==> exists n :: n in news && n.model == m;
  }

  /** Skipping obsolete models loses nothing: such a record fits no new record anyway. */
  lemma ObsoleteFitsNothing(ap: Apriori, news: seq<Rec>, o: Rec, n: Rec, fields: seq<string>)
    requires Obsolete(ap, news, o) && n in news && "model" in fields
    ensures !CompareRecords(ap, o, n, fields)
  {
    assert n.model in Models(news);
    var i :| 0 <= i < |fields| && fields[i] == "model";
    assert !Agrees(ap, o, n, fields[i]);
  }

  function ObsoleteIn(ap: Apriori, news: seq<Rec>): Rec -> bool {
    (r: Rec) => Obsolete(ap, news, r)
  }

  /** The cleaned old records whose model still exists. */
  function Live(ap: Apriori, olds: seq<Rec>, news: seq<Rec>): seq<Rec> {
    Filter(CleanRecords(olds), ObsoleteIn(ap, CleanRecords(news)), false)
  }

  /** The cleaned old records whose model is gone. */
  function Gone(ap: Apriori, olds: seq<Rec>, news: seq<Rec>): seq<Rec> {
    Filter(CleanRecords(olds), ObsoleteIn(ap, CleanRecords(news)), true)
  }

  /** The numbers of the "general" section of the report. */
  datatype Stats = Stats(fieldsMatched: int, direct: nat, otherModule: nat, otherType: nat,
                         inObsoleteModels: nat, notMatched: nat, newColumns: nat)

  /** The three lists of `compare_sets` and the pairs reported by its `match` closure. */
  class FieldComparison {
    const ap: Apriori
    var oldRecords: seq<Rec>
    var nonObsolete: seq<Rec>
    var newRecords: seq<Rec>
    var pairs: seq<(Rec, Rec)>
    ghost const obsolete: multiset<Rec>

    ghost predicate Valid()
      reads this
    {
      multiset(oldRecords) == multiset(nonObsolete) + obsolete
    }

    function State(): Lists<Rec, Rec>
      reads this
    {
      Lists(nonObsolete, newRecords, pairs)
    }

    constructor (ap: Apriori, olds: seq<Rec>, news: seq<Rec>)
      ensures Valid() && this.ap == ap && pairs == []
      ensures oldRecords == CleanRecords(olds) && newRecords == CleanRecords(news)
      ensures nonObsolete == Live(ap, olds, news) && obsolete == multiset(Gone(ap, olds, news))
      ensures |nonObsolete| <= |oldRecords|
    {
      this.ap := ap;
      oldRecords, newRecords := CleanRecords(olds), CleanRecords(news);
      nonObsolete := Live(ap, olds, news);
      obsolete := multiset(Gone(ap, olds, news));
      pairs := [];
      FilterSplits(CleanRecords(olds), ObsoleteIn(ap, CleanRecords(news)));
    }

    method Take(column: Rec, found: Rec)
      requires Valid() && column in nonObsolete && found in newRecords
      modifies this`oldRecords, this`nonObsolete, this`newRecords, this`pairs
      ensures Valid()
      ensures State() ==
              Lists(Remove(old(nonObsolete), column), Remove(old(newRecords), found), old(pairs) + [(column, found)])
    {
      assert column in multiset(oldRecords);
      oldRecords := Remove(oldRecords, column);
      nonObsolete := Remove(nonObsolete, column);
      newRecords := Remove(newRecords, found);
      pairs := pairs + [(column, found)];
    }

    /** The `match` closure: a pass over a copy of the non-obsolete records. */
    method Match(fields: seq<string>) returns (count: nat)
      requires Valid()
      modifies this`oldRecords, this`nonObsolete, this`newRecords, this`pairs
      ensures Valid()
      ensures State() == Pass(OldKey(ap, fields), NewKey(fields), old(nonObsolete), old(State()))
      ensures count == |pairs| - |old(pairs)|
    {
      var copy := nonObsolete;
      ghost var f, g := OldKey(ap, fields), NewKey(fields);
      count := 0;
      assert copy[0..] == copy;
      for i := 0 to |copy|
        invariant Valid() && multiset(copy[i..]) <= multiset(nonObsolete)
        invariant Pass(f, g, copy[i..], State()) == Pass(f, g, copy, old(State()))
        invariant count == |pairs| - |old(pairs)|
      {
        var column := copy[i];
        assert copy[i..][0] == column && copy[i..][1..] == copy[i + 1..];
        StepKeepsTodo(f, g, copy[i..], State());
        SearchIsFirstFit(ap, column, newRecords, fields);
        var found := Search(ap, column, newRecords, fields);
        if found.Some? {
          Take(column, found.value);
          count := count + 1;
        }
      }
    }
  }

  /** The outcome of `match` with these fields. */
  ghost function PassBy(ap: Apriori, fields: seq<string>, ls: Lists<Rec, Rec>): Lists<Rec, Rec> {
    Pass(OldKey(ap, fields), NewKey(fields), ls.olds, ls)
  }

  /** Number of matches of a maximum matching under `fields`. */
  ghost function SharedKeys(ap: Apriori, fields: seq<string>, olds: seq<Rec>, news: seq<Rec>): nat {
    |Keys(OldKey(ap, fields), olds) * Keys(NewKey(fields), news)|
  }

  /** No old record compares equal to a new one. */
  ghost predicate Unmatchable(ap: Apriori, fields: seq<string>, olds: seq<Rec>, news: seq<Rec>) {
    forall o, n | o in olds && n in news :: !CompareRecords(ap, o, n, fields)
  }

  /** `match` is optimal: no other way to pair off records that compare equal gives more pairs. */
  lemma MatchIsMaximum(ap: Apriori, fields: seq<string>, ls: Lists<Rec, Rec>, other: seq<(Rec, Rec)>)
    requires ls.pairs == []
    requires forall p :: p in other ==> CompareRecords(ap, p.0, p.1, fields)
    requires multiset(Firsts(other)) <= multiset(ls.olds) && multiset(Seconds(other)) <= multiset(ls.news)
    ensures |other| <= |PassBy(ap, fields, ls).pairs| == SharedKeys(ap, fields, ls.olds, ls.news)
  {
    forall p | p in other ensures Fits(OldKey(ap, fields), NewKey(fields), p.0, p.1) {
      CompareIsKeyEquality(ap, p.0, p.1, fields);
    }
    PassTakesSharedKeys(OldKey(ap, fields), NewKey(fields), ls.olds, ls);
    PassIsMaximum(OldKey(ap, fields), NewKey(fields), ls, other);
  }

  /** The number of matches does not depend on the order of the records. */
  lemma MatchIgnoresOrder(ap: Apriori, fields: seq<string>, ls: Lists<Rec, Rec>, ls': Lists<Rec, Rec>)
    requires multiset(ls.olds) == multiset(ls'.olds) && multiset(ls.news) == multiset(ls'.news)
    requires |ls.pairs| == |ls'.pairs|
    ensures |PassBy(ap, fields, ls).pairs| == |PassBy(ap, fields, ls').pairs|
  {
    PassIgnoresOrder(OldKey(ap, fields), NewKey(fields), ls, ls');
  }

  lemma PassLeavesUnmatchable(ap: Apriori, fields: seq<string>, ls: Lists<Rec, Rec>)
    ensures var r := PassBy(ap, fields, ls); Unmatchable(ap, fields, r.olds, r.news)
  {
    var f, g := OldKey(ap, fields), NewKey(fields);
    var r := Pass(f, g, ls.olds, ls);
    forall o, n | o in r.olds && n in r.news ensures !CompareRecords(ap, o, n, fields) {
      NoPairLeft(f, g, ls, o, n);
      CompareIsKeyEquality(ap, o, n, fields);
    }
  }

  /** With nothing to match a pass changes nothing. */
  lemma {:induction false} PassOfUnmatchable(ap: Apriori, fields: seq<string>, todo: seq<Rec>, ls: Lists<Rec, Rec>)
    requires multiset(todo) <= multiset(ls.olds)
    requires Unmatchable(ap, fields, ls.olds, ls.news)
    ensures Pass(OldKey(ap, fields), NewKey(fields), todo, ls) == ls
    decreases |todo|
  {
    if todo != [] {
      var f, g := OldKey(ap, fields), NewKey(fields);
      StepKeepsTodo(f, g, todo, ls);
      var fit := FirstFit(f, g, todo[0], ls.news);
      if fit.Some? {
        CompareIsKeyEquality(ap, todo[0], fit.value, fields);
        assert false;
      }
      PassOfUnmatchable(ap, fields, todo[1..], ls);
    }
  }

  /** Unmatchable lists stay so when records are taken out of them. */
  lemma UnmatchableShrinks(ap: Apriori, fields: seq<string>, using: seq<string>, ls: Lists<Rec, Rec>,
      r: Lists<Rec, Rec>)
    requires Unmatchable(ap, fields, ls.olds, ls.news)
    requires Moves(OldKey(ap, using), NewKey(using), ls, r)
    ensures Unmatchable(ap, fields, r.olds, r.news)
  {
    forall o, n | o in r.olds && n in r.news ensures !CompareRecords(ap, o, n, fields) {
      assert o in multiset(ls.olds) && n in multiset(ls.news);
    }
  }

  lemma ObsoleteStaysUnmatchable(ap: Apriori, fields: seq<string>, olds: seq<Rec>, news: seq<Rec>, end: Lists<Rec, Rec>,
      leftOld: seq<Rec>)
    requires Unmatchable(ap, fields, end.olds, end.news) && "model" in fields
    requires multiset(leftOld) == multiset(end.olds) + multiset(Gone(ap, olds, news))
    requires multiset(end.news) <= multiset(CleanRecords(news))
    ensures Unmatchable(ap, fields, leftOld, end.news)
  {
    forall o, n | o in leftOld && n in end.news ensures !CompareRecords(ap, o, n, fields) {
      assert o in multiset(leftOld) && n in multiset(CleanRecords(news));
      if o !in end.olds {
        FilterHas(CleanRecords(olds), ObsoleteIn(ap, CleanRecords(news)), true, o);
        ObsoleteFitsNothing(ap, CleanRecords(news), o, n, fields);
      }
    }
  }

  /** Every pair of `ps` compares equal, and by `fields`. */
  ghost predicate AllCompare(ap: Apriori, fields: seq<string>, ps: seq<(Rec, Rec)>) {
    forall p :: p in ps ==> CompareRecords(ap, p.0, p.1, fields)
  }

  lemma PassCompares(ap: Apriori, fields: seq<string>, ls: Lists<Rec, Rec>)
    ensures var r := PassBy(ap, fields, ls);
            && Moves(OldKey(ap, fields), NewKey(fields), ls, r)
            && AllCompare(ap, fields, r.pairs[|ls.pairs|..])
            && |r.pairs| == |ls.pairs| + SharedKeys(ap, fields, ls.olds, ls.news)
            && Unmatchable(ap, fields, r.olds, r.news)
  {
    var f, g := OldKey(ap, fields), NewKey(fields);
    PassTakesSharedKeys(f, g, ls.olds, ls);
    PassMoves(f, g, ls.olds, ls);
    PassLeavesUnmatchable(ap, fields, ls);
    forall p | p in Pass(f, g, ls.olds, ls).pairs[|ls.pairs|..] ensures CompareRecords(ap, p.0, p.1, fields) {
      CompareIsKeyEquality(ap, p.0, p.1, fields);
    }
  }

  lemma SecondPassKeepsUnmatchable(ap: Apriori, fields: seq<string>, using: seq<string>, mid: Lists<Rec, Rec>)
    requires Unmatchable(ap, fields, mid.olds, mid.news)
    ensures var end := PassBy(ap, using, mid); Unmatchable(ap, fields, end.olds, end.news)
  {
    var end := PassBy(ap, using, mid);
    PassMoves(OldKey(ap, using), NewKey(using), mid.olds, mid);
    UnmatchableShrinks(ap, fields, using, mid, end);
  }

  /** The third pass of `compare_sets`, which repeats the first one's keys, changes nothing. */
  lemma ThirdPassIsIdle(ap: Apriori, f: seq<string>, g: seq<string>, start: Lists<Rec, Rec>)
    ensures var mid := PassBy(ap, f, start);
            var end := PassBy(ap, g, mid);
            && Unmatchable(ap, f, end.olds, end.news)
            && PassBy(ap, f, end) == end
  {
    var mid := PassBy(ap, f, start);
    var end := PassBy(ap, g, mid);
    PassLeavesUnmatchable(ap, f, start);
    SecondPassKeepsUnmatchable(ap, f, g, mid);
    PassOfUnmatchable(ap, f, end.olds, end);
  }

  /** Two passes from no pairs: every record is in one pair or left over. */
  lemma TwoPassesConserve(ap: Apriori, f: seq<string>, g: seq<string>, start: Lists<Rec, Rec>, mid: Lists<Rec, Rec>,
      end: Lists<Rec, Rec>)
    requires start.pairs == []
    requires Moves(OldKey(ap, f), NewKey(f), start, mid) && Moves(OldKey(ap, g), NewKey(g), mid, end)
    ensures multiset(start.olds) == multiset(end.olds) + multiset(Firsts(end.pairs))
    ensures multiset(start.news) == multiset(end.news) + multiset(Seconds(end.pairs))
  {
    var added := end.pairs[|mid.pairs|..];
    assert mid.pairs[|start.pairs|..] == mid.pairs && end.pairs == mid.pairs + added;
    FirstsOfConcat(mid.pairs, added);
    assert multiset(start.olds) == multiset(end.olds) + (multiset(Firsts(mid.pairs)) + multiset(Firsts(added)));
    assert multiset(start.news) == multiset(end.news) + (multiset(Seconds(mid.pairs)) + multiset(Seconds(added)));
  }

  /**
    The whole comparison: the counters of the report, and what is left of either list.
    The third pass repeats the keys of the first and never matches.
  */
  method CompareSets(ap: Apriori, olds: seq<Rec>, news: seq<Rec>)
    returns (stats: Stats, pairs: seq<(Rec, Rec)>, leftOld: seq<Rec>, leftNew: seq<Rec>)
    ensures stats.fieldsMatched == stats.direct + stats.otherModule + stats.otherType == |pairs|
    ensures stats.notMatched == |leftOld| && stats.newColumns == |leftNew|
    ensures stats.fieldsMatched + stats.notMatched == |CleanRecords(olds)|
    ensures stats.fieldsMatched + stats.newColumns == |CleanRecords(news)|
    ensures stats.otherType == 0
    ensures var live := Live(ap, olds, news);
            && stats.inObsoleteModels == |CleanRecords(olds)| - |live|
            && stats.direct == SharedKeys(ap, SAME_MODULE, live, CleanRecords(news))
    ensures multiset(Firsts(pairs)) + multiset(leftOld) == multiset(CleanRecords(olds))
    ensures multiset(Seconds(pairs)) + multiset(leftNew) == multiset(CleanRecords(news))
    ensures 0 <= stats.direct <= |pairs|
    ensures AllCompare(ap, SAME_MODULE, pairs[..stats.direct]) && AllCompare(ap, SAME_TYPE, pairs[stats.direct..])
    ensures Unmatchable(ap, SAME_MODULE, leftOld, leftNew) && Unmatchable(ap, SAME_TYPE, leftOld, leftNew)
  {
    var c := new FieldComparison(ap, olds, news);
    var origlen, inObsolete := |c.oldRecords|, |c.oldRecords| - |c.nonObsolete|;
    ghost var start := c.State();
    var direct := c.Match(SAME_MODULE);
    var otherModule := c.Match(SAME_TYPE);
    ThirdPassIsIdle(ap, SAME_MODULE, SAME_TYPE, start);
    var otherType := c.Match(SAME_MODULE);
    pairs, leftOld, leftNew := c.pairs, c.oldRecords, c.newRecords;
    stats := Stats(origlen - |leftOld|, direct, otherModule, otherType, inObsolete, |leftOld|, |leftNew|);
    PairsCompare(ap, SAME_MODULE, SAME_TYPE, start);
    RecordsConserved(ap, SAME_MODULE, SAME_TYPE, olds, news, leftOld);
    LeftoversUnmatchable(ap, SAME_MODULE, SAME_TYPE, olds, news, leftOld);
  }

  lemma PairsCompare(ap: Apriori, f: seq<string>, g: seq<string>, start: Lists<Rec, Rec>)
    requires start.pairs == []
    ensures var mid := PassBy(ap, f, start);
            var end := PassBy(ap, g, mid);
            && |mid.pairs| == SharedKeys(ap, f, start.olds, start.news)
            && mid.pairs <= end.pairs
            && AllCompare(ap, f, end.pairs[..|mid.pairs|]) && AllCompare(ap, g, end.pairs[|mid.pairs|..])
  {
    var mid := PassBy(ap, f, start);
    PassCompares(ap, f, start);
    PassCompares(ap, g, mid);
    assert mid.pairs[|start.pairs|..] == mid.pairs == PassBy(ap, g, mid).pairs[..|mid.pairs|];
  }

  lemma RecordsConserved(ap: Apriori, f: seq<string>, g: seq<string>, olds: seq<Rec>, news: seq<Rec>, leftOld: seq<Rec>)
    requires var end := PassBy(ap, g, PassBy(ap, f, Lists(Live(ap, olds, news), CleanRecords(news), [])));
             multiset(leftOld) == multiset(end.olds) + multiset(Gone(ap, olds, news))
    ensures var end := PassBy(ap, g, PassBy(ap, f, Lists(Live(ap, olds, news), CleanRecords(news), [])));
            && multiset(Firsts(end.pairs)) + multiset(leftOld) == multiset(CleanRecords(olds))
            && multiset(Seconds(end.pairs)) + multiset(end.news) == multiset(CleanRecords(news))
            && |end.pairs| + |leftOld| == |CleanRecords(olds)|
            && |end.pairs| + |end.news| == |CleanRecords(news)|
  {
    var start := Lists(Live(ap, olds, news), CleanRecords(news), []);
    var mid := PassBy(ap, f, start);
    var end := PassBy(ap, g, mid);
    PassMoves(OldKey(ap, f), NewKey(f), start.olds, start);
    PassMoves(OldKey(ap, g), NewKey(g), mid.olds, mid);
    TwoPassesConserve(ap, f, g, start, mid, end);
    FilterSplits(CleanRecords(olds), ObsoleteIn(ap, CleanRecords(news)));
    var matched, rest := multiset(Firsts(end.pairs)), multiset(leftOld);
    assert matched + rest == multiset(CleanRecords(olds));
    assert |matched + rest| == |end.pairs| + |leftOld|;
    assert |multiset(Seconds(end.pairs)) + multiset(end.news)| == |end.pairs| + |end.news|;
  }

  lemma LeftoversUnmatchable(ap: Apriori, f: seq<string>, g: seq<string>, olds: seq<Rec>, news: seq<Rec>,
      leftOld: seq<Rec>)
    requires "model" in f && "model" in g
    requires var end := PassBy(ap, g, PassBy(ap, f, Lists(Live(ap, olds, news), CleanRecords(news), [])));
             multiset(leftOld) == multiset(end.olds) + multiset(Gone(ap, olds, news))
    ensures var end := PassBy(ap, g, PassBy(ap, f, Lists(Live(ap, olds, news), CleanRecords(news), [])));
            Unmatchable(ap, f, leftOld, end.news) && Unmatchable(ap, g, leftOld, end.news)
  {
    var start := Lists(Live(ap, olds, news), CleanRecords(news), []);
    var mid := PassBy(ap, f, start);
    var end := PassBy(ap, g, mid);
    RecordsConserved(ap, f, g, olds, news, leftOld);
    ThirdPassIsIdle(ap, f, g, start);
    PassLeavesUnmatchable(ap, g, mid);
    ObsoleteStaysUnmatchable(ap, f, olds, news, end, leftOld);
    ObsoleteStaysUnmatchable(ap, g, olds, news, end, leftOld);
  }
}
