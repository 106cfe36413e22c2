/** Comparison of the XML records of two releases (`compare_xml_sets` of upgrade_analysis/compare.py). */
module UpgradeXmlCompare {
  import opened Wrappers
  import opened Matching
  import opened UpgradeCompare

  const FULL_ID: seq<string> := ["module", "model", "name"]
  const SAME_NAME: seq<string> := ["model", "name"]
  const SAME_SUFFIX: seq<string> := ["model", "suffix", "other_prefix"]

  /** The same identifier; the same name in any module; or the same suffix under the modules' own prefixes. */
  lemma XmlPassesCompare(ap: Apriori, o: Rec, n: Rec)
    ensures CompareRecords(ap, o, n, FULL_ID) <==>
            && CompareRecords(ap, o, n, ["module"]) && CompareRecords(ap, o, n, ["model"])
            && CompareRecords(ap, o, n, ["name"])
    ensures CompareRecords(ap, o, n, SAME_NAME) <==>
            CompareRecords(ap, o, n, ["model"]) && CompareRecords(ap, o, n, ["name"])
    ensures CompareRecords(ap, o, n, SAME_SUFFIX) <==>
            && CompareRecords(ap, o, n, ["model"]) && CompareRecords(ap, o, n, ["suffix"])
            && CompareRecords(ap, o, n, ["other_prefix"])
  {
    ComparesEachKey(ap, o, n, FULL_ID);
    ComparesEachKey(ap, o, n, SAME_NAME);
    ComparesEachKey(ap, o, n, SAME_SUFFIX);
  }

  // ----- records a module updates but does not own -----

  /** `search(..., get_all=True)`: the records of the list that `column` excludes. */
  function Excludes(ap: Apriori, fields: seq<string>, column: Rec): Rec -> bool {
    (r: Rec) => CompareRecords(ap, column, r, fields) && r.addon != r.prefix
  }

  /** What `match_updates` leaves of a list after the columns `columns`. */
  function WithoutUpdates(ap: Apriori, fields: seq<string>, columns: seq<Rec>, records: seq<Rec>): seq<Rec> {
    if columns == [] then records
    else WithoutUpdates(ap, fields, columns[1..], Filter(records, Excludes(ap, fields, columns[0]), false))
  }

  /** Removing the items of `Filter(s, p, true)` from `s`, one at a time and in order, leaves the others. */
  lemma {:induction false} RemoveFirstKept<T>(s: seq<T>, p: T -> bool)
    requires Filter(s, p, true) != []
    ensures var x := Filter(s, p, true)[0];
            && x in s
            && Filter(Remove(s, x), p, true) == Filter(s, p, true)[1..]
            && Filter(Remove(s, x), p, false) == Filter(s, p, false)
  {
    if !p(s[0]) {
      RemoveFirstKept(s[1..], p);
      var x := Filter(s, p, true)[0];
      FilterHas(s, p, true, x);
      assert Remove(s, x)[0] == s[0] && Remove(s, x)[1..] == Remove(s[1..], x);
    }
  }

  lemma {:induction false} NothingToRemove<T>(s: seq<T>, p: T -> bool)
    requires Filter(s, p, true) == []
    ensures Filter(s, p, false) == s
  {
    if s != [] {
      NothingToRemove(s[1..], p);
    }
  }

  /** `match_updates` on one list: for each column of a copy, remove every record it excludes. */
  method MatchUpdates(ap: Apriori, fields: seq<string>, records: seq<Rec>) returns (rest: seq<Rec>)
    ensures rest == WithoutUpdates(ap, fields, records, records)
  {
    rest := records;
    for i := 0 to |records|
      invariant WithoutUpdates(ap, fields, records[i..], rest) == WithoutUpdates(ap, fields, records, records)
    {
      var p := Excludes(ap, fields, records[i]);
      var found := Filter(rest, p, true);
      ghost var others := Filter(rest, p, false);
      for j := 0 to |found|
        invariant Filter(rest, p, true) == found[j..] && Filter(rest, p, false) == others
      {
        RemoveFirstKept(rest, p);
        rest := Remove(rest, found[j]);
      }
      NothingToRemove(rest, p);
      assert records[i..][1..] == records[i + 1..];
    }
  }

  /** A record goes exactly when its module is not its prefix and some record of the list excludes it. */
  lemma {:induction false} UpdatesRemovedExactly(ap: Apriori, fields: seq<string>, columns: seq<Rec>, records: seq<Rec>,
      r: Rec)
    ensures r in WithoutUpdates(ap, fields, columns, records) <==>
              r in records && !(r.addon != r.prefix && exists c :: c in columns && CompareRecords(ap, c, r, fields))
  {
    if columns != [] {
      var p := Excludes(ap, fields, columns[0]);
      UpdatesRemovedExactly(ap, fields, columns[1..], Filter(records, p, false), r);
      FilterHas(records, p, false, r);
      assert forall c :: c in columns <==> c == columns[0] || c in columns[1..];
    }
  }

  /** Afterwards no record is left whose module differs from its prefix, if the rename map fixes its model. */
  lemma OwnRecordsRemain(ap: Apriori, records: seq<Rec>, r: Rec)
    requires r in WithoutUpdates(ap, SAME_NAME, records, records)
    ensures Owned(ap, r)
  {
    UpdatesRemovedExactly(ap, SAME_NAME, records, records, r);
    if ModelRenameMap(ap, r.model) == r.model {
      assert Agrees(ap, r, r, "model") && Agrees(ap, r, r, "name");
      assert CompareRecords(ap, r, r, SAME_NAME);
      assert !Excludes(ap, SAME_NAME, r)(r);
    }
  }

  /** The records dropped by the update pass. */
  ghost function Dropped(ap: Apriori, records: seq<Rec>): multiset<Rec> {
    multiset(records) - multiset(WithoutUpdates(ap, SAME_NAME, records, records))
  }

  /** The module owns the identifier, unless the model was renamed, which keeps the check from seeing it. */
  predicate Owned(ap: Apriori, r: Rec) {
    r.addon == r.prefix || (r.model in ap.renamedModels && ap.renamedModels[r.model] != r.model)
  }

  lemma {:induction false} UpdatesOnlyRemove(ap: Apriori, fields: seq<string>, columns: seq<Rec>, records: seq<Rec>)
    ensures var rest := multiset(WithoutUpdates(ap, fields, columns, records));
            rest <= multiset(records) && forall x :: x in multiset(records) - rest ==> x.addon != x.prefix
  {
    if columns != [] {
      var p := Excludes(ap, fields, columns[0]);
      var kept, gone := Filter(records, p, false), Filter(records, p, true);
      FilterSplits(records, p);
      UpdatesOnlyRemove(ap, fields, columns[1..], kept);
      var rest := multiset(WithoutUpdates(ap, fields, columns, records));
      forall x | x in multiset(records) - rest ensures x.addon != x.prefix {
        FilterHas(records, p, true, x);
        if x !in gone {
          assert x in multiset(kept) - rest;
        }
      }
    }
  }

  /** What the update pass does to a list, as the later passes need it. */
  lemma UpdatePass(ap: Apriori, records: seq<Rec>)
    ensures var rest := WithoutUpdates(ap, SAME_NAME, records, records);
            && multiset(records) == multiset(rest) + Dropped(ap, records)
            && (forall x :: x in rest ==> Owned(ap, x))
            && (forall x :: x in Dropped(ap, records) ==> x.addon != x.prefix)
  {
    UpdatesOnlyRemove(ap, SAME_NAME, records, records);
    forall x | x in WithoutUpdates(ap, SAME_NAME, records, records) ensures Owned(ap, x) {
      OwnRecordsRemain(ap, records, x);
    }
  }

  // ----- one match pass -----

  /** The `match` closure: the records it removes, paired. */
  method Match(ap: Apriori, fields: seq<string>, olds: seq<Rec>, news: seq<Rec>)
    returns (restOld: seq<Rec>, restNew: seq<Rec>, pairs: seq<(Rec, Rec)>)
    ensures Lists(restOld, restNew, pairs) == PassBy(ap, fields, Lists(olds, news, []))
  {
    restOld, restNew, pairs := olds, news, [];
    ghost var f, g := OldKey(ap, fields), NewKey(fields);
    assert olds[0..] == olds;
    for i := 0 to |olds|
      invariant multiset(olds[i..]) <= multiset(restOld)
      invariant Pass(f, g, olds[i..], Lists(restOld, restNew, pairs)) == PassBy(ap, fields, Lists(olds, news, []))
    {
      assert olds[i..][0] == olds[i] && olds[i..][1..] == olds[i + 1..];
      StepKeepsTodo(f, g, olds[i..], Lists(restOld, restNew, pairs));
      SearchIsFirstFit(ap, olds[i], restNew, fields);
      var found := Search(ap, olds[i], restNew, fields);
      if found.Some? {
        restOld, restNew := Remove(restOld, olds[i]), Remove(restNew, found.value);
        pairs := pairs + [(olds[i], found.value)];
      }
    }
  }

  lemma MatchFacts(ap: Apriori, fields: seq<string>, olds: seq<Rec>, news: seq<Rec>)
    ensures var r := PassBy(ap, fields, Lists(olds, news, []));
            && multiset(olds) == multiset(Firsts(r.pairs)) + multiset(r.olds)
            && multiset(news) == multiset(Seconds(r.pairs)) + multiset(r.news)
            && AllCompare(ap, fields, r.pairs)
            && Unmatchable(ap, fields, r.olds, r.news)
  {
    PassCompares(ap, fields, Lists(olds, news, []));
    var ps := PassBy(ap, fields, Lists(olds, news, [])).pairs;
    assert ps[0..] == ps;
  }

  lemma UnmatchableSub(ap: Apriori, fields: seq<string>, olds: seq<Rec>, news: seq<Rec>, olds': seq<Rec>,
      news': seq<Rec>)
    requires Unmatchable(ap, fields, olds, news)
    requires multiset(olds') <= multiset(olds) && multiset(news') <= multiset(news)
    ensures Unmatchable(ap, fields, olds', news')
  {
    forall o, n | o in olds' && n in news' ensures !CompareRecords(ap, o, n, fields) {
      assert o in multiset(olds) && n in multiset(news);
    }
  }

  // ----- the whole comparison -----

  /** A missing or empty value is False in the source. */
  predicate DomainDeleted(o: Rec, n: Rec) {
    o.Get("domain").Some? && o.Get("domain") != Some("[]") && n.Get("domain").None?
  }

  predicate DefinitionChanged(o: Rec, n: Rec) {
    o.Truthy("definition") && o.Get("definition") != n.Get("definition")
  }

  /** A direct match is worth a line only when one of these changed. */
  predicate Modified(p: (Rec, Rec)) {
    DomainDeleted(p.0, p.1) || DefinitionChanged(p.0, p.1) || p.0.Get("noupdate") != p.1.Get("noupdate")
  }

  lemma ModifiedExactly(o: Rec, n: Rec)
    ensures Modified((o, n)) <==>
            || ("domain" in o.attrs && o.attrs["domain"] != "[]" && "domain" !in n.attrs)
            || ("definition" in o.attrs && o.attrs["definition"] != "" &&
                !("definition" in n.attrs && n.attrs["definition"] == o.attrs["definition"]))
            || ("noupdate" in o.attrs <==> "noupdate" !in n.attrs)
            || ("noupdate" in o.attrs && "noupdate" in n.attrs && o.attrs["noupdate"] != n.attrs["noupdate"])
  {
  }

  datatype Report = Report(direct: seq<(Rec, Rec)>, moved: seq<(Rec, Rec)>, renamed: seq<(Rec, Rec)>,
                           modified: seq<(Rec, Rec)>, leftOld: seq<Rec>, leftNew: seq<Rec>)

  method CompareXmlSets(ap: Apriori, olds: seq<Rec>, news: seq<Rec>)
    returns (r: Report, ghost droppedOld: multiset<Rec>, ghost droppedNew: multiset<Rec>)
    // every record falls in exactly one class
    ensures multiset(olds) == multiset(Firsts(r.direct)) + droppedOld + multiset(Firsts(r.moved))
                              + multiset(Firsts(r.renamed)) + multiset(r.leftOld)
    ensures multiset(news) == multiset(Seconds(r.direct)) + droppedNew + multiset(Seconds(r.moved))
                              + multiset(Seconds(r.renamed)) + multiset(r.leftNew)
    // the class of a pair says how it compares, and nothing matchable is left
    ensures AllCompare(ap, FULL_ID, r.direct) && AllCompare(ap, SAME_NAME, r.moved)
        && AllCompare(ap, SAME_SUFFIX, r.renamed)
    ensures Unmatchable(ap, FULL_ID, r.leftOld, r.leftNew)
    ensures Unmatchable(ap, SAME_NAME, r.leftOld, r.leftNew)
    ensures Unmatchable(ap, SAME_SUFFIX, r.leftOld, r.leftNew)
    // moved, renamed and left-over records own their identifier, dropped ones do not
    ensures forall x :: x in Firsts(r.moved) + Firsts(r.renamed) + r.leftOld ==> Owned(ap, x)
    ensures forall x :: x in Seconds(r.moved) + Seconds(r.renamed) + r.leftNew ==> Owned(ap, x)
    ensures forall x :: x in droppedOld || x in droppedNew ==> x.addon != x.prefix
    ensures forall p :: p in r.modified <==> p in r.direct && Modified(p)
    // each pass takes all it can: nothing that came out later would have matched in it
    ensures Later(ap, droppedOld, Firsts(r.moved), Firsts(r.renamed), r.leftOld,
                  droppedNew, Seconds(r.moved), Seconds(r.renamed), r.leftNew)
  {
    var o1, n1, direct := Match(ap, FULL_ID, olds, news);
    var o2 := MatchUpdates(ap, SAME_NAME, o1);
    var n2 := MatchUpdates(ap, SAME_NAME, n1);
    var o3, n3, moved := Match(ap, SAME_NAME, o2, n2);
    var o4, n4, renamed := Match(ap, SAME_SUFFIX, o3, n3);
    r := Report(direct, moved, renamed, Filter(direct, p => Modified(p), true), o4, n4);
    droppedOld, droppedNew := Dropped(ap, o1), Dropped(ap, n1);
    forall p ensures p in r.modified <==> p in r.direct && Modified(p) {
      FilterHas(direct, p => Modified(p), true, p);
    }
    XmlConserved(ap, olds, news);
    XmlUnmatchable(ap, olds, news);
    XmlLater(ap, olds, news);
  }

  /** Of the records that did not match directly, those are dropped that a module updates without owning them. */
  ghost predicate DroppedExactly(ap: Apriori, records: multiset<Rec>, dropped: multiset<Rec>) {
    forall r :: r in records ==>
      dropped[r] == if r.addon != r.prefix && (exists c :: c in records && CompareRecords(ap, c, r, SAME_NAME))
                    then records[r] else 0
  }

  /** What did not match directly could not have, nor what was not moved; and the dropped ones are the right ones. */
  ghost predicate Later(ap: Apriori, droppedOld: multiset<Rec>, movedOld: seq<Rec>, renamedOld: seq<Rec>,
      leftOld: seq<Rec>, droppedNew: multiset<Rec>, movedNew: seq<Rec>, renamedNew: seq<Rec>, leftNew: seq<Rec>)
  {
    var laterOld := droppedOld + multiset(movedOld) + multiset(renamedOld) + multiset(leftOld);
    var laterNew := droppedNew + multiset(movedNew) + multiset(renamedNew) + multiset(leftNew);
    && (forall o, n :: o in laterOld && n in laterNew ==> !CompareRecords(ap, o, n, FULL_ID))
    && DroppedExactly(ap, laterOld, droppedOld) && DroppedExactly(ap, laterNew, droppedNew)
    && Unmatchable(ap, SAME_NAME, renamedOld + leftOld, renamedNew + leftNew)
  }

  lemma {:induction false} FilterCounts<T>(s: seq<T>, p: T -> bool, keep: bool, x: T)
    ensures multiset(Filter(s, p, keep))[x] == if p(x) == keep then multiset(s)[x] else 0
  {
    if s != [] {
      assert s == [s[0]] + s[1..];
      FilterCounts(s[1..], p, keep, x);
    }
  }

  /** All copies of a record are dropped, or none. */
  lemma {:induction false} DroppedCounts(ap: Apriori, columns: seq<Rec>, records: seq<Rec>, r: Rec)
    ensures multiset(WithoutUpdates(ap, SAME_NAME, columns, records))[r] ==
            if r.addon != r.prefix && (exists c :: c in columns && CompareRecords(ap, c, r, SAME_NAME)) then 0
            else multiset(records)[r]
  {
    if columns != [] {
      var p := Excludes(ap, SAME_NAME, columns[0]);
      DroppedCounts(ap, columns[1..], Filter(records, p, false), r);
      FilterCounts(records, p, false, r);
      assert forall c :: c in columns <==> c == columns[0] || c in columns[1..];
    }
  }

  lemma DroppedIs(ap: Apriori, records: seq<Rec>)
    ensures DroppedExactly(ap, multiset(records), Dropped(ap, records))
  {
    forall r | r in multiset(records)
      ensures Dropped(ap, records)[r] ==
              if r.addon != r.prefix && (exists c :: c in multiset(records) && CompareRecords(ap, c, r, SAME_NAME))
              then multiset(records)[r] else 0
    {
      DroppedCounts(ap, records, records, r);
      assert forall c :: c in records <==> c in multiset(records);
    }
  }

  lemma LaterSum<T>(r1: multiset<T>, r2: multiset<T>, dropped: multiset<T>, moved: multiset<T>, r3: multiset<T>,
      renamed: multiset<T>, left: multiset<T>)
    requires r1 == r2 + dropped && r2 == moved + r3 && r3 == renamed + left
    ensures r1 == dropped + moved + renamed + left
  {
  }

  /** One side of the comparison after the direct matches `r1`: the later classes are what is left of it. */
  lemma LaterSide(ap: Apriori, r1: seq<Rec>, moved: seq<Rec>, r3: seq<Rec>, renamed: seq<Rec>, left: seq<Rec>)
    requires multiset(WithoutUpdates(ap, SAME_NAME, r1, r1)) == multiset(moved) + multiset(r3)
    requires multiset(r3) == multiset(renamed) + multiset(left)
    ensures multiset(r1) == Dropped(ap, r1) + multiset(moved) + multiset(renamed) + multiset(left)
    ensures DroppedExactly(ap, multiset(r1), Dropped(ap, r1))
    ensures multiset(renamed + left) <= multiset(r3)
  {
    UpdatePass(ap, r1);
    DroppedIs(ap, r1);
    LaterSum(multiset(r1), multiset(WithoutUpdates(ap, SAME_NAME, r1, r1)), Dropped(ap, r1), multiset(moved),
             multiset(r3), multiset(renamed), multiset(left));
  }

  lemma LaterJoined(ap: Apriori, o1: seq<Rec>, n1: seq<Rec>, movedOld: seq<Rec>, renamedOld: seq<Rec>,
      leftOld: seq<Rec>, movedNew: seq<Rec>, renamedNew: seq<Rec>, leftNew: seq<Rec>)
    requires Unmatchable(ap, FULL_ID, o1, n1)
    requires multiset(o1) == Dropped(ap, o1) + multiset(movedOld) + multiset(renamedOld) + multiset(leftOld)
    requires multiset(n1) == Dropped(ap, n1) + multiset(movedNew) + multiset(renamedNew) + multiset(leftNew)
    requires DroppedExactly(ap, multiset(o1), Dropped(ap, o1)) && DroppedExactly(ap, multiset(n1), Dropped(ap, n1))
    requires Unmatchable(ap, SAME_NAME, renamedOld + leftOld, renamedNew + leftNew)
    ensures Later(ap, Dropped(ap, o1), movedOld, renamedOld, leftOld, Dropped(ap, n1), movedNew, renamedNew, leftNew)
  {
    forall o, n | o in multiset(o1) && n in multiset(n1) ensures !CompareRecords(ap, o, n, FULL_ID) {
      assert o in o1 && n in n1;
    }
  }

  lemma XmlLater(ap: Apriori, olds: seq<Rec>, news: seq<Rec>)
    ensures var p1 := Pass1(ap, olds, news); var p2 := Pass2(ap, p1); var p3 := Pass3(ap, p2);
            Later(ap, Dropped(ap, p1.olds), Firsts(p2.pairs), Firsts(p3.pairs), p3.olds,
                  Dropped(ap, p1.news), Seconds(p2.pairs), Seconds(p3.pairs), p3.news)
  {
    var p1 := Pass1(ap, olds, news); var p2 := Pass2(ap, p1); var p3 := Pass3(ap, p2);
    MatchFacts(ap, FULL_ID, olds, news);
    MatchFacts(ap, SAME_NAME, WithoutUpdates(ap, SAME_NAME, p1.olds, p1.olds),
        WithoutUpdates(ap, SAME_NAME, p1.news, p1.news));
    MatchFacts(ap, SAME_SUFFIX, p2.olds, p2.news);
    LaterSide(ap, p1.olds, Firsts(p2.pairs), p2.olds, Firsts(p3.pairs), p3.olds);
    LaterSide(ap, p1.news, Seconds(p2.pairs), p2.news, Seconds(p3.pairs), p3.news);
    UnmatchableSub(ap, SAME_NAME, p2.olds, p2.news, Firsts(p3.pairs) + p3.olds, Seconds(p3.pairs) + p3.news);
    LaterJoined(ap, p1.olds, p1.news, Firsts(p2.pairs), Firsts(p3.pairs), p3.olds, Seconds(p2.pairs),
                Seconds(p3.pairs), p3.news);
  }

  ghost function Pass1(ap: Apriori, olds: seq<Rec>, news: seq<Rec>): Lists<Rec, Rec> {
    PassBy(ap, FULL_ID, Lists(olds, news, []))
  }

  ghost function Pass2(ap: Apriori, ls: Lists<Rec, Rec>): Lists<Rec, Rec> {
    PassBy(ap, SAME_NAME, Lists(WithoutUpdates(ap, SAME_NAME, ls.olds, ls.olds),
        WithoutUpdates(ap, SAME_NAME, ls.news, ls.news), []))
  }

  ghost function Pass3(ap: Apriori, ls: Lists<Rec, Rec>): Lists<Rec, Rec> {
    PassBy(ap, SAME_SUFFIX, Lists(ls.olds, ls.news, []))
  }

  ghost predicate FiveClasses(ap: Apriori, all: multiset<Rec>, direct: seq<Rec>, dropped: multiset<Rec>,
      moved: seq<Rec>, renamed: seq<Rec>, left: seq<Rec>)
  {
    && all == multiset(direct) + dropped + multiset(moved) + multiset(renamed) + multiset(left)
    && (forall x :: x in moved + renamed + left ==> Owned(ap, x))
    && (forall x :: x in dropped ==> x.addon != x.prefix)
  }

  lemma ClassSum<T>(all: multiset<T>, direct: multiset<T>, r1: multiset<T>, r2: multiset<T>, dropped: multiset<T>,
      moved: multiset<T>, r3: multiset<T>, renamed: multiset<T>, left: multiset<T>)
    requires all == direct + r1 && r1 == r2 + dropped && r2 == moved + r3 && r3 == renamed + left
    ensures all == direct + dropped + moved + renamed + left
  {
  }

  lemma Classes(ap: Apriori, all: multiset<Rec>, direct: seq<Rec>, r1: seq<Rec>, moved: seq<Rec>, r3: seq<Rec>,
      renamed: seq<Rec>, left: seq<Rec>)
    requires all == multiset(direct) + multiset(r1)
    requires multiset(WithoutUpdates(ap, SAME_NAME, r1, r1)) == multiset(moved) + multiset(r3)
    requires multiset(r3) == multiset(renamed) + multiset(left)
    ensures FiveClasses(ap, all, direct, Dropped(ap, r1), moved, renamed, left)
  {
    UpdatePass(ap, r1);
    ClassSum(all, multiset(direct), multiset(r1), multiset(WithoutUpdates(ap, SAME_NAME, r1, r1)), Dropped(ap, r1),
             multiset(moved), multiset(r3), multiset(renamed), multiset(left));
    forall x | x in moved + renamed + left ensures Owned(ap, x) {
      assert x in multiset(WithoutUpdates(ap, SAME_NAME, r1, r1));
    }
  }

  lemma XmlConserved(ap: Apriori, olds: seq<Rec>, news: seq<Rec>)
    ensures var p1 := Pass1(ap, olds, news); var p2 := Pass2(ap, p1); var p3 := Pass3(ap, p2);
            && FiveClasses(ap, multiset(olds), Firsts(p1.pairs), Dropped(ap, p1.olds), Firsts(p2.pairs),
                Firsts(p3.pairs), p3.olds)
            && FiveClasses(ap, multiset(news), Seconds(p1.pairs), Dropped(ap, p1.news), Seconds(p2.pairs),
                Seconds(p3.pairs), p3.news)
  {
    var p1 := Pass1(ap, olds, news); var p2 := Pass2(ap, p1); var p3 := Pass3(ap, p2);
    MatchFacts(ap, FULL_ID, olds, news);
    MatchFacts(ap, SAME_NAME, WithoutUpdates(ap, SAME_NAME, p1.olds, p1.olds),
        WithoutUpdates(ap, SAME_NAME, p1.news, p1.news));
    MatchFacts(ap, SAME_SUFFIX, p2.olds, p2.news);
    Classes(ap, multiset(olds), Firsts(p1.pairs), p1.olds, Firsts(p2.pairs), p2.olds, Firsts(p3.pairs), p3.olds);
    Classes(ap, multiset(news), Seconds(p1.pairs), p1.news, Seconds(p2.pairs), p2.news, Seconds(p3.pairs), p3.news);
  }

  lemma XmlUnmatchable(ap: Apriori, olds: seq<Rec>, news: seq<Rec>)
    ensures var p1 := Pass1(ap, olds, news); var p2 := Pass2(ap, p1); var p3 := Pass3(ap, p2);
            && AllCompare(ap, FULL_ID, p1.pairs) && AllCompare(ap, SAME_NAME, p2.pairs)
                && AllCompare(ap, SAME_SUFFIX, p3.pairs)
            && Unmatchable(ap, FULL_ID, p3.olds, p3.news)
            && Unmatchable(ap, SAME_NAME, p3.olds, p3.news)
            && Unmatchable(ap, SAME_SUFFIX, p3.olds, p3.news)
  {
    var p1 := Pass1(ap, olds, news); var p2 := Pass2(ap, p1); var p3 := Pass3(ap, p2);
    MatchFacts(ap, FULL_ID, olds, news);
    MatchFacts(ap, SAME_NAME, WithoutUpdates(ap, SAME_NAME, p1.olds, p1.olds),
        WithoutUpdates(ap, SAME_NAME, p1.news, p1.news));
    MatchFacts(ap, SAME_SUFFIX, p2.olds, p2.news);
    UpdatesOnlyRemove(ap, SAME_NAME, p1.olds, p1.olds);
    UpdatesOnlyRemove(ap, SAME_NAME, p1.news, p1.news);
    UnmatchableSub(ap, FULL_ID, p1.olds, p1.news, p3.olds, p3.news);
    UnmatchableSub(ap, SAME_NAME, p2.olds, p2.news, p3.olds, p3.news);
  }
}
