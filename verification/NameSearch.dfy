/**
  Extended name search (base_name_search_improved/models/ir_model.py): the prefix domain built word
  by word, and the staged search that extends a list of results up to a limit.
*/
module NameSearch {
  import opened Sequences
  import opened Splitting
  import opened Wrappers
  import opened Domains

  /** A condition on one field, or the `("id", "not in", ids)` condition. */
  datatype Term = Field(name: string, operator: string, value: string) | IdNotIn(ids: seq<int>)

  // ----- the domain built word by word -----

  /** One leaf per field, joined by "|". */
  function WordDomain(names: seq<string>, operator: string, word: string): Domain<Term> {
    if names == [] then []
    else
      var front, last := names[..|names| - 1], names[|names| - 1];
      var d := WordDomain(front, operator, word);
      (if d != [] then [Oper(Or)] + d else d) + [Leaf(Field(last, operator, word))]
  }

  /** `base`, then one word after the other, joined by "&". */
  function SmartDomain(base: Domain<Term>, names: seq<string>, operator: string, words: seq<string>): Domain<Term> {
    if words == [] then base
    else
      var front, last := words[..|words| - 1], words[|words| - 1];
      var d := SmartDomain(base, names, operator, front);
      (if d != [] then [Oper(And)] + d else d) + WordDomain(names, operator, last)
  }

  /** The loops of `_search_smart_search` and of the last stage of `_name_search`. */
  method BuildDomain(base: Domain<Term>, names: seq<string>, operator: string, words: seq<string>)
    returns (domain: Domain<Term>)
    ensures domain == SmartDomain(base, names, operator, words)
  {
    domain := base;
    assert words[..0] == [];
    for i := 0 to |words|
      invariant domain == SmartDomain(base, names, operator, words[..i])
    {
      var wordDomain: Domain<Term> := [];
      assert names[..0] == [];
      for j := 0 to |names|
        invariant wordDomain == WordDomain(names[..j], operator, words[i])
      {
        wordDomain := (if wordDomain != [] then [Oper(Or)] + wordDomain else wordDomain)
                      + [Leaf(Field(names[j], operator, words[i]))];
        assert names[..j + 1][..j] == names[..j];
      }
      assert names[..|names|] == names;
      domain := (if domain != [] then [Oper(And)] + domain else domain) + wordDomain;
      assert words[..i + 1][..i] == words[..i];
    }
    assert words[..|words|] == words;
  }

  predicate SomeField(names: seq<string>, operator: string, word: string, sat: Term -> bool) {
    exists n | n in names :: sat(Field(n, operator, word))
  }

  predicate EveryWord(names: seq<string>, operator: string, words: seq<string>, sat: Term -> bool) {
    forall w | w in words :: SomeField(names, operator, w, sat)
  }

  /** Every longest run of the value without white space is in some field. */
  ghost predicate EveryRun(names: seq<string>, operator: string, space: char -> bool, value: string, sat: Term -> bool)
  {
    forall i, j | IsRun(space, value, i, j) :: SomeField(names, operator, value[i..j], sat)
  }

  lemma EveryWordMeans(names: seq<string>, operator: string, space: char -> bool, value: string, sat: Term -> bool)
    ensures EveryWord(names, operator, Split(space, value), sat) <==> EveryRun(names, operator, space, value, sat)
  {
    forall w ensures w in Split(space, value) <==> HasRun(space, value, w) {
      WordsAreRuns(space, value, w);
    }
    if EveryWord(names, operator, Split(space, value), sat) {
      forall i, j | IsRun(space, value, i, j) ensures SomeField(names, operator, value[i..j], sat) {
        assert HasRun(space, value, value[i..j]);
      }
    }
  }

  lemma {:induction false} WordDomainMeans(names: seq<string>, operator: string, word: string, sat: Term -> bool)
    requires names != []
    ensures WordDomain(names, operator, word) != []
    ensures Run(WordDomain(names, operator, word), sat, []) == Some([SomeField(names, operator, word, sat)])
    decreases |names|
  {
    var front, last := names[..|names| - 1], names[|names| - 1];
    var leaf, d := Leaf(Field(last, operator, word)), WordDomain(front, operator, word);
    var b := sat(Field(last, operator, word));
    assert names == front + [last];
    assert Run([leaf], sat, []) == Some([b]) by { assert [leaf][1..] == [] && [b] + [] == [b]; }
    if front == [] {
      assert WordDomain(names, operator, word) == [leaf];
    } else {
      WordDomainMeans(front, operator, word, sat);
      JoinMeans(Or, d, [leaf], sat, b);
      assert SomeField(names, operator, word, sat) == (SomeField(front, operator, word, sat) || b) by {
        assert forall n :: n in names <==> n in front || n == last;
      }
      var s := Run(d, sat, []).value + [b];
      assert s[2..] == [] && [Do(Or, s[0], s[1])] + s[2..] == [SomeField(names, operator, word, sat)];
    }
  }

  /** Putting an operator in front of `d` and `e` joins their two topmost values. */
  lemma JoinMeans(op: Op, d: Domain<Term>, e: Domain<Term>, sat: Term -> bool, b: bool)
    requires Run(d, sat, []).Some? && Run(d, sat, []).value != []
    requires Run(e, sat, []) == Some([b])
    ensures var s := Run(d, sat, []).value + [b];
            Run([Oper(op)] + d + e, sat, []) == Some([Do(op, s[0], s[1])] + s[2..])
  {
    RunConcat(d, e, sat, []);
    RunFrame(d, sat, [b]);
    assert ([Oper(op)] + d + e)[1..] == d + e;
  }

  /** An implicit AND is not changed by joining its two topmost values with "&". */
  lemma JoinKeepsAll(s: seq<bool>)
    requires |s| >= 2
    ensures AllTrue([s[0] && s[1]] + s[2..]) == AllTrue(s)
  {
    var t := [s[0] && s[1]] + s[2..];
    if AllTrue(t) {
      assert t[0] in t;
      forall b | b in s ensures b {
        var i :| 0 <= i < |s| && s[i] == b;
        if i >= 2 { assert t[i - 1] == b && t[i - 1] in t; }
      }
    }
    if AllTrue(s) {
      forall b | b in t ensures b {
        var i :| 0 <= i < |t| && t[i] == b;
        assert s[0] in s && s[1] in s;
        if i >= 1 { assert s[i + 1] == b && s[i + 1] in s; }
      }
    }
  }

  /** The values on the stack of the built domain: their conjunction is base and every word. */
  lemma {:induction false} SmartDomainRuns(base: Domain<Term>, names: seq<string>, operator: string, words: seq<string>,
      sat: Term -> bool)
    requires Value(base, sat).Some? && names != []
    ensures var d := SmartDomain(base, names, operator, words);
            && Run(d, sat, []).Some?
            && (d != [] ==> Run(d, sat, []).value != [])
            && (AllTrue(Run(d, sat, []).value) <==> Value(base, sat).value && EveryWord(names, operator, words, sat))
    decreases |words|
  {
    if words == [] {
      if base != [] {
        NonEmptyHasValue(base, sat);
      }
    } else {
      var front, last := words[..|words| - 1], words[|words| - 1];
      assert words == front + [last];
      assert forall w :: w in words <==> w in front || w == last;
      SmartDomainRuns(base, names, operator, front, sat);
      WordDomainMeans(names, operator, last, sat);
      var d, e := SmartDomain(base, names, operator, front), WordDomain(names, operator, last);
      var b := SomeField(names, operator, last, sat);
      if d == [] {
        assert d + e == e;
        assert AllTrue([b]) == b by { assert b in [b]; }
      } else {
        var s := Run(d, sat, []).value;
        JoinMeans(And, d, e, sat, b);
        JoinKeepsAll(s + [b]);
        assert AllTrue(s + [b]) == (AllTrue(s) && b) by {
          assert b in s + [b];
          assert forall x :: x in s + [b] <==> x in s || x == b;
        }
      }
    }
  }

  lemma {:induction false} NonEmptyHasValue(d: Domain<Term>, sat: Term -> bool)
    requires d != [] && Run(d, sat, []).Some?
    ensures Run(d, sat, []).value != []
  {
  }

  /** `_get_rec_names`: the field that names the records comes first, so there always is a field. */
  function RecNames(recName: string, others: seq<string>): (names: seq<string>)
    ensures names != []
  {
    [recName] + others
  }

  const ALLOWED_OPS: set<string> := {"ilike", "like"}

  /** `_search_smart_search`. */
  function SmartSearchDomain(configured: Domain<Term>, recName: string, others: seq<string>, operator: string,
      words: seq<string>, value: string)
    : Domain<Term>
  {
    if value != [] && operator in ALLOWED_OPS then SmartDomain(configured, RecNames(recName, others), operator, words)
    else []
  }

  /** For every base domain, list of words and fields: the built domain means base, and every word in some field. */
  lemma SmartDomainMeans(base: Domain<Term>, recName: string, others: seq<string>, operator: string, words: seq<string>,
      sat: Term -> bool)
    requires Value(base, sat).Some?
    ensures var names := RecNames(recName, others);
            Value(SmartDomain(base, names, operator, words), sat)
            == Some(Value(base, sat).value && EveryWord(names, operator, words, sat))
  {
    SmartDomainRuns(base, RecNames(recName, others), operator, words, sat);
  }

  /**
    What the search method finds: with an empty value or another operator every record, else the
    records of the configured domain that have every run of the value in some field.
  */
  ghost predicate SmartSearchFinds(configured: Domain<Term>, recName: string, others: seq<string>, operator: string,
      value: string, space: char -> bool, sat: Term -> bool)
    requires Value(configured, sat).Some?
  {
    || value == []
    || (operator != "ilike" && operator != "like")
    || (Value(configured, sat).value && EveryRun([recName] + others, operator, space, value, sat))
  }

  lemma SmartSearchMeans(configured: Domain<Term>, recName: string, others: seq<string>, operator: string,
      value: string, space: char -> bool, sat: Term -> bool)
    requires Value(configured, sat).Some?
    ensures Value(SmartSearchDomain(configured, recName, others, operator, Split(space, value), value), sat)
         == Some(SmartSearchFinds(configured, recName, others, operator, value, space, sat))
  {
    var names := RecNames(recName, others);
    SmartDomainMeans(configured, recName, others, operator, Split(space, value), sat);
    EveryWordMeans(names, operator, space, value, sat);
    assert names == [recName] + others;
  }

  method SearchSmartSearch(configured: Domain<Term>, recName: string, others: seq<string>, operator: string,
      value: string, space: char -> bool)
    returns (domain: Domain<Term>)
    ensures domain == SmartSearchDomain(configured, recName, others, operator, Split(space, value), value)
    ensures forall sat: Term -> bool | Value(configured, sat).Some? ::
              Value(domain, sat) == Some(SmartSearchFinds(configured, recName, others, operator, value, space, sat))
  {
    forall sat: Term -> bool | Value(configured, sat).Some?
      ensures Value(SmartSearchDomain(configured, recName, others, operator, Split(space, value), value), sat)
           == Some(SmartSearchFinds(configured, recName, others, operator, value, space, sat))
    {
      SmartSearchMeans(configured, recName, others, operator, value, space, sat);
    }
    domain := [];
    if value != [] && operator in ALLOWED_OPS {
      domain := BuildDomain(configured, RecNames(recName, others), operator, Split(space, value));
    }
  }

  /** Domains written one after the other are joined by the implicit AND. */
  lemma ConcatMeansBoth(a: Domain<Term>, b: Domain<Term>, sat: Term -> bool)
    requires Value(a, sat).Some? && Value(b, sat).Some?
    ensures Value(a + b, sat) == Some(Value(a, sat).value && Value(b, sat).value)
  {
    RunConcat(a, b, sat, []);
    var s, t := Run(a, sat, []).value, Run(b, sat, []).value;
    RunFrame(a, sat, t);
    assert AllTrue(s + t) == (AllTrue(s) && AllTrue(t)) by {
      assert forall x :: x in s + t <==> x in s || x in t;
    }
  }

  // ----- extending the results -----

  /** The model's table: its records, and which field conditions hold of which. */
  datatype Table = Table(ids: seq<int>, holds: (int, Term) -> bool) {
    function Sat(id: int): Term -> bool {
      (t: Term) => match t case IdNotIn(ids) => id !in ids case Field(_, _, _) => holds(id, t)
    }
  }

  predicate Holds(table: Table, d: Domain<Term>, id: int) {
    Value(d, table.Sat(id)) == Some(true)
  }

  /** `_search` with a limit: the first records of the table, in its order, that satisfy the domain. */
  function Search(table: Table, ids: seq<int>, d: Domain<Term>, limit: nat): (r: seq<int>)
    ensures |r| <= limit
    ensures forall id :: id in r ==> id in ids && Holds(table, d, id)
    ensures |r| < limit ==> forall id :: id in ids && Holds(table, d, id) ==> id in r
  {
    if ids == [] || limit == 0 then []
    else if Holds(table, d, ids[0]) then [ids[0]] + Search(table, ids[1..], d, limit - 1)
    else Search(table, ids[1..], d, limit)
  }

  lemma {:induction false} SearchDistinct(table: Table, ids: seq<int>, d: Domain<Term>, limit: nat)
    requires Distinct(ids)
    ensures Distinct(Search(table, ids, d, limit))
  {
    if ids != [] && limit != 0 {
      SearchDistinct(table, ids[1..], d, limit);
      if Holds(table, d, ids[0]) {
        SearchDistinct(table, ids[1..], d, limit - 1);
      }
    }
  }

  /** `_extend_name_results`. */
  function Extend(table: Table, d: Domain<Term>, results: seq<int>, limit: nat): seq<int> {
    if |results| < limit then
      results + Search(table, table.ids, d + [Leaf(IdNotIn(results))], limit - |results|)
    else results
  }

  /** A record is found by one of the domains searched so far. */
  ghost predicate Found(table: Table, ds: seq<Domain<Term>>, id: int) {
    exists d :: d in ds && Holds(table, d, id)
  }

  /**
    What the results are after searching `ds`: the original ones first, nothing twice, never
    extended past the limit, only records that were found, and all of them below the limit.
  */
  ghost predicate Extended(table: Table, ds: seq<Domain<Term>>, limit: nat, original: seq<int>, results: seq<int>) {
    && original <= results
    && (Distinct(original) ==> Distinct(results))
    && (|results| <= limit || results == original)
    && (forall i | |original| <= i < |results| ::
          results[i] in table.ids && results[i] !in original && Found(table, ds, results[i]))
    && (|results| < limit ==> forall id :: id in table.ids && Found(table, ds, id) ==> id in results)
  }

  lemma HoldsNotIn(table: Table, d: Domain<Term>, ids: seq<int>, id: int)
    requires Value(d, table.Sat(id)).Some?
    ensures Holds(table, d + [Leaf(IdNotIn(ids))], id) <==> Holds(table, d, id) && id !in ids
  {
    var last: Domain<Term> := [Leaf(IdNotIn(ids))];
    LeafMeans(IdNotIn(ids), table.Sat(id));
    ConcatMeansBoth(d, last, table.Sat(id));
  }

  lemma LeafMeans(t: Term, sat: Term -> bool)
    ensures Value([Leaf(t)], sat) == Some(sat(t))
  {
    var d: Domain<Term> := [Leaf(t)];
    var b := sat(t);
    assert d[1..] == [] && [b] + [] == [b];
    assert Run(d, sat, []) == Some([b]);
    assert b in [b];
  }

  ghost predicate WellFormed(table: Table, d: Domain<Term>) {
    forall id :: Value(d, table.Sat(id)).Some?
  }

  lemma ExtendDistinct(table: Table, d: Domain<Term>, limit: nat, results: seq<int>)
    requires Distinct(table.ids) && forall id :: Holds(table, d, id) ==> id !in results
    ensures Distinct(results) ==> Distinct(results + Search(table, table.ids, d, limit))
  {
    var more := Search(table, table.ids, d, limit);
    SearchDistinct(table, table.ids, d, limit);
    if Distinct(results) {
      forall i, j | 0 <= i < j < |results + more| ensures (results + more)[i] != (results + more)[j] {
        if i < |results| <= j { assert more[j - |results|] in more; }
      }
    }
  }

  /** One stage keeps the promise, for one more domain. */
  lemma ExtendKeeps(table: Table, ds: seq<Domain<Term>>, d: Domain<Term>, limit: nat, original: seq<int>,
      results: seq<int>)
    requires Distinct(table.ids) && WellFormed(table, d)
    requires Extended(table, ds, limit, original, results)
    ensures Extended(table, ds + [d], limit, original, Extend(table, d, results, limit))
  {
    var r := Extend(table, d, results, limit);
    forall id ensures Found(table, ds + [d], id) <==> Found(table, ds, id) || Holds(table, d, id) {
      assert forall x :: x in ds + [d] <==> x in ds || x == d;
    }
    if |results| < limit {
      var d' := d + [Leaf(IdNotIn(results))];
      var more := Search(table, table.ids, d', limit - |results|);
      forall id ensures Holds(table, d', id) <==> Holds(table, d, id) && id !in results {
        HoldsNotIn(table, d, results, id);
      }
      ExtendDistinct(table, d', limit - |results|, results);
      forall i | |original| <= i < |r|
        ensures r[i] in table.ids && r[i] !in original && Found(table, ds + [d], r[i])
      {
        if i >= |results| {
          assert r[i] in more && Holds(table, d', r[i]) && Holds(table, d, r[i]);
        } else {
          assert r[i] == results[i] && Found(table, ds, results[i]);
        }
      }
    }
  }

  // ----- the staged search -----

  lemma StageWellFormed(table: Table, base: Domain<Term>, t: Term)
    requires WellFormed(table, base)
    ensures WellFormed(table, base + [Leaf(t)])
    ensures forall id :: Holds(table, base + [Leaf(t)], id) <==> Holds(table, base, id) && table.Sat(id)(t)
  {
    forall id
      ensures Value(base + [Leaf(t)], table.Sat(id)).Some?
      ensures Holds(table, base + [Leaf(t)], id) <==> Holds(table, base, id) && table.Sat(id)(t)
    {
      LeafMeans(t, table.Sat(id));
      ConcatMeansBoth(base, [Leaf(t)], table.Sat(id));
    }
  }

  /** Python's `str.replace(" ", "%")`. */
  function Pattern(name: string): string {
    seq(|name|, i requires 0 <= i < |name| => if name[i] == ' ' then '%' else name[i])
  }

  /** A search: the fields, the operator, the name and the class of white space. */
  datatype Query = Query(recName: string, others: seq<string>, operator: string, name: string, space: char -> bool) {
    function Names(): (names: seq<string>)
      ensures names != []
    {
      RecNames(recName, others)
    }

    function Words(): seq<string> {
      Split(space, name)
    }

    /**
      A record matches: one further field has the name, or one field has it with something in place of
      its blanks, or the name has a blank and every run of it without white space is in some field.
    */
    ghost predicate Matches(sat: Term -> bool) {
      || SomeField(others, operator, name, sat)
      || (exists p :: Wildcards(name, p) && SomeField([recName] + others, operator, p, sat))
      || (' ' in name && EveryRun([recName] + others, operator, space, name, sat))
    }
  }

  /** The pattern is the name with a wildcard for each blank. */
  predicate Wildcards(name: string, pattern: string) {
    |pattern| == |name| &&
    forall i | 0 <= i < |name| :: (name[i] == ' ' && pattern[i] == '%') || (name[i] != ' ' && pattern[i] == name[i])
  }

  lemma PatternIs(name: string, pattern: string)
    ensures Wildcards(name, pattern) <==> pattern == Pattern(name)
  {
  }

  /** The domain in the arguments wins over the configured one, because of operator precedence. */
  function BaseDomain(args: Domain<Term>, configured: Domain<Term>): Domain<Term> {
    if args != [] then args else [] + configured
  }

  function FieldDomains(base: Domain<Term>, fields: seq<string>, operator: string, value: string): seq<Domain<Term>> {
    seq(|fields|, i requires 0 <= i < |fields| => base + [Leaf(Field(fields[i], operator, value))])
  }

  /** The domains that are searched, one after the other. */
  function Stages(base: Domain<Term>, q: Query): seq<Domain<Term>> {
    FieldDomains(base, q.Names()[1..], q.operator, q.name)
    + FieldDomains(base, q.Names(), q.operator, Pattern(q.name))
    + (if ' ' in q.name then [base + SmartDomain([], q.Names(), q.operator, q.Words())] else [])
  }

  function ExtendAll(table: Table, ds: seq<Domain<Term>>, results: seq<int>, limit: nat): seq<int>
    decreases |ds|
  {
    if ds == [] then results else ExtendAll(table, ds[1..], Extend(table, ds[0], results, limit), limit)
  }

  predicate IsSmart(q: Query, smart: bool) {
    q.name != [] && smart && q.operator in ALLOWED_OPS
  }

  function Limit(limit: Option<nat>): nat {
    if limit.Some? then limit.value else 0
  }

  /** The results of `_name_search`, given the results `original` of the standard search. */
  function Results(table: Table, args: Domain<Term>, configured: Domain<Term>, q: Query, limit: Option<nat>,
      smart: bool, original: seq<int>): seq<int>
  {
    if !IsSmart(q, smart) then original
    else ExtendAll(table, Stages(BaseDomain(args, configured), q), original, Limit(limit))
  }

  // ----- the loops -----

  /** The loop over single-field stages. */
  method FieldStages(table: Table, base: Domain<Term>, fields: seq<string>, operator: string, value: string, limit: nat,
      before: seq<int>)
    returns (results: seq<int>)
    ensures results == ExtendAll(table, FieldDomains(base, fields, operator, value), before, limit)
  {
    results := before;
    ghost var ds := FieldDomains(base, fields, operator, value);
    for i := 0 to |fields|
      invariant ExtendAll(table, ds[i..], results, limit) == ExtendAll(table, ds, before, limit)
    {
      var domain := base + [Leaf(Field(fields[i], operator, value))];
      assert ds[i..][0] == domain && ds[i..][1..] == ds[i + 1..];
      results := Extend(table, domain, results, limit);
    }
    assert ds[|fields|..] == [];
  }

  lemma {:induction false} ExtendAllConcat(table: Table, a: seq<Domain<Term>>, b: seq<Domain<Term>>, results: seq<int>,
      limit: nat)
    ensures ExtendAll(table, a + b, results, limit) == ExtendAll(table, b, ExtendAll(table, a, results, limit), limit)
    decreases |a|
  {
    if a == [] {
      assert a + b == b;
    } else {
      assert (a + b)[1..] == a[1..] + b;
      ExtendAllConcat(table, a[1..], b, Extend(table, a[0], results, limit), limit);
    }
  }

  /** `_name_search`. */
  method NameSearch(table: Table, args: Domain<Term>, configured: Domain<Term>, recName: string, others: seq<string>,
      operator: string, name: string, space: char -> bool, limit: Option<nat>, smart: bool, original: seq<int>)
    returns (results: seq<int>)
    ensures var q := Query(recName, others, operator, name, space);
            results == Results(table, args, configured, q, limit, smart, original)
  {
    results := original;
    if name != [] && smart && operator in ALLOWED_OPS {
      var max := Limit(limit);
      var base := BaseDomain(args, configured);
      var names := RecNames(recName, others);
      ghost var first := FieldDomains(base, names[1..], operator, name);
      ghost var second := FieldDomains(base, names, operator, Pattern(name));
      ghost var last := [base + SmartDomain([], names, operator, Split(space, name))];
      results := FieldStages(table, base, names[1..], operator, name, max, results);
      results := FieldStages(table, base, names, operator, Pattern(name), max, results);
      ExtendAllConcat(table, first, second, original, max);
      ExtendAllConcat(table, first + second, if ' ' in name then last else [], original, max);
      if ' ' in name && |results| < max {
        var domain := BuildDomain([], names, operator, Split(space, name));
        results := Extend(table, base + domain, results, max);
      }
      assert last[1..] == [];
    }
  }

  // ----- what the search promises -----

  ghost predicate AllWellFormed(table: Table, ds: seq<Domain<Term>>) {
    forall d :: d in ds ==> WellFormed(table, d)
  }

  /** Searching on keeps the promise, for all the further domains. */
  lemma {:induction false} ExtendAllKeeps(table: Table, ds: seq<Domain<Term>>, more: seq<Domain<Term>>, limit: nat,
      original: seq<int>, results: seq<int>)
    requires Distinct(table.ids) && AllWellFormed(table, more)
    requires Extended(table, ds, limit, original, results)
    ensures Extended(table, ds + more, limit, original, ExtendAll(table, more, results, limit))
    decreases |more|
  {
    if more == [] {
      assert ds + more == ds;
    } else {
      assert more[0] in more;
      ExtendKeeps(table, ds, more[0], limit, original, results);
      assert (ds + [more[0]]) + more[1..] == ds + more;
      assert forall d :: d in more[1..] ==> d in more;
      ExtendAllKeeps(table, ds + [more[0]], more[1..], limit, original, Extend(table, more[0], results, limit));
    }
  }

  lemma FieldDomainsFind(table: Table, base: Domain<Term>, fields: seq<string>, operator: string, value: string,
      id: int)
    requires WellFormed(table, base)
    ensures AllWellFormed(table, FieldDomains(base, fields, operator, value))
    ensures Found(table, FieldDomains(base, fields, operator, value), id)
            <==> Holds(table, base, id) && SomeField(fields, operator, value, table.Sat(id))
  {
    var ds := FieldDomains(base, fields, operator, value);
    forall i | 0 <= i < |fields|
      ensures WellFormed(table, ds[i])
      ensures Holds(table, ds[i], id) <==> Holds(table, base, id) && table.Sat(id)(Field(fields[i], operator, value))
    {
      StageWellFormed(table, base, Field(fields[i], operator, value));
    }
    if Holds(table, base, id) && SomeField(fields, operator, value, table.Sat(id)) {
      var i :| 0 <= i < |fields| && table.Sat(id)(Field(fields[i], operator, value));
      assert ds[i] in ds;
    }
  }

  lemma MatchesAre(q: Query, sat: Term -> bool)
    ensures q.Matches(sat) <==>
            || SomeField(q.Names()[1..], q.operator, q.name, sat)
            || SomeField(q.Names(), q.operator, Pattern(q.name), sat)
            || (' ' in q.name && EveryWord(q.Names(), q.operator, q.Words(), sat))
  {
    assert q.Names()[1..] == q.others && q.Names() == [q.recName] + q.others;
    PatternIs(q.name, Pattern(q.name));
    forall p ensures Wildcards(q.name, p) <==> p == Pattern(q.name) {
      PatternIs(q.name, p);
    }
    EveryWordMeans(q.Names(), q.operator, q.space, q.name, sat);
  }

  lemma WordStageFinds(table: Table, base: Domain<Term>, q: Query)
    requires WellFormed(table, base)
    ensures var d := base + SmartDomain([], q.Names(), q.operator, q.Words());
            && WellFormed(table, d)
            && forall id :: Holds(table, d, id) <==>
                              Holds(table, base, id) && EveryWord(q.Names(), q.operator, q.Words(), table.Sat(id))
  {
    var built := SmartDomain([], q.Names(), q.operator, q.Words());
    forall id
      ensures Value(base + built, table.Sat(id)).Some?
      ensures Holds(table, base + built, id) <==>
                Holds(table, base, id) && EveryWord(q.Names(), q.operator, q.Words(), table.Sat(id))
    {
      SmartDomainMeans([], q.recName, q.others, q.operator, q.Words(), table.Sat(id));
      ConcatMeansBoth(base, built, table.Sat(id));
    }
  }

  /** The stages together find the records of the base domain that match. */
  lemma StagesFind(table: Table, base: Domain<Term>, q: Query, id: int)
    requires WellFormed(table, base)
    ensures AllWellFormed(table, Stages(base, q))
    ensures Found(table, Stages(base, q), id) <==> Holds(table, base, id) && q.Matches(table.Sat(id))
  {
    FieldDomainsFind(table, base, q.Names()[1..], q.operator, q.name, id);
    FieldDomainsFind(table, base, q.Names(), q.operator, Pattern(q.name), id);
    WordStageFinds(table, base, q);
    MatchesAre(q, table.Sat(id));
    var first := FieldDomains(base, q.Names()[1..], q.operator, q.name);
    var second := FieldDomains(base, q.Names(), q.operator, Pattern(q.name));
    var last := if ' ' in q.name then [base + SmartDomain([], q.Names(), q.operator, q.Words())] else [];
    assert forall d :: d in Stages(base, q) <==> d in first || d in second || d in last;
  }

  /**
    The original results are a prefix, no record is twice, the limit is never passed, every added
    record satisfies the base domain and matches, and below the limit none of these is missed;
    without a limit nothing is added.
  */
  lemma SearchKeepsItsPromise(table: Table, args: Domain<Term>, configured: Domain<Term>, q: Query, limit: Option<nat>,
      smart: bool, original: seq<int>)
    requires Distinct(table.ids) && WellFormed(table, BaseDomain(args, configured))
    ensures var base := BaseDomain(args, configured);
            var results := Results(table, args, configured, q, limit, smart, original);
            && original <= results
            && (Distinct(original) ==> Distinct(results))
            && (q.name == [] || !smart || (q.operator != "ilike" && q.operator != "like") || limit == None ==>
                  results == original)
            && (limit.Some? ==> |results| <= limit.value || results == original)
            && (forall i | |original| <= i < |results| ::
                  && results[i] in table.ids && results[i] !in original
                  && Holds(table, base, results[i]) && q.Matches(table.Sat(results[i])))
            && (q.name != [] && smart && q.operator in {"ilike", "like"} && limit.Some? && |results| < limit.value ==>
                  forall id | id in table.ids && Holds(table, base, id) && q.Matches(table.Sat(id)) :: id in results)
  {
    var base := BaseDomain(args, configured);
    if IsSmart(q, smart) {
      var ds := Stages(base, q);
      StagesFind(table, base, q, 0);
      assert Extended(table, [], Limit(limit), original, original);
      ExtendAllKeeps(table, [], ds, Limit(limit), original, original);
      assert [] + ds == ds;
      forall id ensures Found(table, ds, id) <==> Holds(table, base, id) && q.Matches(table.Sat(id)) {
        StagesFind(table, base, q, id);
      }
    }
  }

  // ----- the configured domain -----

  ghost predicate KeepsConfigured(table: Table, args: Domain<Term>, configured: Domain<Term>, q: Query,
      limit: Option<nat>, smart: bool, original: seq<int>)
  {
    var results := Results(table, args, configured, q, limit, smart, original);
    forall i | |original| <= i < |results| :: Holds(table, configured, results[i])
  }

  /** The search is not extended, the limit is reached, or every matching record of the domain is there already. */
  ghost predicate NothingToAdd(table: Table, base: Domain<Term>, q: Query, limit: Option<nat>, smart: bool,
      original: seq<int>) {
    || q.name == [] || !smart || (q.operator != "ilike" && q.operator != "like")
    || limit == None || |original| >= limit.value ||
    forall id | id in table.ids && Holds(table, base, id) && q.Matches(table.Sat(id)) :: id in original
  }

  lemma AddsNothingExactly(table: Table, args: Domain<Term>, configured: Domain<Term>, q: Query, limit: Option<nat>,
      smart: bool, original: seq<int>)
    requires Distinct(table.ids) && WellFormed(table, BaseDomain(args, configured))
    ensures Results(table, args, configured, q, limit, smart, original) == original
            <==> NothingToAdd(table, BaseDomain(args, configured), q, limit, smart, original)
  {
    SearchKeepsItsPromise(table, args, configured, q, limit, smart, original);
    var results := Results(table, args, configured, q, limit, smart, original);
    assert |results| > |original| ==> results[|original|] !in original;
  }

  /**
    A search keeps to the configured domain, whatever it is, exactly when the caller gives no domain
    or there is nothing to add: `args or [] + configured` takes the configured domain only for empty
    arguments.
  */
  lemma ConfiguredIsKeptExactly(table: Table, args: Domain<Term>, q: Query, limit: Option<nat>, smart: bool,
      original: seq<int>)
    requires Distinct(table.ids) && WellFormed(table, args)
    ensures (forall configured | WellFormed(table, configured) ::
               KeepsConfigured(table, args, configured, q, limit, smart, original))
            <==> args == [] || NothingToAdd(table, args, q, limit, smart, original)
  {
    if args == [] {
      forall configured | WellFormed(table, configured)
        ensures KeepsConfigured(table, args, configured, q, limit, smart, original)
      {
        assert [] + configured == configured;
        SearchKeepsItsPromise(table, args, configured, q, limit, smart, original);
      }
    } else {
      forall configured: Domain<Term>
        ensures Results(table, args, configured, q, limit, smart, original) == original
                <==> NothingToAdd(table, args, q, limit, smart, original)
      {
        AddsNothingExactly(table, args, configured, q, limit, smart, original);
      }
      NothingIsFalse(table);
      var nothing: Domain<Term> := [Const(false)];
      SearchKeepsItsPromise(table, args, nothing, q, limit, smart, original);
      var results := Results(table, args, nothing, q, limit, smart, original);
      assert results != original ==> |results| > |original| && !Holds(table, nothing, results[|original|]);
      assert KeepsConfigured(table, args, nothing, q, limit, smart, original) ==> results == original;
    }
  }

  /** The FALSE leaf is a domain that no record satisfies. */
  lemma NothingIsFalse(table: Table)
    ensures WellFormed(table, [Const(false)]) && forall id :: !Holds(table, [Const(false)], id)
  {
    forall id ensures Value([Const(false)], table.Sat(id)) == Some(false) {
      var d: Domain<Term> := [Const(false)];
      assert d[1..] == [] && Run(d, table.Sat(id), []) == Some([false] + []);
      assert false in ([false] + []);
    }
  }

  /** A search with a domain of its own adds a record that the configured domain excludes. */
  lemma ConfiguredIsIgnored()
    ensures var active := Field("active", "=", "True");
            var table := Table([1], (id, t) => t != active);
            var q := Query("name", [], "ilike", "x", c => c == ' ');
            var results := Results(table, [Leaf(Field("company", "=", "1"))], [Leaf(active)], q, Some(2), true, []);
            1 in results && !Holds(table, [Leaf(active)], 1)
  {
    var active, company := Field("active", "=", "True"), Field("company", "=", "1");
    var table := Table([1], (id, t) => t != active);
    var q := Query("name", [], "ilike", "x", c => c == ' ');
    var args: Domain<Term> := [Leaf(company)];
    forall id ensures Value(args, table.Sat(id)) == Some(true) && Value([Leaf(active)], table.Sat(id)) == Some(false) {
      LeafMeans(company, table.Sat(id));
      LeafMeans(active, table.Sat(id));
    }
    SearchKeepsItsPromise(table, args, [Leaf(active)], q, Some(2), true, []);
    var results := Results(table, args, [Leaf(active)], q, Some(2), true, []);
    assert Wildcards("x", "x") && "name" in ["name"] + [] && table.Sat(1)(Field("name", "ilike", "x"));
    assert q.Matches(table.Sat(1)) && Holds(table, args, 1);
    AddsNothingExactly(table, args, [Leaf(active)], q, Some(2), true, []);
    assert results[0] in results;
  }
}
