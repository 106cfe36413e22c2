/**
  The cached rule lookup of base_changeset/models/changeset_field_rule.py: rules of a source model
  take precedence over global ones, and the cache is emptied at every change of the rules.
*/
module ChangesetRules {
  import opened Wrappers

  /** A rule on a field of a model; without `source` it is global. */
  datatype Rule = Rule(model: string, field: string, source: Option<string>, active: bool)

  type Rules = map<nat, Rule>

  /** The constraint of the table, and its index for the rules without source. */
  ghost predicate Unique(rules: Rules) {
    forall i, j :: i in rules && j in rules && i != j ==>
      !(rules[i].model == rules[j].model && rules[i].field == rules[j].field && rules[i].source == rules[j].source)
  }

  /** The search domain; archived rules are not found. */
  predicate Matches(r: Rule, model: string, source: Option<string>) {
    r.active && r.model == model && (r.source == source || r.source == None)
  }

  /** What the search returns, in some order with the rules of the source model first. */
  ghost predicate IsFound(found: seq<nat>, rules: Rules, model: string, source: Option<string>) {
    && (forall id :: id in found <==> id in rules && Matches(rules[id], model, source))
    && (forall i, j :: 0 <= i < j < |found| && found[i] in rules && found[j] in rules ==>
          rules[found[i]].source == None ==> rules[found[j]].source == None)
  }

  predicate RuleFor(rules: Rules, id: nat, model: string, source: Option<string>, f: string) {
    id in rules && Matches(rules[id], model, source) && rules[id].field == f
  }

  /** The rule of a field: that of the source model if there is one, else the global one. */
  ghost predicate BestFor(rule: Option<nat>, rules: Rules, model: string, source: Option<string>, f: string) {
    match rule
    case None => forall id :: !RuleFor(rules, id, model, source, f)
    case Some(best) =>
      && RuleFor(rules, best, model, source, f)
      && (rules[best].source == None ==> forall id :: RuleFor(rules, id, model, source, f) ==> rules[id].source == None)
  }

  /** An active rule on the field of the model. */
  predicate IsOn(r: Rule, model: string, f: string) {
    r.active && r.model == model && r.field == f
  }

  /** No answer without a rule for the source model or a global one; a global answer only without the former. */
  lemma BestMeans(rule: Option<nat>, rules: Rules, model: string, source: Option<string>, f: string)
    ensures BestFor(rule, rules, model, source, f) <==>
            match rule
            case None =>
              forall id :: id in rules && IsOn(rules[id], model, f) ==>
                rules[id].source != None && rules[id].source != source
            case Some(best) =>
              && best in rules && IsOn(rules[best], model, f)
              && (rules[best].source == source ||
                  (rules[best].source == None &&
                   forall id :: id in rules && IsOn(rules[id], model, f) ==> rules[id].source != source))
  {
    match rule
    case None =>
      if forall id :: id in rules && IsOn(rules[id], model, f) ==>
           rules[id].source != None && rules[id].source != source {
        forall id ensures !RuleFor(rules, id, model, source, f) {
        }
      }
      if BestFor(rule, rules, model, source, f) {
        forall id | id in rules && IsOn(rules[id], model, f)
          ensures rules[id].source != None && rules[id].source != source
        {
          assert !RuleFor(rules, id, model, source, f);
        }
      }
    case Some(best) =>
      if best in rules && rules[best].source == None && BestFor(rule, rules, model, source, f) {
        forall id | id in rules && IsOn(rules[id], model, f) && rules[id].source == source
          ensures rules[id].source == None
        {
          assert RuleFor(rules, id, model, source, f);
        }
      }
  }

  function At(m: map<string, nat>, f: string): Option<nat> {
    if f in m then Some(m[f]) else None
  }

  ghost predicate IsBest(result: map<string, nat>, rules: Rules, model: string, source: Option<string>) {
    forall f :: BestFor(At(result, f), rules, model, source, f)
  }

  /** There is only one such answer, whatever the order of the search. */
  lemma BestIsUnique(a: map<string, nat>, b: map<string, nat>, rules: Rules, model: string, source: Option<string>)
    requires Unique(rules) && IsBest(a, rules, model, source) && IsBest(b, rules, model, source)
    ensures a == b
  {
    forall f ensures At(a, f) == At(b, f) {
      assert BestFor(At(a, f), rules, model, source, f) && BestFor(At(b, f), rules, model, source, f);
    }
    forall f ensures f in a <==> f in b {
      assert At(a, f) == At(b, f);
    }
    forall f | f in a ensures a[f] == b[f] {
      assert At(a, f) == At(b, f);
    }
  }

  /** The first of the found rules that is for the field. */
  function FirstRule(rules: Rules, found: seq<nat>, n: nat, f: string): Option<nat>
    requires n <= |found| && forall i :: 0 <= i < |found| ==> found[i] in rules
  {
    if n == 0 then None
    else if FirstRule(rules, found, n - 1, f).Some? then FirstRule(rules, found, n - 1, f)
    else if rules[found[n - 1]].field == f then Some(found[n - 1])
    else None
  }

  lemma {:induction false} FirstRuleIs(rules: Rules, found: seq<nat>, n: nat, f: string)
    requires n <= |found| && forall i :: 0 <= i < |found| ==> found[i] in rules
    ensures FirstRule(rules, found, n, f) == None ==> forall i :: 0 <= i < n ==> rules[found[i]].field != f
    ensures FirstRule(rules, found, n, f).Some? ==>
              exists i :: 0 <= i < n && FirstRule(rules, found, n, f) == Some(found[i]) && rules[found[i]].field == f
                && forall j :: 0 <= j < i ==> rules[found[j]].field != f
  {
    if n > 0 {
      FirstRuleIs(rules, found, n - 1, f);
      if FirstRule(rules, found, n - 1, f) == None && rules[found[n - 1]].field == f {
        assert FirstRule(rules, found, n, f) == Some(found[n - 1]);
      }
    }
  }

  lemma FirstRuleIsBest(rules: Rules, found: seq<nat>, model: string, source: Option<string>, f: string)
    requires IsFound(found, rules, model, source)
    requires forall i :: 0 <= i < |found| ==> found[i] in rules
    ensures BestFor(FirstRule(rules, found, |found|, f), rules, model, source, f)
  {
    var first := FirstRule(rules, found, |found|, f);
    FirstRuleIs(rules, found, |found|, f);
    if first.Some? {
      assert first.value in found;
    }
    forall id | RuleFor(rules, id, model, source, f)
      ensures first.Some? && (rules[first.value].source == None ==> rules[id].source == None)
    {
      assert id in found;
    }
  }

  datatype CacheKey = CacheKey(model: string, source: Option<string>)

  /** The rules and the ORM cache of `_get_rules`. */
  class RuleBase {
    var rules: Rules
    var cache: map<CacheKey, map<string, nat>>

    ghost predicate Valid()
      reads this
    {
      Unique(rules) && forall k :: k in cache ==> IsBest(cache[k], rules, k.model, k.source)
    }

    constructor ()
      ensures Valid() && rules == map[]
    {
      rules, cache := map[], map[];
    }

    /** The loop of `_get_rules` over the rules that were found. */
    method CollectRules(found: seq<nat>, model: string, source: Option<string>) returns (result: map<string, nat>)
      requires IsFound(found, rules, model, source)
      ensures IsBest(result, rules, model, source)
    {
      result := map[];
      assert forall i :: 0 <= i < |found| ==> found[i] in found;
      for n := 0 to |found|
        invariant forall i :: 0 <= i < |found| ==> found[i] in rules
        invariant forall f :: At(result, f) == FirstRule(rules, found, n, f)
      {
        var field := rules[found[n]].field;
        assert At(result, field) == FirstRule(rules, found, n, field);
        if field !in result {
          result := result[field := found[n]];
        }
      }
      forall f ensures BestFor(At(result, f), rules, model, source, f) {
        FirstRuleIsBest(rules, found, model, source, f);
      }
    }

    /** `get_rules`: what the current rules say, cached or not. */
    method GetRules(found: seq<nat>, model: string, source: Option<string>) returns (result: map<string, nat>)
      requires Valid() && IsFound(found, rules, model, source)
      modifies this`cache
      ensures Valid() && IsBest(result, rules, model, source)
      ensures cache == old(cache)[CacheKey(model, source) := result]
    {
      var key := CacheKey(model, source);
      if key in cache {
        return cache[key];
      }
      result := CollectRules(found, model, source);
      cache := cache[key := result];
    }

    /** `create`, `write` and `unlink`; a change that the constraint refuses raises. */
    method Change(changed: Rules, allowed: bool) returns (ok: bool)
      requires Valid() && (allowed <==> Unique(changed))
      modifies this
      ensures Valid() && ok == allowed && rules == if ok then changed else old(rules)
    {
      ok := allowed;
      if ok {
        rules := changed;
        cache := map[];
      }
    }
  }
}
