/**
  Greedy matching of two lists by key, the algorithm behind the `match` closures of the
  upgrade comparison.  A key function may leave a record without a key; such a record
  never matches.
*/
module Matching {
  import opened Wrappers

  predicate Fits<A, B, K(==)>(f: A -> Option<K>, g: B -> Option<K>, a: A, b: B) {
    f(a).Some? && f(a) == g(b)
  }

  /** The first record of `s` that fits `a`. */
  function FirstFit<A, B, K(==)>(f: A -> Option<K>, g: B -> Option<K>, a: A, s: seq<B>): (r: Option<B>)
    ensures r.Some? ==> r.value in s && Fits(f, g, a, r.value)
    ensures r.None? ==> forall b :: b in s ==> !Fits(f, g, a, b)
  {
    if s == [] then None
    else if Fits(f, g, a, s[0]) then Some(s[0])
    else FirstFit(f, g, a, s[1..])
  }

  /** Python's `list.remove`, for an item that is in the list. */
  function Remove<T(==)>(s: seq<T>, x: T): (r: seq<T>)
    requires x in s
    ensures multiset(r) == multiset(s) - multiset{x}
    ensures |r| == |s| - 1
  {
    assert s == [s[0]] + s[1..];
    if s[0] == x then s[1..] else [s[0]] + Remove(s[1..], x)
  }

  /** The two lists a pass shrinks, and the pairs it has taken so far. */
  datatype Lists<A, B> = Lists(olds: seq<A>, news: seq<B>, pairs: seq<(A, B)>)

  function Step<A(==), B(==), K(==)>(f: A -> Option<K>, g: B -> Option<K>, a: A, ls: Lists<A, B>): Lists<A, B>
    requires a in ls.olds
  {
    match FirstFit(f, g, a, ls.news)
    case None => ls
    case Some(b) => Lists(Remove(ls.olds, a), Remove(ls.news, b), ls.pairs + [(a, b)])
  }

  /** One pass over a copy `todo` of the old list. */
  function Pass<A(==), B(==), K(==)>(f: A -> Option<K>, g: B -> Option<K>, todo: seq<A>, ls: Lists<A, B>): Lists<A, B>
    requires multiset(todo) <= multiset(ls.olds)
    decreases |todo|
  {
    if todo == [] then ls
    else
      StepKeepsTodo(f, g, todo, ls);
      Pass(f, g, todo[1..], Step(f, g, todo[0], ls))
  }

  lemma StepKeepsTodo<A, B, K>(f: A -> Option<K>, g: B -> Option<K>, todo: seq<A>, ls: Lists<A, B>)
    requires todo != [] && multiset(todo) <= multiset(ls.olds)
    ensures todo[0] in ls.olds
    ensures multiset(todo[1..]) <= multiset(Step(f, g, todo[0], ls).olds)
  {
    assert todo == [todo[0]] + todo[1..];
    assert todo[0] in multiset(todo);
  }

  // ----- keys -----

  function KeyOf<A, K>(f: A -> Option<K>, a: A): multiset<K> {
    match f(a) case None => multiset{} case Some(k) => multiset{k}
  }

  /** The keys of a list, each as often as it occurs. */
  function Keys<A, K>(f: A -> Option<K>, s: seq<A>): multiset<K> {
    if s == [] then multiset{} else KeyOf(f, s[0]) + Keys(f, s[1..])
  }

  function Firsts<A, B>(ps: seq<(A, B)>): (r: seq<A>)
    ensures |r| == |ps|
  {
    seq(|ps|, i requires 0 <= i < |ps| => ps[i].0)
  }

  function Seconds<A, B>(ps: seq<(A, B)>): (r: seq<B>)
    ensures |r| == |ps|
  {
    seq(|ps|, i requires 0 <= i < |ps| => ps[i].1)
  }

  ghost predicate AllFit<A, B, K>(f: A -> Option<K>, g: B -> Option<K>, ps: seq<(A, B)>) {
    forall p :: p in ps ==> Fits(f, g, p.0, p.1)
  }

  lemma {:induction false} KeysOfRemove<A, K>(f: A -> Option<K>, s: seq<A>, x: A)
    requires x in s
    ensures Keys(f, s) == KeyOf(f, x) + Keys(f, Remove(s, x))
  {
    if s[0] != x {
      KeysOfRemove(f, s[1..], x);
      assert Remove(s, x)[1..] == Remove(s[1..], x);
    }
  }

  lemma {:induction false} KeysHas<A, K>(f: A -> Option<K>, s: seq<A>, k: K)
    ensures k in Keys(f, s) <==> exists a :: a in s && f(a) == Some(k)
  {
    if s != [] {
      KeysHas(f, s[1..], k);
      assert forall a :: a in s <==> a == s[0] || a in s[1..];
    }
  }

  lemma {:induction false} KeysMonotone<A, K>(f: A -> Option<K>, s: seq<A>, t: seq<A>)
    requires multiset(s) <= multiset(t)
    ensures Keys(f, s) <= Keys(f, t)
    decreases |s|
  {
    if s != [] {
      assert s == [s[0]] + s[1..];
      assert s[0] in multiset(t);
      KeysOfRemove(f, t, s[0]);
      KeysMonotone(f, s[1..], Remove(t, s[0]));
    }
  }

  lemma KeysIgnoreOrder<A, K>(f: A -> Option<K>, s: seq<A>, t: seq<A>)
    requires multiset(s) == multiset(t)
    ensures Keys(f, s) == Keys(f, t)
  {
    KeysMonotone(f, s, t);
    KeysMonotone(f, t, s);
  }

  // ----- what a pass does -----

  /** Taking key `k` out of both sides takes it out of the shared keys, once. */
  lemma SharedWithOne<K>(k: K, m: multiset<K>, n: multiset<K>)
    requires k in n
    ensures (multiset{k} + m) * n == m * (n - multiset{k}) + multiset{k}
  {
  }

  lemma TakeFromBoth<K>(k: K, n: multiset<K>, shared: multiset<K>, x: multiset<K>, y: multiset<K>)
    requires shared <= n - multiset{k} && k in n
    requires x + shared == y
    ensures n - multiset{k} - shared == n - (shared + multiset{k})
    ensures x + (shared + multiset{k}) == multiset{k} + y
    ensures |shared + multiset{k}| == |shared| + 1
  {
  }

  lemma SharedWithoutOne<K>(k: K, m: multiset<K>, n: multiset<K>)
    requires k !in n
    ensures (multiset{k} + m) * n == m * n
  {
  }

  ghost predicate TakesShared<A, B, K>(f: A -> Option<K>, g: B -> Option<K>, m: multiset<K>, ls: Lists<A, B>,
      r: Lists<A, B>)
  {
    && |r.pairs| == |ls.pairs| + |m|
    && Keys(g, r.news) == Keys(g, ls.news) - m
    && Keys(f, r.olds) + m == Keys(f, ls.olds)
  }

  /** Matching removes exactly the keys the two sides share, and makes one pair of each. */
  lemma {:induction false} PassTakesSharedKeys<A, B, K>(f: A -> Option<K>, g: B -> Option<K>, todo: seq<A>,
      ls: Lists<A, B>)
    requires multiset(todo) <= multiset(ls.olds)
    ensures TakesShared(f, g, Keys(f, todo) * Keys(g, ls.news), ls, Pass(f, g, todo, ls))
    decreases |todo|
  {
    if todo != [] {
      var a := todo[0];
      StepKeepsTodo(f, g, todo, ls);
      var ls' := Step(f, g, a, ls);
      PassTakesSharedKeys(f, g, todo[1..], ls');
      StepTakesShared(f, g, a, Keys(f, todo[1..]), ls, Pass(f, g, todo[1..], ls'));
    }
  }

  lemma StepTakesShared<A, B, K>(f: A -> Option<K>, g: B -> Option<K>, a: A, rest: multiset<K>, ls: Lists<A, B>,
      r: Lists<A, B>)
    requires a in ls.olds
    requires var ls' := Step(f, g, a, ls); TakesShared(f, g, rest * Keys(g, ls'.news), ls', r)
    ensures TakesShared(f, g, (KeyOf(f, a) + rest) * Keys(g, ls.news), ls, r)
  {
    match FirstFit(f, g, a, ls.news)
    case Some(b) =>
      TakenKeyIsShared(f, g, a, b, rest, ls, r);
    case None =>
      if f(a).Some? {
        KeysHas(g, ls.news, f(a).value);
        SharedWithoutOne(f(a).value, rest, Keys(g, ls.news));
      } else {
        assert KeyOf(f, a) + rest == rest;
      }
  }

  lemma TakenKeyIsShared<A, B, K>(f: A -> Option<K>, g: B -> Option<K>, a: A, b: B, rest: multiset<K>, ls: Lists<A, B>,
      r: Lists<A, B>)
    requires a in ls.olds && b in ls.news && Fits(f, g, a, b)
    requires var ls' := Lists(Remove(ls.olds, a), Remove(ls.news, b), ls.pairs + [(a, b)]);
             TakesShared(f, g, rest * Keys(g, ls'.news), ls', r)
    ensures TakesShared(f, g, (KeyOf(f, a) + rest) * Keys(g, ls.news), ls, r)
  {
    var k, them, them' := f(a).value, Keys(g, ls.news), Keys(g, Remove(ls.news, b));
    var shared := rest * them';
    KeysOfRemove(f, ls.olds, a);
    KeysOfRemove(g, ls.news, b);
    assert them == multiset{k} + them';
    assert them - multiset{k} == them' && k in them;
    SharedWithOne(k, rest, them);
    TakeFromBoth(k, them, shared, Keys(f, r.olds), Keys(f, Remove(ls.olds, a)));
  }

  /** From `ls` to `r`, fitting records went from the lists to new pairs; nothing else changed. */
  ghost predicate Moves<A, B, K>(f: A -> Option<K>, g: B -> Option<K>, ls: Lists<A, B>, r: Lists<A, B>) {
    && ls.pairs <= r.pairs
    && var added := r.pairs[|ls.pairs|..];
    && AllFit(f, g, added)
    && multiset(ls.olds) == multiset(r.olds) + multiset(Firsts(added))
    && multiset(ls.news) == multiset(r.news) + multiset(Seconds(added))
  }

  lemma FirstsOfConcat<A, B>(ps: seq<(A, B)>, qs: seq<(A, B)>)
    ensures Firsts(ps + qs) == Firsts(ps) + Firsts(qs)
    ensures Seconds(ps + qs) == Seconds(ps) + Seconds(qs)
  {
  }

  lemma RemoveAndBack<T>(s: seq<T>, x: T)
    requires x in s
    ensures multiset(s) == multiset(Remove(s, x)) + multiset([x])
  {
    assert x in multiset(s);
  }

  lemma TakeMoves<A, B, K>(f: A -> Option<K>, g: B -> Option<K>, a: A, b: B, ls: Lists<A, B>)
    requires a in ls.olds && b in ls.news && Fits(f, g, a, b)
    ensures Moves(f, g, ls, Lists(Remove(ls.olds, a), Remove(ls.news, b), ls.pairs + [(a, b)]))
  {
    var p, pairs := (a, b), ls.pairs + [(a, b)];
    RemoveAndBack(ls.olds, a);
    RemoveAndBack(ls.news, b);
    assert pairs[|ls.pairs|..] == [p];
    assert Firsts([p]) == [a] && Seconds([p]) == [b];
  }

  lemma StepMoves<A, B, K>(f: A -> Option<K>, g: B -> Option<K>, a: A, ls: Lists<A, B>)
    requires a in ls.olds
    ensures Moves(f, g, ls, Step(f, g, a, ls))
  {
    match FirstFit(f, g, a, ls.news)
    case Some(b) => TakeMoves(f, g, a, b, ls);
    case None => NothingMoves(f, g, ls);
  }

  lemma NothingMoves<A, B, K>(f: A -> Option<K>, g: B -> Option<K>, ls: Lists<A, B>)
    ensures Moves(f, g, ls, ls)
  {
    assert ls.pairs[|ls.pairs|..] == [];
  }

  lemma MovesTransitive<A, B, K>(f: A -> Option<K>, g: B -> Option<K>, ls: Lists<A, B>, mid: Lists<A, B>,
      r: Lists<A, B>)
    requires Moves(f, g, ls, mid) && Moves(f, g, mid, r)
    ensures Moves(f, g, ls, r)
  {
    var ps, qs := mid.pairs[|ls.pairs|..], r.pairs[|mid.pairs|..];
    assert r.pairs[|ls.pairs|..] == ps + qs;
    FirstsOfConcat(ps, qs);
    assert multiset(ls.olds) == multiset(r.olds) + (multiset(Firsts(ps)) + multiset(Firsts(qs)));
    assert multiset(ls.news) == multiset(r.news) + (multiset(Seconds(ps)) + multiset(Seconds(qs)));
  }

  /** A pass conserves records: each one stays in its list or is in exactly one new pair. */
  lemma {:induction false} PassMoves<A, B, K>(f: A -> Option<K>, g: B -> Option<K>, todo: seq<A>, ls: Lists<A, B>)
    requires multiset(todo) <= multiset(ls.olds)
    ensures Moves(f, g, ls, Pass(f, g, todo, ls))
    decreases |todo|
  {
    if todo == [] {
      NothingMoves(f, g, ls);
    } else {
      StepKeepsTodo(f, g, todo, ls);
      var ls' := Step(f, g, todo[0], ls);
      StepMoves(f, g, todo[0], ls);
      PassMoves(f, g, todo[1..], ls');
      MovesTransitive(f, g, ls, ls', Pass(f, g, todo[1..], ls'));
    }
  }

  /** After a pass over the whole old list no fitting pair is left. */
  lemma NoPairLeft<A, B, K>(f: A -> Option<K>, g: B -> Option<K>, ls: Lists<A, B>, a: A, b: B)
    requires a in Pass(f, g, ls.olds, ls).olds && b in Pass(f, g, ls.olds, ls).news
    ensures !Fits(f, g, a, b)
  {
    PassTakesSharedKeys(f, g, ls.olds, ls);
    if Fits(f, g, a, b) {
      var r := Pass(f, g, ls.olds, ls);
      KeysHas(f, r.olds, f(a).value);
      KeysHas(g, r.news, f(a).value);
      assert false;
    }
  }

  lemma {:induction false} FittingPairsShareKeys<A, B, K>(f: A -> Option<K>, g: B -> Option<K>, ps: seq<(A, B)>)
    requires AllFit(f, g, ps)
    ensures Keys(f, Firsts(ps)) == Keys(g, Seconds(ps))
    ensures |Keys(f, Firsts(ps))| == |ps|
    decreases |ps|
  {
    if ps != [] {
      assert ps[0] in ps;
      assert Firsts(ps)[1..] == Firsts(ps[1..]);
      assert Seconds(ps)[1..] == Seconds(ps[1..]);
      FittingPairsShareKeys(f, g, ps[1..]);
    }
  }

  /** The pass is optimal: any other way to pair off records of the two lists is no larger. */
  lemma PassIsMaximum<A, B, K>(f: A -> Option<K>, g: B -> Option<K>, ls: Lists<A, B>, other: seq<(A, B)>)
    requires ls.pairs == []
    requires AllFit(f, g, other)
    requires multiset(Firsts(other)) <= multiset(ls.olds)
    requires multiset(Seconds(other)) <= multiset(ls.news)
    ensures |other| <= |Pass(f, g, ls.olds, ls).pairs|
  {
    PassTakesSharedKeys(f, g, ls.olds, ls);
    FittingPairsShareKeys(f, g, other);
    KeysMonotone(f, Firsts(other), ls.olds);
    KeysMonotone(g, Seconds(other), ls.news);
    var shared := Keys(f, ls.olds) * Keys(g, ls.news);
    assert Keys(f, Firsts(other)) <= shared;
    SubMultisetSize(Keys(f, Firsts(other)), shared);
  }

  lemma SubMultisetSize<K>(m: multiset<K>, n: multiset<K>)
    requires m <= n
    ensures |m| <= |n|
  {
    assert n == m + (n - m);
  }

  /** The number of matches does not depend on the order of either list. */
  lemma PassIgnoresOrder<A, B, K>(f: A -> Option<K>, g: B -> Option<K>, ls: Lists<A, B>, ls': Lists<A, B>)
    requires multiset(ls.olds) == multiset(ls'.olds) && multiset(ls.news) == multiset(ls'.news)
    requires |ls.pairs| == |ls'.pairs|
    ensures |Pass(f, g, ls.olds, ls).pairs| == |Pass(f, g, ls'.olds, ls').pairs|
  {
    PassTakesSharedKeys(f, g, ls.olds, ls);
    PassTakesSharedKeys(f, g, ls'.olds, ls');
    KeysIgnoreOrder(f, ls.olds, ls'.olds);
    KeysIgnoreOrder(g, ls.news, ls'.news);
  }
}
