/**
  Search domains in prefix notation, with their meaning.  A domain is read from right to left
  with a stack; what is left on the stack at the end is joined by an implicit AND.
*/
module Domains {
  import opened Wrappers

  datatype Op = And | Or {
    function Other(): Op { if this == And then Or else And }
  }

  /** `Const` stands for the TRUE and FALSE leaves. */
  datatype Token<T> = Oper(op: Op) | Not | Leaf(term: T) | Const(value: bool)

  type Domain<T> = seq<Token<T>>

  function Do(op: Op, a: bool, b: bool): bool {
    match op case And => a && b case Or => a || b
  }

  function Push<T>(tok: Token<T>, sat: T -> bool, s: seq<bool>): Option<seq<bool>> {
    match tok
    case Leaf(t) => Some([sat(t)] + s)
    case Const(b) => Some([b] + s)
    case Not => if |s| < 1 then None else Some([!s[0]] + s[1..])
    case Oper(op) => if |s| < 2 then None else Some([Do(op, s[0], s[1])] + s[2..])
  }

  /** The stack after reading `d` from right to left, or None when an operator lacks operands. */
  function Run<T>(d: Domain<T>, sat: T -> bool, s: seq<bool>): Option<seq<bool>> {
    if d == [] then Some(s)
    else match Run(d[1..], sat, s)
      case None => None
      case Some(t) => Push(d[0], sat, t)
  }

  function AllTrue(s: seq<bool>): bool {
    forall b | b in s :: b
  }

  /** What a domain says of a record, or None when it is malformed. */
  function Value<T>(d: Domain<T>, sat: T -> bool): Option<bool> {
    match Run(d, sat, [])
    case None => None
    case Some(s) => Some(AllTrue(s))
  }

  // ----- the height of the stack, which does not depend on the record -----

  function Height<T>(d: Domain<T>, n: nat): Option<nat> {
    if d == [] then Some(n)
    else match Height(d[1..], n)
      case None => None
      case Some(k) =>
        match d[0]
        case Leaf(_) => Some(k + 1)
        case Const(_) => Some(k + 1)
        case Not => if k < 1 then None else Some(k)
        case Oper(_) => if k < 2 then None else Some(k - 1)
  }

  /** A normalized domain has exactly one value. */
  predicate Normalized<T>(d: Domain<T>) {
    Height(d, 0) == Some(1)
  }

  lemma {:induction false} RunHasHeight<T>(d: Domain<T>, sat: T -> bool, s: seq<bool>)
    ensures Run(d, sat, s).Some? <==> Height(d, |s|).Some?
    ensures Run(d, sat, s).Some? ==> |Run(d, sat, s).value| == Height(d, |s|).value
  {
    if d != [] {
      RunHasHeight(d[1..], sat, s);
    }
  }

  lemma {:induction false} RunConcat<T>(a: Domain<T>, b: Domain<T>, sat: T -> bool, s: seq<bool>)
    ensures Run(a + b, sat, s) == match Run(b, sat, s) case None => None case Some(t) => Run(a, sat, t)
  {
    if a == [] {
      assert a + b == b;
    } else {
      assert (a + b)[1..] == a[1..] + b;
      RunConcat(a[1..], b, sat, s);
    }
  }

  /** A domain that runs on the empty stack leaves any stack below it alone. */
  lemma {:induction false} RunFrame<T>(d: Domain<T>, sat: T -> bool, s: seq<bool>)
    requires Run(d, sat, []).Some?
    ensures Run(d, sat, s) == Some(Run(d, sat, []).value + s)
  {
    if d == [] {
      assert [] + s == s;
    } else {
      RunFrame(d[1..], sat, s);
      PushFrame(d[0], sat, Run(d[1..], sat, []).value, s);
    }
  }

  lemma PushFrame<T>(tok: Token<T>, sat: T -> bool, t: seq<bool>, s: seq<bool>)
    requires Push(tok, sat, t).Some?
    ensures Push(tok, sat, t + s) == Some(Push(tok, sat, t).value + s)
  {
    match tok
    case Leaf(x) => assert [sat(x)] + (t + s) == [sat(x)] + t + s;
    case Const(b) => assert [b] + (t + s) == [b] + t + s;
    case Not => assert [!t[0]] + (t + s)[1..] == [!t[0]] + t[1..] + s;
    case Oper(op) =>
      var x := [Do(op, t[0], t[1])];
      assert (t + s)[0] == t[0] && (t + s)[1] == t[1];
      assert x + (t + s)[2..] == x + t[2..] + s;
  }

  lemma OneMeans<T>(d: Domain<T>, sat: T -> bool, b: bool)
    requires Run(d, sat, []) == Some([b])
    ensures Value(d, sat) == Some(b)
  {
    assert b in [b];
  }

  /** A leaf says what its term does, a constant its value, and NOT the opposite of the domain behind it. */
  lemma TermsMean<T>(t: T, b: bool, d: Domain<T>, sat: T -> bool)
    requires Normalized(d)
    ensures Value([Leaf(t)], sat) == Some(sat(t))
    ensures Value([Token<T>.Const(b)], sat) == Some(b)
    ensures Value([Not] + d, sat) == Some(!OneValue(d, sat)) && Value(d, sat) == Some(OneValue(d, sat))
  {
    var leaf: Domain<T>, const_: Domain<T> := [Leaf(t)], [Const(b)];
    assert leaf[1..] == [] && const_[1..] == [] && [sat(t)] + [] == [sat(t)] && [b] + [] == [b];
    OneMeans(leaf, sat, sat(t));
    OneMeans(const_, sat, b);
    var v := OneValue(d, sat);
    assert ([Not] + d)[1..] == d && [v][1..] == [] && [!v] + [] == [!v];
    OneMeans(d, sat, v);
    OneMeans([Not] + d, sat, !v);
  }

  // ----- AND and OR of a list of domains -----

  function Operators<T>(op: Op, n: nat): Domain<T> {
    seq(n, _ => Oper(op))
  }

  function Concat<T>(ds: seq<Domain<T>>): Domain<T> {
    if ds == [] then [] else ds[0] + Concat(ds[1..])
  }

  /** The TRUE domain is the unit of AND and the zero of OR, the FALSE domain the other way round. */
  function Unit<T>(op: Op): Domain<T> {
    [Const(op == And)]
  }

  predicate IsUnit<T>(op: Op, d: Domain<T>) {
    |d| == 1 && d[0].Const? && d[0].value == (op == And)
  }

  predicate HasZero<T>(op: Op, ds: seq<Domain<T>>) {
    exists i | 0 <= i < |ds| :: IsUnit(op.Other(), ds[i])
  }

  /** The operands that count: units and empty domains are skipped. */
  function Kept<T>(op: Op, ds: seq<Domain<T>>): seq<Domain<T>> {
    if ds == [] then []
    else if ds[0] == [] || IsUnit(op, ds[0]) then Kept(op, ds[1..])
    else [ds[0]] + Kept(op, ds[1..])
  }

  /** One operator less than there are operands, then the operands. */
  function Joined<T>(op: Op, ds: seq<Domain<T>>): Domain<T>
    requires ds != []
  {
    Operators(op, |ds| - 1) + Concat(ds)
  }

  /** `AND` and `OR`: a zero absorbs everything, and without operands the unit is left. */
  function Combine<T>(op: Op, ds: seq<Domain<T>>): Domain<T> {
    if HasZero(op, ds) then Unit(op.Other())
    else if Kept(op, ds) == [] then Unit(op)
    else Joined(op, Kept(op, ds))
  }

  lemma {:induction false} KeptConcat<T>(op: Op, a: seq<Domain<T>>, b: seq<Domain<T>>)
    ensures Kept(op, a + b) == Kept(op, a) + Kept(op, b)
    ensures HasZero(op, a + b) <==> HasZero(op, a) || HasZero(op, b)
    decreases |a|
  {
    var all := a + b;
    assert HasZero(op, a) || HasZero(op, b) ==> HasZero(op, all) by {
      assert forall i | 0 <= i < |a| :: all[i] == a[i];
      assert forall i | 0 <= i < |b| :: all[|a| + i] == b[i];
    }
    if a == [] {
      assert all == b;
    } else {
      assert all[1..] == a[1..] + b;
      KeptConcat(op, a[1..], b);
      assert [a[0]] + Kept(op, a[1..]) + Kept(op, b) == [a[0]] + (Kept(op, a[1..]) + Kept(op, b));
    }
  }

  /** Empty operands and units make no difference, and a zero makes the result a zero. */
  lemma CombineSkips<T>(op: Op, a: seq<Domain<T>>, d: Domain<T>, b: seq<Domain<T>>)
    ensures d == [] || IsUnit(op, d) ==> Combine(op, a + ([d] + b)) == Combine(op, a + b)
    ensures IsUnit(op.Other(), d) ==> Combine(op, a + ([d] + b)) == d
  {
    KeptConcat(op, a, [d] + b);
    KeptConcat(op, [d], b);
    KeptConcat(op, a, b);
    assert [d][1..] == [] && [] + Kept(op, b) == Kept(op, b);
    assert HasZero(op, [d]) <==> IsUnit(op.Other(), [d][0]);
    if IsUnit(op.Other(), d) {
      assert d == Unit(op.Other());
    }
  }

  function Fold(op: Op, bs: seq<bool>): bool {
    match op
    case And => forall b | b in bs :: b
    case Or => exists b | b in bs :: b
  }

  lemma FoldSnoc(op: Op, bs: seq<bool>, b: bool)
    requires bs != []
    ensures Fold(op, bs + [b]) == Do(op, Fold(op, bs), b)
  {
    var all := bs + [b];
    assert forall x :: x in all <==> x in bs || x == b;
    if Do(Or, Fold(Or, bs), b) {
      var x :| x in all && x;
    }
  }

  /** n operators join the n+1 topmost values. */
  lemma {:induction false} RunOperators<T>(op: Op, n: nat, sat: T -> bool, bs: seq<bool>, s: seq<bool>)
    requires |bs| == n + 1
    ensures Run(Operators<T>(op, n), sat, bs + s) == Some([Fold(op, bs)] + s)
    decreases n
  {
    if n == 0 {
      assert bs == [bs[0]];
      assert Fold(op, [bs[0]]) == bs[0] by { assert bs[0] in [bs[0]]; }
    } else {
      var front, last := bs[..n], bs[n];
      assert bs == front + [last] && bs + s == front + ([last] + s);
      assert Operators<T>(op, n)[1..] == Operators<T>(op, n - 1);
      RunOperators<T>(op, n - 1, sat, front, [last] + s);
      FoldSnoc(op, front, last);
      var t := [Fold(op, front)] + ([last] + s);
      assert t[0] == Fold(op, front) && t[1] == last && t[2..] == s;
    }
  }

  function OneValue<T>(d: Domain<T>, sat: T -> bool): (b: bool)
    requires Normalized(d)
    ensures Run(d, sat, []) == Some([b])
  {
    RunHasHeight(d, sat, []);
    var s := Run(d, sat, []).value;
    assert s == [s[0]];
    s[0]
  }

  ghost predicate AllNormalized<T>(ds: seq<Domain<T>>) {
    forall d :: d in ds ==> Normalized(d)
  }

  /** The values of normalized operands, in order. */
  ghost function Values<T>(ds: seq<Domain<T>>, sat: T -> bool): (bs: seq<bool>)
    requires AllNormalized(ds)
  {
    if ds == [] then [] else [OneValue(ds[0], sat)] + Values(ds[1..], sat)
  }

  lemma {:induction false} RunConcatAll<T>(ds: seq<Domain<T>>, sat: T -> bool)
    requires AllNormalized(ds)
    ensures Run(Concat(ds), sat, []) == Some(Values(ds, sat))
  {
    if ds != [] {
      RunConcatAll(ds[1..], sat);
      RunConcat(ds[0], Concat(ds[1..]), sat, []);
      var b := OneValue(ds[0], sat);
      RunFrame(ds[0], sat, Values(ds[1..], sat));
      assert Values(ds, sat) == [b] + Values(ds[1..], sat);
    }
  }

  lemma {:induction false} ValuesLength<T>(ds: seq<Domain<T>>, sat: T -> bool)
    requires AllNormalized(ds)
    ensures |Values(ds, sat)| == |ds|
  {
    if ds != [] {
      ValuesLength(ds[1..], sat);
    }
  }

  lemma FoldCons(op: Op, b: bool, bs: seq<bool>)
    ensures Fold(op, [b] + bs) == Do(op, b, Fold(op, bs))
  {
    var all := [b] + bs;
    assert forall x :: x in all <==> x == b || x in bs;
    if Do(Or, b, Fold(Or, bs)) {
      var x :| x in all && x;
    }
  }

  lemma UnitMeans<T>(op: Op, d: Domain<T>, sat: T -> bool)
    requires IsUnit(op, d)
    ensures Run(d, sat, []) == Some([op == And]) && Value(d, sat) == Some(op == And)
  {
    assert d[1..] == [] && [op == And] + [] == [op == And];
    assert (op == And) in [op == And];
  }

  /** Skipped operands and absorbed ones make no difference. */
  lemma {:induction false} KeptMeans<T>(op: Op, ds: seq<Domain<T>>, sat: T -> bool)
    requires AllNormalized(ds)
    ensures AllNormalized(Kept(op, ds))
    ensures Fold(op, Values(Kept(op, ds), sat)) == Fold(op, Values(ds, sat))
    ensures HasZero(op, ds) ==> Fold(op, Values(ds, sat)) == (op == Or)
  {
    if ds != [] {
      var d, rest := ds[0], ds[1..];
      assert AllNormalized(rest) by { assert forall x :: x in rest ==> x in ds; }
      assert Normalized(d) by { assert d in ds; }
      KeptMeans(op, rest, sat);
      FoldCons(op, OneValue(d, sat), Values(rest, sat));
      if IsUnit(op, d) {
        UnitMeans(op, d, sat);
      } else {
        assert ([d] + Kept(op, rest))[1..] == Kept(op, rest);
        assert AllNormalized(Kept(op, ds)) by {
          assert forall x :: x in [d] + Kept(op, rest) <==> x == d || x in Kept(op, rest);
        }
        FoldCons(op, OneValue(d, sat), Values(Kept(op, rest), sat));
      }
      if HasZero(op, ds) {
        var i :| 0 <= i < |ds| && IsUnit(op.Other(), ds[i]);
        if i == 0 {
          UnitMeans(op.Other(), d, sat);
        } else {
          assert rest[i - 1] == ds[i];
        }
      }
    }
  }

  /** AND is true when every operand is, OR when some operand is. */
  lemma CombineMeans<T>(op: Op, ds: seq<Domain<T>>, sat: T -> bool)
    requires AllNormalized(ds)
    ensures Value(Combine(op, ds), sat) == Some(Fold(op, Values(ds, sat)))
  {
    var b, kept := Fold(op, Values(ds, sat)), Kept(op, ds);
    KeptMeans(op, ds, sat);
    if HasZero(op, ds) {
      UnitMeans<T>(op.Other(), Unit(op.Other()), sat);
    } else if kept == [] {
      UnitMeans<T>(op, Unit(op), sat);
    } else {
      RunJoined(op, kept, sat);
    }
    assert b in [b];
  }

  lemma RunJoined<T>(op: Op, ds: seq<Domain<T>>, sat: T -> bool)
    requires AllNormalized(ds) && ds != []
    ensures Run(Joined(op, ds), sat, []) == Some([Fold(op, Values(ds, sat))])
  {
    var vals := Values(ds, sat);
    RunConcatAll(ds, sat);
    ValuesLength(ds, sat);
    RunConcat(Operators(op, |ds| - 1), Concat(ds), sat, []);
    RunOperators<T>(op, |ds| - 1, sat, vals, []);
    assert vals + [] == vals && [Fold(op, vals)] + [] == [Fold(op, vals)];
  }
}
