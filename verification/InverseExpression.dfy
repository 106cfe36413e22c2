/**
  `inverse_combine` (base_domain_inverse_function/inverse_expression.py): a right-to-left scan with
  three stacks that is meant to undo AND and OR.  The lemmas say on which operand lists it does.
*/
module InverseExpression {
  import opened Wrappers
  import opened Domains

  /** The two exceptions a call can raise. */
  datatype Error = NotUnsupported | PopFromEmptyList

  /** The local variables of the loop.  `elements` is kept top first, the other lists in order. */
  datatype Scan<T> = Scan(elements: seq<Token<T>>, own: seq<Domain<T>>, other: seq<Domain<T>>,
                          result: seq<Domain<T>>, last: Option<Token<T>>)

  function Start<T>(): Scan<T> {
    Scan([], [], [], [], None)
  }

  predicate AfterOperator<T>(st: Scan<T>) {
    st.last.Some? && st.last.value.Oper?
  }

  /** Pop one element, or two when they are the first of the stack and a leaf was read before. */
  function PopElements<T(==)>(elements: seq<Token<T>>, stack: seq<Domain<T>>, afterOperator: bool)
    : Result<(seq<Token<T>>, seq<Domain<T>>), Error>
  {
    if elements == [] then Ok((elements, stack))
    else
      var stack' := stack + [[elements[0]]];
      if |stack'| != 1 || afterOperator then Ok((elements[1..], stack'))
      else if |elements| == 1 then Err(PopFromEmptyList)
      else Ok((elements[2..], stack' + [[elements[1]]]))
  }

  /** The stack of the last operator becomes one entry of the result. */
  function Flush<T>(op: Op, st: Scan<T>): Scan<T> {
    if !AfterOperator(st) then st
    else if st.last.value.op != op then
      st.(result := st.result + [Combine(st.last.value.op, st.other)], other := [])
    else
      st.(result := st.result + [Combine(st.last.value.op, st.own)], own := [])
  }

  function Step<T(==)>(op: Op, st: Scan<T>, tok: Token<T>): Result<Scan<T>, Error> {
    match tok
    case Not => Err(NotUnsupported)
    case Oper(q) =>
      (match PopElements(st.elements, if q == op then st.own else st.other, AfterOperator(st))
       case Err(e) => Err(e)
       case Ok((elements, stack)) =>
         var st' := st.(elements := elements, last := Some(tok));
         Ok(if q == op then st'.(own := stack) else st'.(other := stack)))
    case _ =>
      var st' := Flush(op, st);
      Ok(st'.(elements := [tok] + st'.elements, last := Some(tok)))
  }

  /** The loop, which reads `d` from right to left. */
  function Read<T(==)>(op: Op, d: Domain<T>, st: Scan<T>): Result<Scan<T>, Error>
    decreases |d|
  {
    if d == [] then Ok(st)
    else match Read(op, d[1..], st)
      case Err(e) => Err(e)
      case Ok(st') => Step(op, st', d[0])
  }

  function Finish<T(==)>(op: Op, st: Scan<T>): seq<Domain<T>> {
    if st.own != [] then st.own + st.result
    else if st.other != [] then st.result + [Combine(op.Other(), st.other)]
    else st.result
  }

  function Inverse<T(==)>(op: Op, d: Domain<T>): Result<seq<Domain<T>>, Error> {
    match Read(op, d, Start())
    case Err(e) => Err(e)
    case Ok(st) => Ok(Finish(op, st))
  }

  /** `inverse_combine`; `inverse_AND` and `inverse_OR` fix the operator. */
  method InverseCombine<T(==)>(domain: Domain<T>, op: Op) returns (r: Result<seq<Domain<T>>, Error>)
    ensures r == Inverse(op, domain)
  {
    var result: seq<Domain<T>> := [];
    var own: seq<Domain<T>> := [];
    var other: seq<Domain<T>> := [];
    var elements: seq<Token<T>> := [];
    var last: Option<Token<T>> := None;
    assert domain[|domain|..] == [];
    for i := |domain| downto 0
      invariant Read(op, domain[i..], Start()) == Ok(Scan(elements, own, other, result, last))
    {
      var element := domain[i];
      var before := last;
      ghost var st := Scan(elements, own, other, result, last);
      assert domain[i..][0] == element && domain[i..][1..] == domain[i + 1..];
      ReadFailsEarly(op, domain, i, Start());
      if element == Not {
        return Err(NotUnsupported);
      }
      if element.Oper? {
        if element.op != op {
          if |elements| > 0 {
            other, elements := other + [[elements[0]]], elements[1..];
            if |other| == 1 && !(before.Some? && before.value.Oper?) {
              if |elements| == 0 {
                return Err(PopFromEmptyList);
              }
              other, elements := other + [[elements[0]]], elements[1..];
            }
          }
        } else {
          if |elements| > 0 {
            own, elements := own + [[elements[0]]], elements[1..];
            if |own| == 1 && !(before.Some? && before.value.Oper?) {
              if |elements| == 0 {
                return Err(PopFromEmptyList);
              }
              own, elements := own + [[elements[0]]], elements[1..];
            }
          }
        }
      } else {
        if before.Some? && before.value.Oper? {
          if before.value.op != op {
            result, other := result + [Combine(before.value.op, other)], [];
          } else {
            result, own := result + [Combine(before.value.op, own)], [];
          }
        }
        elements := [element] + elements;
      }
      last := Some(element);
      assert Step(op, st, element) == Ok(Scan(elements, own, other, result, last));
    }
    assert domain[0..] == domain;
    if |own| > 0 {
      own := own + result;
      result := own;
    } else if |other| > 0 {
      result := result + [Combine(op.Other(), other)];
    }
    r := Ok(result);
  }

  /** An exception while reading a suffix is the outcome of the whole call. */
  lemma {:induction false} ReadFailsEarly<T>(op: Op, d: Domain<T>, i: nat, st: Scan<T>)
    requires i < |d|
    ensures Read(op, d[i..], st).Err? ==> Read(op, d, st) == Read(op, d[i..], st)
    decreases i
  {
    if i == 0 {
      assert d[0..] == d;
    } else {
      assert d[1..][i - 1..] == d[i..];
      ReadFailsEarly(op, d[1..], i - 1, st);
    }
  }

  // ----- NOT -----

  lemma {:induction false} ReadNot<T>(op: Op, d: Domain<T>, st: Scan<T>)
    ensures Read(op, d, st).Ok? ==> Not !in d
    ensures Read(op, d, st) == Err(NotUnsupported) ==> Not in d
  {
    if d != [] {
      ReadNot(op, d[1..], st);
    }
  }

  /** NOT is never passed over, and no domain without one is refused for it. */
  lemma NotIsRefused<T>(op: Op, d: Domain<T>)
    ensures Inverse(op, d).Ok? ==> Not !in d
    ensures Inverse(op, d) == Err(NotUnsupported) ==> Not in d
  {
    ReadNot(op, d, Start());
  }

  /** What stands in front of a NOT makes no difference: the part behind it raises, or the NOT does. */
  lemma NotRaises<T>(op: Op, a: Domain<T>, b: Domain<T>)
    ensures Inverse(op, a + [Not] + b) == Err(if Inverse(op, b).Ok? then NotUnsupported else Inverse(op, b).error)
  {
    assert a + [Not] + b == a + ([Not] + b) && ([Not] + b)[1..] == b;
    ReadConcat(op, a, [Not] + b, Start());
  }

  // ----- operands the scan can handle -----

  /** n leaves joined by n-1 operators `q`, all in front. */
  predicate IsGroup<T>(q: Op, d: Domain<T>) {
    && |d| >= 3 && |d| % 2 == 1
    && (forall i | 0 <= i < |d| / 2 :: d[i] == Oper(q))
    && (forall i | |d| / 2 <= i < |d| :: d[i].Leaf?)
  }

  predicate IsLeaf<T>(d: Domain<T>) {
    |d| == 1 && d[0].Leaf?
  }

  predicate Flat<T>(d: Domain<T>) {
    IsLeaf(d) || IsGroup(And, d) || IsGroup(Or, d)
  }

  ghost predicate AllFlat<T>(ds: seq<Domain<T>>) {
    forall d :: d in ds ==> Flat(d)
  }

  /** The first operand is a group of the operator that is to be undone, and melts into it. */
  predicate Melts<T>(op: Op, ds: seq<Domain<T>>) {
    ds != [] && IsGroup(op, ds[0])
  }

  /** Flat operands all count. */
  lemma {:induction false} FlatIsJoined<T>(op: Op, ds: seq<Domain<T>>)
    requires AllFlat(ds)
    ensures Kept(op, ds) == ds && !HasZero(op, ds)
    ensures Combine(op, ds) == if ds == [] then Unit(op) else Joined(op, ds)
  {
    if ds != [] {
      assert Flat(ds[0]) by { assert ds[0] in ds; }
      assert AllFlat(ds[1..]) by { assert forall d :: d in ds[1..] ==> d in ds; }
      FlatIsJoined(op, ds[1..]);
      forall i | 0 <= i < |ds| ensures !IsUnit(op.Other(), ds[i]) {
        assert Flat(ds[i]) by { assert ds[i] in ds; }
      }
    }
  }

  function Leaves<T>(ds: seq<Domain<T>>): seq<Domain<T>> {
    if ds == [] then []
    else if IsLeaf(ds[0]) then [ds[0]] + Leaves(ds[1..])
    else Leaves(ds[1..])
  }

  /** The operands that are not leaves, last one first. */
  function GroupsReversed<T>(ds: seq<Domain<T>>): seq<Domain<T>> {
    if ds == [] then []
    else if IsLeaf(ds[0]) then GroupsReversed(ds[1..])
    else GroupsReversed(ds[1..]) + [ds[0]]
  }

  /**
    The condition under which the scan undoes `Combine(op, ds)`: every operand is a leaf or a flat
    group of either operator, the first one is not a group of `op`, and either there is no leaf, or
    the first operand is a leaf and it is not the only one.
  */
  ghost predicate Invertible<T>(op: Op, ds: seq<Domain<T>>) {
    AllFlat(ds) && !Melts(op, ds) && (Leaves(ds) == [] || (IsLeaf(ds[0]) && |Leaves(ds)| >= 2))
  }

  // ----- reading flat operands -----

  lemma {:induction false} ReadConcat<T>(op: Op, a: Domain<T>, b: Domain<T>, st: Scan<T>)
    ensures Read(op, a + b, st) == match Read(op, b, st) case Err(e) => Err(e) case Ok(st') => Read(op, a, st')
  {
    if a == [] {
      assert a + b == b;
    } else {
      assert (a + b)[1..] == a[1..] + b;
      ReadConcat(op, a[1..], b, st);
    }
  }

  function Singles<T>(s: seq<Token<T>>): (r: seq<Domain<T>>)
    ensures |r| == |s|
  {
    seq(|s|, i requires 0 <= i < |s| => [s[i]])
  }

  ghost predicate AllLeaves<T>(s: seq<Token<T>>) {
    forall i | 0 <= i < |s| :: s[i].Leaf?
  }

  /** Leaves are pushed one by one, after the pending stack was flushed. */
  lemma {:induction false} ReadLeaves<T>(op: Op, s: seq<Token<T>>, st: Scan<T>)
    requires s != [] && AllLeaves(s)
    ensures var f := Flush(op, st);
            Read(op, s, st) == Ok(f.(elements := s + f.elements, last := Some(s[0])))
  {
    var f := Flush(op, st);
    if |s| == 1 {
      assert s[1..] == [] && s == [s[0]];
    } else {
      ReadLeaves(op, s[1..], st);
      assert [s[0]] + (s[1..] + f.elements) == s + f.elements;
    }
  }

  /** The stack an operator pops into. */
  function StackOf<T>(op: Op, q: Op, st: Scan<T>): seq<Domain<T>> {
    if q == op then st.own else st.other
  }

  function WithStack<T>(op: Op, q: Op, st: Scan<T>, elements: seq<Token<T>>, stack: seq<Domain<T>>): Scan<T> {
    if q == op then st.(elements := elements, own := stack, last := Some(Oper(q)))
    else st.(elements := elements, other := stack, last := Some(Oper(q)))
  }

  lemma ReadLast<T>(op: Op, q: Op, n: nat, st: Scan<T>)
    requires n > 0
    ensures Read(op, Operators<T>(q, n), st) ==
            match Step(op, st, Oper(q)) case Err(e) => Err(e) case Ok(st') => Read(op, Operators<T>(q, n - 1), st')
  {
    assert Operators<T>(q, n) == Operators<T>(q, n - 1) + [Oper(q)];
    ReadConcat(op, Operators<T>(q, n - 1), [Oper(q)], st);
    assert [Token<T>.Oper(q)][1..] == [];
  }

  /** After an operator, each further operator pops one element. */
  lemma {:induction false} ReadPops<T>(op: Op, q: Op, s: seq<Token<T>>, base: seq<Token<T>>, st: Scan<T>)
    requires s != [] && AfterOperator(st) && st.elements == s + base
    ensures Read(op, Operators<T>(q, |s|), st) == Ok(WithStack(op, q, st, base, StackOf(op, q, st) + Singles(s)))
    decreases |s|
  {
    var stack, rest := StackOf(op, q, st), s[1..];
    var st' := WithStack(op, q, st, rest + base, stack + [[s[0]]]);
    assert st.elements[1..] == rest + base;
    ReadLast(op, q, |s|, st);
    assert Singles(s) == [[s[0]]] + Singles(rest);
    assert stack + Singles(s) == (stack + [[s[0]]]) + Singles(rest);
    if rest == [] {
      assert rest + base == base && (stack + [[s[0]]]) + Singles(rest) == stack + [[s[0]]];
      assert Operators<T>(q, |s| - 1) == [];
    } else {
      ReadPops(op, q, rest, base, st');
    }
  }

  /** With no element left an operator pops nothing. */
  lemma {:induction false} ReadIdle<T>(op: Op, q: Op, n: nat, st: Scan<T>)
    requires n > 0 && st.elements == []
    ensures Read(op, Operators<T>(q, n), st) == Ok(WithStack(op, q, st, [], StackOf(op, q, st)))
  {
    ReadLast(op, q, n, st);
    if n > 1 {
      ReadIdle(op, q, n - 1, WithStack(op, q, st, [], StackOf(op, q, st)));
    }
  }

  /** Once the elements are used up, the remaining operators do nothing. */
  lemma ReadOperators<T>(op: Op, q: Op, n: nat, s: seq<Token<T>>, base: seq<Token<T>>, st: Scan<T>)
    requires AfterOperator(st) && st.elements == s + base
    requires n > 0 || st.last == Some(Oper(q))
    requires n == |s| || (n > |s| && base == [])
    ensures Read(op, Operators<T>(q, n), st) == Ok(WithStack(op, q, st, base, StackOf(op, q, st) + Singles(s)))
  {
    var stack := StackOf(op, q, st);
    if s == [] {
      assert s + base == base && stack + Singles(s) == stack;
      if n > 0 {
        ReadIdle(op, q, n, st);
      }
    } else {
      ReadPops(op, q, s, base, st);
      if n > |s| {
        assert Operators<T>(q, n) == Operators<T>(q, n - |s|) + Operators<T>(q, |s|);
        ReadConcat(op, Operators<T>(q, n - |s|), Operators<T>(q, |s|), st);
        ReadIdle(op, q, n - |s|, WithStack(op, q, st, [], stack + Singles(s)));
      }
    }
  }

  function GroupLeaves<T>(d: Domain<T>): seq<Token<T>> {
    d[|d| / 2..]
  }

  lemma GroupIsCombine<T>(q: Op, d: Domain<T>)
    requires IsGroup(q, d)
    ensures Combine(q, Singles(GroupLeaves(d))) == d
    ensures d == Operators(q, |GroupLeaves(d)| - 1) + GroupLeaves(d)
  {
    var ls := Singles(GroupLeaves(d));
    ConcatSingles(GroupLeaves(d));
    assert AllFlat(ls) by { assert forall i | 0 <= i < |ls| :: IsLeaf(ls[i]); }
    FlatIsJoined(q, ls);
    assert d[..|d| / 2] == Operators(q, |d| / 2);
    assert d == d[..|d| / 2] + d[|d| / 2..];
  }

  lemma {:induction false} ConcatSingles<T>(s: seq<Token<T>>)
    ensures Concat(Singles(s)) == s
  {
    if s != [] {
      assert Singles(s)[1..] == Singles(s[1..]);
      ConcatSingles(s[1..]);
    }
  }

  /** The scan after reading flat operands: leaves stacked, groups in the result, the first one pending. */
  function After<T>(op: Op, ds: seq<Domain<T>>): Scan<T> {
    if ds == [] then Start()
    else
      var leaves := Concat(Leaves(ds));
      if ds[0] == [] then Start()
      else if IsLeaf(ds[0]) then Scan(leaves, [], [], GroupsReversed(ds), Some(ds[0][0]))
      else
        var pending := Singles(GroupLeaves(ds[0]));
        var ofOp := Melts(op, ds);
        var own, other := if ofOp then pending else [], if ofOp then [] else pending;
        Scan(leaves, own, other, GroupsReversed(ds[1..]), Some(ds[0][0]))
  }

  /** Reading a leaf puts the pending group, if any, into the result. */
  lemma FlushAfter<T>(op: Op, ds: seq<Domain<T>>)
    requires AllFlat(ds)
    ensures var f, a := Flush(op, After(op, ds)), After(op, ds);
            f == a.(result := GroupsReversed(ds), own := [], other := [])
  {
    if ds != [] {
      assert Flat(ds[0]) by { assert ds[0] in ds; }
      if !IsLeaf(ds[0]) {
        GroupIsCombine(ds[0][0].op, ds[0]);
      }
    }
  }

  lemma {:induction false} ReadFlat<T>(op: Op, ds: seq<Domain<T>>)
    requires AllFlat(ds)
    ensures Read(op, Concat(ds), Start()) == Ok(After(op, ds))
  {
    if ds != [] {
      var d, rest := ds[0], ds[1..];
      assert Flat(d) by { assert d in ds; }
      assert AllFlat(rest) by { assert forall x :: x in rest ==> x in ds; }
      ReadFlat(op, rest);
      ReadConcat(op, d, Concat(rest), Start());
      FlushAfter(op, rest);
      var st := After(op, rest);
      if IsLeaf(d) {
        ReadLeaves(op, d, st);
        assert Concat(Leaves(ds)) == [d[0]] + Concat(Leaves(rest));
        assert d == [d[0]];
        assert GroupsReversed(ds) == GroupsReversed(rest);
      } else {
        ReadGroup(op, d[0].op, d, st);
        assert Concat(Leaves(ds)) == Concat(Leaves(rest));
      }
    }
  }

  /** The first of n operators takes two elements, the others one each. */
  lemma ReadOperatorsAfterLeaf<T>(op: Op, q: Op, n: nat, s: seq<Token<T>>, base: seq<Token<T>>, st: Scan<T>)
    requires !AfterOperator(st) && StackOf(op, q, st) == []
    requires st.elements == s + base && |s| >= 2
    requires n + 1 == |s| || (n + 1 > |s| && base == [])
    ensures Read(op, Operators<T>(q, n), st) == Ok(WithStack(op, q, st, base, Singles(s)))
  {
    var tail := s[2..];
    var st' := WithStack(op, q, st, tail + base, [[s[0]], [s[1]]]);
    assert Step(op, st, Oper(q)) == Ok(st') by {
      assert st.elements[2..] == tail + base;
      assert [] + [[s[0]]] + [[s[1]]] == [[s[0]], [s[1]]];
    }
    ReadLast(op, q, n, st);
    assert [[s[0]], [s[1]]] + Singles(tail) == Singles(s);
    ReadOperators(op, q, n - 1, tail, base, st');
  }

  /** Reading a group moves its leaves to the stack of its operator. */
  lemma ReadGroup<T>(op: Op, q: Op, d: Domain<T>, st: Scan<T>)
    requires IsGroup(q, d)
    requires Flush(op, st).own == [] && Flush(op, st).other == []
    ensures var f := Flush(op, st);
            Read(op, d, st) == Ok(WithStack(op, q, f, f.elements, Singles(GroupLeaves(d))))
  {
    var ls, f := GroupLeaves(d), Flush(op, st);
    GroupIsCombine(q, d);
    ReadConcat(op, Operators(q, |ls| - 1), ls, st);
    ReadLeaves(op, ls, st);
    var st1 := f.(elements := ls + f.elements, last := Some(ls[0]));
    ReadOperatorsAfterLeaf(op, q, |ls| - 1, ls, f.elements, st1);
  }

  // ----- the leading operators -----

  /** What `inverse_combine` returns on flat operands, in every case. */
  function Outcome<T>(op: Op, ds: seq<Domain<T>>): Result<seq<Domain<T>>, Error> {
    var leaves := Leaves(ds);
    if Melts(op, ds) then Ok(Singles(GroupLeaves(ds[0])) + leaves + GroupsReversed(ds[1..]))
    else if leaves == [] then Ok(GroupsReversed(ds))
    else if !IsLeaf(ds[0]) then Ok(leaves + GroupsReversed(ds[1..]))
    else if |leaves| >= 2 then Ok(leaves + GroupsReversed(ds))
    else if |ds| == 1 then Ok([])
    else Err(PopFromEmptyList)
  }

  lemma {:induction false} LeavesFacts<T>(ds: seq<Domain<T>>)
    ensures |Leaves(ds)| <= |ds|
    ensures Singles(Concat(Leaves(ds))) == Leaves(ds)
    ensures AllLeaves(Concat(Leaves(ds)))
  {
    if ds != [] {
      LeavesFacts(ds[1..]);
      if IsLeaf(ds[0]) {
        var x, rest := ds[0][0], Concat(Leaves(ds[1..]));
        assert ds[0] == [x];
        assert Concat(Leaves(ds)) == [x] + rest;
        assert Singles([x] + rest) == [[x]] + Singles(rest);
      }
    }
  }

  /** The leading operators pop all the leaves, unless there is one only and it was read last. */
  lemma ReadLeading<T>(op: Op, n: nat, ls: seq<Token<T>>, st: Scan<T>)
    requires n > 0 && st.elements == ls && st.own == []
    requires |ls| <= if AfterOperator(st) then n else n + 1
    ensures Read(op, Operators<T>(op, n), st) ==
            if |ls| == 1 && !AfterOperator(st) then Err(PopFromEmptyList)
            else Ok(st.(elements := [], own := Singles(ls), last := Some(Oper(op))))
  {
    if ls == [] {
      ReadIdle(op, op, n, st);
    } else if |ls| == 1 && !AfterOperator(st) {
      ReadLast(op, op, n, st);
      assert st.elements == [ls[0]];
    } else {
      ReadAllLeaves(op, n, ls, st);
    }
  }

  lemma ReadAllLeaves<T>(op: Op, n: nat, ls: seq<Token<T>>, st: Scan<T>)
    requires n > 0 && st.elements == ls && st.own == []
    requires if AfterOperator(st) then |ls| <= n else 2 <= |ls| <= n + 1
    ensures Read(op, Operators<T>(op, n), st) == Ok(st.(elements := [], own := Singles(ls), last := Some(Oper(op))))
  {
    assert ls + [] == ls;
    if AfterOperator(st) {
      ReadOperators(op, op, n, ls, [], st);
      assert [] + Singles(ls) == Singles(ls);
    } else {
      ReadOperatorsAfterLeaf(op, op, n, ls, [], st);
    }
  }

  /** A constant is pushed and never popped. */
  lemma InverseOfConst<T>(op: Op, b: bool)
    ensures Inverse<T>(op, [Const(b)]) == Ok([])
  {
    var c := Token<T>.Const(b);
    assert Read(op, [c], Start()) == Step(op, Start(), c);
    assert Finish(op, Scan([c], [], [], [], Some(c))) == [];
  }

  lemma InverseOfNone<T>(op: Op)
    ensures Inverse<T>(op, Combine(op, [])) == Ok([])
  {
    InverseOfConst<T>(op, op == And);
  }

  lemma InverseOfFlat<T>(op: Op, ds: seq<Domain<T>>)
    requires AllFlat(ds)
    ensures Inverse(op, Combine(op, ds)) == Outcome(op, ds)
  {
    FlatIsJoined(op, ds);
    if ds == [] {
      InverseOfNone<T>(op);
    } else if |ds| == 1 {
      ReadFlat(op, ds);
      OneOperand(op, ds[0]);
      assert ds == [ds[0]];
    } else {
      ReadFlat(op, ds);
      ReadConcat(op, Operators(op, |ds| - 1), Concat(ds), Start());
      LeadingOfFlat(op, ds);
    }
  }

  lemma OneOperand<T>(op: Op, d: Domain<T>)
    requires Flat(d)
    ensures Combine(op, [d]) == Concat([d]) == d
    ensures Outcome(op, [d]) == Ok(Finish(op, After(op, [d])))
  {
    assert Operators<T>(op, 0) + d == d && d + [] == d && [d] == [d] + [];
    LeavesCons(d, []);
    FlatIsJoined(op, [d]);
    if !IsLeaf(d) {
      OneGroup(op, d[0].op, d);
    }
  }

  lemma OneGroup<T>(op: Op, q: Op, d: Domain<T>)
    requires IsGroup(q, d)
    ensures Outcome(op, [d]) == Ok(if q == op then Singles(GroupLeaves(d)) else [d])
    ensures Finish(op, After(op, [d])) == if q == op then Singles(GroupLeaves(d)) else [d]
  {
    GroupIsCombine(q, d);
    LeavesCons(d, []);
    assert [d] == [d] + [] && [d][1..] == [];
    var pending := Singles(GroupLeaves(d));
    assert d[0] == Oper(q) && (Melts(op, [d]) <==> q == op);
    assert After(op, [d]) == Scan([], if q == op then pending else [], if q == op then [] else pending, [], Some(d[0]));
    assert pending + [] == pending && pending + [] + [] == pending && [] + [d] == [d];
  }

  lemma LeavesCons<T>(d: Domain<T>, rest: seq<Domain<T>>)
    ensures Leaves([d] + rest) == if IsLeaf(d) then [d] + Leaves(rest) else Leaves(rest)
    ensures GroupsReversed([d] + rest) == if IsLeaf(d) then GroupsReversed(rest) else GroupsReversed(rest) + [d]
  {
    assert ([d] + rest)[1..] == rest;
  }

  /** A pending group of `op` keeps its place in front of the leaves, in pieces. */
  lemma LeadingMelts<T>(op: Op, ds: seq<Domain<T>>)
    requires |ds| > 1 && Melts(op, ds) && |Leaves(ds)| < |ds|
    requires Singles(Concat(Leaves(ds))) == Leaves(ds)
    ensures Read(op, Operators<T>(op, |ds| - 1), After(op, ds))
         == Ok(Scan([], Singles(GroupLeaves(ds[0])) + Leaves(ds), [], GroupsReversed(ds[1..]), Some(Oper(op))))
  {
    var ls := Concat(Leaves(ds));
    assert ls + [] == ls;
    ReadOperators(op, op, |ds| - 1, ls, [], After(op, ds));
  }

  lemma LeadingStays<T>(op: Op, ds: seq<Domain<T>>)
    requires |ds| > 1 && Flat(ds[0]) && !Melts(op, ds)
    requires Singles(Concat(Leaves(ds))) == Leaves(ds)
    requires |Leaves(ds)| <= if IsLeaf(ds[0]) then |ds| else |ds| - 1
    ensures Read(op, Operators<T>(op, |ds| - 1), After(op, ds)) ==
            if |Leaves(ds)| == 1 && IsLeaf(ds[0]) then Err(PopFromEmptyList)
            else Ok(After(op, ds).(elements := [], own := Leaves(ds), last := Some(Oper(op))))
  {
    ReadLeading(op, |ds| - 1, Concat(Leaves(ds)), After(op, ds));
  }

  lemma LeadingOfFlat<T>(op: Op, ds: seq<Domain<T>>)
    requires AllFlat(ds) && |ds| > 1
    ensures var r := Read(op, Operators<T>(op, |ds| - 1), After(op, ds));
            Outcome(op, ds) == if r.Err? then Err(r.error) else Ok(Finish(op, r.value))
  {
    LeavesFacts(ds);
    LeavesFacts(ds[1..]);
    assert Flat(ds[0]) by { assert ds[0] in ds; }
    if Melts(op, ds) {
      LeadingMelts(op, ds);
    } else {
      LeadingStays(op, ds);
      if !IsLeaf(ds[0]) {
        GroupIsCombine(op.Other(), ds[0]);
      }
    }
  }

  // ----- every domain in the result is a leaf, a constant or a flat group -----

  predicate IsConst<T>(d: Domain<T>) {
    |d| == 1 && d[0].Const?
  }

  predicate Tidy<T>(d: Domain<T>) {
    Flat(d) || IsConst(d)
  }

  /** Leaves and constants, as the loop stacks them. */
  ghost predicate AllTerms<T>(s: seq<Token<T>>) {
    forall i | 0 <= i < |s| :: s[i].Leaf? || s[i].Const?
  }

  ghost predicate AllSingle<T>(stack: seq<Domain<T>>) {
    forall i | 0 <= i < |stack| :: IsLeaf(stack[i]) || IsConst(stack[i])
  }

  ghost predicate TidyScan<T>(st: Scan<T>) {
    && AllTerms(st.elements) && AllSingle(st.own) && AllSingle(st.other)
    && (forall i | 0 <= i < |st.result| :: Tidy(st.result[i]))
  }

  lemma JoinedTidy<T>(op: Op, stack: seq<Domain<T>>)
    requires stack != [] && forall i | 0 <= i < |stack| :: IsLeaf(stack[i])
    ensures Flat(Joined(op, stack))
  {
    var ls := seq(|stack|, i requires 0 <= i < |stack| => stack[i][0]);
    forall i | 0 <= i < |stack| ensures Singles(ls)[i] == stack[i] {
      assert stack[i] == [stack[i][0]];
    }
    assert Singles(ls) == stack;
    ConcatSingles(ls);
    var d := Joined(op, stack);
    assert d == Operators(op, |ls| - 1) + ls;
    if |stack| >= 2 {
      assert IsGroup(op, d);
    } else {
      assert d == ls;
    }
  }

  /** Of single terms without zero only the leaves count. */
  lemma {:induction false} KeptSingles<T>(op: Op, stack: seq<Domain<T>>)
    requires AllSingle(stack) && !HasZero(op, stack)
    ensures forall i | 0 <= i < |Kept(op, stack)| :: IsLeaf(Kept(op, stack)[i])
  {
    if stack != [] {
      var rest := stack[1..];
      assert !IsUnit(op.Other(), stack[0]);
      forall i | 0 <= i < |rest| ensures rest[i] == stack[i + 1] && !IsUnit(op.Other(), rest[i]) {
      }
      KeptSingles(op, rest);
    }
  }

  lemma CombineTidy<T>(op: Op, stack: seq<Domain<T>>)
    requires AllSingle(stack)
    ensures Tidy(Combine(op, stack))
  {
    if !HasZero(op, stack) {
      KeptSingles(op, stack);
      if Kept(op, stack) != [] {
        JoinedTidy(op, Kept(op, stack));
      }
    }
  }

  lemma StepTidy<T>(op: Op, st: Scan<T>, tok: Token<T>)
    requires TidyScan(st)
    ensures Step(op, st, tok).Ok? ==> TidyScan(Step(op, st, tok).value)
  {
    if tok.Leaf? || tok.Const? {
      if AfterOperator(st) {
        CombineTidy(st.last.value.op, st.other);
        CombineTidy(st.last.value.op, st.own);
      }
    } else if tok.Oper? {
      PopTidy(st.elements, st.own, AfterOperator(st));
      PopTidy(st.elements, st.other, AfterOperator(st));
    }
  }

  lemma PopTidy<T>(elements: seq<Token<T>>, stack: seq<Domain<T>>, afterOperator: bool)
    requires AllTerms(elements) && AllSingle(stack)
    ensures var r := PopElements(elements, stack, afterOperator);
            r.Ok? ==> AllTerms(r.value.0) && AllSingle(r.value.1)
  {
  }

  lemma {:induction false} ReadTidy<T>(op: Op, d: Domain<T>)
    ensures Read(op, d, Start()).Ok? ==> TidyScan(Read(op, d, Start()).value)
  {
    if d != [] {
      ReadTidy(op, d[1..]);
      var before := Read(op, d[1..], Start());
      if before.Ok? {
        StepTidy(op, before.value, d[0]);
      }
    }
  }

  lemma InverseTidy<T>(op: Op, d: Domain<T>, r: Domain<T>)
    requires Inverse(op, d).Ok? && r in Inverse(op, d).value
    ensures Tidy(r)
  {
    ReadTidy(op, d);
    var st := Read(op, d, Start()).value;
    CombineTidy(op.Other(), st.other);
    var i :| 0 <= i < |Finish(op, st)| && Finish(op, st)[i] == r;
  }

  // ----- the law -----

  /** `inverse_combine` gives the operands of `Combine(op, ds)` back, in some order. */
  ghost predicate GivesBack<T>(op: Op, ds: seq<Domain<T>>) {
    var r := Inverse(op, Combine(op, ds));
    r.Ok? && multiset(r.value) == multiset(ds)
  }

  lemma {:induction false} LeavesAndGroups<T>(ds: seq<Domain<T>>)
    ensures multiset(Leaves(ds) + GroupsReversed(ds)) == multiset(ds)
    ensures |Leaves(ds)| + |GroupsReversed(ds)| == |ds|
  {
    if ds != [] {
      assert ds == [ds[0]] + ds[1..];
      LeavesAndGroups(ds[1..]);
    }
  }

  lemma {:induction false} PartsFlat<T>(ds: seq<Domain<T>>)
    requires AllFlat(ds)
    ensures AllFlat(Leaves(ds)) && AllFlat(GroupsReversed(ds))
  {
    if ds != [] {
      assert Flat(ds[0]) by { assert ds[0] in ds; }
      assert AllFlat(ds[1..]) by { assert forall d :: d in ds[1..] ==> d in ds; }
      PartsFlat(ds[1..]);
    }
  }

  lemma FlatConcat<T>(a: seq<Domain<T>>, b: seq<Domain<T>>)
    requires AllFlat(a) && AllFlat(b)
    ensures AllFlat(a + b)
  {
  }

  lemma SinglesFlat<T>(s: seq<Token<T>>)
    requires AllLeaves(s)
    ensures AllFlat(Singles(s))
  {
    var ds := Singles(s);
    assert forall i | 0 <= i < |ds| :: IsLeaf(ds[i]);
  }

  /** From flat operands only flat domains come back. */
  lemma OutcomeFlat<T>(op: Op, ds: seq<Domain<T>>)
    requires AllFlat(ds) && Outcome(op, ds).Ok?
    ensures AllFlat(Outcome(op, ds).value)
  {
    PartsFlat(ds);
    FlatConcat(Leaves(ds), GroupsReversed(ds));
    if ds != [] {
      assert AllFlat(ds[1..]) by { assert forall d :: d in ds[1..] ==> d in ds; }
      PartsFlat(ds[1..]);
      FlatConcat(Leaves(ds), GroupsReversed(ds[1..]));
      if Melts(op, ds) {
        SinglesFlat(GroupLeaves(ds[0]));
        FlatConcat(Singles(GroupLeaves(ds[0])), Leaves(ds));
        FlatConcat(Singles(GroupLeaves(ds[0])) + Leaves(ds), GroupsReversed(ds[1..]));
      }
    }
  }

  /** Operands that are leaves, flat groups or units: the units are skipped. */
  lemma {:induction false} TidyKept<T>(op: Op, ds: seq<Domain<T>>)
    requires (forall d :: d in ds ==> Tidy(d)) && !HasZero(op, ds)
    ensures AllFlat(Kept(op, ds)) && Combine(op, Kept(op, ds)) == Combine(op, ds)
  {
    KeptFlat(op, ds);
    FlatIsJoined(op, Kept(op, ds));
  }

  lemma {:induction false} KeptFlat<T>(op: Op, ds: seq<Domain<T>>)
    requires (forall d :: d in ds ==> Tidy(d)) && !HasZero(op, ds)
    ensures AllFlat(Kept(op, ds))
  {
    if ds != [] {
      var rest := ds[1..];
      assert Tidy(ds[0]) && !IsUnit(op.Other(), ds[0]) by { assert ds[0] in ds; }
      assert forall d :: d in rest ==> d in ds;
      forall i | 0 <= i < |rest| ensures !IsUnit(op.Other(), rest[i]) {
        assert rest[i] == ds[i + 1];
      }
      KeptFlat(op, rest);
    }
  }

  /** An operand that is not flat, such as an empty one or one with TRUE or FALSE leaves, is never given back. */
  lemma GivenBackIsFlat<T>(op: Op, ds: seq<Domain<T>>, d: Domain<T>)
    requires d in ds && GivesBack(op, ds)
    ensures Flat(d)
  {
    var r := Inverse(op, Combine(op, ds)).value;
    forall x | x in ds ensures x in r && Tidy(x) {
      assert x in multiset(ds) && x in multiset(r);
      InverseTidy(op, Combine(op, ds), x);
    }
    if HasZero(op, ds) {
      InverseOfConst<T>(op, op.Other() == And);
    } else {
      TidyKept(op, ds);
      InverseOfFlat(op, Kept(op, ds));
      OutcomeFlat(op, Kept(op, ds));
    }
  }

  /** The exact condition, for all operands: the call undoes AND (or OR) on these, and on no others. */
  lemma InverseUndoesExactly<T>(op: Op, ds: seq<Domain<T>>)
    ensures GivesBack(op, ds) <==> Invertible(op, ds)
  {
    if AllFlat(ds) {
      InverseOfFlat(op, ds);
      LeavesAndGroups(ds);
      if ds != [] {
        LeavesAndGroups(ds[1..]);
      }
      var r := Outcome(op, ds);
      if r.Ok? && |r.value| != |ds| {
        assert |multiset(r.value)| != |multiset(ds)|;
      }
    } else if GivesBack(op, ds) {
      forall d | d in ds ensures Flat(d) {
        GivenBackIsFlat(op, ds, d);
      }
    }
  }

  /** Leaves come back in order and before the groups, and the groups come back in reverse. */
  lemma InverseOrder<T>(op: Op, ds: seq<Domain<T>>)
    requires Invertible(op, ds)
    ensures Inverse(op, Combine(op, ds)) == Ok(Leaves(ds) + GroupsReversed(ds))
  {
    InverseOfFlat(op, ds);
    assert [] + GroupsReversed(ds) == GroupsReversed(ds);
  }

  /** The very same list comes back only if that reordering leaves it alone. */
  lemma InverseIsIdentityExactly<T>(op: Op, ds: seq<Domain<T>>)
    ensures Inverse(op, Combine(op, ds)) == Ok(ds) <==> Invertible(op, ds) && ds == Leaves(ds) + GroupsReversed(ds)
  {
    InverseUndoesExactly(op, ds);
    if Invertible(op, ds) {
      InverseOrder(op, ds);
    }
  }

  /** Recombining what the call returns gives a domain with the same meaning for every record. */
  lemma RecombiningKeepsMeaning<T>(op: Op, ds: seq<Domain<T>>, sat: T -> bool)
    requires AllNormalized(ds) && Invertible(op, ds)
    ensures var r := Inverse(op, Combine(op, ds));
            && r.Ok?
            && Value(Combine(op, r.value), sat) == Value(Combine(op, ds), sat)
            && Value(Combine(op, ds), sat) == Some(Fold(op, Values(ds, sat)))
  {
    InverseOrder(op, ds);
    LeavesAndGroups(ds);
    var rs := Leaves(ds) + GroupsReversed(ds);
    assert forall d :: d in rs ==> d in multiset(ds);
    CombineMeans(op, ds, sat);
    CombineMeans(op, rs, sat);
    FoldIgnoresOrder(op, ds, rs, sat);
  }

  lemma {:induction false} ValuesHas<T>(ds: seq<Domain<T>>, sat: T -> bool, b: bool)
    requires AllNormalized(ds)
    ensures b in Values(ds, sat) <==> exists d :: d in ds && OneValue(d, sat) == b
  {
    if ds != [] {
      assert forall d :: d in ds <==> d == ds[0] || d in ds[1..];
      ValuesHas(ds[1..], sat, b);
    }
  }

  lemma FoldIgnoresOrder<T>(op: Op, ds: seq<Domain<T>>, rs: seq<Domain<T>>, sat: T -> bool)
    requires AllNormalized(ds) && AllNormalized(rs) && multiset(ds) == multiset(rs)
    ensures Fold(op, Values(ds, sat)) == Fold(op, Values(rs, sat))
  {
    assert forall d :: d in ds <==> d in multiset(rs);
    ValuesHas(ds, sat, true);
    ValuesHas(rs, sat, true);
    ValuesHas(ds, sat, false);
    ValuesHas(rs, sat, false);
  }

  // The smallest failures: one leaf only; a group in front of a leaf; two different groups; a group of the same
  // operator; constants.

  lemma LoneLeafIsLost<T>(x: Domain<T>)
    requires IsLeaf(x)
    ensures Inverse(And, Combine(And, [x])) == Ok([])
  {
    OneAndTwo(x, x);
    InverseOfFlat(And, [x]);
  }

  lemma LoneLeafRaises<T>(x: Domain<T>, g: Domain<T>)
    requires IsLeaf(x) && IsGroup(Or, g)
    ensures Inverse(And, Combine(And, [x, g])) == Err(PopFromEmptyList)
  {
    OneAndTwo(x, g);
    InverseOfFlat(And, [x, g]);
    assert !Melts(And, [x, g]) && Leaves([x, g]) == [x] + [] == [x];
  }

  lemma LeadingGroupIsLost<T>(g: Domain<T>, x: Domain<T>)
    requires IsLeaf(x) && IsGroup(Or, g)
    ensures Inverse(And, Combine(And, [g, x])) == Ok([x])
  {
    OneAndTwo(g, x);
    InverseOfFlat(And, [g, x]);
    assert g[0] == Oper(Or) && !Melts(And, [g, x]) && !IsLeaf(g);
    assert [g, x][1..] == [x] && Leaves([g, x]) == [] + [x] == [x] && GroupsReversed([x]) == [];
    assert [x] + [] == [x];
  }

  lemma LeadingGroupMelts<T>(g: Domain<T>)
    requires IsGroup(And, g)
    ensures Inverse(And, Combine(And, [g])) == Ok(Singles(GroupLeaves(g)))
  {
    InverseOfFlat(And, [g]);
    LeavesCons(g, []);
    assert [g] == [g] + [] && Singles(GroupLeaves(g)) + [] + [] == Singles(GroupLeaves(g));
  }

  /** A group of the same operator is given back when leaves stand in front of it. */
  lemma OwnGroupStays<T>(x: Domain<T>, y: Domain<T>, g: Domain<T>)
    requires IsLeaf(x) && IsLeaf(y) && IsGroup(And, g)
    ensures Inverse(And, Combine(And, [x, y, g])) == Ok([x, y, g])
  {
    OneAndTwo(y, g);
    assert [x, y, g] == [x] + [y, g];
    LeavesCons(x, [y, g]);
    InverseOfFlat(And, [x, y, g]);
    assert [x] + ([y] + []) + [g] == [x, y, g];
  }

  lemma GroupsSwap<T>(g: Domain<T>, h: Domain<T>)
    requires IsGroup(Or, g) && IsGroup(Or, h)
    ensures Inverse(And, Combine(And, [g, h])) == Ok([h, g])
  {
    OneAndTwo(g, h);
    InverseOfFlat(And, [g, h]);
    assert g[0] == Oper(Or) && !Melts(And, [g, h]);
    assert Leaves([g, h]) == [] + [] == [] && GroupsReversed([g, h]) == [h] + [g] == [h, g];
  }

  lemma ReadCons<T>(op: Op, tok: Token<T>, rest: Domain<T>)
    requires Read(op, rest, Start()).Ok?
    ensures Read(op, [tok] + rest, Start()) == Step(op, Read(op, rest, Start()).value, tok)
  {
    assert ([tok] + rest)[1..] == rest;
  }

  /** An operator takes two elements if it is the first one after a leaf and its stack is empty, else one, if any. */
  lemma PopExactly<T>(elements: seq<Token<T>>, stack: seq<Domain<T>>, afterOperator: bool)
    ensures PopElements(elements, stack, afterOperator) ==
            if elements == [] then Ok((elements, stack))
            else if stack != [] || afterOperator then Ok((elements[1..], stack + [[elements[0]]]))
            else if |elements| == 1 then Err(PopFromEmptyList)
            else Ok((elements[2..], [[elements[0]], [elements[1]]]))
  {
    assert stack == [] && |elements| >= 2 ==> [] + [[elements[0]]] + [[elements[1]]] == [[elements[0]], [elements[1]]];
  }

  lemma ReadTwoOperators<T>(b: Token<T>, c: Token<T>, d: Token<T>)
    requires b.Leaf? && c.Leaf? && d.Leaf?
    ensures Read(And, [Oper(Or)] + ([Oper(And)] + [b, c, d]), Start())
         == Ok(Scan([], [[b], [c]], [[d]], [], Some(Oper(Or))))
  {
    ReadLeaves(And, [b, c, d], Start<T>());
    assert [b, c, d] + [] == [b, c, d] && [b, c, d][2..] == [d] && [d][1..] == [] && [] + [[d]] == [[d]];
    ReadCons(And, Oper(And), [b, c, d]);
    PopExactly([b, c, d], [], false);
    ReadCons(And, Oper(Or), [Oper(And)] + [b, c, d]);
    PopExactly([d], [], true);
  }

  lemma OneLeafIsKept<T>(op: Op, d: Token<T>)
    requires d.Leaf?
    ensures Combine(op, [[d]]) == [d]
  {
    FlatIsJoined(op, [[d]]);
    assert [[d]][1..] == [] && Concat([[d]]) == [d] + [] == [d] && [] + [d] == [d];
  }

  /** An operand that is not flat, "y and z, or w", is taken apart: what comes back is "y and z and x and w". */
  lemma NestedComesApart<T>(x: Token<T>, y: Token<T>, z: Token<T>, w: Token<T>)
    requires x.Leaf? && y.Leaf? && z.Leaf? && w.Leaf?
    ensures Inverse(And, [Oper(And)] + ([x] + ([Oper(Or)] + ([Oper(And)] + [y, z, w])))) == Ok([[y], [z], [x], [w]])
  {
    var d := [Oper(Or)] + ([Oper(And)] + [y, z, w]);
    var st := Scan([x], [[y], [z]], [], [[w]], Some(x));
    ReadTwoOperators(y, z, w);
    OneLeafIsKept(Or, w);
    ReadCons(And, x, d);
    assert [] + [[w]] == [[w]] && [x] + [] == [x];
    assert Read(And, [x] + d, Start()) == Ok(st);
    ReadCons(And, Oper(And), [x] + d);
    PopExactly([x], [[y], [z]], false);
    assert [[y], [z]] + [[x]] + [[w]] == [[y], [z], [x], [w]];
  }

  /** A TRUE operand of AND is skipped, a FALSE one absorbs the others. */
  lemma ConstantsAreLost<T>(x: Domain<T>, y: Domain<T>)
    requires IsLeaf(x) && IsLeaf(y)
    ensures Inverse(And, Combine(And, [Unit(And), x, y])) == Ok([x, y])
    ensures Inverse(And, Combine(And, [x, y, Unit(Or)])) == Ok([])
  {
    OneAndTwo(x, y);
    InverseOfFlat(And, [x, y]);
    FlatIsJoined(And, [x, y]);
    assert [Unit(And), x, y][1..] == [x, y];
    assert Leaves([x, y]) == [x] + [y] == [x, y] && [x, y] + [] == [x, y];
    assert IsUnit(Or, [x, y, Unit(Or)][2]);
    InverseOfConst<T>(And, false);
  }

  lemma OneAndTwo<T>(d: Domain<T>, e: Domain<T>)
    ensures Leaves([e]) == if IsLeaf(e) then [e] else []
    ensures GroupsReversed([e]) == if IsLeaf(e) then [] else [e]
    ensures Leaves([d, e]) == (if IsLeaf(d) then [d] else []) + Leaves([e])
    ensures GroupsReversed([d, e]) == GroupsReversed([e]) + if IsLeaf(d) then [] else [d]
  {
    assert [e] == [e] + [] && [d, e] == [d] + [e];
    LeavesCons(e, []);
    LeavesCons(d, [e]);
  }
}
