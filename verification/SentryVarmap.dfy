/**
  `varmap` of sentry/generalutils.py on a graph of Python objects, which may share parts and contain
  themselves, and the password sanitizer of sentry/processor.py that is mapped over it.
*/
module SentryVarmap {
  import opened Wrappers

  /** None, a string, or any other value that is not a container. */
  datatype Scalar = Nothing | Text(text: string) | Other(repr: string)

  datatype Item = Item(key: string, id: nat)

  datatype Object = Leaf(value: Scalar) | List(items: seq<nat>) | Dict(entries: seq<Item>)

  type Heap = map<nat, Object>

  datatype Entry = Entry(key: string, tree: Tree)

  datatype Tree = TLeaf(value: Scalar) | TList(items: seq<Tree>) | TDict(entries: seq<Entry>)

  /** What the mapped function sees of a value; it does not look into a dictionary. */
  datatype Shape = AScalar(value: Scalar) | AMapping

  /** The answer None means that the value itself is returned. */
  type Mapped = (Option<string>, Shape) -> Option<Scalar>

  const ELLIPSIS: Scalar := Text("<...>")

  predicate Closed(heap: Heap) {
    forall id :: id in heap ==>
      match heap[id]
      case Leaf(_) => true
      case List(items) => forall i :: 0 <= i < |items| ==> items[i] in heap
      case Dict(entries) => forall i :: 0 <= i < |entries| ==> entries[i].id in heap
  }

  function OnScalar(f: Mapped, name: Option<string>, v: Scalar): Tree {
    TLeaf(match f(name, AScalar(v)) case Some(v') => v' case None => v)
  }

  /** The result of `varmap` when the objects in `context` are being mapped. */
  function Varmap(heap: Heap, f: Mapped, context: set<nat>, id: nat, name: Option<string>): Tree
    requires Closed(heap) && id in heap
    decreases heap.Keys - context
  {
    if id in context then OnScalar(f, name, ELLIPSIS)
    else
      match heap[id]
      case Leaf(v) => OnScalar(f, name, v)
      case List(items) =>
        TList(seq(|items|, i requires 0 <= i < |items| => Varmap(heap, f, context + {id}, items[i], name)))
      case Dict(entries) =>
        match f(name, AMapping)
        case Some(v) => TLeaf(v)
        case None => TDict(seq(|entries|, i requires 0 <= i < |entries| =>
                               var key := entries[i].key;
                               Entry(key, Varmap(heap, f, context + {id}, entries[i].id, Some(key)))))
  }

  /** The call with its context dictionary, which is shared by the recursive calls. */
  class Mapper {
    var context: set<nat>

    constructor ()
      ensures context == {}
    {
      context := {};
    }

    method Map(heap: Heap, f: Mapped, id: nat, name: Option<string>) returns (ret: Tree)
      requires Closed(heap) && id in heap
      modifies this
      ensures context == old(context)
      ensures ret == Varmap(heap, f, old(context), id, name)
      decreases heap.Keys - context
    {
      if id in context {
        return OnScalar(f, name, ELLIPSIS);
      }
      ghost var before := context;
      context := context + {id};
      match heap[id] {
        case Leaf(v) =>
          ret := OnScalar(f, name, v);
        case List(items) =>
          var rets: seq<Tree> := [];
          for i := 0 to |items|
            invariant context == before + {id} && |rets| == i
            invariant forall j :: 0 <= j < i ==> rets[j] == Varmap(heap, f, before + {id}, items[j], name)
          {
            var r := Map(heap, f, items[i], name);
            rets := rets + [r];
          }
          ret := TList(rets);
        case Dict(entries) =>
          var answer := f(name, AMapping);
          if answer.Some? {
            ret := TLeaf(answer.value);
          } else {
            var rets: seq<Entry> := [];
            for i := 0 to |entries|
              invariant context == before + {id} && |rets| == i
              invariant forall j :: 0 <= j < i ==>
                rets[j] == Entry(entries[j].key, Varmap(heap, f, before + {id}, entries[j].id, Some(entries[j].key)))
            {
              var r := Map(heap, f, entries[i].id, Some(entries[i].key));
              rets := rets + [Entry(entries[i].key, r)];
            }
            ret := TDict(rets);
          }
      }
      context := context - {id};
    }
  }

  // ----- without cycles it is the plain recursive map -----

  /** Every object has a greater rank than its parts. */
  ghost predicate Acyclic(heap: Heap, rank: nat -> nat) {
    forall id :: id in heap ==>
      match heap[id]
      case Leaf(_) => true
      case List(items) => forall i :: 0 <= i < |items| ==> rank(items[i]) < rank(id)
      case Dict(entries) => forall i :: 0 <= i < |entries| ==> rank(entries[i].id) < rank(id)
  }

  /** The object with its parts, as a tree: shared parts are repeated. */
  ghost function Unfold(heap: Heap, rank: nat -> nat, id: nat): Tree
    requires Closed(heap) && Acyclic(heap, rank) && id in heap
    decreases rank(id)
  {
    match heap[id]
    case Leaf(v) => TLeaf(v)
    case List(items) => TList(seq(|items|, i requires 0 <= i < |items| => Unfold(heap, rank, items[i])))
    case Dict(entries) =>
      TDict(seq(|entries|, i requires 0 <= i < |entries| => Entry(entries[i].key, Unfold(heap, rank, entries[i].id))))
  }

  /** The plain map over a tree, without any bookkeeping. */
  function MapTree(f: Mapped, t: Tree, name: Option<string>): Tree
    decreases t
  {
    match t
    case TLeaf(v) => OnScalar(f, name, v)
    case TList(items) => TList(seq(|items|, i requires 0 <= i < |items| => MapTree(f, items[i], name)))
    case TDict(entries) =>
      match f(name, AMapping)
      case Some(v) => TLeaf(v)
      case None => TDict(seq(|entries|, i requires 0 <= i < |entries| =>
                             Entry(entries[i].key, MapTree(f, entries[i].tree, Some(entries[i].key)))))
  }

  /** The context holds the objects that contain this one, which have greater ranks; it does not matter otherwise. */
  lemma {:induction false} VarmapIsPlainMap(heap: Heap, rank: nat -> nat, f: Mapped, context: set<nat>, id: nat,
      name: Option<string>)
    requires Closed(heap) && Acyclic(heap, rank) && id in heap
    requires forall c :: c in context ==> rank(c) > rank(id)
    ensures Varmap(heap, f, context, id, name) == MapTree(f, Unfold(heap, rank, id), name)
    decreases rank(id)
  {
    match heap[id]
    case Leaf(v) =>
    case List(items) =>
      forall i | 0 <= i < |items|
        ensures Varmap(heap, f, context + {id}, items[i], name) == MapTree(f, Unfold(heap, rank, items[i]), name)
      {
        VarmapIsPlainMap(heap, rank, f, context + {id}, items[i], name);
      }
    case Dict(entries) =>
      forall i | 0 <= i < |entries|
        ensures Varmap(heap, f, context + {id}, entries[i].id, Some(entries[i].key))
             == MapTree(f, Unfold(heap, rank, entries[i].id), Some(entries[i].key))
      {
        VarmapIsPlainMap(heap, rank, f, context + {id}, entries[i].id, Some(entries[i].key));
      }
  }

  /** An object that is met inside itself is shown as an ellipsis, which is mapped like any text. */
  lemma CycleIsEllipsis(heap: Heap, f: Mapped, id: nat, name: Option<string>)
    requires Closed(heap) && id in heap && heap[id] == List([id])
    ensures Varmap(heap, f, {}, id, name) ==
            TList([TLeaf(match f(name, AScalar(Text("<...>"))) case Some(v) => v case None => Text("<...>"))])
  {
    assert Varmap(heap, f, {} + {id}, id, name) == OnScalar(f, name, ELLIPSIS);
  }

  // ----- the password sanitizer -----

  const MASK: string := "********"

  const KEYS: set<string> :=
    {"password", "secret", "passwd", "authorization", "api_key", "apikey", "sentry_dsn", "access_token"}

  function LowerChar(c: char): char {
    if 'A' <= c <= 'Z' then c - 'A' + 'a' else c
  }

  function Lower(s: string): string {
    seq(|s|, i requires 0 <= i < |s| => LowerChar(s[i]))
  }

  predicate Within(key: string, s: string) {
    exists i :: 0 <= i <= |s| && key <= s[i..]
  }

  predicate IsSensitive(name: string) {
    exists key :: key in KEYS && Within(key, Lower(name))
  }

  function Digits(s: string): nat
    decreases |s|
  {
    if s == [] then 0 else (if '0' <= s[0] <= '9' then 1 else 0) + Digits(s[1..])
  }

  predicate CardChars(s: string) {
    forall i :: 0 <= i < |s| ==> '0' <= s[i] <= '9' || s[i] == ' ' || s[i] == '-'
  }

  /** 13 to 16 digits with blanks and dashes after them; the end may be followed by a line break. */
  predicate IsCardNumber(s: string) {
    var t := if s != [] && s[|s| - 1] == '\n' then s[..|s| - 1] else s;
    t != [] && '0' <= t[0] <= '9' && 13 <= Digits(t) <= 16 && CardChars(t)
  }

  // ----- what counts as sensitive, and as a card number -----

  /** The letter, in either case; keys are in lower case. */
  predicate SameLetter(c: char, k: char) {
    c == k || ('a' <= k <= 'z' && c == k - 'a' + 'A')
  }

  /** The key occurs in the name, in any case. */
  ghost predicate Occurs(key: string, name: string) {
    exists i :: 0 <= i && OccursAt(key, name, i)
  }

  predicate OccursAt(key: string, name: string, i: nat) {
    i + |key| <= |name| && forall k | 0 <= k < |key| :: SameLetter(name[i + k], key[k])
  }

  lemma WithinOccurs(key: string, name: string, i: nat)
    requires forall k | 0 <= k < |key| :: !('A' <= key[k] <= 'Z')
    requires i <= |Lower(name)|
    ensures key <= Lower(name)[i..] <==> OccursAt(key, name, i)
  {
    var s := Lower(name);
    if key <= s[i..] {
      forall k | 0 <= k < |key| ensures SameLetter(name[i + k], key[k]) {
        assert s[i + k] == s[i..][k] == key[k];
      }
    }
    if OccursAt(key, name, i) {
      assert forall k | 0 <= k < |key| :: s[i..][k] == key[k];
    }
  }

  lemma WithinExactly(key: string, name: string)
    requires forall k | 0 <= k < |key| :: !('A' <= key[k] <= 'Z')
    ensures Within(key, Lower(name)) <==> Occurs(key, name)
  {
    if Within(key, Lower(name)) {
      var i :| 0 <= i <= |Lower(name)| && key <= Lower(name)[i..];
      WithinOccurs(key, name, i);
    }
    if Occurs(key, name) {
      var i :| 0 <= i && OccursAt(key, name, i);
      WithinOccurs(key, name, i);
    }
  }

  lemma SensitiveExactly(name: string)
    ensures IsSensitive(name) <==>
            || Occurs("password", name) || Occurs("secret", name) || Occurs("passwd", name)
            || Occurs("authorization", name) || Occurs("api_key", name) || Occurs("apikey", name)
            || Occurs("sentry_dsn", name) || Occurs("access_token", name)
  {
    WithinExactly("password", name);
    WithinExactly("secret", name);
    WithinExactly("passwd", name);
    WithinExactly("authorization", name);
    WithinExactly("api_key", name);
    WithinExactly("apikey", name);
    WithinExactly("sentry_dsn", name);
    WithinExactly("access_token", name);
  }

  /** A digit with the blanks and dashes behind it. */
  predicate IsGroup(g: string) {
    g != [] && '0' <= g[0] <= '9' && forall k | 0 < k < |g| :: g[k] == ' ' || g[k] == '-'
  }

  function Glued(gs: seq<string>): string
    decreases |gs|
  {
    if gs == [] then [] else gs[0] + Glued(gs[1..])
  }

  ghost predicate AllGroups(gs: seq<string>) {
    forall i | 0 <= i < |gs| :: IsGroup(gs[i])
  }

  lemma {:induction false} DigitsConcat(a: string, b: string)
    ensures Digits(a + b) == Digits(a) + Digits(b)
    decreases |a|
  {
    if a == [] {
      assert a + b == b;
    } else {
      assert (a + b)[1..] == a[1..] + b;
      DigitsConcat(a[1..], b);
    }
  }

  lemma {:induction false} NoDigits(s: string)
    requires forall k | 0 <= k < |s| :: s[k] == ' ' || s[k] == '-'
    ensures Digits(s) == 0
    decreases |s|
  {
    if s != [] {
      NoDigits(s[1..]);
    }
  }

  lemma {:induction false} GroupsGlue(gs: seq<string>)
    requires AllGroups(gs)
    ensures Digits(Glued(gs)) == |gs| && CardChars(Glued(gs))
    ensures gs != [] ==> Glued(gs) != [] && '0' <= Glued(gs)[0] <= '9'
    decreases |gs|
  {
    if gs != [] {
      GroupsGlue(gs[1..]);
      assert IsGroup(gs[0]);
      NoDigits(gs[0][1..]);
      DigitsConcat(gs[0], Glued(gs[1..]));
    }
  }

  /** A text of digits, blanks and dashes that starts with a digit consists of groups. */
  lemma {:induction false} Grouped(s: string) returns (gs: seq<string>)
    requires CardChars(s) && (s == [] || '0' <= s[0] <= '9')
    ensures AllGroups(gs) && Glued(gs) == s && |gs| == Digits(s)
    decreases |s|
  {
    if s == [] {
      gs := [];
    } else {
      var n := 1;
      while n < |s| && !('0' <= s[n] <= '9')
        invariant 1 <= n <= |s| && forall k | 0 < k < n :: s[k] == ' ' || s[k] == '-'
      {
        n := n + 1;
      }
      var rest := Grouped(s[n..]);
      assert s == s[..n] + s[n..];
      NoDigits(s[..n][1..]);
      DigitsConcat(s[..n], s[n..]);
      gs := [s[..n]] + rest;
      assert gs[1..] == rest;
    }
  }

  lemma GroupsAreCard(gs: seq<string>, s: string)
    requires 13 <= |gs| <= 16 && AllGroups(gs) && (s == Glued(gs) || s == Glued(gs) + "\n")
    ensures IsCardNumber(s)
  {
    GroupsGlue(gs);
    if s == Glued(gs) + "\n" {
      assert s[..|s| - 1] == Glued(gs);
    }
  }

  /** A card number: 13 to 16 digits, each with blanks and dashes behind it, and perhaps a line break at the end. */
  lemma CardExactly(s: string)
    ensures IsCardNumber(s) <==>
            exists gs :: 13 <= |gs| <= 16 && AllGroups(gs) && (s == Glued(gs) || s == Glued(gs) + "\n")
  {
    if IsCardNumber(s) {
      var t := if s != [] && s[|s| - 1] == '\n' then s[..|s| - 1] else s;
      var gs := Grouped(t);
      assert s == t || s == t + "\n";
    }
    if gs :| 13 <= |gs| <= 16 && AllGroups(gs) && (s == Glued(gs) || s == Glued(gs) + "\n") {
      GroupsAreCard(gs, s);
    }
  }

  /** An absent or empty name is not looked at. */
  predicate IsSecret(name: Option<string>) {
    name.Some? && name.value != "" && IsSensitive(name.value)
  }

  function Sanitize(name: Option<string>, v: Shape): Option<Scalar> {
    if v == AScalar(Nothing) then None
    else if IsSecret(name) then Some(Text(MASK))
    else if v.AScalar? && v.value.Text? && IsCardNumber(v.value.text) then Some(Text(MASK))
    else None
  }

  /** None stays; anything else is masked under a sensitive name, and a card number is under any name. */
  lemma SanitizeExactly(name: Option<string>, v: Shape)
    ensures Sanitize(name, v) == None || Sanitize(name, v) == Some(Text("********"))
    ensures Sanitize(name, v).Some? <==>
            v != AScalar(Nothing) &&
            ((name.Some? && IsSensitive(name.value)) || (v.AScalar? && v.value.Text? && IsCardNumber(v.value.text)))
  {
    if name == Some("") {
      SensitiveExactly("");
    }
  }

  /** Nothing is left but masks and None. */
  predicate Masked(t: Tree)
    decreases t
  {
    match t
    case TLeaf(v) => v == Nothing || v == Text(MASK)
    case TList(items) => forall i :: 0 <= i < |items| ==> Masked(items[i])
    case TDict(_) => false
  }

  /** No card number anywhere, and no value under a sensitive key. */
  predicate Clean(t: Tree)
    decreases t
  {
    match t
    case TLeaf(v) => v.Text? ==> !IsCardNumber(v.text)
    case TList(items) => forall i :: 0 <= i < |items| ==> Clean(items[i])
    case TDict(entries) => forall i :: 0 <= i < |entries| ==>
      Clean(entries[i].tree) && (IsSecret(Some(entries[i].key)) ==> Masked(entries[i].tree))
  }

  /** Whatever the graph, cyclic or not: the sanitized data is clean. */
  lemma {:induction false} SanitizedIsClean(heap: Heap, context: set<nat>, id: nat, name: Option<string>)
    requires Closed(heap) && id in heap
    ensures Clean(Varmap(heap, Sanitize, context, id, name))
    ensures IsSecret(name) ==> Masked(Varmap(heap, Sanitize, context, id, name))
    decreases heap.Keys - context
  {
    assert MASK[0] == '*';
    if id in context {
      assert ELLIPSIS.text[0] == '<';
    } else {
      match heap[id]
      case Leaf(v) =>
      case List(items) =>
        forall i | 0 <= i < |items|
          ensures var t := Varmap(heap, Sanitize, context + {id}, items[i], name);
                  Clean(t) && (IsSecret(name) ==> Masked(t))
        {
          SanitizedIsClean(heap, context + {id}, items[i], name);
        }
      case Dict(entries) =>
        forall i | 0 <= i < |entries|
          ensures var t := Varmap(heap, Sanitize, context + {id}, entries[i].id, Some(entries[i].key));
                  Clean(t) && (IsSecret(Some(entries[i].key)) ==> Masked(t))
        {
          SanitizedIsClean(heap, context + {id}, entries[i].id, Some(entries[i].key));
        }
    }
  }

  /** Clean data is left as it is; so sanitizing twice is sanitizing once. */
  lemma {:induction false} CleanIsKept(t: Tree, name: Option<string>)
    requires Clean(t)
    requires IsSecret(name) ==> Masked(t)
    ensures MapTree(Sanitize, t, name) == t
    decreases t
  {
    match t
    case TLeaf(v) =>
    case TList(items) =>
      forall i | 0 <= i < |items| ensures MapTree(Sanitize, items[i], name) == items[i] {
        CleanIsKept(items[i], name);
      }
    case TDict(entries) =>
      forall i | 0 <= i < |entries|
          ensures MapTree(Sanitize, entries[i].tree, Some(entries[i].key)) == entries[i].tree {
        CleanIsKept(entries[i].tree, Some(entries[i].key));
      }
  }

  /** Sanitizing changes data exactly when it is not clean, the name it stands under included. */
  lemma SanitizeFixesExactly(heap: Heap, rank: nat -> nat, id: nat, name: Option<string>)
    requires Closed(heap) && Acyclic(heap, rank) && id in heap
    ensures var t := Unfold(heap, rank, id);
            Varmap(heap, Sanitize, {}, id, name) == t <==>
            Clean(t) && (IsSecret(name) ==> Masked(t))
  {
    VarmapIsPlainMap(heap, rank, Sanitize, {}, id, name);
    SanitizedIsClean(heap, {}, id, name);
    if Clean(Unfold(heap, rank, id)) && (IsSecret(name) ==> Masked(Unfold(heap, rank, id))) {
      CleanIsKept(Unfold(heap, rank, id), name);
    }
  }
}
