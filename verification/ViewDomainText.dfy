/**
  The text encoding of domains in base_view_inheritance_extension/models/ir_ui_view.py: variables
  are turned into marked string literals so that a domain can be evaluated without them, and back.
*/
module ViewDomainText {
  import opened Sequences
  import opened Wrappers

  const QUOTE: char := '\''
  const MARK: string := "_is_a_var_to_replace"
  const PARENT: string := "parent."

  /** What is assumed of the regular expressions' word characters. */
  ghost predicate IsWordClass(w: char -> bool) {
    && !w(QUOTE) && !w('.')
    && (forall c :: c in MARK ==> w(c))
    && (forall c :: c in PARENT[..6] ==> w(c))
  }

  // ----- the substitutions, as scanners -----

  /** The length of the longest word at the start. */
  function WordLen(w: char -> bool, s: string): (n: nat)
    ensures n <= |s|
    ensures forall i :: 0 <= i < n ==> w(s[i])
    ensures n < |s| ==> !w(s[n])
  {
    if s == [] || !w(s[0]) then 0 else 1 + WordLen(w, s[1..])
  }

  predicate ParentAt(w: char -> bool, s: string) {
    PARENT <= s && WordLen(w, s[|PARENT|..]) > 0
  }

  function Marked(body: string): string {
    [QUOTE] + ((body + MARK) + [QUOTE])
  }

  /** First step: `parent.` and a word. */
  function QuoteParents(w: char -> bool, s: string): string
    decreases |s|
  {
    if s == [] then []
    else if ParentAt(w, s) then
      var n := |PARENT| + WordLen(w, s[|PARENT|..]);
      Marked(s[..n]) + QuoteParents(w, s[n..])
    else [s[0]] + QuoteParents(w, s[1..])
  }

  predicate MayStart(w: char -> bool, prev: Option<char>) {
    prev.None? || (!w(prev.value) && prev.value != QUOTE)
  }

  /** A whole word, without a quote before or after it. */
  predicate WordAt(w: char -> bool, prev: Option<char>, s: string) {
    var n := WordLen(w, s);
    n > 0 && MayStart(w, prev) && !(n < |s| && s[n] == QUOTE)
  }

  /** Second step; `prev` is the character before the text. */
  function QuoteWords(w: char -> bool, prev: Option<char>, s: string): string
    decreases |s|
  {
    if s == [] then []
    else if WordAt(w, prev, s) then
      var n := WordLen(w, s);
      Marked(s[..n]) + QuoteWords(w, Some(s[n - 1]), s[n..])
    else [s[0]] + QuoteWords(w, Some(s[0]), s[1..])
  }

  function VarToStr(w: char -> bool, s: string): string {
    QuoteWords(w, None, QuoteParents(w, s))
  }

  function NextQuote(s: string): (n: nat)
    ensures n <= |s| && forall i :: 0 <= i < n ==> s[i] != QUOTE
    ensures n < |s| ==> s[n] == QUOTE
  {
    if s == [] || s[0] == QUOTE then 0 else 1 + NextQuote(s[1..])
  }

  /** The mark ends at n, after at least one other character. */
  predicate MarkEndsAt(s: string, n: nat) {
    |MARK| < n <= |s| && s[n - |MARK|..n] == MARK
  }

  /** After an opening quote: text that starts with the prefix and goes on, the mark, and the closing quote. */
  predicate BodyAt(prefix: string, s: string) {
    var n := NextQuote(s);
    n < |s| && |prefix| + |MARK| < n && prefix <= s[..n] && MarkEndsAt(s, n)
  }

  /** The body without its mark, and what follows its closing quote. */
  function Body(s: string): string
    requires |MARK| < NextQuote(s)
  {
    s[..NextQuote(s) - |MARK|]
  }

  function After(s: string): string
    requires NextQuote(s) < |s|
  {
    s[NextQuote(s) + 1..]
  }

  function Unquote(prefix: string, s: string): string
    decreases |s|
  {
    if s == [] then []
    else if s[0] == QUOTE && BodyAt(prefix, s[1..]) then Body(s[1..]) + Unquote(prefix, After(s[1..]))
    else [s[0]] + Unquote(prefix, s[1..])
  }

  function StrToVar(s: string): string {
    Unquote("", Unquote(PARENT, s))
  }

  // ----- text as pieces -----

  /** A character that is kept, or a name that is marked. */
  datatype Piece = Raw(c: char) | Ins(body: string)

  function Shown(p: Piece): string {
    match p case Raw(c) => [c] case Ins(body) => Marked(body)
  }

  function Bare(p: Piece): string {
    match p case Raw(c) => [c] case Ins(body) => body
  }

  function Render(ps: seq<Piece>): string
    decreases |ps|
  {
    if ps == [] then [] else Shown(ps[0]) + Render(ps[1..])
  }

  function Plain(ps: seq<Piece>): string
    decreases |ps|
  {
    if ps == [] then [] else Bare(ps[0]) + Plain(ps[1..])
  }

  function Raws(s: string): seq<Piece>
    decreases |s|
  {
    if s == [] then [] else [Raw(s[0])] + Raws(s[1..])
  }

  lemma Cons(p: Piece, ps: seq<Piece>)
    ensures Render([p] + ps) == Shown(p) + Render(ps) && Plain([p] + ps) == Bare(p) + Plain(ps)
  {
    assert ([p] + ps)[1..] == ps;
  }

  lemma {:induction false} RawsAre(s: string, ps: seq<Piece>)
    ensures Render(Raws(s) + ps) == s + Render(ps) && Plain(Raws(s) + ps) == s + Plain(ps)
    decreases |s|
  {
    if s == [] {
      assert Raws(s) + ps == ps;
    } else {
      var rest := Raws(s[1..]) + ps;
      Regroup([Raw(s[0])], Raws(s[1..]), ps);
      Cons(Raw(s[0]), rest);
      RawsAre(s[1..], ps);
      Regroup([s[0]], s[1..], Render(ps));
      Regroup([s[0]], s[1..], Plain(ps));
      assert [s[0]] + s[1..] == s;
    }
  }

  predicate AllWord(w: char -> bool, s: string) {
    forall i :: 0 <= i < |s| ==> w(s[i])
  }

  predicate IsParentName(w: char -> bool, body: string) {
    PARENT < body && AllWord(w, body[|PARENT|..])
  }

  predicate IsName(w: char -> bool, body: string) {
    body != [] && AllWord(w, body)
  }

  ghost predicate ParentPieces(w: char -> bool, ps: seq<Piece>) {
    forall p :: p in ps && p.Ins? ==> IsParentName(w, p.body)
  }

  ghost predicate NamePieces(w: char -> bool, ps: seq<Piece>) {
    forall p :: p in ps && p.Ins? ==> IsParentName(w, p.body) || IsName(w, p.body)
  }

  // ----- what the two steps of quoting do, as pieces -----

  function ParentsOf(w: char -> bool, s: string): seq<Piece>
    decreases |s|
  {
    if s == [] then []
    else if ParentAt(w, s) then
      var n := |PARENT| + WordLen(w, s[|PARENT|..]);
      [Ins(s[..n])] + ParentsOf(w, s[n..])
    else [Raw(s[0])] + ParentsOf(w, s[1..])
  }

  lemma {:induction false} ParentsAreQuoted(w: char -> bool, s: string)
    ensures Render(ParentsOf(w, s)) == QuoteParents(w, s)
    ensures Plain(ParentsOf(w, s)) == s
    decreases |s|
  {
    if s == [] {
    } else if ParentAt(w, s) {
      var n := |PARENT| + WordLen(w, s[|PARENT|..]);
      ParentsAreQuoted(w, s[n..]);
      Cons(Ins(s[..n]), ParentsOf(w, s[n..]));
      Halves(s, n);
    } else {
      ParentsAreQuoted(w, s[1..]);
      Cons(Raw(s[0]), ParentsOf(w, s[1..]));
    }
  }

  lemma ParentIsName(w: char -> bool, s: string)
    requires ParentAt(w, s)
    ensures IsParentName(w, s[..|PARENT| + WordLen(w, s[|PARENT|..])])
  {
    var k := WordLen(w, s[|PARENT|..]);
    assert s[..|PARENT| + k][|PARENT|..] == s[|PARENT|..][..k];
  }

  lemma {:induction false} ParentsAreParentNames(w: char -> bool, s: string)
    ensures ParentPieces(w, ParentsOf(w, s))
    decreases |s|
  {
    if s == [] {
    } else if ParentAt(w, s) {
      ParentIsName(w, s);
      ParentsAreParentNames(w, s[|PARENT| + WordLen(w, s[|PARENT|..])..]);
    } else {
      ParentsAreParentNames(w, s[1..]);
    }
  }

  /** The word of unmarked characters at the start. */
  function RawWord(w: char -> bool, ps: seq<Piece>): string
    decreases |ps|
  {
    if ps == [] || ps[0].Ins? || !w(ps[0].c) then [] else [ps[0].c] + RawWord(w, ps[1..])
  }

  lemma {:induction false} RawWordEnds(w: char -> bool, ps: seq<Piece>)
    ensures var v := RawWord(w, ps);
            && |v| <= |ps| && AllWord(w, v)
            && (|v| < |ps| ==> ps[|v|].Ins? || !w(ps[|v|].c))
    decreases |ps|
  {
    if ps == [] || ps[0].Ins? || !w(ps[0].c) {
    } else {
      RawWordEnds(w, ps[1..]);
    }
  }

  lemma {:induction false} RawWordSplits(w: char -> bool, ps: seq<Piece>)
    requires |RawWord(w, ps)| <= |ps|
    ensures var v := RawWord(w, ps);
            Render(ps) == v + Render(ps[|v|..]) && Plain(ps) == v + Plain(ps[|v|..])
    decreases |ps|
  {
    if ps == [] || ps[0].Ins? || !w(ps[0].c) {
    } else {
      var c, rest, v := ps[0].c, ps[1..], RawWord(w, ps[1..]);
      RawWordSplits(w, rest);
      assert rest[|v|..] == ps[|v| + 1..];
      Regroup([c], v, Render(rest[|v|..]));
      Regroup([c], v, Plain(rest[|v|..]));
    }
  }

  lemma RawWordIsFirst(w: char -> bool, ps: seq<Piece>)
    requires IsWordClass(w)
    ensures var v := RawWord(w, ps);
            && |v| <= |ps| && AllWord(w, v)
            && WordLen(w, Render(ps)) == |v|
            && Render(ps) == v + Render(ps[|v|..])
            && Plain(ps) == v + Plain(ps[|v|..])
  {
    var v := RawWord(w, ps);
    RawWordEnds(w, ps);
    RawWordSplits(w, ps);
    if |v| < |ps| {
      assert ps[|v|..][0] == ps[|v|];
    }
    WordLenOf(w, v, Render(ps[|v|..]));
  }

  /** The second step marks words of unmarked characters only. */
  function WordsOf(w: char -> bool, prev: Option<char>, ps: seq<Piece>): seq<Piece>
    requires IsWordClass(w)
    decreases |ps|
  {
    if ps == [] then []
    else if ps[0].Ins? then [ps[0]] + WordsOf(w, Some(QUOTE), ps[1..])
    else if WordAt(w, prev, Render(ps)) then
      RawWordIsFirst(w, ps);
      var v := RawWord(w, ps);
      [Ins(v)] + WordsOf(w, Some(v[|v| - 1]), ps[|v|..])
    else [ps[0]] + WordsOf(w, Some(ps[0].c), ps[1..])
  }

  /** Inside a word, and right after a quote, nothing is marked. */
  lemma {:induction false} WordTailKept(w: char -> bool, prev: char, u: string, rest: string)
    requires AllWord(w, u) && !MayStart(w, Some(prev))
    ensures QuoteWords(w, Some(prev), u + rest) == u + QuoteWords(w, Some(if u == [] then prev else u[|u| - 1]), rest)
    decreases |u|
  {
    if u == [] {
      assert u + rest == rest;
      assert u + QuoteWords(w, Some(prev), rest) == QuoteWords(w, Some(prev), rest);
    } else {
      var c, tail := u[0], u[1..];
      HeadTail(u);
      Regroup([c], tail, rest);
      CharKept(w, Some(prev), c, tail + rest);
      WordTailKept(w, c, tail, rest);
      Regroup([c], tail, QuoteWords(w, Some(u[|u| - 1]), rest));
    }
  }

  lemma {:induction false} WordLenOf(w: char -> bool, u: string, rest: string)
    requires AllWord(w, u) && (rest == [] || !w(rest[0]))
    ensures WordLen(w, u + rest) == |u|
    decreases |u|
  {
    if u == [] {
      assert u + rest == rest;
    } else {
      assert (u + rest)[1..] == u[1..] + rest;
      WordLenOf(w, u[1..], rest);
    }
  }

  lemma KeptChar(w: char -> bool, prev: Option<char>, c: char, rest: string)
    requires !w(c)
    ensures QuoteWords(w, prev, [c] + rest) == [c] + QuoteWords(w, Some(c), rest)
  {
    assert ([c] + rest)[1..] == rest;
  }

  /** A word before a quote. */
  lemma KeptWord(w: char -> bool, prev: Option<char>, v: string, rest: string)
    requires AllWord(w, v) && v != [] && rest != [] && rest[0] == QUOTE && !w(QUOTE)
    ensures QuoteWords(w, prev, v + rest) == v + QuoteWords(w, Some(v[|v| - 1]), rest)
  {
    WordLenOf(w, v, rest);
    assert (v + rest)[1..] == v[1..] + rest;
    WordTailKept(w, v[0], v[1..], rest);
    Regroup([v[0]], v[1..], QuoteWords(w, Some(v[|v| - 1]), rest));
    assert [v[0]] + v[1..] == v;
  }

  lemma MarkedParentSplits(body: string, rest: string)
    requires PARENT < body
    ensures Marked(body) + rest == [QUOTE] + (PARENT[..6] + (['.'] + ((body[|PARENT|..] + MARK) + ([QUOTE] + rest))))
  {
    var tail := body[|PARENT|..];
    assert body == PARENT[..6] + (['.'] + tail);
  }

  /** What the first step marked, the second leaves alone. */
  lemma MarkedParentKept(w: char -> bool, prev: Option<char>, body: string, rest: string)
    requires IsWordClass(w) && IsParentName(w, body)
    ensures QuoteWords(w, prev, Marked(body) + rest) == Marked(body) + QuoteWords(w, Some(QUOTE), rest)
  {
    var v := body[|PARENT|..] + MARK;
    var s4 := [QUOTE] + rest;
    var s2 := ['.'] + (v + s4);
    MarkedParentSplits(body, rest);
    KeptChar(w, prev, QUOTE, PARENT[..6] + s2);
    WordTailKept(w, QUOTE, PARENT[..6], s2);
    KeptChar(w, Some(PARENT[5]), '.', v + s4);
    KeptWord(w, Some('.'), v, s4);
    KeptChar(w, Some(v[|v| - 1]), QUOTE, rest);
    MarkedParentSplits(body, QuoteWords(w, Some(QUOTE), rest));
  }

  lemma WordQuoted(w: char -> bool, prev: Option<char>, v: string, rest: string)
    requires WordLen(w, v + rest) == |v| && WordAt(w, prev, v + rest)
    ensures QuoteWords(w, prev, v + rest) == Marked(v) + QuoteWords(w, Some(v[|v| - 1]), rest)
  {
    SplitAt(v, rest);
    assert (v + rest)[|v| - 1] == v[|v| - 1];
  }

  lemma CharKept(w: char -> bool, prev: Option<char>, c: char, rest: string)
    requires !WordAt(w, prev, [c] + rest)
    ensures QuoteWords(w, prev, [c] + rest) == [c] + QuoteWords(w, Some(c), rest)
  {
    SplitAt([c], rest);
  }

  lemma WordQuotedFirst(w: char -> bool, prev: Option<char>, ps: seq<Piece>)
    requires IsWordClass(w) && ps != [] && ps[0].Raw? && WordAt(w, prev, Render(ps))
    ensures var v := RawWord(w, ps);
            && 0 < |v| <= |ps| && Plain(ps) == v + Plain(ps[|v|..])
            && QuoteWords(w, prev, Render(ps)) == Marked(v) + QuoteWords(w, Some(v[|v| - 1]), Render(ps[|v|..]))
            && WordsOf(w, prev, ps) == [Ins(v)] + WordsOf(w, Some(v[|v| - 1]), ps[|v|..])
  {
    RawWordIsFirst(w, ps);
    var v := RawWord(w, ps);
    WordQuoted(w, prev, v, Render(ps[|v|..]));
  }

  lemma {:induction false} WordsAreQuoted(w: char -> bool, prev: Option<char>, ps: seq<Piece>)
    requires IsWordClass(w) && ParentPieces(w, ps)
    ensures Render(WordsOf(w, prev, ps)) == QuoteWords(w, prev, Render(ps))
    ensures Plain(WordsOf(w, prev, ps)) == Plain(ps)
    decreases |ps|
  {
    if ps == [] {
    } else if ps[0].Ins? {
      WordsAreQuoted(w, Some(QUOTE), ps[1..]);
      assert ps[0] in ps;
      MarkedParentKept(w, prev, ps[0].body, Render(ps[1..]));
      Cons(ps[0], WordsOf(w, Some(QUOTE), ps[1..]));
    } else if WordAt(w, prev, Render(ps)) {
      WordQuotedFirst(w, prev, ps);
      var v := RawWord(w, ps);
      var last := Some(v[|v| - 1]);
      WordsAreQuoted(w, last, ps[|v|..]);
      Cons(Ins(v), WordsOf(w, last, ps[|v|..]));
    } else {
      var c, rest := ps[0].c, ps[1..];
      WordsAreQuoted(w, Some(c), rest);
      CharKept(w, prev, c, Render(rest));
      Cons(ps[0], WordsOf(w, Some(c), rest));
    }
  }

  lemma {:induction false} WordsAreNames(w: char -> bool, prev: Option<char>, ps: seq<Piece>)
    requires IsWordClass(w) && ParentPieces(w, ps)
    ensures NamePieces(w, WordsOf(w, prev, ps))
    decreases |ps|
  {
    if ps == [] {
    } else if ps[0].Ins? {
      WordsAreNames(w, Some(QUOTE), ps[1..]);
      assert ps[0] in ps;
    } else if WordAt(w, prev, Render(ps)) {
      RawWordIsFirst(w, ps);
      var v := RawWord(w, ps);
      WordsAreNames(w, Some(v[|v| - 1]), ps[|v|..]);
    } else {
      WordsAreNames(w, Some(ps[0].c), ps[1..]);
    }
  }

  /** The text with its variables marked, as pieces. */
  function Marking(w: char -> bool, s: string): seq<Piece>
    requires IsWordClass(w)
  {
    WordsOf(w, None, ParentsOf(w, s))
  }

  lemma MarkingIs(w: char -> bool, s: string)
    requires IsWordClass(w)
    ensures Render(Marking(w, s)) == VarToStr(w, s) && Plain(Marking(w, s)) == s && NamePieces(w, Marking(w, s))
  {
    ParentsAreQuoted(w, s);
    ParentsAreParentNames(w, s);
    WordsAreQuoted(w, None, ParentsOf(w, s));
    WordsAreNames(w, None, ParentsOf(w, s));
  }

  // ----- what the two steps of unquoting do, as pieces -----

  /** The marked names that start with the prefix are plain text again. */
  function Restore(prefix: string, ps: seq<Piece>): seq<Piece>
    decreases |ps|
  {
    if ps == [] then []
    else (if ps[0].Ins? && prefix < ps[0].body then Raws(ps[0].body) else [ps[0]]) + Restore(prefix, ps[1..])
  }

  /** No replacement starts at any other quote than the first one of a marked name with the prefix. */
  predicate Clear(prefix: string, ps: seq<Piece>)
    decreases |ps|
  {
    ps == [] ||
    (&& (ps[0] == Raw(QUOTE) || (ps[0].Ins? && !(prefix < ps[0].body)) ==> !BodyAt(prefix, Render(ps[1..])))
     && Clear(prefix, ps[1..]))
  }

  predicate NoQuote(s: string) {
    forall i :: 0 <= i < |s| ==> s[i] != QUOTE
  }

  lemma ParentHasDot(s: string)
    ensures PARENT <= s ==> '.' in s
  {
    if PARENT <= s {
      assert s[6] == '.';
    }
  }

  lemma NamesHaveNoQuote(w: char -> bool, body: string)
    requires IsWordClass(w) && (IsParentName(w, body) || IsName(w, body))
    ensures NoQuote(body) && NoQuote(body + MARK)
    ensures PARENT < body <==> IsParentName(w, body)
    ensures !(PARENT < body) ==> body != [] && !(PARENT <= body + MARK)
  {
    ParentHasDot(body + MARK);
    if PARENT < body {
      assert body[6] == '.';
      assert body == PARENT + body[|PARENT|..];
    }
  }

  lemma {:induction false} NextQuoteAfter(u: string, rest: string)
    requires NoQuote(u) && rest != [] && rest[0] == QUOTE
    ensures NextQuote(u + rest) == |u|
    decreases |u|
  {
    if u == [] {
      assert u + rest == rest;
    } else {
      assert (u + rest)[1..] == u[1..] + rest;
      NextQuoteAfter(u[1..], rest);
    }
  }

  lemma {:induction false} TextKept(prefix: string, u: string, rest: string)
    requires NoQuote(u)
    ensures Unquote(prefix, u + rest) == u + Unquote(prefix, rest)
    decreases |u|
  {
    if u == [] {
      assert u + rest == rest;
    } else {
      assert (u + rest)[1..] == u[1..] + rest;
      TextKept(prefix, u[1..], rest);
    }
  }

  lemma QuoteKept(prefix: string, rest: string)
    requires !BodyAt(prefix, rest)
    ensures Unquote(prefix, [QUOTE] + rest) == [QUOTE] + Unquote(prefix, rest)
  {
    assert ([QUOTE] + rest)[1..] == rest;
  }

  lemma MarkedSplits(body: string, rest: string)
    ensures Marked(body) + rest == [QUOTE] + ((body + MARK) + ([QUOTE] + rest))
  {
    Regroup([QUOTE], (body + MARK) + [QUOTE], rest);
    Regroup(body + MARK, [QUOTE], rest);
  }

  lemma AfterMark<T>(body: seq<T>, mark: seq<T>, q: T, rest: seq<T>)
    ensures var t := (body + mark) + ([q] + rest);
            var n := |body| + |mark|;
            t[..n] == body + mark && t[n - |mark|..n] == mark && t[..n - |mark|] == body && t[n + 1..] == rest
  {
  }

  lemma MarkedIsBody(prefix: string, body: string, rest: string)
    requires NoQuote(body + MARK) && prefix < body
    ensures var t, n := (body + MARK) + ([QUOTE] + rest), |body| + |MARK|;
            NextQuote(t) == n && BodyAt(prefix, t) && Body(t) == body && After(t) == rest
  {
    NextQuoteAfter(body + MARK, [QUOTE] + rest);
    AfterMark(body, MARK, QUOTE, rest);
  }

  lemma BodyRemoved(prefix: string, t: string, body: string, rest: string)
    requires BodyAt(prefix, t) && Body(t) == body && After(t) == rest
    ensures Unquote(prefix, [QUOTE] + t) == body + Unquote(prefix, rest)
  {
    QuoteDropped(prefix, t);
  }

  lemma MarkRemoved(prefix: string, body: string, rest: string)
    requires NoQuote(body + MARK) && prefix < body
    ensures Unquote(prefix, Marked(body) + rest) == body + Unquote(prefix, rest)
  {
    MarkedSplits(body, rest);
    MarkedIsBody(prefix, body, rest);
    BodyRemoved(prefix, (body + MARK) + ([QUOTE] + rest), body, rest);
  }

  /** Only a text that starts with the prefix is a body. */
  lemma MarkedNameThen(prefix: string, body: string, rest: string)
    requires NoQuote(body + MARK) && !(prefix <= body + MARK)
    ensures Unquote(prefix, Marked(body) + rest) == [QUOTE] + ((body + MARK) + Unquote(prefix, [QUOTE] + rest))
  {
    var u, tail := body + MARK, [QUOTE] + rest;
    NextQuoteAfter(u, tail);
    SplitAt(u, tail);
    MarkedSplits(body, rest);
    QuoteKept(prefix, u + tail);
    TextKept(prefix, u, tail);
  }

  lemma MarkKept(prefix: string, body: string, rest: string)
    requires NoQuote(body + MARK) && !(prefix <= body + MARK) && !BodyAt(prefix, rest)
    ensures Unquote(prefix, Marked(body) + rest) == Marked(body) + Unquote(prefix, rest)
  {
    MarkedNameThen(prefix, body, rest);
    QuoteKept(prefix, rest);
    MarkedSplits(body, Unquote(prefix, rest));
  }

  lemma RestoreCons(prefix: string, ps: seq<Piece>)
    requires ps != []
    ensures ps[0].Ins? && prefix < ps[0].body ==>
              Render(Restore(prefix, ps)) == ps[0].body + Render(Restore(prefix, ps[1..]))
    ensures !(ps[0].Ins? && prefix < ps[0].body) ==>
              Render(Restore(prefix, ps)) == Shown(ps[0]) + Render(Restore(prefix, ps[1..]))
    ensures Plain(Restore(prefix, ps)) == Bare(ps[0]) + Plain(Restore(prefix, ps[1..]))
  {
    if ps[0].Ins? && prefix < ps[0].body {
      RawsAre(ps[0].body, Restore(prefix, ps[1..]));
    } else {
      Cons(ps[0], Restore(prefix, ps[1..]));
    }
  }

  /** A clear text loses the marks with the prefix, and nothing else. */
  lemma {:induction false} ClearIsRestored(w: char -> bool, prefix: string, ps: seq<Piece>)
    requires IsWordClass(w) && NamePieces(w, ps) && (prefix == "" || prefix == PARENT)
    requires Clear(prefix, ps)
    ensures Unquote(prefix, Render(ps)) == Render(Restore(prefix, ps))
    decreases |ps|
  {
    if ps == [] {
    } else {
      var rest := Render(ps[1..]);
      ClearIsRestored(w, prefix, ps[1..]);
      RestoreCons(prefix, ps);
      assert ps[0] in ps;
      match ps[0]
      case Raw(c) =>
        if c == QUOTE {
          QuoteKept(prefix, rest);
        } else {
          TextKept(prefix, [c], rest);
        }
      case Ins(body) =>
        NamesHaveNoQuote(w, body);
        if prefix < body {
          MarkRemoved(prefix, body, rest);
        } else {
          MarkKept(prefix, body, rest);
        }
    }
  }

  lemma {:induction false} RestoreKeepsText(prefix: string, ps: seq<Piece>)
    ensures Plain(Restore(prefix, ps)) == Plain(ps)
    decreases |ps|
  {
    if ps == [] {
    } else {
      RestoreCons(prefix, ps);
      RestoreKeepsText(prefix, ps[1..]);
    }
  }

  lemma RawsArePlain(w: char -> bool, s: string)
    ensures NamePieces(w, Raws(s))
    decreases |s|
  {
    if s != [] {
      RawsArePlain(w, s[1..]);
    }
  }

  lemma {:induction false} RestoreKeepsNames(w: char -> bool, prefix: string, ps: seq<Piece>)
    requires NamePieces(w, ps)
    ensures NamePieces(w, Restore(prefix, ps))
    decreases |ps|
  {
    if ps == [] {
    } else {
      RestoreKeepsNames(w, prefix, ps[1..]);
      if ps[0].Ins? && prefix < ps[0].body {
        RawsArePlain(w, ps[0].body);
      } else {
        assert ps[0] in ps;
      }
    }
  }

  lemma {:induction false} AllRestored(w: char -> bool, ps: seq<Piece>)
    requires IsWordClass(w) && NamePieces(w, ps)
    ensures Render(Restore("", ps)) == Plain(ps)
    decreases |ps|
  {
    if ps == [] {
    } else {
      AllRestored(w, ps[1..]);
      RestoreCons("", ps);
      assert ps[0] in ps;
      if ps[0].Ins? {
        NamesHaveNoQuote(w, ps[0].body);
      }
    }
  }

  // ----- exactly when the text comes back -----

  lemma QuoteDropped(prefix: string, rest: string)
    requires BodyAt(prefix, rest)
    ensures Unquote(prefix, [QUOTE] + rest) == Body(rest) + Unquote(prefix, After(rest))
  {
    SplitAt([QUOTE], rest);
  }

  lemma DroppedStart(prefix: string, rest: string)
    requires BodyAt(prefix, rest)
    ensures var r := Unquote(prefix, [QUOTE] + rest);
            r != [] && r[0] == rest[0] != QUOTE
  {
    var n := NextQuote(rest);
    QuoteDropped(prefix, rest);
    assert rest[..n - |MARK|][0] == rest[0];
    assert rest[..n][0] == rest[0];
  }

  /** A replacement drops a quote that the plain text has there, or leaves behind part of a mark. */
  lemma {:induction false} UnclearVariablesDiffer(w: char -> bool, ps: seq<Piece>)
    requires IsWordClass(w) && NamePieces(w, ps) && !Clear("", ps)
    ensures Unquote("", Render(ps)) != Plain(ps)
    decreases |ps|
  {
    var rest := Render(ps[1..]);
    assert ps[0] in ps;
    match ps[0]
    case Raw(c) =>
      if c == QUOTE && BodyAt("", rest) {
        DroppedStart("", rest);
        assert Plain(ps)[0] == QUOTE;
      } else {
        if c == QUOTE {
          QuoteKept("", rest);
        } else {
          TextKept("", [c], rest);
        }
        UnclearVariablesDiffer(w, ps[1..]);
        Differ([c], Unquote("", rest), Plain(ps[1..]));
      }
    case Ins(body) =>
      NamesHaveNoQuote(w, body);
      MarkRemoved("", body, rest);
      UnclearVariablesDiffer(w, ps[1..]);
      Differ(body, Unquote("", rest), Plain(ps[1..]));
  }

  lemma Differ(a: string, b: string, c: string)
    requires b != c
    ensures a + b != a + c
  {
    SplitAt(a, b);
    SplitAt(a, c);
  }

  lemma {:induction false} TextKeptTwice(u: string, rest: string)
    requires NoQuote(u)
    ensures Unquote("", Unquote(PARENT, u + rest)) == u + Unquote("", Unquote(PARENT, rest))
  {
    TextKept(PARENT, u, rest);
    TextKept("", u, Unquote(PARENT, rest));
  }

  /** After the first step dropped the closing quote of a marked name, the name does not come back. */
  lemma MarkLeft(body: string, tail: string, plain: string)
    requires NoQuote(body + MARK) && body != []
    requires tail != [] && tail[0] != QUOTE && tail[0] != MARK[0] && plain != [] && plain[0] == tail[0]
    ensures Unquote("", [QUOTE] + (body + MARK + tail)) != body + plain
  {
    var t := body + MARK + tail;
    assert t[0] == body[0];
    assert (body + plain)[0] == body[0];
    if BodyAt("", t) {
      var n := NextQuote(t);
      QuoteDropped("", t);
      forall i | 0 <= i <= |body| + |MARK| ensures t[i] != QUOTE {
        if i < |body| + |MARK| {
          assert t[i] == (body + MARK)[i];
        } else {
          assert t[i] == tail[0];
        }
      }
      assert n > |body| + |MARK|;
      assert t[|body|] == MARK[0];
      assert (body + plain)[|body|] == plain[0];
    } else {
      QuoteKept("", t);
    }
  }

  lemma BodyStartsPlain(ps: seq<Piece>)
    requires BodyAt(PARENT, Render(ps))
    ensures Render(ps)[0] == PARENT[0] && Plain(ps) != [] && Plain(ps)[0] == PARENT[0]
  {
    var r := Render(ps);
    assert r[..NextQuote(r)][0] == r[0];
  }

  lemma RawThenUnclear(c: char, rest: string, plain: string)
    requires (c == QUOTE && BodyAt(PARENT, rest)) || Unquote("", Unquote(PARENT, rest)) != plain
    ensures Unquote("", Unquote(PARENT, [c] + rest)) != [c] + plain
  {
    if c != QUOTE {
      TextKeptTwice([c], rest);
      Differ([c], Unquote("", Unquote(PARENT, rest)), plain);
    } else if BodyAt(PARENT, rest) {
      DroppedStart(PARENT, rest);
      var u := Unquote(PARENT, [QUOTE] + rest);
      assert u == [u[0]] + u[1..];
      TextKept("", [u[0]], u[1..]);
      assert ([QUOTE] + plain)[0] == QUOTE;
    } else {
      QuoteKept(PARENT, rest);
      KeptOrDropped(Unquote(PARENT, rest), plain);
    }
  }

  lemma {:induction false} NameThenUnclear(w: char -> bool, body: string, rest: string, plain: string)
    requires IsWordClass(w) && (IsParentName(w, body) || IsName(w, body))
    requires !(PARENT < body) && BodyAt(PARENT, rest) ==> plain != [] && plain[0] == rest[0] == PARENT[0]
    requires PARENT < body || !BodyAt(PARENT, rest) ==> Unquote("", Unquote(PARENT, rest)) != plain
    ensures Unquote("", Unquote(PARENT, Marked(body) + rest)) != body + plain
  {
    var back := Unquote("", Unquote(PARENT, rest));
    NamesHaveNoQuote(w, body);
    if PARENT < body {
      MarkRemoved(PARENT, body, rest);
      TextKept("", body, Unquote(PARENT, rest));
      Differ(body, back, plain);
    } else if BodyAt(PARENT, rest) {
      DroppedStart(PARENT, rest);
      MarkedNameThen(PARENT, body, rest);
      MarkLeft(body, Unquote(PARENT, [QUOTE] + rest), plain);
    } else {
      MarkKept(PARENT, body, rest);
      MarkRemoved("", body, Unquote(PARENT, rest));
      Differ(body, back, plain);
    }
  }

  lemma {:induction false} UnclearParentsDiffer(w: char -> bool, ps: seq<Piece>)
    requires IsWordClass(w) && NamePieces(w, ps) && !Clear(PARENT, ps)
    ensures Unquote("", Unquote(PARENT, Render(ps))) != Plain(ps)
    decreases |ps|
  {
    var rest := ps[1..];
    assert ps[0] in ps;
    if BodyAt(PARENT, Render(rest)) {
      BodyStartsPlain(rest);
    }
    if !Clear(PARENT, rest) {
      UnclearParentsDiffer(w, rest);
    }
    match ps[0]
    case Raw(c) => RawThenUnclear(c, Render(rest), Plain(rest));
    case Ins(body) => NameThenUnclear(w, body, Render(rest), Plain(rest));
  }

  /** A quote that survived the first step is kept by the second one, or dropped for good. */
  lemma KeptOrDropped(u: string, plain: string)
    requires Unquote("", u) != plain
    ensures Unquote("", [QUOTE] + u) != [QUOTE] + plain
  {
    if BodyAt("", u) {
      DroppedStart("", u);
      assert ([QUOTE] + plain)[0] == QUOTE;
    } else {
      QuoteKept("", u);
      Differ([QUOTE], Unquote("", u), plain);
    }
  }

  /**
    `str2var_domain_text` reverts `var2str_domain_text` exactly when neither of its steps finds a
    marked text that starts at a quote of the domain itself, or at the end of a marked variable.
  */
  lemma RevertsExactly(w: char -> bool, s: string)
    requires IsWordClass(w)
    ensures StrToVar(VarToStr(w, s)) == s <==>
            Clear(PARENT, Marking(w, s)) && Clear("", Restore(PARENT, Marking(w, s)))
  {
    var ps := Marking(w, s);
    MarkingIs(w, s);
    if Clear(PARENT, ps) {
      var qs := Restore(PARENT, ps);
      ClearIsRestored(w, PARENT, ps);
      RestoreKeepsText(PARENT, ps);
      RestoreKeepsNames(w, PARENT, ps);
      if Clear("", qs) {
        ClearIsRestored(w, "", qs);
        AllRestored(w, qs);
      } else {
        UnclearVariablesDiffer(w, qs);
      }
    } else {
      UnclearParentsDiffer(w, ps);
    }
  }

  // ----- a text without the mark -----

  predicate Contains(s: string, t: string) {
    exists i :: 0 <= i <= |s| && t <= s[i..]
  }

  /** Up to the next quote, what is rendered is plain text. */
  lemma {:induction false} PlainUpToQuote(ps: seq<Piece>)
    ensures NextQuote(Render(ps)) <= |Plain(ps)|
    ensures Render(ps)[..NextQuote(Render(ps))] == Plain(ps)[..NextQuote(Render(ps))]
    decreases |ps|
  {
    if ps == [] {
    } else {
      PlainUpToQuote(ps[1..]);
      PieceUpToQuote(ps[0], Render(ps[1..]), Plain(ps[1..]));
    }
  }

  lemma PieceUpToQuote(p: Piece, r: string, t: string)
    requires NextQuote(r) <= |t| && r[..NextQuote(r)] == t[..NextQuote(r)]
    ensures var a, b := Shown(p) + r, Bare(p) + t;
            NextQuote(a) <= |b| && a[..NextQuote(a)] == b[..NextQuote(a)]
  {
    if p.Raw? && p.c != QUOTE {
      SameUpToQuote(p.c, r, t);
    } else {
      assert Shown(p)[0] == QUOTE;
    }
  }

  lemma SameUpToQuote(c: char, r: string, t: string)
    requires c != QUOTE && NextQuote(r) <= |t| && r[..NextQuote(r)] == t[..NextQuote(r)]
    ensures NextQuote([c] + r) == NextQuote(r) + 1
    ensures ([c] + r)[..NextQuote(r) + 1] == ([c] + t)[..NextQuote(r) + 1]
  {
    SplitAt([c], r);
    TakeCons(c, r, NextQuote(r));
    TakeCons(c, t, NextQuote(r));
  }

  lemma TakeCons<T>(c: T, s: seq<T>, n: nat)
    requires n <= |s|
    ensures ([c] + s)[..n + 1] == [c] + s[..n]
  {
  }

  /** A body ends with the mark, and so does the plain text up to there. */
  lemma BodyIsMarked(prefix: string, ps: seq<Piece>)
    ensures BodyAt(prefix, Render(ps)) ==> Contains(Plain(ps), MARK)
  {
    PlainUpToQuote(ps);
    var n := NextQuote(Render(ps));
    if BodyAt(prefix, Render(ps)) {
      EndsWith(Render(ps)[..n], Render(ps), n - |MARK|, n);
      EndsWith(Plain(ps)[..n], Plain(ps), n - |MARK|, n);
      assert MARK <= Plain(ps)[n - |MARK|..];
    }
  }

  lemma EndsWith<T>(a: seq<T>, s: seq<T>, i: nat, n: nat)
    requires i <= n <= |s| && a == s[..n]
    ensures a[i..] == s[i..n] && s[i..n] <= s[i..]
  {
  }

  lemma ContainsTail(a: string, b: string, t: string)
    ensures Contains(b, t) ==> Contains(a + b, t)
  {
    if Contains(b, t) {
      var i :| 0 <= i <= |b| && t <= b[i..];
      assert (a + b)[|a| + i..] == b[i..];
    }
  }

  lemma {:induction false} UnmarkedIsClear(prefix: string, ps: seq<Piece>)
    requires !Contains(Plain(ps), MARK)
    ensures Clear(prefix, ps)
    decreases |ps|
  {
    if ps == [] {
    } else {
      ContainsTail(Bare(ps[0]), Plain(ps[1..]), MARK);
      BodyIsMarked(prefix, ps[1..]);
      UnmarkedIsClear(prefix, ps[1..]);
    }
  }

  /** Every text without the mark comes back, whatever quotes, variables and chains it has. */
  lemma UnmarkedTextReverts(w: char -> bool, s: string)
    requires IsWordClass(w) && !Contains(s, MARK)
    ensures StrToVar(VarToStr(w, s)) == s
  {
    MarkingIs(w, s);
    RestoreKeepsText(PARENT, Marking(w, s));
    UnmarkedIsClear(PARENT, Marking(w, s));
    UnmarkedIsClear("", Restore(PARENT, Marking(w, s)));
    RevertsExactly(w, s);
  }

  // ----- the condition on the text itself, where there is no chain -----

  /** How much of the text comes before the first quote of the quoted text. */
  function RawLen(w: char -> bool, prev: Option<char>, s: string): (n: nat)
    ensures n <= |s|
    decreases |s|
  {
    if s == [] || s[0] == QUOTE || WordAt(w, prev, s) then 0 else 1 + RawLen(w, Some(s[0]), s[1..])
  }

  lemma {:induction false} RawLenIs(w: char -> bool, prev: Option<char>, s: string)
    ensures RawUntil(QuoteWords(w, prev, s), s, RawLen(w, prev, s))
    decreases |s|
  {
    if s == [] {
    } else if WordAt(w, prev, s) {
      WordMarked(w, prev, s);
    } else {
      HeadTail(s);
      CharKept(w, prev, s[0], s[1..]);
      RawLenIs(w, Some(s[0]), s[1..]);
      SameStart(s[0], QuoteWords(w, Some(s[0]), s[1..]), s[1..], RawLen(w, Some(s[0]), s[1..]));
    }
  }

  /** The quoted text starts with n characters of the text, and goes on with a quote if the text goes on. */
  predicate RawUntil(q: string, s: string, n: nat) {
    n <= |s| && n <= |q| && NextQuote(q) == n && q[..n] == s[..n] && (n < |q| <==> n < |s|)
  }

  lemma WordMarked(w: char -> bool, prev: Option<char>, s: string)
    requires WordAt(w, prev, s)
    ensures QuoteWords(w, prev, s) != [] && QuoteWords(w, prev, s)[0] == QUOTE
  {
  }

  lemma SameStart(c: char, q: string, s: string, n: nat)
    requires RawUntil(q, s, n)
    ensures RawUntil([c] + q, [c] + s, if c == QUOTE then 0 else n + 1)
  {
    SplitAt([c], q);
    TakeCons(c, q, n);
    TakeCons(c, s, n);
  }

  /** Where the raw text ends, there is a quote or a word to be marked, which follows no word. */
  lemma {:induction false} RawLenEnds(w: char -> bool, prev: Option<char>, s: string)
    ensures var n := RawLen(w, prev, s);
            && (forall i | 0 <= i < n :: s[i] != QUOTE)
            && (n < |s| ==> s[n] == QUOTE || WordAt(w, if n == 0 then prev else Some(s[n - 1]), s[n..]))
    decreases |s|
  {
    if s == [] || s[0] == QUOTE || WordAt(w, prev, s) {
      assert s[0..] == s;
    } else {
      var n := RawLen(w, Some(s[0]), s[1..]);
      RawLenEnds(w, Some(s[0]), s[1..]);
      assert s[1..][n..] == s[n + 1..];
      forall i | 0 <= i < n + 1 ensures s[i] != QUOTE {
        if i > 0 {
          assert s[i] == s[1..][i - 1];
        }
      }
    }
  }

  lemma {:induction false} RawLenStops(w: char -> bool, prev: Option<char>, s: string, p: nat)
    requires 0 < p < |s| && WordAt(w, Some(s[p - 1]), s[p..])
    ensures RawLen(w, prev, s) <= p
    decreases |s|
  {
    if s[0] != QUOTE && !WordAt(w, prev, s) {
      assert s[1..][p - 1..] == s[p..];
      if p > 1 {
        assert s[1..][p - 2] == s[p - 1];
        RawLenStops(w, Some(s[0]), s[1..], p - 1);
      }
    }
  }

  /** A word among the first n characters that neither starts nor ends them. */
  predicate HasInnerWord(w: char -> bool, s: string, n: nat)
    requires n <= |s|
  {
    exists f, a, l :: 0 <= f < a < l < n && IsInner(w, s, f, a, l)
  }

  predicate IsInner(w: char -> bool, s: string, f: nat, a: nat, l: nat)
    requires f < a < l < |s|
  {
    !w(s[f]) && w(s[a]) && !w(s[l])
  }

  /** The first character of the word around a. */
  lemma {:induction false} WordStart(w: char -> bool, x: string, f: nat, a: nat) returns (b: nat)
    requires f < a < |x| && !w(x[f]) && w(x[a])
    ensures f < b <= a && w(x[b]) && !w(x[b - 1])
    decreases a
  {
    if w(x[a - 1]) {
      b := WordStart(w, x, f, a - 1);
    } else {
      b := a;
    }
  }

  /** The word at m, in the places of the text. */
  lemma WordInPlace(w: char -> bool, s: string, m: nat)
    requires m <= |s|
    ensures var e := m + WordLen(w, s[m..]);
            && e <= |s| && (forall i | m <= i < e :: w(s[i]))
            && (e < |s| ==> !w(s[e]) && s[m..][e - m] == s[e])
  {
    var word := s[m..];
    forall i | m <= i < m + WordLen(w, word) ensures w(s[i]) {
      assert word[i - m] == s[i];
    }
  }

  /** A raw text that ends before the next quote ends at an inner word. */
  lemma ShortIsInner(w: char -> bool, s: string)
    requires !w(QUOTE) && NextQuote(s) < |s| && RawLen(w, Some(QUOTE), s) < NextQuote(s)
    ensures HasInnerWord(w, s, NextQuote(s))
  {
    var m := RawLen(w, Some(QUOTE), s);
    RawLenEnds(w, Some(QUOTE), s);
    WordIsInner(w, s, m, NextQuote(s));
  }

  lemma WordIsInner(w: char -> bool, s: string, m: nat, n: nat)
    requires m < n < |s| && !w(s[n]) && s[n] == QUOTE && forall i | 0 <= i < n :: s[i] != QUOTE
    requires WordAt(w, if m == 0 then Some(QUOTE) else Some(s[m - 1]), s[m..])
    ensures HasInnerWord(w, s, n)
  {
    WordInPlace(w, s, m);
    var e := m + WordLen(w, s[m..]);
    assert e <= n;
    assert IsInner(w, s, m - 1, m, e);
  }

  /** An inner word stops the raw text. */
  lemma InnerStopsRaw(w: char -> bool, s: string, f: nat, a: nat, l: nat)
    requires !w(QUOTE) && f < a < l < NextQuote(s) && !w(s[f]) && w(s[a]) && !w(s[l])
    ensures RawLen(w, Some(QUOTE), s) < NextQuote(s)
  {
    var b := WordStart(w, s, f, a);
    WordInPlace(w, s, b);
    assert s[b..][0] == s[b];
    RawLenStops(w, Some(QUOTE), s, b);
  }

  /** Between two quotes, all text is raw exactly when it has no inner word. */
  lemma RawToQuoteExactly(w: char -> bool, s: string)
    requires !w(QUOTE) && NextQuote(s) < |s|
    ensures RawLen(w, Some(QUOTE), s) == NextQuote(s) <==> !HasInnerWord(w, s, NextQuote(s))
  {
    RawUpToQuote(w, s);
    if RawLen(w, Some(QUOTE), s) < NextQuote(s) {
      ShortIsInner(w, s);
    }
    if HasInnerWord(w, s, NextQuote(s)) {
      var f, a, l :| 0 <= f < a < l < NextQuote(s) && IsInner(w, s, f, a, l);
      InnerStopsRaw(w, s, f, a, l);
    }
  }

  lemma RawUpToQuote(w: char -> bool, s: string)
    ensures RawLen(w, Some(QUOTE), s) <= NextQuote(s)
  {
    RawLenEnds(w, Some(QUOTE), s);
  }

  /** The text up to the next quote is taken for a marked name. */
  predicate LooksMarked(w: char -> bool, s: string) {
    var n := NextQuote(s);
    n < |s| && MarkEndsAt(s, n) && !HasInnerWord(w, s, n)
  }

  lemma BodyEnds(q: string)
    ensures BodyAt("", q) <==> NextQuote(q) < |q| && MarkEndsAt(q, NextQuote(q))
  {
  }

  lemma SameEnd(q: string, s: string, m: nat)
    requires m <= |q| && m <= |s| && q[..m] == s[..m]
    ensures MarkEndsAt(q, m) <==> MarkEndsAt(s, m)
  {
    if |MARK| < m {
      EndsWith(q[..m], q, m - |MARK|, m);
      EndsWith(s[..m], s, m - |MARK|, m);
    }
  }

  lemma MarkEndsInWord(w: char -> bool, s: string, n: nat)
    requires IsWordClass(w) && MarkEndsAt(s, n)
    ensures w(s[n - 1])
  {
    assert s[n - |MARK|..n][|MARK| - 1] == s[n - 1];
  }

  /** What ends in a word is not followed by a word to be marked. */
  lemma AfterWordIsQuote(w: char -> bool, s: string, m: nat)
    requires m == RawLen(w, Some(QUOTE), s) && 0 < m < |s| && w(s[m - 1])
    ensures m == NextQuote(s)
  {
    RawLenEnds(w, Some(QUOTE), s);
  }

  lemma {:induction false} MarkBeforeQuote(w: char -> bool, s: string, m: nat)
    requires IsWordClass(w) && m == RawLen(w, Some(QUOTE), s) && m < |s| && MarkEndsAt(s, m)
    ensures m == NextQuote(s)
  {
    MarkEndsInWord(w, s, m);
    AfterWordIsQuote(w, s, m);
  }

  /** After a quote, a body is found exactly where the text itself looks marked. */
  lemma BodyIsLooksMarked(w: char -> bool, s: string)
    requires IsWordClass(w)
    ensures BodyAt("", QuoteWords(w, Some(QUOTE), s)) <==> LooksMarked(w, s)
  {
    var q, m := QuoteWords(w, Some(QUOTE), s), RawLen(w, Some(QUOTE), s);
    RawLenIs(w, Some(QUOTE), s);
    BodyEnds(q);
    SameEnd(q, s, m);
    RawUpToQuote(w, s);
    if m < |s| && MarkEndsAt(s, m) {
      MarkBeforeQuote(w, s, m);
    }
    if NextQuote(s) < |s| {
      RawToQuoteExactly(w, s);
    }
  }

  /** No quote of the text opens what looks marked. */
  ghost predicate NoneLooksMarked(w: char -> bool, s: string) {
    forall i | 0 <= i < |s| && s[i] == QUOTE :: !LooksMarked(w, s[i + 1..])
  }

  // ----- the same for every text, with its chains -----

  /** The length of the chain at the start. */
  function ChainLen(w: char -> bool, s: string): (n: nat)
    requires ParentAt(w, s)
    ensures |PARENT| < n <= |s|
  {
    |PARENT| + WordLen(w, s[|PARENT|..])
  }

  /** The length of the word at the start, as far as no chain begins in it. */
  function FreeLen(w: char -> bool, s: string): (n: nat)
    ensures n <= |s|
    ensures forall i | 0 <= i < n :: w(s[i])
    ensures n < |s| ==> !w(s[n]) || ParentAt(w, s[n..])
  {
    if s == [] || !w(s[0]) || ParentAt(w, s) then
      assert s[0..] == s;
      0
    else
      var n := FreeLen(w, s[1..]);
      assert s[1..][n..] == s[n + 1..];
      1 + n
  }

  /** A whole word that is to be marked: without a quote before it, and without a quote or a chain after it. */
  predicate FreeWordAt(w: char -> bool, prev: Option<char>, s: string) {
    var n := FreeLen(w, s);
    n > 0 && MayStart(w, prev) && !QuoteNext(w, s[n..])
  }

  /** The text starts with a quote, or with a chain, which is put in quotes. */
  predicate QuoteNext(w: char -> bool, s: string) {
    s != [] && (s[0] == QUOTE || ParentAt(w, s))
  }

  /** How much text comes before the first quote, where words are in quotes, and chains unless they are restored. */
  function PlainLen(w: char -> bool, restored: bool, prev: Option<char>, s: string): (n: nat)
    ensures n <= |s|
    decreases |s|
  {
    if s == [] || s[0] == QUOTE then 0
    else if ParentAt(w, s) then
      if restored then ChainLen(w, s) + PlainLen(w, restored, Some(QUOTE), s[ChainLen(w, s)..]) else 0
    else if FreeWordAt(w, prev, s) then 0
    else 1 + PlainLen(w, restored, Some(s[0]), s[1..])
  }

  /** The first n characters, up to a quote, are a body. */
  predicate BodyUpTo(prefix: string, s: string, n: nat) {
    n < |s| && |prefix| + |MARK| < n && prefix <= s[..n] && MarkEndsAt(s, n)
  }

  /**
    A quote before this text opens a replacement, in the first step or, with the chains restored, in
    the second one.
  */
  predicate Opens(w: char -> bool, restored: bool, s: string) {
    BodyUpTo(if restored then "" else PARENT, s, PlainLen(w, restored, Some(QUOTE), s))
  }

  ghost predicate NoneOpens(w: char -> bool, restored: bool, s: string) {
    forall i | 0 <= i < |s| && s[i] == QUOTE :: !Opens(w, restored, s[i + 1..])
  }

  /** The marked text, with its chains restored or not. */
  function Seen(w: char -> bool, restored: bool, prev: Option<char>, s: string): seq<Piece>
    requires IsWordClass(w)
  {
    Half(restored, WordsOf(w, prev, ParentsOf(w, s)))
  }

  function Half(restored: bool, ps: seq<Piece>): seq<Piece> {
    if restored then Restore(PARENT, ps) else ps
  }

  lemma HalfCons(restored: bool, p: Piece, ps: seq<Piece>)
    ensures Half(restored, [p] + ps)
         == (if restored && p.Ins? && PARENT < p.body then Raws(p.body) else [p]) + Half(restored, ps)
  {
    assert ([p] + ps)[1..] == ps;
  }

  lemma {:induction false} FreeLenIs(w: char -> bool, s: string)
    ensures var n, ps := FreeLen(w, s), ParentsOf(w, s);
            RawWord(w, ps) == s[..n] && n <= |ps| && ps[n..] == ParentsOf(w, s[n..])
    decreases |s|
  {
    if s == [] || !w(s[0]) || ParentAt(w, s) {
      assert s[0..] == s;
    } else {
      var n, rest := FreeLen(w, s[1..]), ParentsOf(w, s[1..]);
      FreeLenIs(w, s[1..]);
      HeadTail(s);
      TakeCons(s[0], s[1..], n);
      assert s[1..][n..] == s[n + 1..] && ([Raw(s[0])] + rest)[n + 1..] == rest[n..];
    }
  }

  lemma QuoteNextIs(w: char -> bool, s: string)
    ensures var r := Render(ParentsOf(w, s));
            (r != [] && r[0] == QUOTE) <==> QuoteNext(w, s)
  {
  }

  lemma FreeWordIs(w: char -> bool, prev: Option<char>, s: string)
    requires IsWordClass(w)
    ensures WordAt(w, prev, Render(ParentsOf(w, s))) <==> FreeWordAt(w, prev, s)
  {
    var ps, n := ParentsOf(w, s), FreeLen(w, s);
    FreeLenIs(w, s);
    var r, rest := Render(ps), Render(ps[n..]);
    RawWordIsFirst(w, ps);
    QuoteNextIs(w, s[n..]);
    assert r == s[..n] + rest;
    assert n < |r| ==> r[n] == rest[0];
  }

  lemma SeenChain(w: char -> bool, restored: bool, prev: Option<char>, s: string)
    requires IsWordClass(w) && ParentAt(w, s)
    ensures var n := ChainLen(w, s);
            var rest := Seen(w, restored, Some(QUOTE), s[n..]);
            Seen(w, restored, prev, s) == (if restored then Raws(s[..n]) else [Ins(s[..n])]) + rest
  {
    var n := ChainLen(w, s);
    var tail := ParentsOf(w, s[n..]);
    assert ParentsOf(w, s) == [Ins(s[..n])] + tail;
    assert ([Ins(s[..n])] + tail)[1..] == tail;
    HalfCons(restored, Ins(s[..n]), WordsOf(w, Some(QUOTE), tail));
    assert PARENT < s[..n];
  }

  lemma FreeIsName(w: char -> bool, s: string)
    requires IsWordClass(w) && FreeLen(w, s) > 0
    ensures IsName(w, s[..FreeLen(w, s)]) && !(PARENT < s[..FreeLen(w, s)])
  {
    NamesHaveNoQuote(w, s[..FreeLen(w, s)]);
    assert s[..FreeLen(w, s)][0] == s[0];
  }

  lemma WordMarkedNext(w: char -> bool, prev: Option<char>, s: string)
    requires IsWordClass(w) && !ParentAt(w, s) && FreeWordAt(w, prev, s)
    ensures var n := FreeLen(w, s);
            WordsOf(w, prev, ParentsOf(w, s))
            == [Ins(s[..n])] + WordsOf(w, Some(s[n - 1]), ParentsOf(w, s[n..]))
  {
    FreeLenIs(w, s);
    FreeWordIs(w, prev, s);
    assert ParentsOf(w, s)[0] == Raw(s[0]);
  }

  lemma FreeIsNoChain(w: char -> bool, s: string)
    requires IsWordClass(w) && FreeLen(w, s) > 0
    ensures !(PARENT < s[..FreeLen(w, s)])
  {
    FreeIsName(w, s);
  }

  lemma HalfWord(restored: bool, v: string, ps: seq<Piece>)
    requires !(PARENT < v)
    ensures Half(restored, [Ins(v)] + ps) == [Ins(v)] + Half(restored, ps)
  {
    HalfCons(restored, Ins(v), ps);
  }

  lemma SeenWord(w: char -> bool, restored: bool, prev: Option<char>, s: string)
    requires IsWordClass(w) && !ParentAt(w, s) && FreeWordAt(w, prev, s)
    ensures var n := FreeLen(w, s);
            Seen(w, restored, prev, s) == [Ins(s[..n])] + Seen(w, restored, Some(s[n - 1]), s[n..])
  {
    var n := FreeLen(w, s);
    WordMarkedNext(w, prev, s);
    FreeIsNoChain(w, s);
    HalfWord(restored, s[..n], WordsOf(w, Some(s[n - 1]), ParentsOf(w, s[n..])));
  }

  lemma SeenChar(w: char -> bool, restored: bool, prev: Option<char>, s: string)
    requires IsWordClass(w) && s != [] && !ParentAt(w, s) && !FreeWordAt(w, prev, s)
    ensures Seen(w, restored, prev, s) == [Raw(s[0])] + Seen(w, restored, Some(s[0]), s[1..])
  {
    var tail := ParentsOf(w, s[1..]);
    FreeWordIs(w, prev, s);
    assert ([Raw(s[0])] + tail)[1..] == tail;
    HalfCons(restored, Raw(s[0]), WordsOf(w, Some(s[0]), tail));
  }

  lemma {:induction false} SameStartText(u: string, q: string, s: string, n: nat)
    requires NoQuote(u) && RawUntil(q, s, n)
    ensures RawUntil(u + q, u + s, |u| + n)
    decreases |u|
  {
    if u == [] {
      assert u + q == q && u + s == s;
    } else {
      SameStartText(u[1..], q, s, n);
      SameStart(u[0], u[1..] + q, u[1..] + s, |u| - 1 + n);
      HeadTail(u);
      Regroup([u[0]], u[1..], q);
      Regroup([u[0]], u[1..], s);
    }
  }

  lemma ChainHasNoQuote(w: char -> bool, s: string)
    requires IsWordClass(w) && ParentAt(w, s)
    ensures NoQuote(s[..ChainLen(w, s)]) && PARENT < s[..ChainLen(w, s)]
  {
    ParentIsName(w, s);
    NamesHaveNoQuote(w, s[..ChainLen(w, s)]);
  }

  lemma ChainUntil(restored: bool, u: string, rest: seq<Piece>, tail: string, m: nat)
    requires u != [] && NoQuote(u) && (restored ==> RawUntil(Render(rest), tail, m))
    ensures RawUntil(Render((if restored then Raws(u) else [Ins(u)]) + rest), u + tail, if restored then |u| + m else 0)
  {
    if restored {
      RawsAre(u, rest);
      SameStartText(u, Render(rest), tail, m);
    } else {
      Cons(Ins(u), rest);
    }
  }

  lemma CharUntil(c: char, rest: seq<Piece>, tail: string, m: nat)
    requires RawUntil(Render(rest), tail, m)
    ensures RawUntil(Render([Raw(c)] + rest), [c] + tail, if c == QUOTE then 0 else m + 1)
  {
    Cons(Raw(c), rest);
    SameStart(c, Render(rest), tail, m);
  }

  lemma MarkedUntil(body: string, rest: seq<Piece>, s: string)
    requires s != []
    ensures RawUntil(Render([Ins(body)] + rest), s, 0)
  {
    Cons(Ins(body), rest);
  }

  lemma PlainLenOfChain(w: char -> bool, restored: bool, prev: Option<char>, s: string)
    requires IsWordClass(w) && ParentAt(w, s)
    requires var t := s[ChainLen(w, s)..];
             RawUntil(Render(Seen(w, restored, Some(QUOTE), t)), t, PlainLen(w, restored, Some(QUOTE), t))
    ensures RawUntil(Render(Seen(w, restored, prev, s)), s, PlainLen(w, restored, prev, s))
  {
    var n := ChainLen(w, s);
    var t := s[n..];
    SeenChain(w, restored, prev, s);
    ChainHasNoQuote(w, s);
    ChainUntil(restored, s[..n], Seen(w, restored, Some(QUOTE), t), t, PlainLen(w, restored, Some(QUOTE), t));
    Halves(s, n);
    assert s[0] == PARENT[0];
  }

  lemma PlainLenOfChar(w: char -> bool, restored: bool, prev: Option<char>, s: string)
    requires IsWordClass(w) && s != [] && !ParentAt(w, s) && !FreeWordAt(w, prev, s)
    requires var c, t := Some(s[0]), s[1..];
             RawUntil(Render(Seen(w, restored, c, t)), t, PlainLen(w, restored, c, t))
    ensures RawUntil(Render(Seen(w, restored, prev, s)), s, PlainLen(w, restored, prev, s))
  {
    var c, t := Some(s[0]), s[1..];
    SeenChar(w, restored, prev, s);
    HeadTail(s);
    CharUntil(s[0], Seen(w, restored, c, t), t, PlainLen(w, restored, c, t));
  }

  /** The marked text is the text itself up to its first quote. */
  lemma {:induction false} PlainLenIs(w: char -> bool, restored: bool, prev: Option<char>, s: string)
    requires IsWordClass(w)
    ensures RawUntil(Render(Seen(w, restored, prev, s)), s, PlainLen(w, restored, prev, s))
    decreases |s|
  {
    if s == [] {
    } else if ParentAt(w, s) {
      PlainLenIs(w, restored, Some(QUOTE), s[ChainLen(w, s)..]);
      PlainLenOfChain(w, restored, prev, s);
    } else if FreeWordAt(w, prev, s) {
      var n := FreeLen(w, s);
      SeenWord(w, restored, prev, s);
      MarkedUntil(s[..n], Seen(w, restored, Some(s[n - 1]), s[n..]), s);
    } else {
      PlainLenIs(w, restored, Some(s[0]), s[1..]);
      PlainLenOfChar(w, restored, prev, s);
    }
  }

  lemma BodyIsInText(prefix: string, q: string, s: string, n: nat)
    requires RawUntil(q, s, n)
    ensures BodyAt(prefix, q) <==> BodyUpTo(prefix, s, n)
  {
    SameEnd(q, s, n);
  }

  /** After a quote of the text, a step finds a body exactly where the text says so. */
  lemma OpensIs(w: char -> bool, restored: bool, s: string)
    requires IsWordClass(w)
    ensures var seen := Render(Seen(w, restored, Some(QUOTE), s));
            BodyAt(if restored then "" else PARENT, seen) <==> Opens(w, restored, s)
  {
    var seen := Render(Seen(w, restored, Some(QUOTE), s));
    PlainLenIs(w, restored, Some(QUOTE), s);
    BodyIsInText(if restored then "" else PARENT, seen, s, PlainLen(w, restored, Some(QUOTE), s));
  }

  /** A marked word is followed by no chain that is still plain text. */
  lemma WordThenNoChain(w: char -> bool, prev: Option<char>, s: string)
    requires IsWordClass(w) && FreeWordAt(w, prev, s)
    ensures var n := FreeLen(w, s);
            !BodyAt(PARENT, Render(Seen(w, false, Some(s[n - 1]), s[n..])))
  {
    var n := FreeLen(w, s);
    var t := s[n..];
    PlainLenIs(w, false, Some(s[n - 1]), t);
    BodyIsInText(PARENT, Render(Seen(w, false, Some(s[n - 1]), t)), t, PlainLen(w, false, Some(s[n - 1]), t));
  }

  lemma NoneAfter(w: char -> bool, restored: bool, s: string, n: nat)
    requires n <= |s| && forall i | 0 <= i < n :: s[i] != QUOTE
    ensures NoneOpens(w, restored, s) <==> NoneOpens(w, restored, s[n..])
  {
    var t := s[n..];
    forall i | 0 <= i < |t| && t[i] == QUOTE ensures t[i + 1..] == s[n + i + 1..] {
    }
    if NoneOpens(w, restored, s) {
      forall i | 0 <= i < |t| && t[i] == QUOTE ensures !Opens(w, restored, t[i + 1..]) {
        assert s[n + i] == QUOTE;
      }
    }
    if NoneOpens(w, restored, t) {
      forall i | 0 <= i < |s| && s[i] == QUOTE ensures !Opens(w, restored, s[i + 1..]) {
        assert t[i - n] == QUOTE;
      }
    }
  }

  lemma QuoteFirst(w: char -> bool, restored: bool, s: string)
    requires s != [] && s[0] == QUOTE
    ensures NoneOpens(w, restored, s) <==> !Opens(w, restored, s[1..]) && NoneOpens(w, restored, s[1..])
  {
    var t := s[1..];
    forall i | 0 <= i < |t| ensures t[i] == s[i + 1] && t[i + 1..] == s[i + 2..] {
    }
    if NoneOpens(w, restored, s) {
      forall i | 0 <= i < |t| && t[i] == QUOTE ensures !Opens(w, restored, t[i + 1..]) {
        assert s[i + 1] == QUOTE;
      }
    }
    if !Opens(w, restored, t) && NoneOpens(w, restored, t) {
      forall i | 0 <= i < |s| && s[i] == QUOTE ensures !Opens(w, restored, s[i + 1..]) {
        if i > 0 {
          assert t[i - 1] == QUOTE;
        }
      }
    }
  }

  lemma ClearCons(prefix: string, p: Piece, rest: seq<Piece>)
    ensures Clear(prefix, [p] + rest) <==>
            (p == Raw(QUOTE) || (p.Ins? && !(prefix < p.body)) ==> !BodyAt(prefix, Render(rest))) && Clear(prefix, rest)
  {
    assert ([p] + rest)[1..] == rest;
  }

  lemma {:induction false} ClearRaws(prefix: string, u: string, rest: seq<Piece>)
    requires NoQuote(u)
    ensures Clear(prefix, Raws(u) + rest) <==> Clear(prefix, rest)
    decreases |u|
  {
    if u == [] {
      assert Raws(u) + rest == rest;
    } else {
      Regroup([Raw(u[0])], Raws(u[1..]), rest);
      ClearCons(prefix, Raw(u[0]), Raws(u[1..]) + rest);
      ClearRaws(prefix, u[1..], rest);
    }
  }

  lemma ClearChain(restored: bool, body: string, rest: seq<Piece>)
    requires NoQuote(body) && PARENT < body
    ensures var prefix := if restored then "" else PARENT;
            Clear(prefix, (if restored then Raws(body) else [Ins(body)]) + rest) <==> Clear(prefix, rest)
  {
    if restored {
      ClearRaws("", body, rest);
    } else {
      ClearCons(PARENT, Ins(body), rest);
    }
  }

  lemma ClearWord(restored: bool, body: string, rest: seq<Piece>)
    requires body != [] && (restored || !BodyAt(PARENT, Render(rest)))
    ensures var prefix := if restored then "" else PARENT;
            Clear(prefix, [Ins(body)] + rest) <==> Clear(prefix, rest)
  {
    ClearCons(if restored then "" else PARENT, Ins(body), rest);
  }

  lemma ClearChar(w: char -> bool, restored: bool, s: string, rest: seq<Piece>)
    requires s != []
    requires s[0] == QUOTE ==>
               (BodyAt(if restored then "" else PARENT, Render(rest)) <==> Opens(w, restored, s[1..]))
    requires Clear(if restored then "" else PARENT, rest) <==> NoneOpens(w, restored, s[1..])
    ensures Clear(if restored then "" else PARENT, [Raw(s[0])] + rest) <==> NoneOpens(w, restored, s)
  {
    ClearCons(if restored then "" else PARENT, Raw(s[0]), rest);
    if s[0] == QUOTE {
      QuoteFirst(w, restored, s);
    } else {
      NoneAfter(w, restored, s, 1);
    }
  }

  /** Nothing but the quotes of the text matters. */
  lemma {:induction false} ClearExactly(w: char -> bool, restored: bool, prev: Option<char>, s: string)
    requires IsWordClass(w)
    ensures Clear(if restored then "" else PARENT, Seen(w, restored, prev, s)) <==> NoneOpens(w, restored, s)
    decreases |s|
  {
    if s == [] {
    } else if ParentAt(w, s) {
      var n := ChainLen(w, s);
      SeenChain(w, restored, prev, s);
      ChainHasNoQuote(w, s);
      ClearExactly(w, restored, Some(QUOTE), s[n..]);
      ClearChain(restored, s[..n], Seen(w, restored, Some(QUOTE), s[n..]));
      NoneAfterPrefix(w, restored, s, n);
    } else if FreeWordAt(w, prev, s) {
      var n := FreeLen(w, s);
      SeenWord(w, restored, prev, s);
      WordThenNoChain(w, prev, s);
      ClearExactly(w, restored, Some(s[n - 1]), s[n..]);
      ClearWord(restored, s[..n], Seen(w, restored, Some(s[n - 1]), s[n..]));
      NoneAfter(w, restored, s, n);
    } else {
      SeenChar(w, restored, prev, s);
      ClearExactly(w, restored, Some(s[0]), s[1..]);
      if s[0] == QUOTE {
        OpensIs(w, restored, s[1..]);
      }
      ClearChar(w, restored, s, Seen(w, restored, Some(s[0]), s[1..]));
    }
  }

  lemma NoneAfterPrefix(w: char -> bool, restored: bool, s: string, n: nat)
    requires n <= |s| && NoQuote(s[..n])
    ensures NoneOpens(w, restored, s) <==> NoneOpens(w, restored, s[n..])
  {
    forall i | 0 <= i < n ensures s[i] != QUOTE {
      assert s[..n][i] == s[i];
    }
    NoneAfter(w, restored, s, n);
  }

  /**
    On the text itself, whatever it is: it comes back exactly when none of its quotes opens a
    replacement, that is, a text that ends with the suffix just before the next quote or, in the first
    step, chain, and that has no word to be marked in it.
  */
  lemma TextRevertsExactly(w: char -> bool, s: string)
    requires IsWordClass(w)
    ensures StrToVar(VarToStr(w, s)) == s <==> NoneOpens(w, false, s) && NoneOpens(w, true, s)
  {
    RevertsExactly(w, s);
    ClearExactly(w, false, None, s);
    ClearExactly(w, true, None, s);
  }

  lemma {:induction false} ChainlessLen(w: char -> bool, prev: Option<char>, s: string)
    requires !Contains(s, PARENT)
    ensures FreeLen(w, s) == WordLen(w, s) && PlainLen(w, true, prev, s) == RawLen(w, prev, s)
    decreases |s|
  {
    if s != [] {
      assert s[0..] == s;
      HeadTail(s);
      ContainsTail([s[0]], s[1..], PARENT);
      ChainlessLen(w, Some(s[0]), s[1..]);
      var n := FreeLen(w, s);
      assert n < |s| ==> s[n..][0] == s[n] && !ParentAt(w, s[n..]);
    }
  }

  lemma ChainlessOpens(w: char -> bool, s: string, i: nat)
    requires IsWordClass(w) && !Contains(s, PARENT) && i < |s|
    ensures !Opens(w, false, s[i + 1..]) && (Opens(w, true, s[i + 1..]) <==> LooksMarked(w, s[i + 1..]))
  {
    var t := s[i + 1..];
    assert s == s[..i + 1] + t && t[0..] == t;
    ContainsTail(s[..i + 1], t, PARENT);
    ChainlessLen(w, Some(QUOTE), t);
    RawLenIs(w, Some(QUOTE), t);
    BodyIsInText("", QuoteWords(w, Some(QUOTE), t), t, RawLen(w, Some(QUOTE), t));
    BodyIsLooksMarked(w, t);
  }

  /**
    Without `parent.` this reads: no text between two quotes ends with the suffix, after at least one
    character, and has no word in its middle.
  */
  lemma ChainlessRevertsExactly(w: char -> bool, s: string)
    requires IsWordClass(w) && !Contains(s, PARENT)
    ensures StrToVar(VarToStr(w, s)) == s <==> NoneLooksMarked(w, s)
  {
    TextRevertsExactly(w, s);
    forall i | 0 <= i < |s| && s[i] == QUOTE
      ensures !Opens(w, false, s[i + 1..]) && (Opens(w, true, s[i + 1..]) <==> LooksMarked(w, s[i + 1..]))
    {
      ChainlessOpens(w, s, i);
    }
  }

  /** A literal that looks like a marked variable is not told from one: it comes back without its quotes and its end. */
  lemma MarkedLiteralIsLost(w: char -> bool, v: string)
    requires IsWordClass(w) && IsName(w, v)
    ensures VarToStr(w, Marked(v)) == Marked(v)
    ensures StrToVar(VarToStr(w, Marked(v))) == v
  {
    NamesHaveNoQuote(w, v);
    var u := v + MARK;
    MarkedSplits(v, []);
    assert [QUOTE] + [] == [QUOTE] && Marked(v) + [] == Marked(v);
    QuoteStays(w, u + [QUOTE]);
    WordBeforeQuoteStays(w, u);
    KeptChar(w, None, QUOTE, u + [QUOTE]);
    WordTailKept(w, QUOTE, u, [QUOTE]);
    KeptChar(w, Some(u[|u| - 1]), QUOTE, []);
    MarkKept(PARENT, v, []);
    MarkRemoved("", v, []);
    assert v + [] == v;
  }

  lemma QuoteStays(w: char -> bool, rest: string)
    ensures QuoteParents(w, [QUOTE] + rest) == [QUOTE] + QuoteParents(w, rest)
  {
    SplitAt([QUOTE], rest);
    assert ([QUOTE] + rest)[0] == QUOTE != PARENT[0];
  }

  /** A word is no chain. */
  lemma {:induction false} WordBeforeQuoteStays(w: char -> bool, u: string)
    requires IsWordClass(w) && AllWord(w, u)
    ensures QuoteParents(w, u + [QUOTE]) == u + [QUOTE]
    decreases |u|
  {
    var t := u + [QUOTE];
    ParentHasDot(t);
    if u == [] {
      assert t == [QUOTE] && t[1..] == [];
    } else {
      assert t[1..] == u[1..] + [QUOTE];
      WordBeforeQuoteStays(w, u[1..]);
    }
  }

  /** So is a literal that looks like a marked chain: the marks of the chain in it are removed, then its own. */
  lemma MarkedChainIsLost(w: char -> bool, v: string)
    requires IsWordClass(w) && IsName(w, v)
    ensures StrToVar(VarToStr(w, Marked(PARENT + v))) == PARENT + v
  {
    var chain, body := PARENT + v, PARENT + v + MARK;
    assert chain[|PARENT|..] == v && body[|PARENT|..] == v + MARK;
    NamesHaveNoQuote(w, chain);
    NamesHaveNoQuote(w, body);
    ChainQuoted(w, body, [QUOTE]);
    QuoteStays(w, body + [QUOTE]);
    assert [QUOTE] + [] == [QUOTE] && Marked(body) + [] == Marked(body);
    QuoteStays(w, []);
    KeptChar(w, None, QUOTE, Marked(body) + [QUOTE]);
    MarkedParentKept(w, Some(QUOTE), body, [QUOTE]);
    KeptChar(w, Some(QUOTE), QUOTE, []);
    assert VarToStr(w, Marked(chain)) == [QUOTE] + (Marked(body) + [QUOTE]);
    assert (Marked(body) + [QUOTE])[0] == QUOTE;
    QuoteKept(PARENT, Marked(body) + [QUOTE]);
    MarkRemoved(PARENT, body, [QUOTE]);
    assert Unquote(PARENT, [QUOTE]) == [QUOTE] by { QuoteKept(PARENT, []); }
    MarkRemoved("", chain, []);
    assert Marked(chain) + [] == Marked(chain) && chain + [] == chain;
  }

  lemma ChainQuoted(w: char -> bool, body: string, rest: string)
    requires IsWordClass(w) && IsParentName(w, body) && (rest == [] || !w(rest[0]))
    ensures QuoteParents(w, body + rest) == Marked(body) + QuoteParents(w, rest)
  {
    var v := body[|PARENT|..];
    assert (body + rest)[|PARENT|..] == v + rest;
    WordLenOf(w, v, rest);
    assert (body + rest)[..|PARENT|] == body[..|PARENT|];
    SplitAt(body, rest);
  }

  // ----- single variables and chains -----

  /** A variable alone becomes a string literal with the suffix. */
  lemma VariableIsMarked(w: char -> bool, v: string)
    requires IsWordClass(w) && IsName(w, v)
    ensures VarToStr(w, v) == "'" + v + "_is_a_var_to_replace'"
    ensures StrToVar("'" + v + "_is_a_var_to_replace'") == v
  {
    NamesHaveNoQuote(w, v);
    WordIsNoChain(w, v);
    WordLenOf(w, v, []);
    assert v + [] == v;
    WordQuoted(w, None, v, []);
    assert Marked(v) + [] == Marked(v) == "'" + v + "_is_a_var_to_replace'";
    MarkKept(PARENT, v, []);
    MarkRemoved("", v, []);
  }

  lemma {:induction false} WordIsNoChain(w: char -> bool, u: string)
    requires IsWordClass(w) && AllWord(w, u)
    ensures QuoteParents(w, u) == u
    decreases |u|
  {
    ParentHasDot(u);
    if u != [] {
      WordIsNoChain(w, u[1..]);
      HeadTail(u);
    }
  }

  /** So does a chain on the parent, as a whole. */
  lemma ChainIsMarked(w: char -> bool, v: string)
    requires IsWordClass(w) && IsName(w, v)
    ensures VarToStr(w, "parent." + v) == "'parent." + v + "_is_a_var_to_replace'"
    ensures StrToVar("'parent." + v + "_is_a_var_to_replace'") == "parent." + v
  {
    var chain := PARENT + v;
    assert chain[|PARENT|..] == v && chain + [] == chain;
    NamesHaveNoQuote(w, chain);
    ChainQuoted(w, chain, []);
    assert Marked(chain) + [] == Marked(chain) == "'parent." + v + "_is_a_var_to_replace'";
    MarkedParentKept(w, None, chain, []);
    MarkRemoved(PARENT, chain, []);
    TextKept("", chain, []);
  }
}
