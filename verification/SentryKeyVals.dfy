/**
  `_sanitize_keyvals` of sentry/processor.py: query strings and cookies are cut into segments, and
  the values of sensitive keys are masked.
*/
module SentryKeyVals {
  import opened Sequences
  import opened SentryVarmap
  import opened Wrappers

  function Split(s: string, d: char): (parts: seq<string>)
    ensures |parts| >= 1
    decreases |s|
  {
    if s == [] then [[]]
    else
      var rest := Split(s[1..], d);
      if s[0] == d then [[]] + rest else [[s[0]] + rest[0]] + rest[1..]
  }

  function Join(parts: seq<string>, d: char): string
    requires |parts| >= 1
    decreases |parts|
  {
    if |parts| == 1 then parts[0] else parts[0] + ([d] + Join(parts[1..], d))
  }

  /** The sanitizer on a key and a value that are both strings. */
  function SanitizeText(key: string, value: string): string {
    match Sanitize(Some(key), AScalar(Text(value)))
    case Some(Text(t)) => t
    case _ => value
  }

  /** Only a segment with exactly one '=' has a key and a value. */
  function SanitizeSegment(segment: string): string {
    var parts := Split(segment, '=');
    if |parts| == 2 then parts[0] + "=" + SanitizeText(parts[0], parts[1]) else segment
  }

  function OnAll(f: string -> string, parts: seq<string>): (r: seq<string>)
    ensures |r| == |parts| && forall i :: 0 <= i < |r| ==> r[i] == f(parts[i])
  {
    seq(|parts|, i requires 0 <= i < |parts| => f(parts[i]))
  }

  function SanitizedKeyVals(s: string, d: char): string {
    Join(OnAll(SanitizeSegment, Split(s, d)), d)
  }

  function JoinEach(lists: seq<seq<string>>): (r: seq<string>)
    requires forall i :: 0 <= i < |lists| ==> |lists[i]| >= 1
    ensures |r| == |lists| && forall i :: 0 <= i < |r| ==> r[i] == Join(lists[i], '=')
  {
    seq(|lists|, i requires 0 <= i < |lists| => Join(lists[i], '='))
  }

  method SanitizeKeyVal(segment: string) returns (parts: seq<string>)
    ensures |parts| >= 1 && Join(parts, '=') == SanitizeSegment(segment)
  {
    var keyval := Split(segment, '=');
    if |keyval| == 2 {
      JoinPair(keyval[0], SanitizeText(keyval[0], keyval[1]), '=');
      parts := [keyval[0], SanitizeText(keyval[0], keyval[1])];
    } else {
      JoinSplit(segment, '=');
      parts := keyval;
    }
  }

  method SanitizeKeyVals(s: string, d: char) returns (r: string)
    ensures r == SanitizedKeyVals(s, d)
  {
    var keyvals := Split(s, d);
    var sanitized: seq<seq<string>> := [];
    for i := 0 to |keyvals|
      invariant |sanitized| == i
      invariant forall j :: 0 <= j < i ==> |sanitized[j]| >= 1 && Join(sanitized[j], '=') == SanitizeSegment(keyvals[j])
    {
      var parts := SanitizeKeyVal(keyvals[i]);
      sanitized := sanitized + [parts];
    }
    assert JoinEach(sanitized) == OnAll(SanitizeSegment, keyvals);
    r := Join(JoinEach(sanitized), d);
  }

  // ----- splitting and joining -----

  lemma JoinPair(a: string, b: string, d: char)
    ensures Join([a, b], d) == a + [d] + b
  {
    assert [a, b][1..] == [b];
  }

  /** An empty first part leaves only its delimiter. */
  lemma JoinEmptyHead(rest: seq<string>, d: char)
    requires |rest| >= 1
    ensures Join([[]] + rest, d) == [d] + Join(rest, d)
  {
    assert ([[]] + rest)[1..] == rest;
    assert [] + ([d] + Join(rest, d)) == [d] + Join(rest, d);
  }

  lemma {:induction false} JoinSplit(s: string, d: char)
    ensures Join(Split(s, d), d) == s
    decreases |s|
  {
    if s == [] {
    } else {
      var rest := Split(s[1..], d);
      JoinSplit(s[1..], d);
      HeadTail(s);
      if s[0] == d {
        JoinEmptyHead(rest, d);
      } else {
        JoinHead(s[0], rest, d);
      }
    }
  }

  lemma JoinHead(c: char, parts: seq<string>, d: char)
    requires |parts| >= 1
    ensures Join([[c] + parts[0]] + parts[1..], d) == [c] + Join(parts, d)
  {
    var longer := [[c] + parts[0]] + parts[1..];
    assert longer[1..] == parts[1..];
    if |parts| > 1 {
      var tail := [d] + Join(parts[1..], d);
      assert ([c] + parts[0]) + tail == [c] + (parts[0] + tail);
    }
  }

  ghost predicate Without(parts: seq<string>, d: char) {
    forall i :: 0 <= i < |parts| ==> d !in parts[i]
  }

  lemma {:induction false} SplitLeavesNone(s: string, d: char)
    ensures Without(Split(s, d), d)
    decreases |s|
  {
    if s == [] {
    } else {
      SplitLeavesNone(s[1..], d);
    }
  }

  lemma {:induction false} SplitFirst(a: string, rest: string, d: char)
    requires d !in a
    ensures Split(a, d) == [a] && Split(a + ([d] + rest), d) == [a] + Split(rest, d)
    decreases |a|
  {
    var t := [d] + rest;
    if a == [] {
      assert a + t == t && t[1..] == rest;
    } else {
      assert (a + t)[1..] == a[1..] + t;
      SplitFirst(a[1..], rest, d);
      assert [a[0]] + a[1..] == a;
      assert ([a[1..]] + Split(rest, d))[1..] == Split(rest, d);
    }
  }

  lemma {:induction false} SplitJoin(parts: seq<string>, d: char)
    requires |parts| >= 1 && Without(parts, d)
    ensures Split(Join(parts, d), d) == parts
    decreases |parts|
  {
    if |parts| == 1 {
      SplitFirst(parts[0], [], d);
    } else {
      SplitJoin(parts[1..], d);
      SplitFirst(parts[0], Join(parts[1..], d), d);
    }
  }

  // ----- what sanitizing does to the segments -----

  lemma SegmentShape(segment: string)
    ensures var parts, s := Split(segment, '='), SanitizeSegment(segment);
            if |parts| != 2 then s == segment
            else Split(s, '=') == [parts[0], SanitizeText(parts[0], parts[1])]
  {
    var parts := Split(segment, '=');
    if |parts| == 2 {
      SplitLeavesNone(segment, '=');
      var pair := [parts[0], SanitizeText(parts[0], parts[1])];
      JoinPair(pair[0], pair[1], '=');
      SplitJoin(pair, '=');
    }
  }

  lemma {:induction false} PartsOfPart(s: string, c: char, d: char)
    requires c !in s
    ensures forall i :: 0 <= i < |Split(s, d)| ==> c !in Split(s, d)[i]
    decreases |s|
  {
    if s == [] {
    } else {
      PartsOfPart(s[1..], c, d);
    }
  }

  /** Masking brings no new delimiter into a segment. */
  lemma SegmentKeepsDelimiters(segment: string, d: char)
    requires d !in segment && d != '=' && d !in MASK
    ensures d !in SanitizeSegment(segment)
  {
    PartsOfPart(segment, d, '=');
  }

  /**
    The result has the same segments in the same places; each one is as it was, or is a key and a
    value of which only the value is replaced by the mask.
  */
  lemma SegmentsStay(s: string, d: char)
    requires d != '=' && d !in MASK
    ensures Split(SanitizedKeyVals(s, d), d) == OnAll(SanitizeSegment, Split(s, d))
    ensures forall i :: 0 <= i < |Split(s, d)| ==>
              var before, after := Split(s, d)[i], Split(SanitizedKeyVals(s, d), d)[i];
              after == before || (|Split(before, '=')| == 2 && after == Split(before, '=')[0] + "=" + MASK)
  {
    var segments := Split(s, d);
    var sanitized := OnAll(SanitizeSegment, segments);
    SplitLeavesNone(s, d);
    forall i | 0 <= i < |sanitized| ensures d !in sanitized[i] {
      SegmentKeepsDelimiters(segments[i], d);
    }
    SplitJoin(sanitized, d);
    forall i | 0 <= i < |segments|
      ensures sanitized[i] == segments[i]
          || (|Split(segments[i], '=')| == 2 && sanitized[i] == Split(segments[i], '=')[0] + "=" + MASK)
    {
      var parts := Split(segments[i], '=');
      if |parts| == 2 {
        JoinSplit(segments[i], '=');
        JoinPair(parts[0], parts[1], '=');
        assert parts == [parts[0], parts[1]];
      }
    }
  }

  /** In the result, the value of a sensitive key is the mask, and no value of a key is a card number. */
  lemma ResultIsMasked(s: string, d: char, i: nat)
    requires d != '=' && d !in MASK && i < |Split(SanitizedKeyVals(s, d), d)|
    ensures var parts := Split(Split(SanitizedKeyVals(s, d), d)[i], '=');
            |parts| == 2 ==> (IsSecret(Some(parts[0])) ==> parts[1] == MASK) && !IsCardNumber(parts[1])
  {
    SegmentsStay(s, d);
    SegmentShape(Split(s, d)[i]);
    assert MASK[0] == '*';
  }

  lemma SegmentTwice(segment: string)
    ensures SanitizeSegment(SanitizeSegment(segment)) == SanitizeSegment(segment)
  {
    SegmentShape(segment);
    var parts := Split(segment, '=');
    if |parts| == 2 {
      assert MASK[0] == '*';
      assert SanitizeText(parts[0], SanitizeText(parts[0], parts[1])) == SanitizeText(parts[0], parts[1]);
    }
  }

  lemma SanitizedTwice(s: string, d: char)
    requires d != '=' && d !in MASK
    ensures SanitizedKeyVals(SanitizedKeyVals(s, d), d) == SanitizedKeyVals(s, d)
  {
    SegmentsStay(s, d);
    var once := OnAll(SanitizeSegment, Split(s, d));
    forall i | 0 <= i < |once| ensures SanitizeSegment(once[i]) == once[i] {
      SegmentTwice(Split(s, d)[i]);
    }
    assert OnAll(SanitizeSegment, once) == once;
  }
}
