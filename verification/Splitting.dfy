/** Python's `str.split()` and `str.replace(" ", "%")`; `space` is the class of white space. */
module Splitting {
  import opened Sequences

  function Split(space: char -> bool, text: string): seq<string> {
    SplitFrom(space, text, "")
  }

  /** `word` is what was read of the current word. */
  function SplitFrom(space: char -> bool, text: string, word: string): seq<string>
    decreases |text|
  {
    if text == [] then (if word == [] then [] else [word])
    else if space(text[0]) then (if word == [] then [] else [word]) + SplitFrom(space, text[1..], "")
    else SplitFrom(space, text[1..], word + [text[0]])
  }

  predicate IsWord(space: char -> bool, w: string) {
    w != [] && forall k | 0 <= k < |w| :: !space(w[k])
  }

  predicate IsGap(space: char -> bool, g: string) {
    forall k | 0 <= k < |g| :: space(g[k])
  }

  /** The words with a gap before, between and after them. */
  function Woven(gaps: seq<string>, words: seq<string>): string
    requires |gaps| == |words| + 1
    decreases |words|
  {
    if words == [] then gaps[0] else gaps[0] + (words[0] + Woven(gaps[1..], words[1..]))
  }

  /** The gaps are white space, and not empty between two words. */
  ghost predicate Proper(space: char -> bool, gaps: seq<string>, words: seq<string>) {
    && |gaps| == |words| + 1
    && (forall i | 0 <= i < |gaps| :: IsGap(space, gaps[i]))
    && (forall i | 0 < i < |words| :: gaps[i] != [])
    && (forall i | 0 <= i < |words| :: IsWord(space, words[i]))
  }

  // ----- splitting what was woven -----

  lemma {:induction false} GapSkipped(space: char -> bool, g: string, text: string)
    requires IsGap(space, g)
    ensures SplitFrom(space, g + text, "") == SplitFrom(space, text, "")
    decreases |g|
  {
    if g == [] {
      assert g + text == text;
    } else {
      assert (g + text)[1..] == g[1..] + text;
      GapSkipped(space, g[1..], text);
    }
  }

  lemma {:induction false} WordRead(space: char -> bool, w: string, text: string, word: string)
    requires forall k | 0 <= k < |w| :: !space(w[k])
    ensures SplitFrom(space, w + text, word) == SplitFrom(space, text, word + w)
    decreases |w|
  {
    if w == [] {
      assert w + text == text && word + w == word;
    } else {
      assert (w + text)[1..] == w[1..] + text;
      WordRead(space, w[1..], text, word + [w[0]]);
      assert word + [w[0]] + w[1..] == word + w;
    }
  }

  /** A gap of white space and a word at the start, and then white space or nothing. */
  lemma FirstWord(space: char -> bool, g: string, w: string, text: string)
    requires IsGap(space, g) && IsWord(space, w) && (text == [] || space(text[0]))
    ensures Split(space, g + (w + text)) == [w] + Split(space, text)
  {
    GapSkipped(space, g, w + text);
    WordRead(space, w, text, "");
    assert "" + w == w;
  }

  lemma WovenStart(space: char -> bool, gaps: seq<string>, words: seq<string>)
    requires Proper(space, gaps, words) && (words == [] || gaps[0] != [])
    ensures Woven(gaps, words) == [] || space(Woven(gaps, words)[0])
  {
  }

  /** Splitting gives the words back. */
  lemma {:induction false} SplitWoven(space: char -> bool, gaps: seq<string>, words: seq<string>)
    requires Proper(space, gaps, words)
    ensures Split(space, Woven(gaps, words)) == words
    decreases |words|
  {
    if words == [] {
      GapSkipped(space, gaps[0], []);
      assert gaps[0] + [] == gaps[0];
    } else {
      SplitWoven(space, gaps[1..], words[1..]);
      WovenStart(space, gaps[1..], words[1..]);
      FirstWord(space, gaps[0], words[0], Woven(gaps[1..], words[1..]));
    }
  }

  // ----- every text is woven -----

  /** How many characters at the start are in a class, or are not. */
  function Lead(p: char -> bool, yes: bool, s: string): (n: nat)
    ensures n <= |s| && (forall k | 0 <= k < n :: p(s[k]) == yes) && (n < |s| ==> p(s[n]) != yes)
  {
    if s == [] || p(s[0]) != yes then 0 else 1 + Lead(p, yes, s[1..])
  }

  lemma LeadingGap(space: char -> bool, text: string)
    ensures var n := Lead(space, true, text);
            IsGap(space, text[..n]) && (text[n..] == [] || !space(text[n..][0]))
  {
  }

  lemma LeadingWord(space: char -> bool, text: string)
    requires text != [] && !space(text[0])
    ensures var n := Lead(space, false, text);
            n > 0 && IsWord(space, text[..n]) && (text[n..] == [] || space(text[n..][0]))
  {
  }

  /** Every text consists of the words that splitting gives, in order, and white space around them. */
  lemma {:induction false} SplitWeaves(space: char -> bool, text: string) returns (gaps: seq<string>)
    ensures Proper(space, gaps, Split(space, text)) && Woven(gaps, Split(space, text)) == text
    decreases |text|
  {
    var n := Lead(space, true, text);
    var g, rest := text[..n], text[n..];
    LeadingGap(space, text);
    Halves(text, n);
    if rest == [] {
      assert g + [] == g == text;
      GapSkipped(space, text, []);
      gaps := [text];
    } else {
      var m := Lead(space, false, rest);
      var w, tail := rest[..m], rest[m..];
      LeadingWord(space, rest);
      Halves(rest, m);
      var later := SplitWeaves(space, tail);
      FirstWord(space, g, w, tail);
      gaps := [g] + later;
      AddWord(space, g, w, later, Split(space, tail));
    }
  }

  lemma AddWord(space: char -> bool, g: string, w: string, gaps: seq<string>, words: seq<string>)
    requires IsGap(space, g) && IsWord(space, w) && Proper(space, gaps, words)
    requires Woven(gaps, words) == [] || space(Woven(gaps, words)[0])
    ensures Proper(space, [g] + gaps, [w] + words) && Woven([g] + gaps, [w] + words) == g + (w + Woven(gaps, words))
  {
    assert ([g] + gaps)[1..] == gaps && ([w] + words)[1..] == words;
  }

  /** The only way to see a text as words in white space is the one that splitting finds. */
  lemma SplitExactly(space: char -> bool, text: string, words: seq<string>)
    ensures words == Split(space, text) <==> exists gaps :: Proper(space, gaps, words) && Woven(gaps, words) == text
  {
    if words == Split(space, text) {
      var gaps := SplitWeaves(space, text);
    }
    if gaps :| Proper(space, gaps, words) && Woven(gaps, words) == text {
      SplitWoven(space, gaps, words);
    }
  }

  // ----- the words are the longest runs without white space -----

  ghost predicate IsRun(space: char -> bool, text: string, i: int, j: int) {
    && 0 <= i < j <= |text|
    && (forall k | i <= k < j :: !space(text[k]))
    && (i == 0 || space(text[i - 1]))
    && (j == |text| || space(text[j]))
  }

  ghost predicate HasRun(space: char -> bool, text: string, w: string) {
    exists i, j :: IsRun(space, text, i, j) && text[i..j] == w
  }

  lemma RunBehind(space: char -> bool, u: string, text: string, i: int, j: int)
    requires 0 <= i && (text == [] || space(text[0]))
    ensures IsRun(space, u + text, |u| + i, |u| + j) <==> IsRun(space, text, i, j)
  {
    var all := u + text;
    forall k | 0 <= k < |text| ensures all[|u| + k] == text[k] {
    }
    if IsRun(space, text, i, j) {
      assert !space(text[i]);
      forall k | |u| + i <= k < |u| + j ensures !space(all[k]) {
        assert all[k] == text[k - |u|];
      }
      assert i > 0 && all[|u| + i - 1] == text[i - 1];
    }
    if IsRun(space, all, |u| + i, |u| + j) {
      forall k | i <= k < j ensures !space(text[k]) {
        assert all[|u| + k] == text[k];
      }
    }
  }

  /** The only run that starts in the first gap and word is the word. */
  lemma FirstRun(space: char -> bool, g: string, w: string, text: string, i: int, j: int)
    requires IsGap(space, g) && IsWord(space, w) && (text == [] || space(text[0])) && i < |g| + |w|
    ensures IsRun(space, g + (w + text), i, j) <==> i == |g| && j == |g| + |w|
  {
    var all := g + (w + text);
    forall k | 0 <= k < |all|
      ensures all[k] == if k < |g| then g[k] else if k < |g| + |w| then w[k - |g|] else text[k - |g| - |w|]
    {
    }
    if i > |g| {
      assert !space(all[i - 1]);
    } else if 0 <= i < |g| {
      assert space(all[i]);
    } else if |g| + |w| < j <= |all| {
      assert space(all[|g| + |w|]);
    } else if |g| == i < j < |g| + |w| {
      assert !space(all[j]);
    }
  }

  lemma RunsBehind(space: char -> bool, u: string, text: string, i: int, j: int)
    requires i >= |u| && (text == [] || space(text[0]))
    ensures IsRun(space, u + text, i, j) <==> IsRun(space, text, i - |u|, j - |u|)
    ensures IsRun(space, u + text, i, j) ==> (u + text)[i..j] == text[i - |u|..j - |u|]
  {
    RunBehind(space, u, text, i - |u|, j - |u|);
  }

  lemma RunsOfFirst(space: char -> bool, g: string, w: string, text: string, x: string)
    requires IsGap(space, g) && IsWord(space, w) && (text == [] || space(text[0]))
    ensures HasRun(space, g + (w + text), x) <==> x == w || HasRun(space, text, x)
  {
    var u, all := g + w, g + (w + text);
    assert all == u + text && all[|g|..|u|] == w;
    FirstRun(space, g, w, text, |g|, |u|);
    if i, j :| IsRun(space, all, i, j) && all[i..j] == x {
      if i < |u| {
        FirstRun(space, g, w, text, i, j);
      } else {
        RunsBehind(space, u, text, i, j);
      }
    }
    if i, j :| IsRun(space, text, i, j) && text[i..j] == x {
      RunsBehind(space, u, text, |u| + i, |u| + j);
    }
  }

  lemma {:induction false} WovenRuns(space: char -> bool, gaps: seq<string>, words: seq<string>, x: string)
    requires Proper(space, gaps, words)
    ensures x in words <==> HasRun(space, Woven(gaps, words), x)
    decreases |words|
  {
    if words == [] {
      forall i, j ensures !IsRun(space, gaps[0], i, j) {
        assert 0 <= i < j <= |gaps[0]| ==> space(gaps[0][i]);
      }
    } else {
      var rest := Woven(gaps[1..], words[1..]);
      WovenRuns(space, gaps[1..], words[1..], x);
      WovenStart(space, gaps[1..], words[1..]);
      RunsOfFirst(space, gaps[0], words[0], rest, x);
      assert x in words <==> x == words[0] || x in words[1..];
    }
  }

  lemma WordsAreRuns(space: char -> bool, text: string, w: string)
    ensures w in Split(space, text) <==> HasRun(space, text, w)
  {
    var gaps := SplitWeaves(space, text);
    WovenRuns(space, gaps, Split(space, text), w);
  }
}
