/** The sentence segmenter of utils/generator.ts:
    `text.match(/[^\.!\?]+[\.!\?]+/g) || [text]`.
    A match is a maximal run of non-terminators followed by the maximal run
    of terminators after it. Terminators before the first such run and
    non-terminators after the last terminator belong to no match; when there
    is no match at all, the whole text is the only sentence. */
module Sentences {
  import opened Chars

  /** Where the run of non-terminators starting at `i` ends. */
  function PlainEnd(s: string, i: nat): (j: nat)
    requires i <= |s|
    ensures i <= j <= |s|
    ensures forall k :: i <= k < j ==> !IsTerminator(s[k])
    ensures j < |s| ==> IsTerminator(s[j])
    decreases |s| - i
  {
    if i == |s| || IsTerminator(s[i]) then i else PlainEnd(s, i + 1)
  }

  /** Where the run of terminators starting at `i` ends. */
  function TerminatorEnd(s: string, i: nat): (j: nat)
    requires i <= |s|
    ensures i <= j <= |s|
    ensures forall k :: i <= k < j ==> IsTerminator(s[k])
    ensures j < |s| ==> !IsTerminator(s[j])
    decreases |s| - i
  {
    if i == |s| || !IsTerminator(s[i]) then i else TerminatorEnd(s, i + 1)
  }

  /** One or more non-terminators followed by one or more terminators. */
  predicate SentenceShaped(x: string) {
    && |x| >= 2
    && !IsTerminator(x[0])
    && IsTerminator(x[|x| - 1])
    && forall a, b :: 0 <= a < b < |x| && IsTerminator(x[a]) ==> IsTerminator(x[b])
  }

  /** The sentences laid end to end. */
  function Concat(xs: seq<string>): string {
    if |xs| == 0 then "" else xs[0] + Concat(xs[1..])
  }

  /** A non-terminator directly followed by a terminator: where a match ends
      its first run. */
  predicate BoundaryAt(s: string, k: int) {
    0 <= k < |s| - 1 && !IsTerminator(s[k]) && IsTerminator(s[k + 1])
  }

  /** The matches found scanning from index `i`; every one is
      sentence-shaped. */
  function MatchesFrom(s: string, i: nat): (r: seq<string>)
    requires i <= |s|
    ensures forall p :: 0 <= p < |r| ==> SentenceShaped(r[p])
    decreases |s| - i
  {
    if i == |s| then []
    else if IsTerminator(s[i]) then MatchesFrom(s, i + 1)
    else
      var j := PlainEnd(s, i);
      if j == |s| then []
      else
        var k := TerminatorEnd(s, j);
        HeadShaped(s, i);
        [s[i..k]] + MatchesFrom(s, k)
  }

  /** `c` is the slice of `s` at `lead`, and only non-terminators follow
      it. */
  predicate Spans(s: string, lead: nat, c: string) {
    && lead + |c| <= |s|
    && s[lead..lead + |c|] == c
    && forall k :: lead + |c| <= k < |s| ==> !IsTerminator(s[k])
  }

  /** The matches from `i`, laid end to end, are the slice of `s` that
      starts after the terminators at `i`, and only non-terminators follow
      it. */
  lemma {:induction false} MatchesFromSpan(s: string, i: nat)
    requires i <= |s|
    ensures Spans(s, TerminatorEnd(s, i), Concat(MatchesFrom(s, i)))
    decreases |s| - i
  {
    if i == |s| {
      assert MatchesFrom(s, i) == [];
    } else if IsTerminator(s[i]) {
      MatchesFromSpan(s, i + 1);
      assert TerminatorEnd(s, i) == TerminatorEnd(s, i + 1);
      assert MatchesFrom(s, i) == MatchesFrom(s, i + 1);
    } else {
      var j := PlainEnd(s, i);
      assert TerminatorEnd(s, i) == i;
      if j < |s| {
        var k := TerminatorEnd(s, j);
        HeadShaped(s, i);
        var rest := MatchesFrom(s, k);
        MatchesFromSpan(s, k);
        assert MatchesFrom(s, i) == [s[i..k]] + rest;
        ConsSpan(s, i, k, rest);
      } else {
        assert MatchesFrom(s, i) == [];
      }
    }
  }

  /** A run of non-terminators and the run of terminators after it form a
      sentence-shaped match. */
  lemma HeadShaped(s: string, i: nat)
    requires i < |s| && !IsTerminator(s[i]) && PlainEnd(s, i) < |s|
    ensures var k := TerminatorEnd(s, PlainEnd(s, i));
            && TerminatorEnd(s, k) == k
            && SentenceShaped(s[i..k])
  {
    var j := PlainEnd(s, i);
    var k := TerminatorEnd(s, j);
    RunShaped(s, i, j, k);
    TerminatorEndAtStop(s, k);
  }

  /** The scan for terminators stops at once on a non-terminator. */
  lemma TerminatorEndAtStop(s: string, k: nat)
    requires k <= |s| && (k < |s| ==> !IsTerminator(s[k]))
    ensures TerminatorEnd(s, k) == k
  {
  }

  /** Non-terminators at `i..j` and terminators at `j..k`, both runs
      non-empty, form a sentence-shaped slice. */
  lemma RunShaped(s: string, i: nat, j: nat, k: nat)
    requires i < j < k <= |s|
    requires forall m :: i <= m < j ==> !IsTerminator(s[m])
    requires forall m :: j <= m < k ==> IsTerminator(s[m])
    ensures SentenceShaped(s[i..k])
  {
    var head := s[i..k];
    assert head[0] == s[i];
    assert head[|head| - 1] == s[k - 1];
    forall a, b | 0 <= a < b < |head| && IsTerminator(head[a]) ensures IsTerminator(head[b]) {
      assert head[a] == s[i + a] && head[b] == s[i + b];
    }
  }

  /** A match followed by the matches after it spans the text from the
      start of the match. */
  lemma ConsSpan(s: string, i: nat, k: nat, rest: seq<string>)
    requires i < k && Spans(s, k, Concat(rest))
    ensures Spans(s, i, Concat([s[i..k]] + rest))
  {
    var x := s[i..k];
    var n := |Concat(rest)|;
    assert ([x] + rest)[1..] == rest;
    assert Concat([x] + rest) == x + Concat(rest);
    assert s[i..k + n] == s[i..k] + s[k..k + n];
  }

  /** All matches of the global regular expression, left to right. */
  function Matches(s: string): (r: seq<string>)
    ensures forall p :: 0 <= p < |r| ==> SentenceShaped(r[p])
    ensures var lead := TerminatorEnd(s, 0);
            var c := Concat(r);
            && lead + |c| <= |s|
            && s[lead..lead + |c|] == c
            && forall k :: lead + |c| <= k < |s| ==> !IsTerminator(s[k])
  {
    MatchesFromSpan(s, 0);
    assert Spans(s, TerminatorEnd(s, 0), Concat(MatchesFrom(s, 0)));
    MatchesFrom(s, 0)
  }

  /** `splitSentences(text)`. */
  function SplitSentences(text: string): (r: seq<string>)
    ensures |r| >= 1
    ensures Matches(text) == [] ==> r == [text]
    ensures Matches(text) != [] ==> r == Matches(text)
  {
    var m := Matches(text);
    if m == [] then [text] else m
  }

  /** `splitSentences(text).slice(0, n)`: the first `n` sentences, or all
      of them when there are fewer. */
  function FirstSentences(text: string, n: nat): (r: seq<string>)
    ensures |r| <= n && |r| <= |SplitSentences(text)|
    ensures r == SplitSentences(text)[..|r|]
    ensures |r| < n ==> r == SplitSentences(text)
  {
    var all := SplitSentences(text);
    if |all| <= n then all else all[..n]
  }

  /** The segmenter finds a sentence exactly when some non-terminator is
      directly followed by a terminator. */
  lemma MatchesEmptyIff(s: string)
    ensures Matches(s) == [] <==> forall k :: !BoundaryAt(s, k)
  {
    var r := Matches(s);
    var lead := TerminatorEnd(s, 0);
    if r == [] {
      forall k ensures !BoundaryAt(s, k) {
        if 0 <= k < |s| - 1 && !IsTerminator(s[k]) {
          assert k >= lead;
        }
      }
    } else {
      var x := r[0];
      assert SentenceShaped(x);
      var p := PlainEnd(x, 0);
      assert 0 < p < |x|;
      assert Concat(r) == x + Concat(r[1..]);
      var c := Concat(r);
      assert c[..|x|] == x;
      assert s[lead + p - 1] == x[p - 1] && s[lead + p] == x[p];
      assert BoundaryAt(s, lead + p - 1);
    }
  }

  /** With no terminator anywhere the text is one sentence. */
  lemma NoTerminatorOneSentence(s: string)
    requires forall k :: 0 <= k < |s| ==> !IsTerminator(s[k])
    ensures SplitSentences(s) == [s]
  {
    MatchesEmptyIff(s);
  }

  /** The empty text yields one empty sentence, not an empty sequence. */
  lemma EmptyTextOneSentence()
    ensures SplitSentences("") == [""]
  {
    NoTerminatorOneSentence("");
  }
}
