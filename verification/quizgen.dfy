/** `generateQuiz` (utils/generator.ts): each of the first 500 sentences
    with at least ten words may become a four-option multiple-choice
    question about its first number (or, failing that, its first long
    capitalised word). Distractors are drawn at random from the corpus's
    numbers or proper nouns, with one last draw from all its words.
    `Math.random` is an oracle: each draw is a natural number reduced
    modulo the length of the list it indexes, which reaches every index
    `Math.floor(Math.random() * n)` can. */
module QuizGen {
  import opened Wrappers
  import opened Chars
  import opened Text
  import opened FirstWins
  import opened Sentences
  import opened Cleaning
  import opened StudyTypes

  const SentenceLimit: nat := 500
  const MinWords: nat := 10
  const OptionCount: nat := 4
  const MaxAttempts: nat := 20

  // ---------------------------------------------------------------------------
  // Corpus pools
  // ---------------------------------------------------------------------------

  /** `text.split(/\s+/).map(w => w.replace(/[.,;!?()"]/g, ''))`: the
      white-space separated words of the whole text, stripped of
      punctuation. Never empty, though a word may be. */
  function CorpusWords(text: string): (r: seq<string>)
    ensures |r| == |SplitSpaces(text)| >= 1
    ensures forall i :: 0 <= i < |r| ==> r[i] == Strip(SplitSpaces(text)[i])
  {
    var pieces := SplitSpaces(text);
    seq(|pieces|, i requires 0 <= i < |pieces| => Strip(pieces[i]))
  }

  /** `/^[A-Z][a-z]+$/.test(w) && w.length > 4`. */
  predicate IsProperNoun(w: string) {
    |w| > 4 && IsUpper(w[0]) && forall k :: 1 <= k < |w| ==> IsLower(w[k])
  }

  /** `/^\d+$/.test(w)`. */
  predicate IsNumeral(w: string) {
    |w| > 0 && AllDigits(w)
  }

  /** The distinct proper nouns of the corpus in order of first
      appearance. */
  function ProperNouns(words: seq<string>): (r: seq<string>)
    ensures forall p, q :: 0 <= p < q < |r| ==> r[p] != r[q]
    ensures forall y :: y in r <==> y in words && IsProperNoun(y)
  {
    Unique(Filter(words, IsProperNoun))
  }

  /** The distinct numerals of the corpus in order of first appearance. */
  function Numbers(words: seq<string>): (r: seq<string>)
    ensures forall p, q :: 0 <= p < q < |r| ==> r[p] != r[q]
    ensures forall y :: y in r <==> y in words && IsNumeral(y)
  {
    Unique(Filter(words, IsNumeral))
  }

  // ---------------------------------------------------------------------------
  // The target word
  // ---------------------------------------------------------------------------

  /** `/\d+/.test(w)`. */
  predicate NumberCandidate(w: string, i: nat) {
    HasDigit(w)
  }

  /** `i > 0 && /^[A-Z]/.test(w) && w.length > 5`, on the raw word. */
  predicate NounCandidate(w: string, i: nat) {
    i > 0 && |w| > 5 && IsUpper(w[0])
  }

  /** `words.findIndex(p, from)`: the first position from `from` on whose
      word satisfies `p`. */
  function FirstWhere(words: seq<string>, p: (string, nat) -> bool, from: nat): (r: Option<nat>)
    requires from <= |words|
    ensures r.Some? ==> from <= r.value < |words| && p(words[r.value], r.value)
    ensures r.Some? ==> forall j :: from <= j < r.value ==> !p(words[j], j)
    ensures r.None? ==> forall j :: from <= j < |words| ==> !p(words[j], j)
    decreases |words| - from
  {
    if from == |words| then None
    else if p(words[from], from) then Some(from)
    else FirstWhere(words, p, from + 1)
  }

  datatype TargetKind = Number | Noun

  datatype Target = Target(index: nat, kind: TargetKind)

  /** The word a question is about: the first word holding a digit; when
      there is none, the first capitalised word of more than five
      characters after the first word. */
  function PickTarget(words: seq<string>): (r: Option<Target>)
    ensures r.Some? ==> r.value.index < |words|
    ensures r.Some? && r.value.kind == Number ==>
              && HasDigit(words[r.value.index])
              && forall j :: 0 <= j < r.value.index ==> !HasDigit(words[j])
    ensures r.Some? && r.value.kind == Noun ==>
              && (forall j :: 0 <= j < |words| ==> !HasDigit(words[j]))
              && NounCandidate(words[r.value.index], r.value.index)
              && forall j :: 0 <= j < r.value.index ==> !NounCandidate(words[j], j)
    ensures r.None? <==> forall j :: 0 <= j < |words| ==> !HasDigit(words[j]) && !NounCandidate(words[j], j)
  {
    match FirstWhere(words, NumberCandidate, 0)
    case Some(i) => Some(Target(i, Number))
    case None =>
      match FirstWhere(words, NounCandidate, 0)
      case Some(i) => Some(Target(i, Noun))
      case None => None
  }

  /** The stripped target is never empty: a digit or a capital letter
      survives stripping. */
  lemma TargetSurvivesStrip(words: seq<string>)
    requires PickTarget(words).Some?
    ensures |Strip(words[PickTarget(words).value.index])| > 0
  {
    var t := PickTarget(words).value;
    var w := words[t.index];
    if t.kind == Number {
      var k :| 0 <= k < |w| && IsDigit(w[k]);
      StripKeepsDigit(w, k);
    } else {
      StripKeepsHead(w);
    }
  }

  // ---------------------------------------------------------------------------
  // Options
  // ---------------------------------------------------------------------------

  /** The random draws one sentence consumes: the distractor draws from the
      pool by attempt number, the fallback draw, and the shuffle's draws. */
  datatype Draws = Draws(pool: nat -> nat, fallback: nat, shuffle: nat -> nat)

  /** `options.add(x)` on an insertion-ordered set: a value already present
      changes nothing. */
  function Add(options: seq<string>, x: string): (r: seq<string>)
    ensures x in options ==> r == options
    ensures x in r
    ensures forall y :: y in r <==> y in options || y == x
    ensures |options| <= |r| <= |options| + 1
    ensures r[..|options|] == options
  {
    if x in options then options else options + [x]
  }

  /** What the option set holds while it is being filled: the target first,
      no duplicates, at most four, and every distractor a non-empty word
      different from the target taken from `sources`. */
  ghost predicate OptionsOk(options: seq<string>, target: string, sources: seq<string>) {
    && 1 <= |options| <= OptionCount
    && options[0] == target
    && (forall p, q :: 0 <= p < q < |options| ==> options[p] != options[q])
    && forall k :: 1 <= k < |options| ==> options[k] != "" && options[k] != target && options[k] in sources
  }

  /** The word drawn from the pool at attempt `a`; an empty pool yields
      `undefined`, written as the empty string, which is never added. */
  function Draw(pool: seq<string>, pick: nat -> nat, a: nat): string {
    if |pool| == 0 then "" else pool[pick(a) % |pool|]
  }

  /** A draw is added unless it is missing, empty or the target. */
  predicate Acceptable(d: string, target: string) {
    d != "" && d != target
  }

  /** The loop's twenty draws, one per attempt, each missing or a pool
      word. */
  function Drawn(pool: seq<string>, pick: nat -> nat): (ds: seq<string>)
    ensures |ds| == MaxAttempts
    ensures forall a :: 0 <= a < MaxAttempts ==> ds[a] == Draw(pool, pick, a)
    ensures forall a :: 0 <= a < MaxAttempts ==> ds[a] == "" || ds[a] in pool
  {
    seq(MaxAttempts, (a: nat) => Draw(pool, pick, a))
  }

  /** Every draw is missing or a pool word. */
  ghost predicate FromPool(ds: seq<string>, pool: seq<string>) {
    forall i :: 0 <= i < |ds| ==> ds[i] == "" || ds[i] in pool
  }

  /** The distractor loop over the draws `ds` of the attempts left: while
      fewer than four options and draws remain, add the next draw unless it
      is missing, empty or the target. The options only grow, and by draws
      alone, and an acceptable draw made while there is room is added. */
  function Fill(target: string, pool: seq<string>, ds: seq<string>, options: seq<string>): (r: seq<string>)
    requires OptionsOk(options, target, pool)
    requires FromPool(ds, pool)
    ensures OptionsOk(r, target, pool)
    ensures |options| <= |r| && r[..|options|] == options
    ensures |options| >= OptionCount ==> r == options
    ensures forall y :: y in r ==> y in options || y in ds
    ensures |options| < OptionCount && |ds| > 0 && Acceptable(ds[0], target) ==> ds[0] in r
    decreases |ds|
  {
    if |options| >= OptionCount || |ds| == 0 then options
    else
      var next := if Acceptable(ds[0], target) then Add(options, ds[0]) else options;
      AddOk(options, target, pool, ds[0]);
      FromPoolTail(ds, pool);
      var r := Fill(target, pool, ds[1..], next);
      FillStep(target, ds, options, next, r);
      r
  }

  /** The draws after the first are from the pool too. */
  lemma FromPoolTail(ds: seq<string>, pool: seq<string>)
    requires |ds| > 0 && FromPool(ds, pool)
    ensures FromPool(ds[1..], pool)
  {
    forall i | 0 <= i < |ds| - 1 ensures ds[1..][i] == "" || ds[1..][i] in pool {
      assert ds[1..][i] == ds[i + 1];
    }
  }

  /** One round of the loop, seen from its result `r`: what `r` keeps of
      the options after the round it keeps of the options before it. */
  lemma FillStep(target: string, ds: seq<string>, options: seq<string>, next: seq<string>, r: seq<string>)
    requires |ds| > 0
    requires next == if Acceptable(ds[0], target) then Add(options, ds[0]) else options
    requires |next| <= |r| && r[..|next|] == next
    requires forall y :: y in r ==> y in next || y in ds[1..]
    ensures |options| <= |r| && r[..|options|] == options
    ensures forall y :: y in r ==> y in options || y in ds
    ensures Acceptable(ds[0], target) ==> ds[0] in r
  {
    assert next[..|options|] == options;
    assert r[..|options|] == r[..|next|][..|options|];
    PrefixMembers(next, r);
    assert forall y :: y in ds[1..] ==> y in ds;
  }

  /** When the loop ends short of four options it has added every
      acceptable draw of every attempt it had left. */
  lemma {:induction false} FillExhausts(target: string, pool: seq<string>, ds: seq<string>, options: seq<string>)
    requires OptionsOk(options, target, pool)
    requires FromPool(ds, pool)
    ensures var r := Fill(target, pool, ds, options);
            |r| < OptionCount ==> forall i :: 0 <= i < |ds| && Acceptable(ds[i], target) ==> ds[i] in r
  {
    forall i | 0 <= i < |ds|
      ensures var r := Fill(target, pool, ds, options);
              |r| < OptionCount && Acceptable(ds[i], target) ==> ds[i] in r
    {
      FillTakes(target, pool, ds, options, i);
    }
  }

  /** One attempt of `FillExhausts`: a loop that ends short of four options
      holds the draw of attempt `i` when it is acceptable. */
  lemma {:induction false} FillTakes(target: string, pool: seq<string>, ds: seq<string>, options: seq<string>, i: nat)
    requires OptionsOk(options, target, pool)
    requires FromPool(ds, pool)
    requires i < |ds|
    ensures var r := Fill(target, pool, ds, options);
            |r| < OptionCount && Acceptable(ds[i], target) ==> ds[i] in r
    decreases |ds|
  {
    if |options| < OptionCount && i > 0 {
      var next := if Acceptable(ds[0], target) then Add(options, ds[0]) else options;
      AddOk(options, target, pool, ds[0]);
      assert Fill(target, pool, ds, options) == Fill(target, pool, ds[1..], next);
      FillTakes(target, pool, ds[1..], next, i - 1);
    }
  }

  /** The loop passes over an acceptable draw only when the options were
      already full: if the draw of attempt `i` is acceptable and missing
      from the result, the attempts before `i` had filled all four. With
      `Fill`'s own contract this fixes which draws make up the options:
      the acceptable ones, in attempt order, until four are held. */
  lemma FillInOrder(target: string, pool: seq<string>, ds: seq<string>, options: seq<string>)
    requires OptionsOk(options, target, pool)
    requires FromPool(ds, pool)
    ensures forall i :: 0 <= i <= |ds| ==> FromPool(ds[..i], pool)
    ensures forall i :: 0 <= i < |ds| && Acceptable(ds[i], target) && ds[i] !in Fill(target, pool, ds, options) ==>
              |Fill(target, pool, ds[..i], options)| >= OptionCount
  {
    forall i | 0 <= i <= |ds| ensures FromPool(ds[..i], pool) {
      FromPoolPrefix(ds, pool, i);
    }
    forall i | 0 <= i < |ds|
      ensures Acceptable(ds[i], target) && ds[i] !in Fill(target, pool, ds, options) ==>
              |Fill(target, pool, ds[..i], options)| >= OptionCount
    {
      FillSkips(target, pool, ds, options, i);
    }
  }

  /** One attempt of `FillInOrder`. */
  lemma {:induction false} FillSkips(target: string, pool: seq<string>, ds: seq<string>, options: seq<string>, i: nat)
    requires OptionsOk(options, target, pool)
    requires FromPool(ds, pool)
    requires i < |ds|
    ensures FromPool(ds[..i], pool)
    ensures Acceptable(ds[i], target) && ds[i] !in Fill(target, pool, ds, options) ==>
            |Fill(target, pool, ds[..i], options)| >= OptionCount
    decreases |ds|
  {
    FromPoolPrefix(ds, pool, i);
    if |options| < OptionCount && i > 0 {
      var next := if Acceptable(ds[0], target) then Add(options, ds[0]) else options;
      AddOk(options, target, pool, ds[0]);
      FromPoolTail(ds, pool);
      assert Fill(target, pool, ds, options) == Fill(target, pool, ds[1..], next);
      FillSkips(target, pool, ds[1..], next, i - 1);
      FillPrefixStep(target, pool, ds, options, next, i);
    }
  }

  /** The first round of the loop over the attempts before `i`. */
  lemma FillPrefixStep(target: string, pool: seq<string>, ds: seq<string>, options: seq<string>,
                       next: seq<string>, i: nat)
    requires OptionsOk(options, target, pool) && |options| < OptionCount
    requires FromPool(ds, pool) && 0 < i <= |ds|
    requires next == if Acceptable(ds[0], target) then Add(options, ds[0]) else options
    ensures OptionsOk(next, target, pool)
    ensures FromPool(ds[..i], pool) && FromPool(ds[1..][..i - 1], pool)
    ensures Fill(target, pool, ds[..i], options) == Fill(target, pool, ds[1..][..i - 1], next)
  {
    AddOk(options, target, pool, ds[0]);
    FromPoolPrefix(ds, pool, i);
    var p := ds[..i];
    assert p[0] == ds[0] && p[1..] == ds[1..][..i - 1];
    FromPoolTail(p, pool);
  }

  /** The draws before any attempt are from the pool too. */
  lemma FromPoolPrefix(ds: seq<string>, pool: seq<string>, i: nat)
    requires FromPool(ds, pool) && i <= |ds|
    ensures FromPool(ds[..i], pool)
  {
    forall k | 0 <= k < i ensures ds[..i][k] == "" || ds[..i][k] in pool {
      assert ds[..i][k] == ds[k];
    }
  }

  /** Adding an acceptable draw to options with room left keeps them as
      the loop needs them. */
  lemma AddOk(options: seq<string>, target: string, pool: seq<string>, d: string)
    requires OptionsOk(options, target, pool) && |options| < OptionCount
    requires d == "" || d in pool
    ensures Acceptable(d, target) ==> OptionsOk(Add(options, d), target, pool)
  {
    if Acceptable(d, target) && d !in options {
      var next := Add(options, d);
      assert next == options + [d];
      forall k | 1 <= k < |next| ensures next[k] != "" && next[k] != target && next[k] in pool {
        if k < |options| { assert next[k] == options[k]; }
      }
    }
  }

  /** The elements of a prefix are elements of the whole. */
  lemma PrefixMembers(a: seq<string>, b: seq<string>)
    requires |a| <= |b| && b[..|a|] == a
    ensures forall y :: y in a ==> y in b
  {
    forall y | y in a ensures y in b {
      var k :| 0 <= k < |a| && a[k] == y;
      assert b[k] == y;
    }
  }

  /** Every pool word that differs from the target is reached by some
      sequence of draws: the loop does not miss distractors. */
  lemma FillCanReach(target: string, pool: seq<string>, x: string)
    requires x in pool && x != "" && x != target
    ensures exists pick: nat -> nat :: x in Fill(target, pool, Drawn(pool, pick), [target])
  {
    var j :| 0 <= j < |pool| && pool[j] == x;
    var pick := (k: nat) => j;
    assert pick(0) % |pool| == j;
    FillFirstDraw(target, pool, pick);
  }

  lemma FillFirstDraw(target: string, pool: seq<string>, pick: nat -> nat)
    requires |pool| > 0
    requires var d := pool[pick(0) % |pool|]; d != "" && d != target
    ensures pool[pick(0) % |pool|] in Fill(target, pool, Drawn(pool, pick), [target])
  {
    assert Drawn(pool, pick)[0] == pool[pick(0) % |pool|];
  }

  /** The one fallback draw from all corpus words when the pool fell short:
      with room left an acceptable draw is added, and nothing else ever
      is. */
  function Fallback(options: seq<string>, target: string, pool: seq<string>, all: seq<string>, pick: nat): (r: seq<string>)
    requires |all| > 0
    requires OptionsOk(options, target, pool)
    ensures OptionsOk(r, target, pool + all)
    ensures |options| <= |r| <= |options| + 1
    ensures r[..|options|] == options
    ensures forall y :: y in r ==> y in options || y == all[pick % |all|]
    ensures |options| < OptionCount && Acceptable(all[pick % |all|], target) ==> all[pick % |all|] in r
    ensures |options| >= OptionCount ==> r == options
  {
    if |options| < OptionCount then
      var w := all[pick % |all|];
      if w != "" && w != target then Add(options, w) else options
    else options
  }

  /** `Array.from(options).sort(() => Math.random() - 0.5)`, modelled as the
      selection of one remaining option per draw: a permutation. */
  function Shuffle(xs: seq<string>, pick: nat -> nat, k: nat): (r: seq<string>)
    ensures |r| == |xs|
    ensures multiset(r) == multiset(xs)
    decreases |xs|
  {
    if |xs| == 0 then []
    else
      var j := pick(k) % |xs|;
      var rest := xs[..j] + xs[j + 1..];
      assert xs == xs[..j] + [xs[j]] + xs[j + 1..];
      [xs[j]] + Shuffle(rest, pick, k + 1)
  }

  /** Shuffling keeps the options distinct and keeps every one of them. */
  lemma ShuffleKeepsOptions(xs: seq<string>, pick: nat -> nat)
    requires forall p, q :: 0 <= p < q < |xs| ==> xs[p] != xs[q]
    ensures var r := Shuffle(xs, pick, 0);
            && (forall p, q :: 0 <= p < q < |r| ==> r[p] != r[q])
            && forall y :: y in r <==> y in xs
  {
    var r := Shuffle(xs, pick, 0);
    var id := (x: string) => x;
    assert DistinctKeys(xs, id);
    PermutationDistinctKeys(xs, r, id);
    forall y ensures y in r <==> y in xs {
      assert y in r <==> y in multiset(r);
      assert y in xs <==> y in multiset(xs);
    }
  }

  // ---------------------------------------------------------------------------
  // Questions
  // ---------------------------------------------------------------------------

  /** What every generated question satisfies: a multiple-choice question
      worth one mark, with four distinct non-empty options among which the
      correct answer, and a cloze text holding the mask. */
  ghost predicate WellFormed(q: QuizQuestion) {
    && q.kind == Some(Mcq)
    && q.marks == Some(1)
    && q.options.Some? && q.correctAnswer.Some?
    && |q.options.value| == OptionCount
    && (forall p, r :: 0 <= p < r < |q.options.value| ==> q.options.value[p] != q.options.value[r])
    && q.correctAnswer.value in q.options.value
    && q.correctAnswer.value != ""
    && (forall p :: 0 <= p < |q.options.value| ==> q.options.value[p] != "")
    && exists k :: OccursAt(q.question, Mask, k)
  }

  /** The options of a sentence's question before shuffling: the target
      first, then distinct acceptable draws, each from one of the 20
      attempts on the type-matched pool or from the fallback draw. An
      acceptable draw is left out only when the attempts before it had
      already filled four options; short of four options, every acceptable
      draw is among them. */
  function Options(target: string, kind: TargetKind, nouns: seq<string>, numbers: seq<string>,
                   all: seq<string>, d: Draws): (r: seq<string>)
    requires |all| > 0
    ensures var pool := if kind == Number then numbers else nouns;
            var ds := Drawn(pool, d.pool);
            var w := all[d.fallback % |all|];
            && OptionsOk(r, target, pool + all)
            && (forall y :: y in r ==> y == target || y in ds || y == w)
            && (Acceptable(ds[0], target) ==> ds[0] in r)
            && (forall a :: 0 <= a < MaxAttempts && Acceptable(ds[a], target) && ds[a] !in r ==>
                  FromPool(ds[..a], pool) && |Fill(target, pool, ds[..a], [target])| >= OptionCount)
            && (|r| < OptionCount ==>
                  && (forall a :: 0 <= a < MaxAttempts && Acceptable(ds[a], target) ==> ds[a] in r)
                  && (Acceptable(w, target) ==> w in r))
  {
    var pool := if kind == Number then numbers else nouns;
    var ds := Drawn(pool, d.pool);
    var filled := Fill(target, pool, ds, [target]);
    var r := Fallback(filled, target, pool, all, d.fallback);
    PrefixMembers(filled, r);
    FillExhausts(target, pool, ds, [target]);
    FillInOrder(target, pool, ds, [target]);
    r
  }

  /** The question sentence `idx` yields, if any. */
  function Question(s: string, idx: nat, nouns: seq<string>, numbers: seq<string>,
                    all: seq<string>, d: Draws): Option<QuizQuestion>
    requires |all| > 0
  {
    var clean := CleanSentence(s);
    var words := Words(clean);
    if |words| < MinWords then None
    else
      match PickTarget(words)
      case None => None
      case Some(t) =>
        var raw := words[t.index];
        var target := Strip(raw);
        var opts := Options(target, t.kind, nouns, numbers, all, d);
        if |opts| != OptionCount then None
        else
          WordOccurs(clean, t.index);
          Some(QuizQuestion("q-" + NatToString(idx), Some(Mcq), Cloze(clean, raw),
                            Some(Shuffle(opts, d.shuffle, 0)), Some(target), Some(1)))
  }

  /** A sentence yields a question exactly when it has at least ten words, a
      target, and four options could be assembled. The question is well
      formed; its answer is the stripped target word; every other option is
      a corpus number (for a number target) or proper noun (for a noun
      target), or a corpus word from the fallback draw; and putting the raw
      target word back in place of the mask gives the cleaned sentence. */
  lemma QuestionSpec(s: string, idx: nat, nouns: seq<string>, numbers: seq<string>,
                     all: seq<string>, d: Draws)
    requires |all| > 0
    ensures var r := Question(s, idx, nouns, numbers, all, d);
            var clean := CleanSentence(s);
            var words := Words(clean);
            && (r.Some? ==> |words| >= MinWords && PickTarget(words).Some?)
            && (|words| >= MinWords && PickTarget(words).Some? ==>
                  var t := PickTarget(words).value;
                  var target := Strip(words[t.index]);
                  var pool := if t.kind == Number then numbers else nouns;
                  && (r.Some? <==> |Options(target, t.kind, nouns, numbers, all, d)| == OptionCount)
                  && (r.Some? ==>
                        && WellFormed(r.value)
                        && r.value.id == "q-" + NatToString(idx)
                        && r.value.correctAnswer == Some(target)
                        && (forall y :: y in r.value.options.value && y != target ==> y in pool + all)
                        && exists k :: && OccursAt(r.value.question, Mask, k)
                                       && (forall j :: 0 <= j < k ==> !OccursAt(clean, words[t.index], j))
                                       && r.value.question[..k] + words[t.index] + r.value.question[k + |Mask|..] == clean))
  {
    var clean := CleanSentence(s);
    var words := Words(clean);
    if |words| >= MinWords && PickTarget(words).Some? {
      QuestionOptions(s, idx, nouns, numbers, all, d);
    }
  }

  /** The answer and option half of `QuestionSpec`. */
  lemma QuestionOptions(s: string, idx: nat, nouns: seq<string>, numbers: seq<string>,
                        all: seq<string>, d: Draws)
    requires |all| > 0
    ensures var r := Question(s, idx, nouns, numbers, all, d);
            var words := Words(CleanSentence(s));
            |words| >= MinWords && PickTarget(words).Some? ==>
              var t := PickTarget(words).value;
              var target := Strip(words[t.index]);
              var pool := if t.kind == Number then numbers else nouns;
              && (r.Some? <==> |Options(target, t.kind, nouns, numbers, all, d)| == OptionCount)
              && (r.Some? ==>
                    && WellFormed(r.value)
                    && r.value.id == "q-" + NatToString(idx)
                    && r.value.correctAnswer == Some(target)
                    && (forall y :: y in r.value.options.value && y != target ==> y in pool + all))
  {
    var words := Words(CleanSentence(s));
    if |words| >= MinWords && PickTarget(words).Some? {
      var t := PickTarget(words).value;
      var target := Strip(words[t.index]);
      var pool := if t.kind == Number then numbers else nouns;
      var opts := Options(target, t.kind, nouns, numbers, all, d);
      TargetSurvivesStrip(words);
      if |opts| == OptionCount {
        ShuffledOptions(opts, target, pool + all, d.shuffle);
      }
    }
  }

  /** Four assembled options, shuffled: still four, distinct and non-empty,
      holding the target, every other option from the sources. */
  lemma ShuffledOptions(opts: seq<string>, target: string, sources: seq<string>, pick: nat -> nat)
    requires OptionsOk(opts, target, sources) && |opts| == OptionCount && target != ""
    ensures var r := Shuffle(opts, pick, 0);
            && |r| == OptionCount
            && (forall p, q :: 0 <= p < q < |r| ==> r[p] != r[q])
            && target in r
            && (forall p :: 0 <= p < |r| ==> r[p] != "")
            && forall y :: y in r && y != target ==> y in sources
  {
    var r := Shuffle(opts, pick, 0);
    ShuffleKeepsOptions(opts, pick);
    forall y | y in r && y != target ensures y in sources {
      assert y in opts;
      var k :| 0 <= k < |opts| && opts[k] == y;
    }
    forall p | 0 <= p < |r| ensures r[p] != "" {
      assert r[p] in opts;
      var k :| 0 <= k < |opts| && opts[k] == r[p];
    }
  }

  function Window(text: string): seq<string> {
    FirstSentences(text, SentenceLimit)
  }

  /** What each sentence of a window yields, by position. */
  function Yields(w: seq<string>, nouns: seq<string>, numbers: seq<string>, all: seq<string>,
                  draws: nat -> Draws): (ys: seq<Option<QuizQuestion>>)
    requires |all| > 0
    ensures |ys| == |w|
    ensures forall i :: 0 <= i < |w| ==> ys[i] == Question(w[i], i, nouns, numbers, all, draws(i))
  {
    seq(|w|, i requires 0 <= i < |w| => Question(w[i], i, nouns, numbers, all, draws(i)))
  }

  /** The questions of a window: exactly the questions its sentences
      yield, each once, in sentence order; all well formed, with distinct
      ids. */
  function Questions(w: seq<string>, nouns: seq<string>, numbers: seq<string>, all: seq<string>,
                     draws: nat -> Draws): (r: seq<QuizQuestion>)
    requires |all| > 0
    ensures Collected(Yields(w, nouns, numbers, all, draws), r)
    ensures forall e :: e in r <==> exists i :: 0 <= i < |w| && Question(w[i], i, nouns, numbers, all, draws(i)) == Some(e)
    ensures |r| <= |w|
    ensures forall p :: 0 <= p < |r| ==> WellFormed(r[p])
    ensures forall p, q :: 0 <= p < q < |r| ==> r[p].id != r[q].id
  {
    var ys := Yields(w, nouns, numbers, all, draws);
    var idx := PresentFrom(ys, 0);
    var r := Collect(ys);
    forall p | 0 <= p < |r| ensures WellFormed(r[p]) && r[p].id == "q-" + NatToString(idx[p]) {
      var i := idx[p];
      QuestionSpec(w[i], i, nouns, numbers, all, draws(i));
    }
    forall p, q | 0 <= p < q < |r| ensures r[p].id != r[q].id {
      QuizIdsDiffer(idx[p], idx[q]);
    }
    r
  }

  lemma QuizIdsDiffer(a: nat, b: nat)
    requires a != b
    ensures "q-" + NatToString(a) != "q-" + NatToString(b)
  {
    var x, y := NatToString(a), NatToString(b);
    assert x != y;
    assert ("q-" + x)[2..] == x && ("q-" + y)[2..] == y;
  }

  /** `generateQuiz(text)` under the draws `draws(i)` for sentence `i`:
      the questions the sentences of the 500-sentence window yield, in
      sentence order, against the corpus's proper nouns, numbers and words;
      well formed, with distinct ids. */
  function Quiz(text: string, draws: nat -> Draws): (r: seq<QuizQuestion>)
    ensures var all := CorpusWords(text);
            Collected(Yields(Window(text), ProperNouns(all), Numbers(all), all, draws), r)
    ensures var all := CorpusWords(text);
            var w := Window(text);
            forall e :: e in r <==> exists i :: 0 <= i < |w| && Question(w[i], i, ProperNouns(all), Numbers(all), all, draws(i)) == Some(e)
    ensures |r| <= |Window(text)|
    ensures forall p :: 0 <= p < |r| ==> WellFormed(r[p])
    ensures forall p, q :: 0 <= p < q < |r| ==> r[p].id != r[q].id
  {
    var all := CorpusWords(text);
    Questions(Window(text), ProperNouns(all), Numbers(all), all, draws)
  }
}
