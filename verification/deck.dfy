/** The flashcard deck of wikischolar/components/Flashcards.tsx: cards are
    revealed in batches of ten; Next and Previous wrap around the visible
    cards; on the last visible card a button reveals the next batch and
    jumps to its first card. The 200 and 300 millisecond animation delays
    are not modelled: each action takes effect at once. */
module Deck {

  const BatchSize: nat := 10

  datatype DeckState = DeckState(index: int, flipped: bool, visible: nat)

  /** The state after the deck changes. */
  const Fresh := DeckState(0, false, BatchSize)

  /** `cards.slice(0, visibleCount).length`. */
  function Shown(st: DeckState, n: nat): (r: nat)
    ensures r <= n && r <= st.visible
    ensures r == n || r == st.visible
  {
    if st.visible <= n then st.visible else n
  }

  /** The remainder of JavaScript's `%`, which takes the sign of the
      dividend. */
  function JsRem(a: int, b: int): int
    requires b > 0
  {
    if a >= 0 then a % b else -((-a) % b)
  }

  /** `(i + 1) % shown`, with the card turned face down. */
  function Next(st: DeckState, n: nat): DeckState
    requires Shown(st, n) > 0
  {
    st.(index := JsRem(st.index + 1, Shown(st, n)), flipped := false)
  }

  /** `(i - 1 + shown) % shown`, with the card turned face down. */
  function Prev(st: DeckState, n: nat): DeckState
    requires Shown(st, n) > 0
  {
    st.(index := JsRem(st.index - 1 + Shown(st, n), Shown(st, n)), flipped := false)
  }

  /** A click on the card turns it over. */
  function Flip(st: DeckState): DeckState {
    st.(flipped := !st.flipped)
  }

  /** Turning the card over twice shows the same side again. */
  lemma FlipTwice(st: DeckState)
    ensures Flip(st).flipped != st.flipped && Flip(Flip(st)) == st
  {
  }

  /** The reset-batch button: back to the first card, face down. */
  function ResetBatch(st: DeckState): DeckState {
    st.(index := 0, flipped := false)
  }

  predicate IsLastCard(st: DeckState, n: nat) {
    st.index == Shown(st, n) - 1
  }

  predicate HasMore(st: DeckState, n: nat) {
    st.visible < n
  }

  /** The load-more button is shown on the last visible card while cards
      remain hidden. */
  predicate LoadMoreOffered(st: DeckState, n: nat) {
    IsLastCard(st, n) && HasMore(st, n)
  }

  /** `loadMore`: reveal up to ten more cards and jump to the first of them. */
  function LoadMore(st: DeckState, n: nat): DeckState {
    var next := if st.visible + BatchSize <= n then st.visible + BatchSize else n;
    DeckState(st.visible, false, next)
  }

  /** The button's label, `Math.min(10, n - visible)`. */
  function LoadMoreLabel(st: DeckState, n: nat): int {
    if BatchSize <= n - st.visible then BatchSize else n - st.visible
  }

  /** The current card is one of the visible cards. */
  predicate InRange(st: DeckState, n: nat) {
    0 <= st.index < Shown(st, n)
  }

  lemma FreshInRange(n: nat)
    requires n > 0
    ensures InRange(Fresh, n)
  {
  }

  /** Navigation keeps the current card among the visible ones, and
      Previous undoes Next and Next undoes Previous. */
  lemma NavigationInRange(st: DeckState, n: nat)
    requires InRange(st, n)
    ensures InRange(Next(st, n), n) && InRange(Prev(st, n), n) && InRange(ResetBatch(st), n)
    ensures Prev(Next(st, n), n).index == st.index
    ensures Next(Prev(st, n), n).index == st.index
  {
    var m, i := Shown(st, n), st.index;
    WrapOnce(i + 1, m);
    WrapOnce(i - 1 + m, m);
    var j := Next(st, n).index;
    assert j == if i + 1 < m then i + 1 else 0;
    WrapOnce(j - 1 + m, m);
    var h := Prev(st, n).index;
    assert h == if i > 0 then i - 1 else m - 1;
    WrapOnce(h + 1, m);
  }

  /** The remainder of a number below twice the divisor. */
  lemma WrapOnce(x: int, m: int)
    requires m > 0 && 0 <= x < 2 * m
    ensures JsRem(x, m) == if x < m then x else x - m
  {
    if x >= m {
      assert x == 1 * m + (x - m);
    }
  }

  /** `k` presses of Next land on card `(i + k) mod shown`. */
  function Forward(st: DeckState, n: nat, k: nat): DeckState
    requires Shown(st, n) > 0
    decreases k
  {
    if k == 0 then st else Forward(Next(st, n), n, k - 1)
  }

  lemma {:induction false} ForwardWraps(st: DeckState, n: nat, k: nat)
    requires InRange(st, n)
    ensures Forward(st, n, k).index == (st.index + k) % Shown(st, n)
    ensures Forward(st, n, k).visible == st.visible
    decreases k
  {
    if k > 0 {
      var m := Shown(st, n);
      ForwardWraps(Next(st, n), n, k - 1);
      assert Next(st, n).index == (st.index + 1) % m;
      ModAddOne(st.index, k - 1, m);
    }
  }

  lemma ModAddOne(i: nat, k: nat, m: nat)
    requires m > 0
    ensures ((i + 1) % m + k) % m == (i + k + 1) % m
  {
    var q := (i + 1) / m;
    assert i + 1 == q * m + (i + 1) % m;
    assert (i + k + 1) == q * m + ((i + 1) % m + k);
    ShiftMod(q, (i + 1) % m + k, m);
  }

  lemma ShiftMod(q: nat, a: nat, m: nat)
    requires m > 0
    ensures (q * m + a) % m == a % m
    decreases q
  {
    if q > 0 {
      ShiftMod(q - 1, a, m);
      var y := (q - 1) * m + a;
      assert q * m + a == y + m;
      AddModulus(y, m);
    }
  }

  /** Adding the divisor leaves the remainder unchanged. */
  lemma AddModulus(y: int, m: int)
    requires y >= 0 && m > 0
    ensures (y + m) % m == y % m
  {
    var d, r := y / m, y % m;
    var z := y + m;
    var d2, r2 := z / m, z % m;
    var e := d2 - d - 1;
    assert e * m == r - r2 by {
      assert z == d2 * m + r2;
      assert y == d * m + r;
      assert d2 * m == (d + 1) * m + e * m;
      assert (d + 1) * m == d * m + m;
    }
    if e >= 1 {
      AtLeastOnce(e, m);
    }
  }

  lemma AtLeastOnce(e: int, m: int)
    requires e >= 1 && m > 0
    ensures e * m >= m
    decreases e
  {
    if e > 1 {
      AtLeastOnce(e - 1, m);
      assert e * m == (e - 1) * m + m;
    }
  }

  /** Pressing Next as many times as there are visible cards comes back to
      the same card. */
  lemma FullCircle(st: DeckState, n: nat)
    requires InRange(st, n)
    ensures Forward(st, n, Shown(st, n)).index == st.index
  {
    var m, i := Shown(st, n), st.index;
    ForwardWraps(st, n, m);
    ShiftMod(1, i, m);
    assert 1 * m + i == i + m;
    SmallMod(i, m);
  }

  /** A number below the divisor is its own remainder. */
  lemma SmallMod(i: nat, m: nat)
    requires i < m
    ensures i % m == i
  {
  }

  /** Loading more from the offering button reveals exactly the number of
      cards its label announces, lands on the first card that was hidden,
      and makes it the current card. */
  lemma LoadMoreRevealsNext(st: DeckState, n: nat)
    requires InRange(st, n) && LoadMoreOffered(st, n)
    ensures var r := LoadMore(st, n);
            && Shown(r, n) - Shown(st, n) == LoadMoreLabel(st, n) > 0
            && r.index == Shown(st, n)
            && InRange(r, n)
            && !r.flipped
  {
  }

  /** Without the offer (no hidden cards left) loading more would place
      the current card beyond the visible ones. */
  lemma LoadMoreNeedsOffer(st: DeckState, n: nat)
    requires !HasMore(st, n)
    ensures !InRange(LoadMore(st, n), n)
  {
  }
}
