/** A machine that reads inputs one at a time and emits outputs on the way. */
module Transducer {

  /** Final state and everything emitted, in order. */
  function Feed<S, I, O>(step: (S, I) -> (S, seq<O>), s: S, inputs: seq<I>): (S, seq<O>)
    decreases |inputs|
  {
    if inputs == [] then (s, [])
    else
      var (s1, out1) := Feed(step, s, inputs[..|inputs| - 1]);
      var (s2, out2) := step(s1, inputs[|inputs| - 1]);
      (s2, out1 + out2)
  }

  lemma FeedNone<S, I, O>(step: (S, I) -> (S, seq<O>), s: S)
    ensures Feed(step, s, []) == (s, [])
  {
  }

  lemma FeedOne<S, I, O>(step: (S, I) -> (S, seq<O>), s: S, x: I)
    ensures Feed(step, s, [x]) == step(s, x)
  {
    assert [x][..0] == [];
    assert Feed(step, s, []) == (s, []);
    assert [] + step(s, x).1 == step(s, x).1;
  }

  lemma FeedTwo<S, I, O>(step: (S, I) -> (S, seq<O>), s: S, x: I, s1: S, out1: seq<O>, y: I, s2: S, out2: seq<O>)
    requires step(s, x) == (s1, out1) && step(s1, y) == (s2, out2)
    ensures Feed(step, s, [x, y]) == (s2, out1 + out2)
  {
    FeedOne(step, s, x);
    FeedLast(step, s, [x], y);
    assert [x] + [y] == [x, y];
  }

  lemma FeedLast<S, I, O>(step: (S, I) -> (S, seq<O>), s: S, xs: seq<I>, x: I)
    ensures Feed(step, s, xs + [x]).0 == step(Feed(step, s, xs).0, x).0
    ensures Feed(step, s, xs + [x]).1 == Feed(step, s, xs).1 + step(Feed(step, s, xs).0, x).1
  {
    assert (xs + [x])[..|xs + [x]| - 1] == xs;
  }

  /** Feeding in two halves. */
  lemma {:induction false} FeedAppend<S, I, O>(step: (S, I) -> (S, seq<O>), s: S, xs: seq<I>, ys: seq<I>)
    ensures Feed(step, s, xs + ys).0 == Feed(step, Feed(step, s, xs).0, ys).0
    ensures Feed(step, s, xs + ys).1 == Feed(step, s, xs).1 + Feed(step, Feed(step, s, xs).0, ys).1
    decreases |ys|
  {
    if ys == [] {
      assert xs + ys == xs;
    } else {
      var init, last := ys[..|ys| - 1], ys[|ys| - 1];
      assert xs + ys == (xs + init) + [last] && ys == init + [last];
      FeedAppend(step, s, xs, init);
      FeedLast(step, s, xs + init, last);
      FeedLast(step, Feed(step, s, xs).0, init, last);
    }
  }
}
