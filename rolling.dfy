/** The feedback step `m = (m << 1) ^ x` that both the file-name mask and the cipher's
    keystream are built from, and its left fold. */
module Rolling {

  /** One step: shift the 32-bit mask left by one (discarding bit 31) and mix in `x`. */
  function Feedback(m: bv32, x: bv32): bv32
  {
    (m << 1) ^ x
  }

  /** The mask after feeding `xs` into `m`, left to right. Defined on the last element so
      that it reads as a loop that has processed a prefix. */
  function Feed(m: bv32, xs: seq<bv32>): bv32
  {
    if xs == [] then m else Feedback(Feed(m, xs[..|xs| - 1]), xs[|xs| - 1])
  }

  /** Feeding a concatenation is feeding one part after the other. */
  lemma {:induction false} FeedConcat(m: bv32, xs: seq<bv32>, ys: seq<bv32>)
    ensures Feed(m, xs + ys) == Feed(Feed(m, xs), ys)
  {
    if ys == [] {
      assert xs + ys == xs;
    } else {
      var zs := xs + ys;
      assert zs[..|zs| - 1] == xs + ys[..|ys| - 1];
      FeedConcat(m, xs, ys[..|ys| - 1]);
    }
  }

  /** Feeding a sequence whose first element is `x` starts with one step on `x`. */
  lemma FeedCons(m: bv32, x: bv32, xs: seq<bv32>)
    ensures Feed(m, [x] + xs) == Feed(Feedback(m, x), xs)
  {
    FeedConcat(m, [x], xs);
    assert [x][..0] == [];
  }

  /** One step shifts the difference of two masks left by one place. */
  lemma StepDifference(p: bv32, q: bv32, x: bv32)
    ensures Feedback(p, x) ^ Feedback(q, x) == (p ^ q) << 1
  {
  }

  lemma FeedTwo(m: bv32, xs: seq<bv32>)
    requires |xs| == 2
    ensures Feed(m, xs) == Feedback(Feedback(m, xs[0]), xs[1])
  {
    var init := xs[..1];
    assert init[..0] == [] && init[0] == xs[0] && xs[..|xs| - 1] == init;
    assert Feed(m, init) == Feedback(m, xs[0]);
  }

  lemma Halves(xs: seq<bv32>, h: nat)
    requires |xs| == 2 * h
    ensures xs == xs[..h] + xs[h..] && |xs[..h]| == |xs[h..]| == h
  {
  }

  /* Two starting masks fed the same 2, 4, 8, 16 elements differ by their initial
     difference shifted left by that many places. Each rung splits the input in halves
     and composes the rung below; the shift amounts stay constants. */

  lemma Spread2(a: bv32, b: bv32, xs: seq<bv32>)
    requires |xs| == 2
    ensures Feed(a, xs) ^ Feed(b, xs) == (a ^ b) << 2
  {
    FeedTwo(a, xs);
    FeedTwo(b, xs);
    StepDifference(a, b, xs[0]);
    StepDifference(Feedback(a, xs[0]), Feedback(b, xs[0]), xs[1]);
  }

  lemma Spread4(a: bv32, b: bv32, xs: seq<bv32>)
    requires |xs| == 4
    ensures Feed(a, xs) ^ Feed(b, xs) == (a ^ b) << 4
  {
    Halves(xs, 2);
    FeedConcat(a, xs[..2], xs[2..]);
    FeedConcat(b, xs[..2], xs[2..]);
    Spread2(a, b, xs[..2]);
    Spread2(Feed(a, xs[..2]), Feed(b, xs[..2]), xs[2..]);
  }

  lemma Spread8(a: bv32, b: bv32, xs: seq<bv32>)
    requires |xs| == 8
    ensures Feed(a, xs) ^ Feed(b, xs) == (a ^ b) << 8
  {
    Halves(xs, 4);
    FeedConcat(a, xs[..4], xs[4..]);
    FeedConcat(b, xs[..4], xs[4..]);
    Spread4(a, b, xs[..4]);
    Spread4(Feed(a, xs[..4]), Feed(b, xs[..4]), xs[4..]);
  }

  lemma Spread16(a: bv32, b: bv32, xs: seq<bv32>)
    requires |xs| == 16
    ensures Feed(a, xs) ^ Feed(b, xs) == (a ^ b) << 16
  {
    Halves(xs, 8);
    FeedConcat(a, xs[..8], xs[8..]);
    FeedConcat(b, xs[..8], xs[8..]);
    Spread8(a, b, xs[..8]);
    Spread8(Feed(a, xs[..8]), Feed(b, xs[..8]), xs[8..]);
  }

  /** After 32 elements every bit of the starting mask has been shifted out: the result no
      longer depends on where the fold started. */
  lemma FeedForgetsStart(a: bv32, b: bv32, xs: seq<bv32>)
    requires |xs| >= 32
    ensures Feed(a, xs) == Feed(b, xs)
  {
    var k := |xs| - 32;
    var head, last32 := xs[..k], xs[k..];
    assert xs == head + last32;
    FeedConcat(a, head, last32);
    FeedConcat(b, head, last32);
    var p, q := Feed(a, head), Feed(b, head);
    Halves(last32, 16);
    FeedConcat(p, last32[..16], last32[16..]);
    FeedConcat(q, last32[..16], last32[16..]);
    Spread16(p, q, last32[..16]);
    Spread16(Feed(p, last32[..16]), Feed(q, last32[..16]), last32[16..]);
  }
}
