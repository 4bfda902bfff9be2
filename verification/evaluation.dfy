/**
 The positional train/test split and the held-out accuracy count.
 */
module Evaluation {

  /** The train fraction, 7/10, as an exact rational. */
  const SplitRatio: real := 0.7

  /** The number of training rows out of `n`: the floor of `n * 0.7`. */
  function TrainSize(n: nat): (k: nat)
    ensures k as real <= n as real * SplitRatio < k as real + 1.0
    ensures k <= n
    // a non-empty dataset always leaves at least one row to test on
    ensures n > 0 ==> k < n
  {
    (n as real * SplitRatio).Floor
  }

  /**
   Split `xs` by position: the training part is the first `TrainSize(|xs|)`
   elements, the test part is the rest; nothing is reordered or dropped.
   */
  function Split<T>(xs: seq<T>): (parts: (seq<T>, seq<T>))
    ensures |parts.0| == TrainSize(|xs|)
    ensures |parts.0| + |parts.1| == |xs|
    ensures parts.0 + parts.1 == xs
  {
    var k := TrainSize(|xs|);
    assert xs[..k] + xs[k..] == xs;
    (xs[..k], xs[k..])
  }

  /** The positions, among the pairs the two sequences share, where prediction and label agree. */
  ghost function Matches(preds: seq<nat>, labels: seq<nat>, n: nat): set<nat>
  {
    set i: nat | i < n && i < |preds| && i < |labels| && preds[i] == labels[i]
  }

  /**
   Count the correct predictions over the test labels, pairing them
   position by position (pairs beyond the shorter sequence are ignored).
   Returns the count and the number of test labels.
   */
  method CountCorrect(preds: seq<nat>, labels: seq<nat>) returns (correct: nat, total: nat)
    ensures total == |labels|
    ensures correct == |Matches(preds, labels, |labels|)|
    ensures correct <= total && correct <= |preds|
    // every prediction is right exactly when the two sequences agree
    ensures |preds| == |labels| ==> (correct == total <==> preds == labels)
  {
    var n := if |preds| < |labels| then |preds| else |labels|;
    correct := 0;
    var i := 0;
    while i < n
      invariant i <= n
      invariant correct == |Matches(preds, labels, i)|
      invariant correct <= i
      invariant correct == i <==> forall j | 0 <= j < i :: preds[j] == labels[j]
    {
      if preds[i] == labels[i] {
        assert Matches(preds, labels, i + 1) == Matches(preds, labels, i) + {i};
        correct := correct + 1;
      } else {
        assert Matches(preds, labels, i + 1) == Matches(preds, labels, i);
      }
      i := i + 1;
    }
    assert Matches(preds, labels, |labels|) == Matches(preds, labels, n);
    total := |labels|;
  }
}
