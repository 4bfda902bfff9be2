/**
 The fraud-prediction run: encode the transactions, split them by position,
 fit the classifier once per iteration count from 1 to 10 (keeping only the
 last fit), predict the test rows and count the correct predictions.

 The classifier is not modelled: `fit` stands for fitting a logistic
 regression limited to a given number of iterations (`None` when the fit
 fails) and `predict` for applying a fitted model to feature rows. Both are
 deterministic functions of their arguments.
 */
module FraudPrediction {
  import opened Transactions
  import opened FeatureEncoding
  import opened Evaluation

  /** The largest iteration count, and the one the final model is fitted with. */
  const MaxIterations: nat := 10

  /** The split feature rows and labels. */
  datatype Partition = Partition(
    trainFeatures: seq<seq<real>>, trainLabels: seq<nat>,
    testFeatures: seq<seq<real>>, testLabels: seq<nat>)

  /** Split rows and labels at the same position. */
  function PartitionDataset(d: Dataset): (p: Partition)
    requires |d.features| == |d.labels|
    ensures |p.trainFeatures| == |p.trainLabels| == TrainSize(|d.labels|)
    ensures |p.testFeatures| == |p.testLabels| == |d.labels| - TrainSize(|d.labels|)
    ensures p.trainFeatures + p.testFeatures == d.features
    ensures p.trainLabels + p.testLabels == d.labels
  {
    var (xTrain, xTest) := Split(d.features);
    var (yTrain, yTest) := Split(d.labels);
    Partition(xTrain, yTrain, xTest, yTest)
  }

  /** The train/test partition of the encoded transactions. */
  function PartitionOf(rs: seq<Transaction>): (p: Partition)
    ensures |p.trainFeatures| == |p.trainLabels| == TrainSize(|rs|)
    ensures |p.testFeatures| == |p.testLabels| == |rs| - TrainSize(|rs|)
  {
    PartitionDataset(EncodeDataset(rs))
  }

  /** How a run ends. */
  datatype Outcome =
    | NoData                                        // nothing to train on; no fit is attempted
    | FitPanicked(iterations: nat)                  // the fit with this iteration count failed and was unwrapped
    | Scored(trainSize: nat, correct: nat, total: nat)  // held-out accuracy is correct / total

  /**
   The training loop and the scoring: fit with 1, 2, ..., 10 iterations,
   unwrapping each fit and keeping none of them; refit with 10 iterations,
   predict the test rows and count the correct predictions.
   */
  method TrainAndScore<M>(
    p: Partition,
    fit: (seq<seq<real>>, seq<nat>, nat) -> Option<M>,
    predict: (M, seq<seq<real>>) -> seq<nat>)
    returns (outcome: Outcome)
    ensures !outcome.NoData?
    // the run stops at the first iteration count whose fit fails
    ensures outcome.FitPanicked? ==>
      && 1 <= outcome.iterations <= MaxIterations
      && fit(p.trainFeatures, p.trainLabels, outcome.iterations).None?
      && forall e | 1 <= e < outcome.iterations :: fit(p.trainFeatures, p.trainLabels, e).Some?
    // it is scored exactly when every fit succeeds
    ensures outcome.Scored? <==> forall e | 1 <= e <= MaxIterations :: fit(p.trainFeatures, p.trainLabels, e).Some?
    // the score covers the whole test part and is at most 1
    ensures outcome.Scored? ==>
      && outcome.trainSize == |p.trainFeatures|
      && outcome.total == |p.testLabels|
      && outcome.correct <= outcome.total
      && fit(p.trainFeatures, p.trainLabels, MaxIterations).Some?
      && outcome.correct == |Matches(predict(fit(p.trainFeatures, p.trainLabels, MaxIterations).value,
           p.testFeatures), p.testLabels, |p.testLabels|)|
  {
    var xs, ys := p.trainFeatures, p.trainLabels;
    var iter := 1;
    while iter <= MaxIterations
      invariant 1 <= iter <= MaxIterations + 1
      invariant forall e | 1 <= e < iter :: fit(xs, ys, e).Some?
    {
      var fitted := fit(xs, ys, iter);
      if fitted.None? {
        return FitPanicked(iter);
      }
      iter := iter + 1;
    }
    // the final fit repeats the loop's last one, so it cannot fail here
    var model := fit(xs, ys, MaxIterations).value;
    var preds := predict(model, p.testFeatures);
    var correct, total := CountCorrect(preds, p.testLabels);
    return Scored(|xs|, correct, total);
  }

  /**
   The whole run over the rows of the input file: the rows that deserialise
   become the records, and an empty record list stops the run before any fit.
   */
  method RunFraudPrediction<M>(
    rows: seq<Option<Transaction>>,
    fit: (seq<seq<real>>, seq<nat>, nat) -> Option<M>,
    predict: (M, seq<seq<real>>) -> seq<nat>)
    returns (outcome: Outcome)
    // no usable record stops the run before any fit
    ensures outcome == NoData <==> forall i | 0 <= i < |rows| :: rows[i].None?
    // the run stops at the first iteration count whose fit fails
    ensures outcome.FitPanicked? ==>
      var p := PartitionOf(Parsed(rows));
      && 1 <= outcome.iterations <= MaxIterations
      && fit(p.trainFeatures, p.trainLabels, outcome.iterations).None?
      && forall e | 1 <= e < outcome.iterations :: fit(p.trainFeatures, p.trainLabels, e).Some?
    // it is scored exactly when some record exists and every fit succeeds
    ensures outcome.Scored? <==> |Parsed(rows)| > 0 && forall e | 1 <= e <= MaxIterations ::
        fit(PartitionOf(Parsed(rows)).trainFeatures, PartitionOf(Parsed(rows)).trainLabels, e).Some?
    // the training part is the first floor(0.7 n) records; the test part, the rest, is never empty
    ensures outcome.Scored? ==>
      var n := |Parsed(rows)|;
      var p := PartitionOf(Parsed(rows));
      && outcome.trainSize == TrainSize(n)
      && outcome.total == n - outcome.trainSize
      && 0 < outcome.total
      && outcome.correct <= outcome.total
      && fit(p.trainFeatures, p.trainLabels, MaxIterations).Some?
      && outcome.correct == |Matches(predict(fit(p.trainFeatures, p.trainLabels, MaxIterations).value,
           p.testFeatures), p.testLabels, |p.testLabels|)|
  {
    var records := Parsed(rows);
    if |records| == 0 {
      return NoData;
    }
    outcome := TrainAndScore(PartitionOf(records), fit, predict);
  }
}
