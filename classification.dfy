/**
 * The labelling rule applied to the risk model's score: a score above the
 * threshold is an anomaly.  The score itself comes from the trained model
 * and is a parameter here.
 */
module Classification {
  datatype Label = Anomaly | Normal

  const Threshold: real := 0.5

  function Classify(score: real): (l: Label)
    ensures l == Anomaly <==> score > Threshold
  {
    if score > Threshold then Anomaly else Normal
  }

  /** Raising the score never turns an anomaly into a normal event. */
  lemma ClassifyMonotone(lo: real, hi: real)
    requires lo <= hi
    ensures Classify(lo) == Anomaly ==> Classify(hi) == Anomaly
    ensures Classify(hi) == Normal ==> Classify(lo) == Normal
  {
  }

  /** The threshold itself is normal: the comparison is strict. */
  lemma ThresholdIsNormal()
    ensures Classify(Threshold) == Normal
    ensures Classify(0.51) == Anomaly
  {
  }
}
