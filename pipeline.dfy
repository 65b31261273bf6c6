/**
 * How the stages meet: each merge task reports `(max_w, pair)`, the
 * aggregator keeps the largest per pair, and the normaliser divides by it.
 */
module Pipeline {
  import opened Records
  import PairMerge
  import MaxAggregate
  import Normalize

  /**
   * The scale a pair is normalised with bounds every weight of every
   * chromosome's result file for that pair, so normalised values never
   * exceed 1 once all merge results are aggregated.
   */
  lemma GlobalScaleBoundsRows(rows: seq<OutRow>, maxW: real, results: seq<(real, string)>,
                              scales: map<string, real>, pair: string, k: nat)
    requires PairMerge.IsRunningMax(maxW, rows)
    requires MaxAggregate.IsKeyedMax(results, scales)
    requires k < |results| && results[k] == (maxW, pair)
    ensures pair in scales && scales[pair] >= maxW >= 0.0
    ensures forall i :: 0 <= i < |rows| ==> rows[i].rf <= scales[pair]
    ensures scales[pair] > 0.0 ==>
              forall i :: 0 <= i < |rows| ==> Normalize.Scaled(rows[i], scales[pair]).rf <= 1.0
  {
  }
}
