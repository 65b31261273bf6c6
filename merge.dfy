/**
 * The pair merge-joiner: the bucket files of two generations of one
 * chromosome are consumed row by row, a relative-fitness weight is derived
 * for each pair of rows, and the largest weight is reported.
 */
module PairMerge {
  import opened Wrappers
  import opened Text
  import opened Records

  /** The frequency that stands in for generation 2 when it has no called allele. */
  const PseudoFrequency: real := 0.00000001

  /** `f1 = ac1 / total1 if total1 else 0`. */
  function Frequency1(altCount: int, total: int): (f: real)
    ensures total == 0 ==> f == 0.0
    ensures total != 0 ==> f * total as real == altCount as real
  {
    if total != 0 then altCount as real / total as real else 0.0
  }

  /** `f2 = ac2 / total2 if total2 else 1e-8`: generation 1's formula except for an empty total. */
  function Frequency2(altCount: int, total: int): (f: real)
    ensures total == 0 ==> f == PseudoFrequency
    ensures total != 0 ==> f == Frequency1(altCount, total)
  {
    if total != 0 then altCount as real / total as real else PseudoFrequency
  }

  /** A count within its total gives a frequency in [0, 1], the same for both generations. */
  lemma FrequencyInUnitInterval(altCount: int, total: int)
    requires 0 <= altCount <= total && total > 0
    ensures 0.0 <= Frequency1(altCount, total) <= 1.0
    ensures Frequency2(altCount, total) == Frequency1(altCount, total)
  {
  }

  /** `2·f1² − f1·f2²`. */
  function Denominator(f1: real, f2: real): real
  {
    2.0 * f1 * f1 - f1 * f2 * f2
  }

  /**
   * The weight `f2² / (2·f1² − f1·f2²)`, or 0 when `f1` is 0; `None` where
   * Python raises `ZeroDivisionError`. No clamping takes place.
   */
  function Weight(f1: real, f2: real): (w: Option<real>)
    ensures f1 == 0.0 ==> w == Some(0.0)
    ensures w.None? <==> f1 != 0.0 && Denominator(f1, f2) == 0.0
    ensures w.Some? && f1 != 0.0 ==> w.value * Denominator(f1, f2) == f2 * f2
  {
    if f1 != 0.0 then
      var d := Denominator(f1, f2);
      if d == 0.0 then None else Some(f2 * f2 / d)
    else Some(0.0)
  }

  /** The division by zero happens exactly when `f1 != 0` and `f2² = 2·f1`. */
  lemma WeightUndefinedIff(f1: real, f2: real)
    requires f1 != 0.0
    ensures Weight(f1, f2).None? <==> f2 * f2 == 2.0 * f1
  {
    var g := 2.0 * f1 - f2 * f2;
    assert Denominator(f1, f2) == f1 * g;
  }

  /** Nothing clamps the weight: it is negative whenever `f2² > 2·f1 > 0`. */
  lemma WeightNegative(f1: real, f2: real)
    requires f1 > 0.0 && f2 * f2 > 2.0 * f1
    ensures Weight(f1, f2).Some? && Weight(f1, f2).value < 0.0
  {
    var g := 2.0 * f1 - f2 * f2;
    assert Denominator(f1, f2) == f1 * g;
    assert f1 * g < 0.0;
    assert f2 * f2 / (f1 * g) < 0.0;
  }

  /**
   * The weight of row `r1` of generation 1 paired with row `r2` of
   * generation 2: 0 when generation 1 lacks the allele, and undefined
   * exactly when `f2² = 2·f1` for a non-zero `f1`.
   */
  function RowWeight(r1: BucketRow, r2: BucketRow): (w: Option<real>)
    ensures r1.altCount == 0 || r1.total == 0 ==> w == Some(0.0)
    ensures var f1, f2 := Frequency1(r1.altCount, r1.total), Frequency2(r2.altCount, r2.total);
            w.None? <==> f1 != 0.0 && f2 * f2 == 2.0 * f1
  {
    var f1 := Frequency1(r1.altCount, r1.total);
    var f2 := Frequency2(r2.altCount, r2.total);
    assert f1 != 0.0 ==> (Weight(f1, f2).None? <==> f2 * f2 == 2.0 * f1) by {
      if f1 != 0.0 { WeightUndefinedIff(f1, f2); }
    }
    Weight(f1, f2)
  }

  /** Generation 1 without the alternate allele, or without any called allele, gives weight 0. */
  lemma AbsentInGeneration1(r1: BucketRow, r2: BucketRow)
    requires r1.altCount == 0 || r1.total == 0
    ensures RowWeight(r1, r2) == Some(0.0)
  {
  }

  /** Frequencies 0.2 and 0.5 give the weight 0.25 / 0.03. */
  lemma ScenarioWeight()
    ensures RowWeight(BucketRow(100, "A", "T", 2, 10), BucketRow(100, "A", "T", 4, 8)) == Some(25.0 / 3.0)
  {
  }

  /** No called allele in generation 2: f2 = 1e-8, and the weight is small but not zero. */
  lemma PseudoFrequencyScenario()
    ensures RowWeight(BucketRow(100, "A", "T", 2, 10), BucketRow(100, "A", "T", 0, 0)).Some?
    ensures var w := RowWeight(BucketRow(100, "A", "T", 2, 10), BucketRow(100, "A", "T", 0, 0)).value;
            0.0 < w < 0.000000000000002
  {
  }

  /** Counts that the partitioner can write reach the division by zero: f1 = 0.5, f2 = 1. */
  lemma ZeroDenominatorReachable()
    ensures RowWeight(BucketRow(7, "C", "G", 1, 2), BucketRow(7, "C", "G", 2, 2)).None?
  {
  }

  /** Weights can be negative: f1 = 0.1, f2 = 0.9 makes the denominator negative. */
  lemma NegativeWeightReachable()
    ensures RowWeight(BucketRow(7, "C", "G", 1, 10), BucketRow(7, "C", "G", 9, 10)).Some?
    ensures RowWeight(BucketRow(7, "C", "G", 1, 10), BucketRow(7, "C", "G", 9, 10)).value < 0.0
  {
  }

  function Min(a: int, b: int): int
  {
    if a < b then a else b
  }

  /**
   * Row i of `rows` is row i of stream 1 with the weight of the i-th pair
   * of rows, and every such weight is defined.
   */
  predicate RowsFrom(rows: seq<OutRow>, s1: seq<BucketRow>, s2: seq<BucketRow>)
  {
    && |rows| <= |s1| && |rows| <= |s2|
    && forall i :: 0 <= i < |rows| ==>
         && RowWeight(s1[i], s2[i]).Some?
         && rows[i] == OutRow(s1[i].pos, s1[i].ref, s1[i].alt, RowWeight(s1[i], s2[i]).value)
  }

  /** `m` is what `max_w` holds after the rows: at least 0.0 and every weight, and attained unless 0. */
  predicate IsRunningMax(m: real, rows: seq<OutRow>)
  {
    && m >= 0.0
    && (forall i :: 0 <= i < |rows| ==> rows[i].rf <= m)
    && (m == 0.0 || exists i :: 0 <= i < |rows| && rows[i].rf == m)
  }

  /** What the loop of `process_pair` ends with: all rows, or the row that divided by zero. */
  datatype MergeOutcome =
    | Merged(rows: seq<OutRow>, maxW: real)
    | DivisionByZero(index: nat, written: seq<OutRow>)

  /**
   * The zip stops at the shorter stream; on success there is one row per
   * pair and the running maximum; on failure the first pair whose weight
   * divides by zero, and the rows written before it.
   */
  predicate MergeCorrect(s1: seq<BucketRow>, s2: seq<BucketRow>, o: MergeOutcome)
  {
    match o
    case Merged(rows, maxW) =>
      |rows| == Min(|s1|, |s2|) && RowsFrom(rows, s1, s2) && IsRunningMax(maxW, rows)
    case DivisionByZero(index, written) =>
      && index < |s1| && index < |s2|
      && RowWeight(s1[index], s2[index]).None?
      && |written| == index && RowsFrom(written, s1, s2)
  }

  /** The merge has a single correct outcome for any two streams. */
  lemma MergeCorrectUnique(s1: seq<BucketRow>, s2: seq<BucketRow>, o1: MergeOutcome, o2: MergeOutcome)
    requires MergeCorrect(s1, s2, o1) && MergeCorrect(s1, s2, o2)
    ensures o1 == o2
  {
  }

  /** The loop of `process_pair`: `zip` of the two streams, one weight per pair, `max_w` from 0.0. */
  method MergeRows(s1: seq<BucketRow>, s2: seq<BucketRow>) returns (o: MergeOutcome)
    ensures MergeCorrect(s1, s2, o)
  {
    var maxW := 0.0;
    var rows := [];
    var n := Min(|s1|, |s2|);
    for i := 0 to n
      invariant |rows| == i && RowsFrom(rows, s1, s2) && IsRunningMax(maxW, rows)
    {
      var r1, r2 := s1[i], s2[i];
      var f1 := Frequency1(r1.altCount, r1.total);
      var f2 := Frequency2(r2.altCount, r2.total);
      var weight := Weight(f1, f2);
      if weight.None? {
        return DivisionByZero(i, rows);
      }
      var w := weight.value;
      var row := OutRow(r1.pos, r1.ref, r1.alt, w);
      if w > maxW {
        maxW := w;
        assert (rows + [row])[i].rf == maxW;
      } else if maxW != 0.0 {
        var j :| 0 <= j < |rows| && rows[j].rf == maxW;
        assert (rows + [row])[j].rf == maxW;
      }
      rows := rows + [row];
    }
    return Merged(rows, maxW);
  }

  /** The bucket files present: `(chrom, gen)` to the rows of `tmp.<chrom>.<gen>.csv`. */
  type BucketFiles = map<(string, string), seq<BucketRow>>

  /** The exceptions `process_pair` lets escape. */
  datatype PairError =
    | MalformedPairId                        // `pair.split("_")` does not give two ids
    | MissingBucket(chrom: string, gen: string)  // a bucket file cannot be opened
    | ZeroDivision(index: nat, partial: Table)   // the result file as left behind

  /** The result file written and the pair `(max_w, pair)` returned. */
  datatype PairResult = PairResult(table: Table, maxW: real, pair: string)

  /** What `process_pair` reports once both bucket files are open. */
  predicate PairReport(s1: seq<BucketRow>, s2: seq<BucketRow>, pair: string, r: Result<PairResult, PairError>)
  {
    match r
    case Success(res) =>
      && res.pair == pair && res.table.header == ResultHeader
      && MergeCorrect(s1, s2, Merged(res.table.rows, res.maxW))
    case Failure(err) =>
      && err.ZeroDivision? && err.partial.header == ResultHeader
      && MergeCorrect(s1, s2, DivisionByZero(err.index, err.partial.rows))
  }

  /** `process_pair((chrom, pair, ...))`. */
  method ProcessPair(chrom: string, pair: string, buckets: BucketFiles) returns (r: Result<PairResult, PairError>)
    ensures |Split(pair, '_')| != 2 ==> r == Failure(MalformedPairId)
    ensures |Split(pair, '_')| == 2 ==>
              var gen1, gen2 := Split(pair, '_')[0], Split(pair, '_')[1];
              && ((chrom, gen1) !in buckets ==> r == Failure(MissingBucket(chrom, gen1)))
              && ((chrom, gen1) in buckets && (chrom, gen2) !in buckets ==> r == Failure(MissingBucket(chrom, gen2)))
              && ((chrom, gen1) in buckets && (chrom, gen2) in buckets ==>
                    PairReport(buckets[(chrom, gen1)], buckets[(chrom, gen2)], pair, r))
  {
    var ids := Split(pair, '_');
    if |ids| != 2 {
      return Failure(MalformedPairId);
    }
    var gen1, gen2 := ids[0], ids[1];
    if (chrom, gen1) !in buckets {
      return Failure(MissingBucket(chrom, gen1));
    }
    if (chrom, gen2) !in buckets {
      return Failure(MissingBucket(chrom, gen2));
    }
    var o := MergeRows(buckets[(chrom, gen1)], buckets[(chrom, gen2)]);
    match o
    case Merged(rows, maxW) =>
      r := Success(PairResult(Table(ResultHeader, rows), maxW, pair));
    case DivisionByZero(index, written) =>
      r := Failure(ZeroDivision(index, Table(ResultHeader, written)));
  }

  /** A pair id built from two ids without '_' splits back into them. */
  lemma PairIdSplits(gen1: string, gen2: string)
    requires '_' !in gen1 && '_' !in gen2
    ensures Split(gen1 + "_" + gen2, '_') == [gen1, gen2]
  {
    assert Join([gen1, gen2], '_') == gen1 + "_" + gen2;
    SplitJoin([gen1, gen2], '_');
  }
}
