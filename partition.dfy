/**
 * The partitioner: one task streams the variants of one chromosome for one
 * generation's samples and appends a count row per kept variant to the
 * bucket file `tmp.<chrom>.<gen>.csv`.
 */
module Partition {
  import opened Records

  /** The genotype tallies are consistent: called samples include every het and hom-alt one. */
  predicate ConsistentTallies(v: Variant)
  {
    v.numHet + v.numHomAlt <= v.numCalled
  }

  /**
   * `compute_counts`: the alternate-allele count and the number of called
   * alleles, two per called diploid sample.
   */
  function ComputeCounts(v: Variant): (counts: (int, int))
    ensures counts.0 >= 0 && counts.1 >= 0 && counts.1 % 2 == 0
    ensures counts.1 / 2 == v.numCalled
    ensures counts.0 == 0 <==> v.numHet == 0 && v.numHomAlt == 0
    ensures ConsistentTallies(v) ==> counts.0 <= counts.1
    ensures ConsistentTallies(v) ==> (counts.0 == counts.1 <==> v.numHomAlt == v.numCalled)
  {
    var total := v.numCalled * 2;
    var altCount := v.numHet + v.numHomAlt * 2;
    (altCount, total)
  }

  /** The two `continue`s of the loop: only SNPs that have an alternate allele are kept. */
  predicate Kept(v: Variant)
  {
    v.isSnp && |v.alts| > 0
  }

  /** The row written for a kept variant: its first alternate allele and its counts. */
  function RowOf(v: Variant): (row: BucketRow)
    requires Kept(v)
    ensures row.pos == v.pos && row.ref == v.ref && row.alt == v.alts[0] && row.alt in v.alts
    ensures row.total == 2 * v.numCalled && row.altCount >= 0 && row.total % 2 == 0
    ensures ConsistentTallies(v) ==> row.altCount <= row.total
  {
    var (altCount, total) := ComputeCounts(v);
    BucketRow(v.pos, v.ref, v.alts[0], altCount, total)
  }

  /** The rows one task appends for a stream of variants, in stream order. */
  function BucketRows(variants: seq<Variant>): (rows: seq<BucketRow>)
    ensures |rows| <= |variants|
  {
    if variants == [] then []
    else
      var n := |variants|;
      var last := variants[n - 1];
      BucketRows(variants[..n - 1]) + (if Kept(last) then [RowOf(last)] else [])
  }

  /**
   * The body of `filter_split_unit`: the bucket file is opened for append,
   * so the new rows follow whatever it already held.
   */
  method FilterSplitUnit(bucket: seq<BucketRow>, variants: seq<Variant>) returns (written: seq<BucketRow>)
    ensures written == bucket + BucketRows(variants)
  {
    written := bucket;
    for i := 0 to |variants|
      invariant written == bucket + BucketRows(variants[..i])
    {
      var variant := variants[i];
      assert variants[..i + 1][..i] == variants[..i];
      if !variant.isSnp { continue; }
      if |variant.alts| == 0 { continue; }
      var pos := variant.pos;
      var ref := variant.ref;
      var alt := variant.alts[0];
      var (altCount, total) := ComputeCounts(variant);
      written := written + [BucketRow(pos, ref, alt, altCount, total)];
    }
    assert variants[..|variants|] == variants;
  }

  /** Streams processed one after the other give the rows of each, in order. */
  lemma {:induction false} BucketRowsAppend(a: seq<Variant>, b: seq<Variant>)
    ensures BucketRows(a + b) == BucketRows(a) + BucketRows(b)
  {
    if b == [] {
      assert a + b == a;
    } else {
      var n := |b|;
      assert (a + b)[..|a + b| - 1] == a + b[..n - 1];
      assert (a + b)[|a + b| - 1] == b[n - 1];
      BucketRowsAppend(a, b[..n - 1]);
    }
  }

  /** A row is written exactly when some kept variant produces it. */
  lemma {:induction false} BucketRowsMembership(variants: seq<Variant>, row: BucketRow)
    ensures row in BucketRows(variants) <==>
              exists i :: 0 <= i < |variants| && Kept(variants[i]) && RowOf(variants[i]) == row
  {
    if variants != [] {
      var n := |variants|;
      var prefix, last := variants[..n - 1], variants[n - 1];
      var tail := if Kept(last) then [RowOf(last)] else [];
      assert BucketRows(variants) == BucketRows(prefix) + tail;
      BucketRowsMembership(prefix, row);
      if row in BucketRows(variants) {
        if row in BucketRows(prefix) {
          var i :| 0 <= i < |prefix| && Kept(prefix[i]) && RowOf(prefix[i]) == row;
          assert variants[i] == prefix[i];
        } else {
          assert row in tail;
          assert variants[n - 1] == last;
        }
      } else {
        forall i | 0 <= i < |variants|
          ensures !(Kept(variants[i]) && RowOf(variants[i]) == row)
        {
          if i < n - 1 {
            assert variants[i] == prefix[i];
          }
        }
      }
    }
  }

  /** One row per kept variant, so never more rows than variants. */
  lemma {:induction false} BucketRowsLength(variants: seq<Variant>)
    ensures |BucketRows(variants)| <= |variants|
    ensures |BucketRows(variants)| == |variants| <==> forall i :: 0 <= i < |variants| ==> Kept(variants[i])
  {
    if variants != [] {
      var n := |variants|;
      var prefix := variants[..n - 1];
      BucketRowsLength(prefix);
      assert forall i :: 0 <= i < |prefix| ==> prefix[i] == variants[i];
    }
  }

  /**
   * Every written row has an even, non-negative total; its alternate count
   * is within the total when the tallies of its variant are consistent.
   */
  lemma {:induction false} BucketRowsWellFormed(variants: seq<Variant>)
    ensures forall r :: r in BucketRows(variants) ==> r.total >= 0 && r.total % 2 == 0 && r.altCount >= 0
    ensures (forall i :: 0 <= i < |variants| ==> ConsistentTallies(variants[i])) ==>
              forall r :: r in BucketRows(variants) ==> r.altCount <= r.total
  {
    forall r | r in BucketRows(variants)
      ensures r.total >= 0 && r.total % 2 == 0 && r.altCount >= 0
      ensures (forall i :: 0 <= i < |variants| ==> ConsistentTallies(variants[i])) ==> r.altCount <= r.total
    {
      BucketRowsMembership(variants, r);
    }
  }
}
