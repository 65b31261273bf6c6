/**
 * The normaliser: every weight of a result file is divided by its pair's
 * global maximum, and the normalised rows can be sorted into four
 * outlier tiers.
 */
module Normalize {
  import opened Wrappers
  import opened Records

  /** The outlier files `gt_8`, `gt_6`, `gt_4` and `gt_2`. */
  datatype Tier = Gt8 | Gt6 | Gt4 | Gt2

  /**
   * The tier of a normalised value, thresholds tried highest first; `None`
   * for a value that is no outlier.
   */
  function TierOf(v: real): (t: Option<Tier>)
    ensures t == Some(Gt8) <==> v > 0.8
    ensures t == Some(Gt6) <==> 0.6 < v <= 0.8
    ensures t == Some(Gt4) <==> 0.4 < v <= 0.6
    ensures t == Some(Gt2) <==> 0.2 < v <= 0.4
    ensures t == None <==> v <= 0.2
  {
    if v > 0.8 then Some(Gt8)
    else if v > 0.6 then Some(Gt6)
    else if v > 0.4 then Some(Gt4)
    else if v > 0.2 then Some(Gt2)
    else None
  }

  /** The rows of one tier, in file order. */
  function TierRows(rows: seq<OutRow>, t: Tier): (tier: seq<OutRow>)
    ensures |tier| <= |rows|
    ensures forall x :: x in tier ==> x in rows && TierOf(x.rf) == Some(t)
  {
    if rows == [] then []
    else
      var n := |rows|;
      TierRows(rows[..n - 1], t) + (if TierOf(rows[n - 1].rf) == Some(t) then [rows[n - 1]] else [])
  }

  /** The rows whose normalised value exceeds 0.2, in file order. */
  function Outliers(rows: seq<OutRow>): seq<OutRow>
  {
    if rows == [] then []
    else
      var n := |rows|;
      Outliers(rows[..n - 1]) + (if rows[n - 1].rf > 0.2 then [rows[n - 1]] else [])
  }

  /** The four lists `outlier_groups` holds after the main pass. */
  datatype OutlierGroups = OutlierGroups(gt8: seq<OutRow>, gt6: seq<OutRow>, gt4: seq<OutRow>, gt2: seq<OutRow>)

  function Groups(rows: seq<OutRow>): OutlierGroups
  {
    OutlierGroups(TierRows(rows, Gt8), TierRows(rows, Gt6), TierRows(rows, Gt4), TierRows(rows, Gt2))
  }

  /** A row with its last field, the weight, divided by `globalMax`. */
  function Scaled(row: OutRow, globalMax: real): (r: OutRow)
    requires globalMax != 0.0
    ensures r.pos == row.pos && r.ref == row.ref && r.alt == row.alt
    ensures r.rf * globalMax == row.rf
  {
    row.(rf := row.rf / globalMax)
  }

  /** `normalize_file` leaves a file alone when the scale is 0 or 1. */
  predicate IsNoOp(globalMax: real)
  {
    globalMax == 0.0 || globalMax == 1.0
  }

  /**
   * `normalize_file((filename, global_max))`: the file's new content and,
   * when outlier output is enabled, the tier lists written beside it.
   */
  method NormalizeFile(file: Table, globalMax: real, outliersEnabled: bool)
    returns (result: Table, groups: Option<OutlierGroups>)
    ensures IsNoOp(globalMax) ==> result == file && groups == None
    ensures !IsNoOp(globalMax) ==>
              && result.header == file.header
              && |result.rows| == |file.rows|
              && (forall i :: 0 <= i < |file.rows| ==> result.rows[i] == Scaled(file.rows[i], globalMax))
              && groups == (if outliersEnabled then Some(Groups(result.rows)) else None)
  {
    if globalMax == 0.0 || globalMax == 1.0 {
      return file, None;
    }
    var header := file.header;
    var rows: seq<OutRow> := [];
    var gt8, gt6, gt4, gt2 := [], [], [], [];
    for i := 0 to |file.rows|
      invariant |rows| == i
      invariant forall j :: 0 <= j < i ==> rows[j] == Scaled(file.rows[j], globalMax)
      invariant outliersEnabled ==> OutlierGroups(gt8, gt6, gt4, gt2) == Groups(rows)
    {
      var row := file.rows[i];
      row := row.(rf := row.rf / globalMax);
      if outliersEnabled {
        var outEntry := row;
        if row.rf > 0.8 {
          gt8 := gt8 + [outEntry];
        } else if row.rf > 0.6 {
          gt6 := gt6 + [outEntry];
        } else if row.rf > 0.4 {
          gt4 := gt4 + [outEntry];
        } else if row.rf > 0.2 {
          gt2 := gt2 + [outEntry];
        }
      }
      assert (rows + [row])[..i] == rows;
      rows := rows + [row];
    }
    result := Table(header, rows);
    groups := if outliersEnabled then Some(OutlierGroups(gt8, gt6, gt4, gt2)) else None;
  }

  /** Each tier list keeps file order: tiering distributes over concatenation. */
  lemma {:induction false} TierRowsAppend(a: seq<OutRow>, b: seq<OutRow>, t: Tier)
    ensures TierRows(a + b, t) == TierRows(a, t) + TierRows(b, t)
  {
    if b == [] {
      assert a + b == a;
    } else {
      var n := |b|;
      assert (a + b)[..|a + b| - 1] == a + b[..n - 1];
      assert (a + b)[|a + b| - 1] == b[n - 1];
      TierRowsAppend(a, b[..n - 1], t);
    }
  }

  /** A row is in a tier list exactly when it is a row of the file in that tier. */
  lemma {:induction false} TierRowsMembership(rows: seq<OutRow>, t: Tier, row: OutRow)
    ensures row in TierRows(rows, t) <==> row in rows && TierOf(row.rf) == Some(t)
  {
    if rows != [] {
      var n := |rows|;
      TierRowsMembership(rows[..n - 1], t, row);
      assert rows == rows[..n - 1] + [rows[n - 1]];
    }
  }

  /**
   * The tiers partition the outliers: together the four lists hold every
   * row above 0.2, each exactly once, and nothing else.
   */
  lemma {:induction false} TiersPartitionOutliers(rows: seq<OutRow>)
    ensures multiset(TierRows(rows, Gt8)) + multiset(TierRows(rows, Gt6))
          + multiset(TierRows(rows, Gt4)) + multiset(TierRows(rows, Gt2))
         == multiset(Outliers(rows))
  {
    if rows != [] {
      var n := |rows|;
      TiersPartitionOutliers(rows[..n - 1]);
      var v := rows[n - 1].rf;
      assert v > 0.2 <==> TierOf(v).Some?;
    }
  }

  /** The tiers are mutually exclusive: no row of the file is in two of them. */
  lemma TiersDisjoint(rows: seq<OutRow>, t1: Tier, t2: Tier, row: OutRow)
    requires t1 != t2
    ensures !(row in TierRows(rows, t1) && row in TierRows(rows, t2))
  {
    TierRowsMembership(rows, t1, row);
    TierRowsMembership(rows, t2, row);
  }

  /**
   * Dividing by a positive scale that bounds every weight gives values at
   * most 1, non-negative weights stay non-negative, and a weight equal to
   * the scale becomes exactly 1.
   */
  lemma ScaledByBound(row: OutRow, globalMax: real)
    requires globalMax > 0.0 && row.rf <= globalMax
    ensures Scaled(row, globalMax).rf <= 1.0
    ensures row.rf >= 0.0 ==> Scaled(row, globalMax).rf >= 0.0
    ensures row.rf == globalMax ==> Scaled(row, globalMax).rf == 1.0
  {
    if row.rf == globalMax {
      assert row.rf / globalMax == globalMax / globalMax == 1.0;
    }
  }

  /** Normalising with 8.333 a row whose weight is 8.333 gives RF 1. */
  lemma ScenarioNormalized()
    ensures Scaled(OutRow(100, "A", "T", 25.0 / 3.0), 25.0 / 3.0).rf == 1.0
  {
  }
}
