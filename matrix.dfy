/**
 * Matrix assembly: the extractor is run over every image, rejected images
 * are dropped, and the surviving rows are stacked in input order.
 */
module Matrix {
  import opened Common
  import opened Timing

  /** The number of columns, read off the first row. */
  function Width(m: seq<seq<bool>>): nat
  {
    if |m| == 0 then 0 else |m[0]|
  }

  /** Every row has the same length, as a numpy matrix does. */
  predicate Rectangular(m: seq<seq<bool>>)
  {
    forall i :: 0 <= i < |m| ==> |m[i]| == Width(m)
  }

  /** Column `k`: entry `k` of every row, top to bottom (a row of the transposed matrix). */
  function Column(m: seq<seq<bool>>, k: nat): seq<bool>
    requires Rectangular(m) && k < Width(m)
  {
    seq(|m|, i requires 0 <= i < |m| => m[i][k])
  }

  /** The rows the extractor accepted, in input order. */
  function Survivors(results: seq<Option<seq<bool>>>): seq<seq<bool>>
  {
    if |results| == 0 then []
    else
      var last := results[|results| - 1];
      Survivors(results[..|results| - 1]) + (if last.Some? then [last.value] else [])
  }

  /** Filtering keeps order: the survivors of a concatenation are the concatenated survivors. */
  lemma {:induction false} SurvivorsAppend(xs: seq<Option<seq<bool>>>, ys: seq<Option<seq<bool>>>)
    ensures Survivors(xs + ys) == Survivors(xs) + Survivors(ys)
  {
    if |ys| > 0 {
      var init := ys[..|ys| - 1];
      assert (xs + ys)[..|xs + ys| - 1] == xs + init;
      SurvivorsAppend(xs, init);
    } else {
      assert xs + ys == xs;
    }
  }

  /** A row survives exactly when some result carries it. */
  lemma {:induction false} SurvivorsMembership(results: seq<Option<seq<bool>>>)
    ensures forall row :: row in Survivors(results) <==> Some(row) in results
  {
    if |results| > 0 {
      var init := results[..|results| - 1];
      SurvivorsMembership(init);
      assert results == init + [results[|results| - 1]];
    }
  }

  /** The worker pool's map: the extractor applied to every image, results in image order. */
  method ExtractAll(images: seq<seq<Frame>>) returns (results: seq<Option<seq<bool>>>)
    ensures |results| == |images|
    ensures forall i :: 0 <= i < |images| ==> results[i] == TimingArray(images[i])
  {
    results := [];
    for i := 0 to |images|
      invariant |results| == i
      invariant forall j :: 0 <= j < i ==> results[j] == TimingArray(images[j])
    {
      var row := GetTimingArray(images[i]);
      results := results + [row];
    }
  }

  /**
   * Stacking: the first surviving row starts the matrix and each later one is
   * appended. No survivor at all, or a row of another length, is an error.
   */
  method GetAllTimings(results: seq<Option<seq<bool>>>) returns (r: Result<seq<seq<bool>>>)
    ensures r.Ok? <==> |Survivors(results)| > 0 && Rectangular(Survivors(results))
    ensures r.Ok? ==> r.value == Survivors(results)
    ensures r.Err? ==> r.error == if |Survivors(results)| == 0 then NoValidImage else RowLengthMismatch
  {
    var na: seq<seq<bool>> := [];
    for i := 0 to |results|
      invariant na == Survivors(results[..i])
      invariant Rectangular(na)
    {
      assert results[..i + 1][..i] == results[..i];
      if results[i].Some? {
        var row := results[i].value;
        if |na| > 0 && |row| != |na[0]| {
          assert results == results[..i + 1] + results[i + 1..];
          SurvivorsAppend(results[..i + 1], results[i + 1..]);
          ghost var all := Survivors(results);
          assert all[0] == na[0] && all[|na|] == row;
          return Err(RowLengthMismatch);
        }
        na := na + [row];
      }
    }
    assert results[..|results|] == results;
    if |na| == 0 {
      return Err(NoValidImage);
    }
    return Ok(na);
  }

  /** When every frame of every image lasts a whole number of slots, all surviving rows have 49212 entries. */
  lemma QuantisedImagesGiveUniformRows(images: seq<seq<Frame>>, results: seq<Option<seq<bool>>>)
    requires |results| == |images|
    requires forall i :: 0 <= i < |images| ==> results[i] == TimingArray(images[i])
    requires forall i, j :: 0 <= i < |images| && 0 <= j < |images[i]| ==> images[i][j].duration % Quantum == 0
    ensures forall row :: row in Survivors(results) ==> |row| == SlotCount
    ensures Rectangular(Survivors(results))
  {
    SurvivorsMembership(results);
    forall row | row in Survivors(results) ensures |row| == SlotCount {
      var i :| 0 <= i < |results| && results[i] == Some(row);
      AcceptedLength(images[i]);
    }
  }
}
