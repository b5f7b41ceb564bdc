/**
 * Flag bookkeeping around the local-outlier-factor test: the `lof` partition of
 * the present values into OUTLIER and NOT_OUTLIER, the 0/2 flag built from it
 * for all data at once or for daytime and nighttime separately, the outlier count
 * and the CLEANED series. The density estimate itself is an abstract predictor.
 */
module LocalOutlierFactor {
  import opened Wrappers
  import opened TimeSeries

  /**
   * `LocalOutlierFactor(n_neighbors, contamination, ...).fit_predict`: one label per
   * sample, in sample order; -1 marks an outlier, any other label an inlier.
   */
  type Predictor = seq<real> -> seq<int>

  /** The estimator labels every sample it is given. */
  ghost predicate LabelsEverySample(predict: Predictor) {
    forall xs :: |predict(xs)| == |xs|
  }

  /** The frame returned by `lof`: columns SERIES, OUTLIER and NOT_OUTLIER on the index `index`. */
  datatype LofFrame = LofFrame(index: seq<nat>, series: seq<real>, outlier: seq<Option<real>>, notOutlier: seq<Option<real>>)
  {
    ghost predicate Aligned() {
      |series| == |index| && |outlier| == |index| && |notOutlier| == |index|
    }
  }

  /** The timestamps on which the estimator, run on the present values of `s`, returns -1. */
  function OutlierSet(s: Series, predict: Predictor): set<nat>
    requires LabelsEverySample(predict)
  {
    var ix := PresentPositions(s);
    var labels := predict(PresentValues(s));
    set k | 0 <= k < |ix| && labels[k] == -1 :: ix[k]
  }

  /** `column.dropna().index` for a column of the frame. */
  function DropnaIndex(index: seq<nat>, column: seq<Option<real>>): set<nat>
    requires |column| == |index|
  {
    set k | 0 <= k < |index| && column[k].Some? :: index[k]
  }

  /**
   * `lof`: works on the present values only. Its index is exactly the non-missing
   * timestamps, ascending; SERIES carries their values unchanged; at each of them
   * exactly one of OUTLIER and NOT_OUTLIER is defined, equal to SERIES there, and
   * OUTLIER is the one defined exactly where the estimator returned -1.
   */
  function Lof(s: Series, predict: Predictor): (df: LofFrame)
    requires LabelsEverySample(predict)
    ensures df.Aligned() && df.index == PresentPositions(s)
    ensures |predict(PresentValues(s))| == |df.index|
    ensures forall i :: i in df.index <==> i in PresentSet(s)
    ensures forall k, l :: 0 <= k < l < |df.index| ==> df.index[k] < df.index[l]
    ensures forall k :: 0 <= k < |df.index| ==> s[df.index[k]] == Some(df.series[k])
    ensures forall k :: 0 <= k < |df.index| ==>
              && df.outlier[k].Some? != df.notOutlier[k].Some?
              && (df.outlier[k].Some? ==> df.outlier[k].value == df.series[k])
              && (df.notOutlier[k].Some? ==> df.notOutlier[k].value == df.series[k])
    ensures forall k :: 0 <= k < |df.index| ==>
              (df.outlier[k].Some? <==> predict(PresentValues(s))[k] == -1)
  {
    var ix := PresentPositions(s);
    var vals := PresentValues(s);
    var labels := predict(vals);
    var outliers := seq(|ix|, k requires 0 <= k < |ix| => if labels[k] == -1 then Some(vals[k]) else None);
    var notOutliers := seq(|ix|, k requires 0 <= k < |ix| => if outliers[k].Some? then None else Some(vals[k]));
    LofFrame(ix, vals, outliers, notOutliers)
  }

  /**
   * The two dropna indexes of the `lof` frame partition the present timestamps,
   * and the OUTLIER one is precisely the set the estimator labelled -1.
   */
  lemma LofPartition(s: Series, predict: Predictor)
    requires LabelsEverySample(predict)
    ensures var df := Lof(s, predict);
            && DropnaIndex(df.index, df.outlier) == OutlierSet(s, predict)
            && DropnaIndex(df.index, df.notOutlier) == PresentSet(s) - OutlierSet(s, predict)
  {
    var df := Lof(s, predict);
    var ix := df.index;
    var outliers := DropnaIndex(ix, df.outlier);
    var inliers := DropnaIndex(ix, df.notOutlier);
    var labelled := OutlierSet(s, predict);
    assert outliers == labelled;
    forall i | i in inliers
      ensures i in PresentSet(s) - labelled
    {
      var k :| 0 <= k < |ix| && df.notOutlier[k].Some? && ix[k] == i;
      assert forall k' :: 0 <= k' < |ix| && ix[k'] == i ==> k' == k;
    }
    forall i | i in PresentSet(s) - labelled
      ensures i in inliers
    {
      var k :| 0 <= k < |ix| && ix[k] == i;
      assert df.notOutlier[k].Some?;
    }
  }

  /**
   * `flag.loc[ok] = 0; flag.loc[rejected] = 2` with ok and rejected the NOT_OUTLIER and
   * OUTLIER indexes of `lof(s)`: every present timestamp of `s` gets its verdict, 2 where
   * the estimator said -1 and 0 otherwise; every other timestamp keeps its flag.
   */
  function LofFlag(base: Flag, s: Series, predict: Predictor): (flag: Flag)
    requires |base| == |s|
    requires LabelsEverySample(predict)
    ensures |flag| == |s|
    ensures forall i :: 0 <= i < |s| ==>
              flag[i] == (if s[i].None? then base[i]
                          else if i in OutlierSet(s, predict) then Some(2) else Some(0))
  {
    var df := Lof(s, predict);
    LofPartition(s, predict);
    Overlay(Overlay(base, DropnaIndex(df.index, df.notOutlier), 0), DropnaIndex(df.index, df.outlier), 2)
  }

  /** What `_flagtests` returns and records: the flag, CLEANED, n_outliers and the ok / rejected indexes. */
  datatype FlagTestResult = FlagTestResult(flag: Flag, cleaned: Series, nOutliers: nat, ok: set<nat>, rejected: set<nat>)

  /**
   * The common tail of both `_flagtests`: CLEANED is the filtered series with every
   * timestamp whose flag is above 0 set missing; n_outliers counts the flags equal to
   * 2; ok and rejected are re-derived from the flag, so they are disjoint.
   */
  function Summarize(filtered: Series, flag: Flag): (r: FlagTestResult)
    requires |flag| == |filtered|
    ensures r.flag == flag
    ensures r.ok == FlagPositions(flag, 0) && r.rejected == FlagPositions(flag, 2)
    ensures r.ok !! r.rejected
    ensures r.nOutliers == |r.rejected|
    ensures |r.cleaned| == |filtered|
    ensures forall i :: 0 <= i < |filtered| ==>
              r.cleaned[i] == (if flag[i].Some? && flag[i].value > 0 then None else filtered[i])
  {
    CountFlagIsCardinality(flag, 2);
    FlagTestResult(flag, SetMissing(filtered, Exceeding(flag, 0)), CountFlag(flag, 2),
                   FlagPositions(flag, 0), FlagPositions(flag, 2))
  }

  /**
   * `LocalOutlierFactorAllData._flagtests`: the flag starts missing everywhere, then
   * is 0 on the NOT_OUTLIER timestamps and 2 on the OUTLIER ones. So it is missing
   * exactly where the value is missing, 2 exactly where the estimator said -1 and 0
   * on every other present value; ok and rejected partition the present timestamps.
   */
  function FlagTestsAllData(filtered: Series, predict: Predictor): (r: FlagTestResult)
    requires LabelsEverySample(predict)
    ensures |r.flag| == |filtered|
    ensures forall i :: 0 <= i < |filtered| ==>
              && (r.flag[i].None? <==> filtered[i].None?)
              && (r.flag[i] == Some(2) <==> i in OutlierSet(filtered, predict))
              && (r.flag[i] == Some(0) <==> filtered[i].Some? && i !in OutlierSet(filtered, predict))
    ensures r.rejected == OutlierSet(filtered, predict)
    ensures r.ok + r.rejected == PresentSet(filtered) && r.ok !! r.rejected
    ensures r.nOutliers == |r.rejected|
    ensures |r.cleaned| == |filtered|
    ensures forall i :: 0 <= i < |filtered| ==>
              r.cleaned[i] == (if i in r.rejected then None else filtered[i])
  {
    var flag := LofFlag(AllMissing(|filtered|), filtered, predict);
    Summarize(filtered, flag)
  }

  /**
   * `series[mask]`, kept on the full index: the selected timestamps keep their
   * values and the others count as missing. `lof` drops missing values, so this
   * hands it the same samples as `Filter` (see `SelectFeedsLofLikeFilter`).
   */
  function Select(s: Series, mask: seq<bool>): (r: Series)
    requires |mask| == |s|
    ensures |r| == |s|
    ensures forall i :: 0 <= i < |s| ==> r[i] == (if mask[i] then s[i] else None)
  {
    seq(|s|, i requires 0 <= i < |s| => if mask[i] then s[i] else None)
  }

  /** `series[mask]` as pandas computes it: the unselected rows are dropped. */
  function Filter(s: Series, mask: seq<bool>): (r: Series)
    requires |mask| == |s|
    ensures |r| <= |s|
  {
    if |s| == 0 then []
    else Filter(s[..|s| - 1], mask[..|s| - 1]) + (if mask[|s| - 1] then [s[|s| - 1]] else [])
  }

  /**
   * Masking to missing instead of dropping rows changes nothing for `lof`: the
   * present values, which are all the estimator sees, are the same samples in
   * the same order.
   */
  lemma {:induction false} SelectFeedsLofLikeFilter(s: Series, mask: seq<bool>)
    requires |mask| == |s|
    ensures PresentValues(Select(s, mask)) == PresentValues(Filter(s, mask))
  {
    if |s| > 0 {
      var n := |s| - 1;
      var sel := Select(s, mask);
      var front := Filter(s[..n], mask[..n]);
      assert sel[..n] == Select(s[..n], mask[..n]);
      SelectFeedsLofLikeFilter(s[..n], mask[..n]);
      PresentValuesSnoc(sel);
      assert PresentValues(sel) == PresentValues(front) + (if sel[n].Some? then [sel[n].value] else []);
      if mask[n] {
        var f := front + [s[n]];
        assert Filter(s, mask) == f;
        assert f[..|f| - 1] == front;
        PresentValuesSnoc(f);
      } else {
        assert Filter(s, mask) == front;
      }
    }
  }

  /**
   * The flag of the day/night variant: missing everywhere, then the daytime verdicts,
   * then the nighttime verdicts, each from its own `lof` run on its own subset.
   */
  function DayNightFlag(filtered: Series, isDaytime: seq<bool>, isNighttime: seq<bool>,
                        predict: Predictor): (flag: Flag)
    requires |isDaytime| == |filtered| && |isNighttime| == |filtered|
    requires LabelsEverySample(predict)
    ensures |flag| == |filtered|
    ensures forall i :: 0 <= i < |filtered| ==>
              flag[i] == (if filtered[i].None? || (!isDaytime[i] && !isNighttime[i]) then None
                          else if isNighttime[i] then
                            (if i in OutlierSet(Select(filtered, isNighttime), predict) then Some(2) else Some(0))
                          else
                            (if i in OutlierSet(Select(filtered, isDaytime), predict) then Some(2) else Some(0)))
  {
    var flag := AllMissing(|filtered|);
    var flag := LofFlag(flag, Select(filtered, isDaytime), predict);
    LofFlag(flag, Select(filtered, isNighttime), predict)
  }

  /**
   * `LocalOutlierFactorDaytimeNighttime._flagtests`: the daytime and the nighttime
   * subsets are tested separately, each exactly as the all-data test would test it,
   * and their flags are written daytime first, nighttime second. So a nighttime
   * timestamp carries the nighttime verdict even if it is also daytime, a daytime-only
   * timestamp the daytime verdict, and a timestamp in neither subset stays missing.
   */
  function FlagTestsDayNight(filtered: Series, isDaytime: seq<bool>, isNighttime: seq<bool>,
                             predict: Predictor): (r: FlagTestResult)
    requires |isDaytime| == |filtered| && |isNighttime| == |filtered|
    requires LabelsEverySample(predict)
    ensures |r.flag| == |filtered|
    ensures forall i :: 0 <= i < |filtered| && isNighttime[i] ==>
              r.flag[i] == FlagTestsAllData(Select(filtered, isNighttime), predict).flag[i]
    ensures forall i :: 0 <= i < |filtered| && isDaytime[i] && !isNighttime[i] ==>
              r.flag[i] == FlagTestsAllData(Select(filtered, isDaytime), predict).flag[i]
    ensures forall i :: 0 <= i < |filtered| && !isDaytime[i] && !isNighttime[i] ==> r.flag[i].None?
    ensures r.ok == FlagPositions(r.flag, 0) && r.rejected == FlagPositions(r.flag, 2)
    ensures r.ok !! r.rejected && r.ok + r.rejected <= PresentSet(filtered)
    ensures r.nOutliers == |r.rejected|
    ensures |r.cleaned| == |filtered|
    ensures forall i :: 0 <= i < |filtered| ==>
              r.cleaned[i] == (if i in r.rejected then None else filtered[i])
  {
    var flag := DayNightFlag(filtered, isDaytime, isNighttime, predict);
    DayNightMatchesSeparateRuns(filtered, isDaytime, isNighttime, predict);
    SummarizeZeroTwo(filtered, flag);
    Summarize(filtered, flag)
  }

  /** The flag is 0, 2 or missing, and missing wherever the value is. */
  ghost predicate ZeroTwoOnPresent(filtered: Series, flag: Flag)
    requires |flag| == |filtered|
  {
    forall i :: 0 <= i < |filtered| ==>
      (flag[i].None? || flag[i] == Some(0) || flag[i] == Some(2)) && (flag[i].Some? ==> filtered[i].Some?)
  }

  /** For a 0/2 flag on present values, ok and rejected are present timestamps and CLEANED removes exactly the rejected ones. */
  lemma SummarizeZeroTwo(filtered: Series, flag: Flag)
    requires |flag| == |filtered| && ZeroTwoOnPresent(filtered, flag)
    ensures var r := Summarize(filtered, flag);
            && r.ok + r.rejected <= PresentSet(filtered)
            && forall i :: 0 <= i < |filtered| ==> r.cleaned[i] == (if i in r.rejected then None else filtered[i])
  {
    var r := Summarize(filtered, flag);
    forall i | i in r.ok + r.rejected ensures i in PresentSet(filtered) {
      assert flag[i].Some?;
    }
  }

  /** Each timestamp of a subset carries the verdict the all-data test gives on that subset alone. */
  lemma DayNightMatchesSeparateRuns(filtered: Series, isDaytime: seq<bool>, isNighttime: seq<bool>,
                                    predict: Predictor)
    requires |isDaytime| == |filtered| && |isNighttime| == |filtered|
    requires LabelsEverySample(predict)
    ensures var flag := DayNightFlag(filtered, isDaytime, isNighttime, predict);
            && (forall i :: 0 <= i < |filtered| && isNighttime[i] ==>
                  flag[i] == FlagTestsAllData(Select(filtered, isNighttime), predict).flag[i])
            && (forall i :: 0 <= i < |filtered| && isDaytime[i] && !isNighttime[i] ==>
                  flag[i] == FlagTestsAllData(Select(filtered, isDaytime), predict).flag[i])
  {
    var flag := DayNightFlag(filtered, isDaytime, isNighttime, predict);
    var night := FlagTestsAllData(Select(filtered, isNighttime), predict);
    var day := FlagTestsAllData(Select(filtered, isDaytime), predict);
    forall i | 0 <= i < |filtered| && isNighttime[i] ensures flag[i] == night.flag[i] {
    }
    forall i | 0 <= i < |filtered| && isDaytime[i] && !isNighttime[i] ensures flag[i] == day.flag[i] {
    }
  }

  /**
   * The subsets are tested independently: two series that agree on every daytime
   * timestamp get the same verdict at every daytime-only timestamp, whatever their
   * nighttime values are.
   */
  lemma DaytimeVerdictIgnoresNighttime(a: Series, b: Series, isDaytime: seq<bool>, isNighttime: seq<bool>,
                                       predict: Predictor)
    requires |b| == |a| && |isDaytime| == |a| && |isNighttime| == |a|
    requires LabelsEverySample(predict)
    requires forall i :: 0 <= i < |a| && isDaytime[i] ==> a[i] == b[i]
    ensures forall i :: 0 <= i < |a| && isDaytime[i] && !isNighttime[i] ==>
              FlagTestsDayNight(a, isDaytime, isNighttime, predict).flag[i] ==
              FlagTestsDayNight(b, isDaytime, isNighttime, predict).flag[i]
  {
    assert Select(a, isDaytime) == Select(b, isDaytime);
  }
}
