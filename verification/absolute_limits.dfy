/**
 * Outlier test against absolute limits (class AbsoluteLimits): values outside
 * [min, max] are rejected (flag 2), all other present values are ok (flag 0).
 */
module AbsoluteLimits {
  import opened Wrappers
  import opened TimeSeries

  /** The "ok" index exactly as written: `(series >= min) | (series <= max)`, with OR. */
  function OkSet(s: Series, min: real, max: real): set<nat> {
    set i: nat | i < |s| && s[i].Some? && (s[i].value >= min || s[i].value <= max)
  }

  /** The "rejected" index: `(series < min) | (series > max)`. */
  function RejectedSet(s: Series, min: real, max: real): set<nat> {
    set i: nat | i < |s| && s[i].Some? && (s[i].value < min || s[i].value > max)
  }

  /** A value lies within the closed range [min, max]. */
  predicate Within(x: real, min: real, max: real) {
    min <= x <= max
  }

  /**
   * The two indexes returned by `_flagtests`. Whatever the limits, a missing
   * value is in neither and every present value is in at least one of them;
   * exactly the present values outside [min, max] are rejected. Because of the OR,
   * a present value is "ok" unless it lies strictly between max and min, which only
   * happens when the limits are swapped.
   */
  function FlagTests(s: Series, min: real, max: real): (r: (set<nat>, set<nat>))
    ensures r.0 + r.1 == PresentSet(s)
    ensures forall i :: i in r.0 <==> 0 <= i < |s| && s[i].Some? && !(max < s[i].value < min)
    ensures forall i :: i in r.1 <==> 0 <= i < |s| && s[i].Some? && !Within(s[i].value, min, max)
  {
    (OkSet(s, min, max), RejectedSet(s, min, max))
  }

  /**
   * With ordered limits the OR makes every present value "ok", the rejected ones
   * included: the two indexes overlap on exactly the rejected timestamps.
   */
  lemma OrderedLimitsOkIsEveryPresentValue(s: Series, min: real, max: real)
    requires min <= max
    ensures OkSet(s, min, max) == PresentSet(s)
    ensures RejectedSet(s, min, max) <= OkSet(s, min, max)
    ensures OkSet(s, min, max) * RejectedSet(s, min, max) == RejectedSet(s, min, max)
  {
  }

  /** A value equal to one of two ordered limits is never rejected. */
  lemma LimitValuesNeverRejected(s: Series, min: real, max: real, i: nat)
    requires min <= max
    requires i < |s| && (s[i] == Some(min) || s[i] == Some(max))
    ensures i !in FlagTests(s, min, max).1
    ensures i in FlagTests(s, min, max).0
  {
  }

  /** The test object: the input series, its flag and its filtered copy. */
  datatype Limiter = Limiter(series: Series, flag: Flag, filtered: Series)

  /** `reset`: a flag that is missing everywhere and a fresh copy of the series. */
  function Reset(l: Limiter): (r: Limiter)
    ensures r.series == l.series && r.filtered == l.series
    ensures |r.flag| == |l.series| && forall i :: 0 <= i < |r.flag| ==> r.flag[i].None?
  {
    Limiter(l.series, AllMissing(|l.series|), l.series)
  }

  /** `setflag`: 0 on the ok index, then 2 on the rejected index, so 2 wins where they overlap. */
  function SetFlag(l: Limiter, ok: set<nat>, rejected: set<nat>): (r: Limiter)
    ensures r.series == l.series && r.filtered == l.filtered && |r.flag| == |l.flag|
    ensures forall i :: 0 <= i < |l.flag| ==>
              r.flag[i] == (if i in rejected then Some(2) else if i in ok then Some(0) else l.flag[i])
  {
    l.(flag := Overlay(Overlay(l.flag, ok, 0), rejected, 2))
  }

  /** `setfiltered`: the rejected timestamps of the filtered series become missing. */
  function SetFiltered(l: Limiter, rejected: set<nat>): (r: Limiter)
    ensures r.series == l.series && r.flag == l.flag && |r.filtered| == |l.filtered|
    ensures forall i :: 0 <= i < |l.filtered| ==> r.filtered[i] == (if i in rejected then None else l.filtered[i])
  {
    l.(filtered := SetMissing(l.filtered, rejected))
  }

  /**
   * `calc(min, max)`. In spite of the overlapping indexes the flag takes only the
   * documented values: 0 exactly on present values within [min, max], 2 exactly on
   * present values outside it, missing exactly where the value is missing. The
   * filtered series is the input with exactly the rejected timestamps set missing.
   */
  function Calc(l: Limiter, min: real, max: real): (r: Limiter)
    ensures r.series == l.series
    ensures |r.flag| == |l.series| && |r.filtered| == |l.series|
    ensures forall i :: 0 <= i < |l.series| ==>
              && (r.flag[i] == Some(0) <==> l.series[i].Some? && Within(l.series[i].value, min, max))
              && (r.flag[i] == Some(2) <==> l.series[i].Some? && !Within(l.series[i].value, min, max))
              && (r.flag[i].None? <==> l.series[i].None?)
    ensures forall i :: 0 <= i < |l.series| ==>
              r.filtered[i] == (if r.flag[i] == Some(2) then None else l.series[i])
  {
    var cleared := Reset(l);
    var (ok, rejected) := FlagTests(cleared.series, min, max);
    SetFiltered(SetFlag(cleared, ok, rejected), rejected)
  }

  /** Because `calc` resets first, its result depends on the series alone: an earlier flag or filtered series leaves no trace. */
  lemma CalcForgetsEarlierResults(l1: Limiter, l2: Limiter, min: real, max: real)
    requires l1.series == l2.series
    ensures Calc(l1, min, max) == Calc(l2, min, max)
  {
  }

  /** Because `calc` resets first, running it twice with the same limits changes nothing more. */
  lemma CalcIdempotent(l: Limiter, min: real, max: real)
    ensures Calc(Calc(l, min, max), min, max) == Calc(l, min, max)
  {
  }

  /**
   * `AbsoluteLimits(series).calc(min, max)`: a new test object on the series, then
   * `calc`; its flag is 2 exactly on the present values outside [min, max], 0 on
   * the present values within it and missing where the value is missing; the
   * filtered series is the input with the flag-2 values removed.
   */
  function Run(s: Series, min: real, max: real): (r: Limiter)
    ensures r.series == s && |r.flag| == |s| && |r.filtered| == |s|
    ensures forall i :: 0 <= i < |s| ==>
              && (r.flag[i] == Some(2) <==> s[i].Some? && !Within(s[i].value, min, max))
              && (r.flag[i] == Some(0) <==> s[i].Some? && Within(s[i].value, min, max))
              && (r.flag[i].None? <==> s[i].None?)
    ensures forall i :: 0 <= i < |s| ==> r.filtered[i] == (if r.flag[i] == Some(2) then None else s[i])
  {
    Calc(Limiter(s, AllMissing(|s|), s), min, max)
  }
}
