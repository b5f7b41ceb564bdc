/**
 * Series and flags aligned to one time index. Position `i` of every sequence
 * stands for the i-th timestamp of the index; `None` is a missing value (NaN).
 */
module TimeSeries {
  import opened Wrappers

  /** A numeric series; `None` is NaN. */
  type Series = seq<Option<real>>

  /** A flag series on the same index: Some(0) ok, Some(2) rejected, None where no test applied. */
  type Flag = seq<Option<int>>

  /** The timestamps that hold a value. */
  function PresentSet(s: Series): set<nat> {
    set i: nat | i < |s| && s[i].Some?
  }

  /** The timestamps that hold a value, ascending: the index that `dropna()` keeps. */
  function PresentPositions(s: Series): (ix: seq<nat>)
    ensures forall k :: 0 <= k < |ix| ==> ix[k] < |s| && s[ix[k]].Some?
    ensures forall k, l :: 0 <= k < l < |ix| ==> ix[k] < ix[l]
    ensures forall i :: 0 <= i < |s| && s[i].Some? ==> i in ix
  {
    if |s| == 0 then []
    else
      var front := PresentPositions(s[..|s| - 1]);
      if s[|s| - 1].Some? then front + [|s| - 1] else front
  }

  /** The values at `PresentPositions(s)`, in the same order: what `dropna().to_numpy()` hands on. */
  function PresentValues(s: Series): (vals: seq<real>)
    ensures |vals| == |PresentPositions(s)|
    ensures forall k :: 0 <= k < |vals| ==> s[PresentPositions(s)[k]] == Some(vals[k])
  {
    var ix := PresentPositions(s);
    seq(|ix|, k requires 0 <= k < |ix| => s[ix[k]].value)
  }

  /** The present values of a series are those of all but its last timestamp, then the last value if present. */
  lemma PresentValuesSnoc(s: Series)
    requires |s| > 0
    ensures PresentValues(s) ==
            PresentValues(s[..|s| - 1]) + (if s[|s| - 1].Some? then [s[|s| - 1].value] else [])
  {
    var front := s[..|s| - 1];
    var ix := PresentPositions(front);
    assert forall k :: 0 <= k < |ix| ==> s[ix[k]] == front[ix[k]];
  }

  /** A series with the same index and no values (`Series(index=ix, data=np.nan)`). */
  function AllMissing<T>(n: nat): (r: seq<Option<T>>)
    ensures |r| == n
    ensures forall i :: 0 <= i < n ==> r[i].None?
  {
    seq(n, _ => None)
  }

  /** `s.loc[at] = np.nan`: the positions in `at` become missing, nothing else changes. */
  function SetMissing(s: Series, at: set<nat>): (r: Series)
    ensures |r| == |s|
    ensures forall i :: 0 <= i < |s| ==> r[i] == (if i in at then None else s[i])
  {
    seq(|s|, i requires 0 <= i < |s| => if i in at then None else s[i])
  }

  /** `flag.loc[at] = v`: the positions in `at` take flag value `v`, nothing else changes. */
  function Overlay(flag: Flag, at: set<nat>, v: int): (r: Flag)
    ensures |r| == |flag|
    ensures forall i :: 0 <= i < |flag| ==> r[i] == (if i in at then Some(v) else flag[i])
  {
    seq(|flag|, i requires 0 <= i < |flag| => if i in at then Some(v) else flag[i])
  }

  /** `(flag == v)[...].index`: the timestamps whose flag equals `v` (NaN equals nothing). */
  function FlagPositions(flag: Flag, v: int): set<nat> {
    set i: nat | i < |flag| && flag[i] == Some(v)
  }

  /** `flag > v`: the timestamps whose flag exceeds `v` (NaN exceeds nothing). */
  function Exceeding(flag: Flag, v: int): set<nat> {
    set i: nat | i < |flag| && flag[i].Some? && flag[i].value > v
  }

  /** `(flag == v).sum()`, counted one timestamp at a time. */
  function CountFlag(flag: Flag, v: int): nat {
    if |flag| == 0 then 0
    else CountFlag(flag[..|flag| - 1], v) + (if flag[|flag| - 1] == Some(v) then 1 else 0)
  }

  /** Counting the flag values equal to `v` gives the size of the set of timestamps flagged `v`. */
  lemma {:induction false} CountFlagIsCardinality(flag: Flag, v: int)
    ensures CountFlag(flag, v) == |FlagPositions(flag, v)|
  {
    if |flag| > 0 {
      var n := |flag| - 1;
      var front := flag[..n];
      CountFlagIsCardinality(front, v);
      var before := FlagPositions(front, v);
      if flag[n] == Some(v) {
        assert FlagPositions(flag, v) == before + {n};
        assert n !in before;
      } else {
        assert FlagPositions(flag, v) == before;
      }
    }
  }
}
