/**
 * Quality screening of one meteo series (class ScreenVar): choose the processing
 * pipe for the variable, always flag missing values first, run the configured
 * steps in order (flag tests add flag columns, corrections replace the series),
 * and add the overall quality flag QCF as the row-wise sum of all flag columns.
 */
module ScreenVar {
  import opened Wrappers
  import opened TimeSeries
  import opened OrderedMap
  import Text
  import AbsoluteLimits

  /** One variable's entry of the pipes configuration. `absoluteLimits` is None when the entry has no limits. */
  datatype PipeConfig = PipeConfig(units: string, pipe: seq<string>, absoluteLimits: Option<seq<real>>)

  /** The pipes configuration: measurement -> variable key -> entry, variable keys in file order. */
  type Pipes = map<string, Assoc<string, PipeConfig>>

  /** Site location; each part may be missing. */
  datatype Site = Site(lat: Option<real>, lon: Option<real>, timezone: Option<string>)

  /** Which side `setto_threshold` clips. */
  datatype ThresholdKind = Max | Min

  /** The exceptions the screening raises. */
  datatype ScreenError =
    | UnknownMeasurement(measurement: string)
    | NoPipeAssigned(name: string)
    | UnknownStep(step: string)
    | MissingSiteLocation
    | MissingLimits
    | LimitIndexOutOfRange(index: nat)

  /**
   * The functions the steps call, whose code is not part of this model: each
   * flag generator returns the flag's column name and its values.
   */
  datatype Collaborators = Collaborators(
    missingValues: Series -> (string, Flag),
    thymeboost: (Series, Flag) -> (string, Flag),
    absoluteLimits: (Series, real, real) -> (string, Flag),
    radiationZeroOffset: (Series, real, real, string) -> Series,
    settoThreshold: (Series, real, ThresholdKind) -> Series)

  /** Every collaborator returns a series or flag on the index of the series it was given. */
  ghost predicate KeepsIndex(c: Collaborators) {
    && (forall s :: |c.missingValues(s).1| == |s|)
    && (forall s, f :: |c.thymeboost(s, f).1| == |s|)
    && (forall s, lo, hi :: |c.absoluteLimits(s, lo, hi).1| == |s|)
    && (forall s, lat, lon, tz :: |c.radiationZeroOffset(s, lat, lon, tz)| == |s|)
    && (forall s, t, kind :: |c.settoThreshold(s, t, kind)| == |s|)
  }

  // ---------------------------------------------------------------- pipe choice

  /** A variable key fits a series when it is a substring of the series name and its units equal the series' units. */
  predicate Fits(entry: (string, PipeConfig), name: string, units: string) {
    Text.Contains(name, entry.0) && entry.1.units == units
  }

  /** The position of the first fitting variable key, in configuration order. */
  function FirstFit(vars: Assoc<string, PipeConfig>, name: string, units: string): (r: Option<nat>)
    ensures r.Some? ==> r.value < |vars| && Fits(vars[r.value], name, units)
    ensures r.Some? ==> forall j :: 0 <= j < r.value ==> !Fits(vars[j], name, units)
    ensures r.None? ==> forall j :: 0 <= j < |vars| ==> !Fits(vars[j], name, units)
  {
    if |vars| == 0 then None
    else if Fits(vars[0], name, units) then Some(0)
    else match FirstFit(vars[1..], name, units)
      case None => None
      case Some(k) => Some(k + 1)
  }

  /**
   * `_pipe_assign`: a measurement missing from the configuration raises; otherwise
   * the entry is that of the first variable key that fits, and if none fits the
   * call fails.
   */
  function PipeAssign(pipes: Pipes, measurement: string, name: string, units: string): (r: Result<PipeConfig, ScreenError>)
    ensures measurement !in pipes ==> r == Failure(UnknownMeasurement(measurement))
    ensures measurement in pipes ==>
              (r.Success? <==> exists k :: 0 <= k < |pipes[measurement]| && Fits(pipes[measurement][k], name, units))
    ensures r.Success? ==> measurement in pipes
    ensures r.Success? ==>
              exists k :: && 0 <= k < |pipes[measurement]|
                          && Fits(pipes[measurement][k], name, units)
                          && r.value == pipes[measurement][k].1
                          && forall j :: 0 <= j < k ==> !Fits(pipes[measurement][j], name, units)
    ensures r.Failure? ==> r.error == UnknownMeasurement(measurement) || r.error == NoPipeAssigned(name)
  {
    if measurement !in pipes then Failure(UnknownMeasurement(measurement))
    else
      var vars := pipes[measurement];
      match FirstFit(vars, name, units)
      case None => Failure(NoPipeAssigned(name))
      case Some(k) => Success(vars[k].1)
  }

  // ---------------------------------------------------------------- pipe steps

  /** The steps the pipe knows. */
  datatype Step = Thymeboost | AbsoluteLimitsTest | RadiationZeroOffset | SetToMaxThreshold | SetToMinThreshold
  {
    /** Flag tests add a flag column; the other steps correct the series. */
    predicate IsFlagTest() {
      Thymeboost? || AbsoluteLimitsTest?
    }
  }

  /** The name of a step in the configuration. */
  function StepName(step: Step): string {
    match step
    case Thymeboost => "remove_highres_outliers_thymeboost"
    case AbsoluteLimitsTest => "remove_highres_outliers_absolute_limits"
    case RadiationZeroOffset => "remove_radiation_zero_offset"
    case SetToMaxThreshold => "setto_max_threshold"
    case SetToMinThreshold => "setto_min_threshold"
  }

  /** The step a configured name stands for, if the pipe knows it. */
  function ParseStep(name: string): (r: Option<Step>)
    ensures r.Some? ==> StepName(r.value) == name
  {
    if name == StepName(Thymeboost) then Some(Thymeboost)
    else if name == StepName(AbsoluteLimitsTest) then Some(AbsoluteLimitsTest)
    else if name == StepName(RadiationZeroOffset) then Some(RadiationZeroOffset)
    else if name == StepName(SetToMaxThreshold) then Some(SetToMaxThreshold)
    else if name == StepName(SetToMinThreshold) then Some(SetToMinThreshold)
    else None
  }

  /** Every step is recognised by its own configured name. */
  lemma ParseStepOfName(step: Step)
    ensures ParseStep(StepName(step)) == Some(step)
  {
    match step
    case Thymeboost =>
    case AbsoluteLimitsTest =>
      assert StepName(Thymeboost)[24] != StepName(AbsoluteLimitsTest)[24];
    case RadiationZeroOffset =>
      assert StepName(RadiationZeroOffset)[7] != StepName(Thymeboost)[7];
      assert StepName(RadiationZeroOffset)[7] != StepName(AbsoluteLimitsTest)[7];
    case SetToMaxThreshold =>
      assert StepName(SetToMaxThreshold)[0] != StepName(Thymeboost)[0];
      assert StepName(SetToMaxThreshold)[0] != StepName(AbsoluteLimitsTest)[0];
      assert StepName(SetToMaxThreshold)[0] != StepName(RadiationZeroOffset)[0];
    case SetToMinThreshold =>
      assert StepName(SetToMinThreshold)[0] != StepName(Thymeboost)[0];
      assert StepName(SetToMinThreshold)[0] != StepName(AbsoluteLimitsTest)[0];
      assert StepName(SetToMinThreshold)[0] != StepName(RadiationZeroOffset)[0];
      assert StepName(SetToMinThreshold)[8] != StepName(SetToMaxThreshold)[8];
  }

  /** Different steps have different names, so each name stands for at most one step. */
  lemma StepNamesParse()
    ensures forall step: Step :: ParseStep(StepName(step)) == Some(step)
  {
    forall step: Step ensures ParseStep(StepName(step)) == Some(step) {
      ParseStepOfName(step);
    }
  }

  /** A name is recognised as no step exactly when no step has that name. */
  lemma ParseStepOfOtherName(name: string)
    ensures ParseStep(name).None? <==> forall step: Step :: StepName(step) != name
  {
    if ParseStep(name).None? {
      forall step: Step ensures StepName(step) != name {
        match step
        case Thymeboost =>
        case AbsoluteLimitsTest =>
        case RadiationZeroOffset =>
        case SetToMaxThreshold =>
        case SetToMinThreshold =>
      }
    }
  }

  /** Name of the overall quality flag column. */
  const QcfColumn := "QCF"

  /** The series under screening and the flags collected so far (the `flags_df` columns). */
  datatype ScreenState = ScreenState(series: Series, flags: Assoc<string, Flag>)

  /** The series has `n` timestamps and every flag column is on the same index. */
  ghost predicate OnIndex(st: ScreenState, n: nat) {
    |st.series| == n && forall k :: 0 <= k < |st.flags| ==> |st.flags[k].1| == n
  }

  /** `pipe_config['absolute_limits'][i]`. */
  function Limit(cfg: PipeConfig, i: nat): (r: Result<real, ScreenError>)
    ensures r.Success? <==> cfg.absoluteLimits.Some? && i < |cfg.absoluteLimits.value|
    ensures r.Success? ==> r.value == cfg.absoluteLimits.value[i]
  {
    match cfg.absoluteLimits
    case None => Failure(MissingLimits)
    case Some(lims) => if i < |lims| then Success(lims[i]) else Failure(LimitIndexOutOfRange(i))
  }

  /** `flags_df[name] = flag`. */
  function AddFlag(st: ScreenState, named: (string, Flag)): (r: ScreenState)
    ensures r.series == st.series
    ensures Get(r.flags, named.0) == Some(named.1)
    ensures forall name :: name != named.0 ==> Get(r.flags, name) == Get(st.flags, name)
    ensures Keys(st.flags) <= Keys(r.flags) && named.0 in Keys(r.flags)
  {
    PutThenGet(st.flags, named.0, named.1);
    PutKeepsAllOthers(st.flags, named.0, named.1);
    st.(flags := Put(st.flags, named.0, named.1))
  }

  /**
   * One recognised step. Flag tests only add or replace a flag column and leave the
   * series alone; corrections only replace the series and leave the flags alone. The
   * limits test uses limit 0 as min and limit 1 as max, the max threshold limit 1 and
   * the min threshold limit 0; the zero-offset correction needs the whole site location.
   */
  function Execute(st: ScreenState, step: Step, cfg: PipeConfig, site: Site,
                   c: Collaborators, missingFlag: string): (r: Result<ScreenState, ScreenError>)
    requires missingFlag in Keys(st.flags)
    ensures r.Success? ==> missingFlag in Keys(r.value.flags) && Keys(st.flags) <= Keys(r.value.flags)
    ensures r.Failure? ==> r.error == MissingLimits || r.error.LimitIndexOutOfRange? || r.error == MissingSiteLocation
    ensures r.Success? && step.IsFlagTest() ==> r.value.series == st.series
    ensures r.Success? && !step.IsFlagTest() ==> r.value.flags == st.flags
    ensures step.Thymeboost? ==>
              r == Success(AddFlag(st, c.thymeboost(st.series, Get(st.flags, missingFlag).value)))
    ensures step.AbsoluteLimitsTest? ==>
              (r.Success? <==> Limit(cfg, 0).Success? && Limit(cfg, 1).Success?)
    ensures step.AbsoluteLimitsTest? && r.Success? ==>
              r.value == AddFlag(st, c.absoluteLimits(st.series, Limit(cfg, 0).value, Limit(cfg, 1).value))
    ensures step.RadiationZeroOffset? ==>
              (r.Success? <==> site.lat.Some? && site.lon.Some? && site.timezone.Some?)
    ensures step.RadiationZeroOffset? && r.Success? ==>
              r.value.series == c.radiationZeroOffset(st.series, site.lat.value, site.lon.value, site.timezone.value)
    ensures step.SetToMaxThreshold? ==> (r.Success? <==> Limit(cfg, 1).Success?)
    ensures step.SetToMaxThreshold? && r.Success? ==>
              r.value.series == c.settoThreshold(st.series, Limit(cfg, 1).value, Max)
    ensures step.SetToMinThreshold? ==> (r.Success? <==> Limit(cfg, 0).Success?)
    ensures step.SetToMinThreshold? && r.Success? ==>
              r.value.series == c.settoThreshold(st.series, Limit(cfg, 0).value, Min)
  {
    match step
    case Thymeboost =>
      var missing := Get(st.flags, missingFlag).value;
      Success(AddFlag(st, c.thymeboost(st.series, missing)))
    case AbsoluteLimitsTest =>
      var min :- Limit(cfg, 0);
      var max :- Limit(cfg, 1);
      Success(AddFlag(st, c.absoluteLimits(st.series, min, max)))
    case RadiationZeroOffset =>
      if site.lat.None? || site.lon.None? || site.timezone.None? then Failure(MissingSiteLocation)
      else Success(st.(series := c.radiationZeroOffset(st.series, site.lat.value, site.lon.value, site.timezone.value)))
    case SetToMaxThreshold =>
      var max :- Limit(cfg, 1);
      Success(st.(series := c.settoThreshold(st.series, max, Max)))
    case SetToMinThreshold =>
      var min :- Limit(cfg, 0);
      Success(st.(series := c.settoThreshold(st.series, min, Min)))
  }

  /** Every recognised step keeps the series and all flag columns on the index they were on. */
  lemma ExecuteKeepsIndex(st: ScreenState, step: Step, cfg: PipeConfig, site: Site,
                          c: Collaborators, missingFlag: string, n: nat)
    requires missingFlag in Keys(st.flags)
    requires KeepsIndex(c) && OnIndex(st, n)
    ensures var r := Execute(st, step, cfg, site, c, missingFlag);
            r.Success? ==> OnIndex(r.value, n)
  {
    var r := Execute(st, step, cfg, site, c, missingFlag);
    if r.Success? {
      match step
      case Thymeboost =>
        var named := c.thymeboost(st.series, Get(st.flags, missingFlag).value);
        PutKeepsColumnLengths(st.flags, named.0, named.1, n);
      case AbsoluteLimitsTest =>
        var named := c.absoluteLimits(st.series, Limit(cfg, 0).value, Limit(cfg, 1).value);
        PutKeepsColumnLengths(st.flags, named.0, named.1, n);
      case RadiationZeroOffset =>
        var corrected := c.radiationZeroOffset(st.series, site.lat.value, site.lon.value, site.timezone.value);
        assert forall s, lat, lon, tz :: |c.radiationZeroOffset(s, lat, lon, tz)| == |s|;
        assert |corrected| == |st.series|;
      case SetToMaxThreshold =>
        assert |c.settoThreshold(st.series, Limit(cfg, 1).value, Max)| == n;
      case SetToMinThreshold =>
        assert |c.settoThreshold(st.series, Limit(cfg, 0).value, Min)| == n;
    }
  }

  /** Replacing or appending a column of length `n` keeps every column at length `n`. */
  lemma {:induction false} PutKeepsColumnLengths(flags: Assoc<string, Flag>, name: string, values: Flag, n: nat)
    requires |values| == n
    requires forall k :: 0 <= k < |flags| ==> |flags[k].1| == n
    ensures forall k :: 0 <= k < |Put(flags, name, values)| ==> |Put(flags, name, values)[k].1| == n
  {
    if |flags| > 0 && flags[0].0 != name {
      PutKeepsColumnLengths(flags[1..], name, values, n);
    }
  }

  /**
   * One configured step of `_call_pipe_steps`: a step's own name runs that step,
   * and the step fails as unknown exactly when no step has the name.
   */
  function ApplyStep(st: ScreenState, name: string, cfg: PipeConfig, site: Site,
                     c: Collaborators, missingFlag: string): (r: Result<ScreenState, ScreenError>)
    requires missingFlag in Keys(st.flags)
    ensures forall step: Step :: StepName(step) == name ==> r == Execute(st, step, cfg, site, c, missingFlag)
    ensures r == Failure(UnknownStep(name)) <==> forall step: Step :: StepName(step) != name
  {
    StepNamesParse();
    ParseStepOfOtherName(name);
    match ParseStep(name)
    case None => Failure(UnknownStep(name))
    case Some(step) => Execute(st, step, cfg, site, c, missingFlag)
  }

  /** The configured steps, in order; the first step that raises ends the screening. */
  function RunSteps(st: ScreenState, steps: seq<string>, cfg: PipeConfig, site: Site,
                    c: Collaborators, missingFlag: string): (r: Result<ScreenState, ScreenError>)
    requires missingFlag in Keys(st.flags)
    ensures r.Success? ==> missingFlag in Keys(r.value.flags) && Keys(st.flags) <= Keys(r.value.flags)
    decreases |steps|
  {
    if |steps| == 0 then Success(st)
    else
      var next :- ApplyStep(st, steps[0], cfg, site, c, missingFlag);
      RunSteps(next, steps[1..], cfg, site, c, missingFlag)
  }

  /** A run of steps keeps the series and all flag columns on the index they were on. */
  lemma {:induction false} RunStepsKeepsIndex(st: ScreenState, steps: seq<string>, cfg: PipeConfig, site: Site,
                                              c: Collaborators, missingFlag: string, n: nat)
    requires missingFlag in Keys(st.flags)
    requires KeepsIndex(c) && OnIndex(st, n)
    ensures var r := RunSteps(st, steps, cfg, site, c, missingFlag);
            r.Success? ==> OnIndex(r.value, n)
    decreases |steps|
  {
    if |steps| > 0 && ParseStep(steps[0]).Some? {
      var step := ParseStep(steps[0]).value;
      ExecuteKeepsIndex(st, step, cfg, site, c, missingFlag, n);
      match Execute(st, step, cfg, site, c, missingFlag)
      case Failure(_) =>
      case Success(next) => RunStepsKeepsIndex(next, steps[1..], cfg, site, c, missingFlag, n);
    }
  }

  /**
   * Running two lists of steps one after the other is running their concatenation:
   * every later step sees the series and flags the earlier ones left, corrections included.
   */
  lemma {:induction false} RunStepsAppend(st: ScreenState, first: seq<string>, second: seq<string>, cfg: PipeConfig,
                                          site: Site, c: Collaborators, missingFlag: string)
    requires missingFlag in Keys(st.flags)
    ensures RunSteps(st, first + second, cfg, site, c, missingFlag) ==
            match RunSteps(st, first, cfg, site, c, missingFlag)
            case Failure(e) => Failure(e)
            case Success(mid) => RunSteps(mid, second, cfg, site, c, missingFlag)
    decreases |first|
  {
    if |first| > 0 {
      assert (first + second)[0] == first[0];
      assert (first + second)[1..] == first[1..] + second;
      match ApplyStep(st, first[0], cfg, site, c, missingFlag)
      case Failure(e) =>
      case Success(next) => RunStepsAppend(next, first[1..], second, cfg, site, c, missingFlag);
    } else {
      assert first + second == second;
    }
  }

  /**
   * The screening fails exactly when some step raises in the state the steps before
   * it produced; in particular a step name the pipe does not know makes it fail
   * unless an earlier step has failed already.
   */
  lemma {:induction false} RunStepsFailsIffSomeStepFails(st: ScreenState, steps: seq<string>, cfg: PipeConfig,
                                                         site: Site, c: Collaborators, missingFlag: string)
    requires missingFlag in Keys(st.flags)
    ensures RunSteps(st, steps, cfg, site, c, missingFlag).Failure? <==>
            exists k :: 0 <= k < |steps| && StepFailsAfter(st, steps, k, cfg, site, c, missingFlag)
    decreases |steps|
  {
    if |steps| > 0 {
      var first := ApplyStep(st, steps[0], cfg, site, c, missingFlag);
      assert steps[..0] == [];
      if first.Failure? {
        assert StepFailsAfter(st, steps, 0, cfg, site, c, missingFlag);
      } else {
        var next := first.value;
        assert !StepFailsAfter(st, steps, 0, cfg, site, c, missingFlag);
        RunStepsFailsIffSomeStepFails(next, steps[1..], cfg, site, c, missingFlag);
        forall k | 1 <= k < |steps|
          ensures StepFailsAfter(st, steps, k, cfg, site, c, missingFlag) ==
                  StepFailsAfter(next, steps[1..], k - 1, cfg, site, c, missingFlag)
        {
          StepFailsAfterShift(st, steps, k, cfg, site, c, missingFlag);
        }
        if exists k :: 0 <= k < |steps| && StepFailsAfter(st, steps, k, cfg, site, c, missingFlag) {
          var k :| 0 <= k < |steps| && StepFailsAfter(st, steps, k, cfg, site, c, missingFlag);
          assert StepFailsAfter(next, steps[1..], k - 1, cfg, site, c, missingFlag);
        }
        if exists k :: 0 <= k < |steps[1..]| && StepFailsAfter(next, steps[1..], k, cfg, site, c, missingFlag) {
          var k :| 0 <= k < |steps[1..]| && StepFailsAfter(next, steps[1..], k, cfg, site, c, missingFlag);
          assert StepFailsAfter(st, steps, k + 1, cfg, site, c, missingFlag);
        }
      }
    }
  }

  /** After a first step that succeeds, step `k` fails exactly when step `k - 1` of the rest fails. */
  lemma StepFailsAfterShift(st: ScreenState, steps: seq<string>, k: nat, cfg: PipeConfig,
                            site: Site, c: Collaborators, missingFlag: string)
    requires 1 <= k < |steps|
    requires missingFlag in Keys(st.flags)
    ensures ApplyStep(st, steps[0], cfg, site, c, missingFlag).Success? ==>
              var next := ApplyStep(st, steps[0], cfg, site, c, missingFlag).value;
              StepFailsAfter(st, steps, k, cfg, site, c, missingFlag) ==
              StepFailsAfter(next, steps[1..], k - 1, cfg, site, c, missingFlag)
  {
    if ApplyStep(st, steps[0], cfg, site, c, missingFlag).Success? {
      var next := ApplyStep(st, steps[0], cfg, site, c, missingFlag).value;
      assert steps[..k][0] == steps[0];
      assert steps[..k][1..] == steps[1..][..k - 1];
      assert steps[1..][k - 1] == steps[k];
      assert RunSteps(st, steps[..k], cfg, site, c, missingFlag) == RunSteps(next, steps[1..][..k - 1], cfg, site, c, missingFlag);
    }
  }

  /** The steps before position `k` succeed and step `k` then raises. */
  ghost predicate StepFailsAfter(st: ScreenState, steps: seq<string>, k: nat, cfg: PipeConfig,
                                 site: Site, c: Collaborators, missingFlag: string)
    requires k < |steps|
    requires missingFlag in Keys(st.flags)
  {
    match RunSteps(st, steps[..k], cfg, site, c, missingFlag)
    case Failure(_) => false
    case Success(mid) => ApplyStep(mid, steps[k], cfg, site, c, missingFlag).Failure?
  }

  // ---------------------------------------------------------------- overall flag

  /** The flag value of one column at one timestamp, missing counting as 0. */
  function Entry(column: Flag, i: nat): int {
    if i < |column| then column[i].GetOr(0) else 0
  }

  /** The sum across the flag columns at timestamp `i`, missing entries counting as 0 (`sum(axis=1)`). */
  function RowSum(flags: Assoc<string, Flag>, i: nat): int {
    if |flags| == 0 then 0
    else RowSum(flags[..|flags| - 1], i) + Entry(flags[|flags| - 1].1, i)
  }

  /**
   * The row sum accumulates column by column from the left; starting the sum from
   * the first column instead gives the same total.
   */
  lemma {:induction false} RowSumFromFirstColumn(flags: Assoc<string, Flag>, i: nat)
    requires |flags| > 0
    ensures RowSum(flags, i) == Entry(flags[0].1, i) + RowSum(flags[1..], i)
  {
    var n := |flags| - 1;
    if n > 0 {
      var front := flags[..n];
      assert front[0] == flags[0];
      assert front[1..] == flags[1..][..n - 1];
      assert flags[1..][n - 1] == flags[n];
      RowSumFromFirstColumn(front, i);
    }
  }
  /** The row sum of two frames side by side is the sum of their row sums. */
  lemma {:induction false} RowSumAppend(a: Assoc<string, Flag>, b: Assoc<string, Flag>, i: nat)
    ensures RowSum(a + b, i) == RowSum(a, i) + RowSum(b, i)
    decreases |b|
  {
    if |b| == 0 {
      assert a + b == a;
    } else {
      var n := |b| - 1;
      assert (a + b)[..|a + b| - 1] == a + b[..n];
      assert (a + b)[|a + b| - 1] == b[n];
      RowSumAppend(a, b[..n], i);
    }
  }

  /** Taking the column at position `j` out of the frame takes its entry out of the row sum. */
  lemma RowSumRemoveAt(f: Assoc<string, Flag>, j: nat, i: nat)
    requires j < |f|
    ensures RowSum(f, i) == RowSum(f[..j] + f[j + 1..], i) + Entry(f[j].1, i)
  {
    assert f == f[..j] + [f[j]] + f[j + 1..];
    assert RowSum([f[j]], i) == Entry(f[j].1, i) by {
      assert [f[j]][..0] == [];
    }
    RowSumAppend(f[..j] + [f[j]], f[j + 1..], i);
    RowSumAppend(f[..j], [f[j]], i);
    RowSumAppend(f[..j], f[j + 1..], i);
  }

  /** Removing the element at position `j` removes one occurrence of it from the multiset. */
  lemma MultisetRemoveAt<T>(s: seq<T>, j: nat)
    requires j < |s|
    ensures multiset(s[..j] + s[j + 1..]) == multiset(s) - multiset{s[j]}
  {
    assert s == s[..j] + [s[j]] + s[j + 1..];
  }

  /**
   * The row sum depends only on which columns the flags frame holds, not on
   * their order: any rearrangement of the columns gives the same QCF.
   */
  lemma {:induction false} RowSumIgnoresColumnOrder(f1: Assoc<string, Flag>, f2: Assoc<string, Flag>, i: nat)
    requires multiset(f1) == multiset(f2)
    ensures RowSum(f1, i) == RowSum(f2, i)
    decreases |f1|
  {
    if |f1| == 0 {
      assert |f2| == |multiset(f2)| == 0;
    } else {
      var n := |f1| - 1;
      var x := f1[n];
      assert x in multiset(f2);
      var j :| 0 <= j < |f2| && f2[j] == x;
      MultisetRemoveAt(f1, n);
      MultisetRemoveAt(f2, j);
      assert f1[..n] + f1[n + 1..] == f1[..n];
      RowSumIgnoresColumnOrder(f1[..n], f2[..j] + f2[j + 1..], i);
      RowSumRemoveAt(f1, n, i);
      RowSumRemoveAt(f2, j, i);
    }
  }



  /** Every flag value is non-negative, as the 0/2 flag convention guarantees. */
  ghost predicate NonNegative(flags: Assoc<string, Flag>) {
    forall k, i :: 0 <= k < |flags| && 0 <= i < |flags[k].1| && flags[k].1[i].Some? ==> flags[k].1[i].value >= 0
  }

  /** With non-negative flags, QCF is at least every single flag. */
  lemma {:induction false} QcfDominatesEachFlag(flags: Assoc<string, Flag>, i: nat, k: nat)
    requires NonNegative(flags) && k < |flags|
    ensures RowSum(flags, i) >= Entry(flags[k].1, i)
  {
    var n := |flags| - 1;
    RowSumNonNegative(flags[..n], i);
    if k < n {
      assert flags[..n][k] == flags[k];
      QcfDominatesEachFlag(flags[..n], i, k);
    }
  }

  /** With non-negative flags, QCF is 0 exactly where every flag is 0 or missing. */
  lemma {:induction false} QcfZeroIffAllClean(flags: Assoc<string, Flag>, i: nat)
    requires NonNegative(flags)
    ensures RowSum(flags, i) == 0 <==> forall k :: 0 <= k < |flags| ==> Entry(flags[k].1, i) == 0
  {
    if |flags| > 0 {
      var n := |flags| - 1;
      assert NonNegative(flags[..n]);
      QcfZeroIffAllClean(flags[..n], i);
      RowSumNonNegative(flags[..n], i);
      assert forall k :: 0 <= k < n ==> flags[..n][k] == flags[k];
      if forall k :: 0 <= k < |flags| ==> Entry(flags[k].1, i) == 0 {
        assert Entry(flags[n].1, i) == 0;
      }
    }
  }

  lemma {:induction false} RowSumNonNegative(flags: Assoc<string, Flag>, i: nat)
    requires NonNegative(flags)
    ensures RowSum(flags, i) >= 0
  {
    if |flags| > 0 {
      var n := |flags| - 1;
      assert NonNegative(flags[..n]);
      RowSumNonNegative(flags[..n], i);
    }
  }

  /** The QCF column over `n` timestamps. */
  function Qcf(flags: Assoc<string, Flag>, n: nat): (q: Flag)
    ensures |q| == n
    ensures forall i :: 0 <= i < n ==> q[i].Some?
  {
    seq(n, i requires 0 <= i < n => Some(RowSum(flags, i)))
  }

  // ---------------------------------------------------------------- whole screening

  /** What `get` returns: the screened series and `flags_df`, plus the QCF column and the test columns it sums. */
  datatype Screened = Screened(series: Series, flags: Assoc<string, Flag>, tests: Assoc<string, Flag>, qcf: Flag)

  /** The state the steps start from: the input series, with the missing-values flag as the only column. */
  function Start(series: Series, c: Collaborators): (st: ScreenState)
    ensures st.series == series
    ensures Keys(st.flags) == [c.missingValues(series).0]
    ensures Get(st.flags, c.missingValues(series).0) == Some(c.missingValues(series).1)
  {
    var missing := c.missingValues(series);
    assert [missing] == Put([], missing.0, missing.1);
    ScreenState(series, [missing])
  }

  /**
   * `ScreenVar(series, measurement, units, ...)`: the pipe is chosen first, then the
   * missing-values flag is added as the first column, then the configured steps run
   * in order, then QCF is added. A pipe-assignment error or the first failing step's
   * error is the screening's error; otherwise the screened series and the test
   * columns are what the steps left. The series and every flag column keep the input
   * index, the missing-values column stays first, and QCF at each timestamp is the
   * sum of all test flags there with missing entries counting as 0.
   */
  function Screen(series: Series, measurement: string, units: string, name: string, site: Site,
                  pipes: Pipes, c: Collaborators): (r: Result<Screened, ScreenError>)
    requires KeepsIndex(c)
    ensures PipeAssign(pipes, measurement, name, units).Failure? ==>
              r == Failure(PipeAssign(pipes, measurement, name, units).error)
    ensures PipeAssign(pipes, measurement, name, units).Success? ==>
              var cfg := PipeAssign(pipes, measurement, name, units).value;
              var run := RunSteps(Start(series, c), cfg.pipe, cfg, site, c, c.missingValues(series).0);
              && (run.Failure? ==> r == Failure(run.error))
              && (run.Success? ==> r.Success? && r.value.series == run.value.series && r.value.tests == run.value.flags)
    ensures r.Success? ==>
              && |r.value.series| == |series| && |r.value.qcf| == |series|
              && OnIndex(ScreenState(r.value.series, r.value.tests), |series|)
              && |r.value.tests| > 0 && r.value.tests[0].0 == c.missingValues(series).0
              && (forall i :: 0 <= i < |series| ==> r.value.qcf[i] == Some(RowSum(r.value.tests, i)))
              && r.value.flags == Put(r.value.tests, QcfColumn, r.value.qcf)
  {
    var cfg :- PipeAssign(pipes, measurement, name, units);
    var missing := c.missingValues(series);
    var start := Start(series, c);
    var done :- RunSteps(start, cfg.pipe, cfg, site, c, missing.0);
    RunStepsKeepsIndex(start, cfg.pipe, cfg, site, c, missing.0, |series|);
    assert done.flags[0].0 == missing.0 by {
      assert Keys(done.flags)[0] == Keys(start.flags)[0];
    }
    var qcf := Qcf(done.flags, |series|);
    Success(Screened(done.series, Put(done.flags, QcfColumn, qcf), done.flags, qcf))
  }

  /** The limits step as the `AbsoluteLimits` test would compute it. */
  ghost predicate LimitsByAbsoluteLimits(c: Collaborators) {
    forall s, lo, hi :: c.absoluteLimits(s, lo, hi).1 == AbsoluteLimits.Run(s, lo, hi).flag
  }

  /**
   * When the limits step is the `AbsoluteLimits` test, its column flags with 2
   * exactly the present values outside [limit 0, limit 1] and with 0 the others.
   */
  lemma LimitsStepFlagsOutsideRange(st: ScreenState, cfg: PipeConfig, site: Site, c: Collaborators,
                                    missingFlag: string)
    requires missingFlag in Keys(st.flags)
    requires LimitsByAbsoluteLimits(c)
    requires cfg.absoluteLimits.Some? && |cfg.absoluteLimits.value| >= 2
    ensures var r := ApplyStep(st, StepName(AbsoluteLimitsTest), cfg, site, c, missingFlag);
            var lo := cfg.absoluteLimits.value[0];
            var hi := cfg.absoluteLimits.value[1];
            && r.Success?
            && Get(r.value.flags, c.absoluteLimits(st.series, lo, hi).0) == Some(AbsoluteLimits.Run(st.series, lo, hi).flag)
  {
    var lo := cfg.absoluteLimits.value[0];
    var hi := cfg.absoluteLimits.value[1];
    var named := c.absoluteLimits(st.series, lo, hi);
    ParseStepOfName(AbsoluteLimitsTest);
    var r := ApplyStep(st, StepName(AbsoluteLimitsTest), cfg, site, c, missingFlag);
    assert r == Execute(st, AbsoluteLimitsTest, cfg, site, c, missingFlag);
    assert r == Success(AddFlag(st, named));
    PutThenGet(st.flags, named.0, named.1);
  }
}
