/**
 * Meteoscreening of one variable downloaded from the database (class
 * MeteoScreeningFromDatabaseSingleVar): the detailed frame holds the variable's
 * values and one tag column per tag. All records must share one unit; the rows
 * are grouped by their `freq` tag, each group is screened at its own resolution,
 * its rejected values are removed, it is resampled and its tags are rewritten.
 * As written, only the first group's outputs reach the collection: the later
 * groups are still processed (and may fail), but `combine_first` returns a new
 * frame that is thrown away.
 */
module MeteoScreening {
  import opened Wrappers
  import opened TimeSeries
  import opened OrderedMap
  import Text
  import ScreenVar

  // ---------------------------------------------------------------- data

  /** The detailed frame: the variable's column (`field`) and the tag columns, in column order. */
  datatype Detailed = Detailed(values: Series, tags: Assoc<string, seq<string>>)

  /** A frame's columns have distinct names and all run over the same rows. */
  ghost predicate WellFormed(d: Detailed) {
    && UniqueKeys(d.tags)
    && forall c :: 0 <= c < |d.tags| ==> |d.tags[c].1| == |d.values|
  }

  /** The arguments of the constructor besides the frame. */
  datatype Settings = Settings(
    measurement: string,
    field: string,
    site: ScreenVar.Site,
    resamplingFreq: string,
    resamplingAgg: string,
    pipes: ScreenVar.Pipes)

  /**
   * The functions whose code is not part of this model: the screening steps'
   * collaborators, `TimestampSanitizer` and `resample_series_to_30MIN`
   * (series, target frequency, aggregation, minimum share of values).
   */
  datatype Services = Services(
    screen: ScreenVar.Collaborators,
    sanitize: Series -> Series,
    resample: (Series, string, string, real) -> Series)

  /** The exceptions a run raises. */
  datatype MeteoError =
    | Screening(cause: ScreenVar.ScreenError)
    | MixedUnits
    | MissingColumn(name: string)
    | NothingCollected

  /** One group's outputs: the resampled series with its tags, the quality-checked series and the flags. */
  datatype GroupOutput = GroupOutput(
    resampled: Series,
    tags: Assoc<string, string>,
    hiresQc: Series,
    flags: Assoc<string, Flag>)

  /** The minimum share of values per resampled period. */
  const MinCountsShare: real := 0.9

  /** The time resolution written into the tags after resampling. */
  const ResampledFreq := "30T"

  // ---------------------------------------------------------------- columns

  /** `data_detailed[name]`: a missing column raises a KeyError. */
  function Column(d: Detailed, name: string): (r: Result<seq<string>, MeteoError>)
    requires WellFormed(d)
    ensures r.Failure? <==> name !in Keys(d.tags)
    ensures r.Failure? ==> r.error == MissingColumn(name)
    ensures r.Success? ==> Get(d.tags, name) == Some(r.value) && |r.value| == |d.values|
  {
    match Get(d.tags, name)
    case None => Failure(MissingColumn(name))
    case Some(cells) =>
      var c :| 0 <= c < |d.tags| && d.tags[c] == (name, cells);
      Success(cells)
  }

  /**
   * The units check of the constructor: more than one distinct unit raises, and
   * without a `units` column the lookup itself raises.
   */
  function CheckUnits(d: Detailed): (r: Result<(), MeteoError>)
    requires WellFormed(d)
    ensures "units" !in Keys(d.tags) ==> r == Failure(MissingColumn("units"))
    ensures r.Failure? ==> r.error == MixedUnits || r.error == MissingColumn("units")
  {
    var units :- Column(d, "units");
    if |Text.Distinct(units)| > 1 then Failure(MixedUnits) else Success(())
  }

  /** At most one distinct element exactly when all elements are equal. */
  lemma DistinctAtMostOneIffAllEqual(xs: seq<string>)
    ensures |Text.Distinct(xs)| <= 1 <==> forall i, j :: 0 <= i < |xs| && 0 <= j < |xs| ==> xs[i] == xs[j]
  {
    var r := Text.Distinct(xs);
    if |xs| > 0 {
      assert xs[0] in r;
      if forall i, j :: 0 <= i < |xs| && 0 <= j < |xs| ==> xs[i] == xs[j] {
        assert forall k :: 0 <= k < |r| ==> r[k] in xs;
        assert forall k :: 0 <= k < |r| ==> r[k] == xs[0];
      }
      if |r| <= 1 {
        assert forall i :: 0 <= i < |xs| ==> xs[i] in r;
        assert forall i :: 0 <= i < |xs| ==> xs[i] == r[0];
      }
    }
  }

  /** The units check passes exactly when the frame has a `units` column whose cells are all equal. */
  lemma CheckUnitsIffOneUnit(d: Detailed)
    requires WellFormed(d)
    ensures CheckUnits(d).Success? <==>
              && Column(d, "units").Success?
              && var units := Column(d, "units").value;
                 forall i, j :: 0 <= i < |units| && 0 <= j < |units| ==> units[i] == units[j]
    ensures CheckUnits(d).Failure? && Column(d, "units").Success? ==> CheckUnits(d).error == MixedUnits
  {
    if Column(d, "units").Success? {
      DistinctAtMostOneIffAllEqual(Column(d, "units").value);
    }
  }

  // ---------------------------------------------------------------- tags

  /** `extract_tags`: every tag column becomes the comma-joined list of its distinct values. */
  function ExtractTags(tags: Assoc<string, seq<string>>): (r: Assoc<string, string>)
    ensures Keys(r) == Keys(tags)
  {
    seq(|tags|, c requires 0 <= c < |tags| => (tags[c].0, Text.Join(Text.Distinct(tags[c].1), ',')))
  }

  /**
   * When no cell holds a comma, a tag value splits back into the column's
   * distinct values in order of first appearance: every cell value occurs in it
   * exactly once.
   */
  lemma TagValueListsDistinctCells(tags: Assoc<string, seq<string>>, c: nat)
    requires c < |tags| && |tags[c].1| > 0
    requires forall i :: 0 <= i < |tags[c].1| ==> ',' !in tags[c].1[i]
    ensures var parts := Text.Split(ExtractTags(tags)[c].1, ',');
            && parts == Text.Distinct(tags[c].1)
            && (forall x :: x in parts <==> x in tags[c].1)
            && (forall i, j :: 0 <= i < j < |parts| ==> parts[i] != parts[j])
  {
    var cells := tags[c].1;
    var parts := Text.Distinct(cells);
    assert cells[0] in parts;
    forall k | 0 <= k < |parts| ensures ',' !in parts[k] {
      assert parts[k] in cells;
    }
    Text.SplitJoin(parts, ',');
  }

  /** The distinct values of a non-empty constant column are that one value. */
  lemma DistinctOfConstant(cells: seq<string>, u: string)
    requires |cells| > 0 && forall i :: 0 <= i < |cells| ==> cells[i] == u
    ensures Text.Distinct(cells) == [u]
  {
    var parts := Text.Distinct(cells);
    assert cells[0] in parts;
    DistinctAtMostOneIffAllEqual(cells);
    assert parts[0] in cells;
  }

  /** Tag extraction keeps column names unique. */
  lemma ExtractTagsKeepsUniqueKeys(tags: Assoc<string, seq<string>>)
    requires UniqueKeys(tags)
    ensures UniqueKeys(ExtractTags(tags))
  {
    var r := ExtractTags(tags);
    assert forall i :: 0 <= i < |r| ==> r[i].0 == Keys(r)[i] == Keys(tags)[i] == tags[i].0;
  }

  /** A tag column holding one value throughout becomes exactly that value. */
  lemma SingleValueTag(tags: Assoc<string, seq<string>>, name: string, u: string)
    requires UniqueKeys(tags) && Get(tags, name).Some?
    requires |Get(tags, name).value| > 0
    requires forall i :: 0 <= i < |Get(tags, name).value| ==> Get(tags, name).value[i] == u
    ensures Get(ExtractTags(tags), name) == Some(u)
  {
    var cells := Get(tags, name).value;
    var c :| 0 <= c < |tags| && tags[c] == (name, cells);
    DistinctOfConstant(cells, u);
    var r := ExtractTags(tags);
    assert r[c] == (name, u);
    ExtractTagsKeepsUniqueKeys(tags);
    GetAtPosition(r, c);
  }

  /** The tags after resampling: `freq` becomes 30T and `data_version` meteoscreening. */
  function ResampledTags(tags: Assoc<string, string>): (r: Assoc<string, string>)
    ensures Get(r, "freq") == Some(ResampledFreq)
    ensures Get(r, "data_version") == Some("meteoscreening")
  {
    assert "freq"[0] != "data_version"[0];
    PutThenGet(tags, "freq", ResampledFreq);
    PutKeepsOthers(Put(tags, "freq", ResampledFreq), "data_version", "meteoscreening", "freq");
    PutThenGet(Put(tags, "freq", ResampledFreq), "data_version", "meteoscreening");
    Put(Put(tags, "freq", ResampledFreq), "data_version", "meteoscreening")
  }

  /** The rewritten tags name the new resolution and data version; every other tag keeps its value. */
  lemma ResampledTagsRewrite(tags: Assoc<string, string>, other: string)
    requires other != "freq" && other != "data_version"
    ensures var r := ResampledTags(tags);
            && Get(r, "freq") == Some(ResampledFreq)
            && Get(r, "data_version") == Some("meteoscreening")
            && Get(r, other) == Get(tags, other)
  {
    var once := Put(tags, "freq", ResampledFreq);
    assert "freq"[0] != "data_version"[0];
    PutThenGet(tags, "freq", ResampledFreq);
    PutKeepsOthers(once, "data_version", "meteoscreening", "freq");
    PutThenGet(once, "data_version", "meteoscreening");
    PutKeepsOthers(tags, "freq", ResampledFreq, other);
    PutKeepsOthers(once, "data_version", "meteoscreening", other);
  }

  /** The existing tags keep their order and any new one comes after them. */
  lemma ResampledTagsKeepOrder(tags: Assoc<string, string>)
    ensures Keys(ResampledTags(tags))[..|tags|] == Keys(tags)
  {
    var once := Put(tags, "freq", ResampledFreq);
    var r := Put(once, "data_version", "meteoscreening");
    assert r == ResampledTags(tags);
    PutKeepsKeyOrder(tags, "freq", ResampledFreq);
    PutKeepsKeyOrder(once, "data_version", "meteoscreening");
    assert Keys(r)[..|tags|] == Keys(r)[..|once|][..|tags|];
  }

  /** Rewriting the tags never repeats a tag name. */
  lemma ResampledTagsKeepUniqueKeys(tags: Assoc<string, string>)
    requires UniqueKeys(tags)
    ensures UniqueKeys(ResampledTags(tags))
  {
    var once := Put(tags, "freq", ResampledFreq);
    PutKeepsUniqueKeys(tags, "freq", ResampledFreq);
    PutKeepsUniqueKeys(once, "data_version", "meteoscreening");
  }

  // ---------------------------------------------------------------- groups

  /** The rows whose cell equals `key`, ascending. */
  function Rows(cells: seq<string>, key: string): (ix: seq<nat>)
    ensures forall k :: 0 <= k < |ix| ==> ix[k] < |cells| && cells[ix[k]] == key
    ensures forall k, l :: 0 <= k < l < |ix| ==> ix[k] < ix[l]
    ensures forall i :: 0 <= i < |cells| && cells[i] == key ==> i in ix
  {
    if |cells| == 0 then []
    else
      var front := Rows(cells[..|cells| - 1], key);
      if cells[|cells| - 1] == key then front + [|cells| - 1] else front
  }

  /** The elements of `xs` at `rows`. */
  function Pick<T>(xs: seq<T>, rows: seq<nat>): (r: seq<T>)
    requires forall k :: 0 <= k < |rows| ==> rows[k] < |xs|
    ensures |r| == |rows|
    ensures forall k :: 0 <= k < |rows| ==> r[k] == xs[rows[k]]
  {
    seq(|rows|, k requires 0 <= k < |rows| => xs[rows[k]])
  }

  /** The sub-frame of the rows at `rows`. */
  function Group(d: Detailed, rows: seq<nat>): (g: Detailed)
    requires WellFormed(d)
    requires forall k :: 0 <= k < |rows| ==> rows[k] < |d.values|
    ensures WellFormed(g) && |g.values| == |rows| && Keys(g.tags) == Keys(d.tags)
  {
    var tags := seq(|d.tags|, c requires 0 <= c < |d.tags| => (d.tags[c].0, Pick(d.tags[c].1, rows)));
    assert forall c :: 0 <= c < |tags| ==> tags[c].0 == d.tags[c].0;
    Detailed(Pick(d.values, rows), tags)
  }

  /**
   * `groupby(freq)`: the keys are the distinct `freq` values in ascending order
   * and every row lies in the group of its own `freq` value and in no other.
   */
  lemma GroupsPartitionRows(cells: seq<string>, i: nat, key: string)
    requires i < |cells|
    ensures cells[i] in Text.SortedDistinct(cells)
    ensures i in Rows(cells, key) <==> key == cells[i]
  {
    var ix := Rows(cells, key);
    if i in ix {
      var k :| 0 <= k < |ix| && ix[k] == i;
    }
  }

  /** The first group's key is below every other `freq` value. */
  lemma FirstGroupHasSmallestKey(cells: seq<string>)
    requires |cells| > 0
    ensures var keys := Text.SortedDistinct(cells);
            |keys| > 0 && forall i :: 0 <= i < |cells| && cells[i] != keys[0] ==> Text.Below(keys[0], cells[i])
  {
    var keys := Text.SortedDistinct(cells);
    assert cells[0] in keys;
    forall i | 0 <= i < |cells| && cells[i] != keys[0] ensures Text.Below(keys[0], cells[i]) {
      assert cells[i] in keys;
      var k :| 0 <= k < |keys| && keys[k] == cells[i];
    }
  }

  // ---------------------------------------------------------------- one group

  /**
   * The screened series with every value whose QCF exceeds 0 removed: no value is
   * invented or changed, a value flagged by QCF is gone and every other value stays.
   */
  function QualityChecked(s: ScreenVar.Screened): (r: Series)
    ensures |r| == |s.series|
    ensures forall i :: 0 <= i < |r| ==> r[i] == s.series[i] || r[i].None?
    ensures forall i :: 0 <= i < |r| && i < |s.qcf| && s.qcf[i].Some? && s.qcf[i].value > 0 ==> r[i].None?
    ensures forall i :: 0 <= i < |r| && !(i < |s.qcf| && s.qcf[i].Some? && s.qcf[i].value > 0) ==> r[i] == s.series[i]
  {
    SetMissing(s.series, Exceeding(s.qcf, 0))
  }

  /**
   * With non-negative flags, a value survives the quality check exactly when
   * every flag column passes it (0 or missing).
   */
  lemma QualityCheckedKeepsOnlyCleanValues(s: ScreenVar.Screened, i: nat)
    requires |s.qcf| == |s.series| && i < |s.series|
    requires forall j :: 0 <= j < |s.series| ==> s.qcf[j] == Some(ScreenVar.RowSum(s.tests, j))
    requires ScreenVar.NonNegative(s.tests)
    ensures QualityChecked(s)[i] ==
              if forall k :: 0 <= k < |s.tests| ==> ScreenVar.Entry(s.tests[k].1, i) == 0 then s.series[i] else None
  {
    ScreenVar.QcfZeroIffAllClean(s.tests, i);
    ScreenVar.RowSumNonNegative(s.tests, i);
  }

  /**
   * The screening of one group: the group's values after sanitizing, screened with
   * the given units; a screening error is wrapped, and a screening success is the
   * group's result unchanged.
   */
  function ScreenGroup(g: Detailed, units: string, st: Settings, sv: Services): (r: Result<ScreenVar.Screened, MeteoError>)
    requires ScreenVar.KeepsIndex(sv.screen)
    ensures var screened := ScreenVar.Screen(sv.sanitize(g.values), st.measurement, units, st.field, st.site, st.pipes, sv.screen);
            && (r.Failure? <==> screened.Failure?)
            && (r.Failure? ==> r.error == Screening(screened.error))
            && (r.Success? ==> r.value == screened.value)
  {
    match ScreenVar.Screen(sv.sanitize(g.values), st.measurement, units, st.field, st.site, st.pipes, sv.screen)
    case Failure(e) => Failure(Screening(e))
    case Success(s) => Success(s)
  }

  /**
   * One pass of the group loop: extract the tags, sanitize the timestamps,
   * screen with the group's units, remove the values QCF rejects, resample and
   * rewrite the tags. It raises only a screening error or a missing units tag.
   */
  function ProcessGroup(g: Detailed, st: Settings, sv: Services): (r: Result<GroupOutput, MeteoError>)
    requires ScreenVar.KeepsIndex(sv.screen)
    ensures r.Failure? ==> r.error.Screening? || r.error == MissingColumn("units")
  {
    var tags := ExtractTags(g.tags);
    match Get(tags, "units")
    case None => Failure(MissingColumn("units"))
    case Some(units) =>
      var screened :- ScreenGroup(g, units, st, sv);
      var qc := QualityChecked(screened);
      var resampled := sv.resample(qc, st.resamplingFreq, st.resamplingAgg, MinCountsShare);
      Success(GroupOutput(resampled, ResampledTags(tags), qc, screened.flags))
  }

  /**
   * A group's outputs: without a units tag the group fails and a screening error
   * propagates; with a units tag and a successful screening the group succeeds.
   * Then the flags are the screening's; the high-resolution
   * series lies on the sanitized index and holds the screened values except
   * where QCF exceeds 0; that series is what gets resampled, with a 0.9 minimum
   * share; and the tags are the extracted ones with `freq` 30T and
   * `data_version` meteoscreening, every other tag unchanged.
   */
  lemma ProcessGroupOutputs(g: Detailed, st: Settings, sv: Services)
    requires ScreenVar.KeepsIndex(sv.screen)
    ensures var tags := ExtractTags(g.tags);
            Get(tags, "units").None? ==> ProcessGroup(g, st, sv) == Failure(MissingColumn("units"))
    ensures var tags := ExtractTags(g.tags);
            Get(tags, "units").Some? && ScreenGroup(g, Get(tags, "units").value, st, sv).Failure? ==>
              ProcessGroup(g, st, sv) == Failure(ScreenGroup(g, Get(tags, "units").value, st, sv).error)
    ensures var tags := ExtractTags(g.tags);
            Get(tags, "units").Some? && ScreenGroup(g, Get(tags, "units").value, st, sv).Success? ==>
              ProcessGroup(g, st, sv).Success?
    ensures var r := ProcessGroup(g, st, sv);
            var tags := ExtractTags(g.tags);
            r.Success? ==>
              && Get(tags, "units").Some?
              && ScreenGroup(g, Get(tags, "units").value, st, sv).Success?
              && var s := ScreenGroup(g, Get(tags, "units").value, st, sv).value;
                 && r.value.flags == s.flags
                 && |r.value.hiresQc| == |sv.sanitize(g.values)|
                 && (forall i :: 0 <= i < |r.value.hiresQc| ==>
                       r.value.hiresQc[i] == if ScreenVar.RowSum(s.tests, i) > 0 then None else s.series[i])
                 && r.value.resampled == sv.resample(r.value.hiresQc, st.resamplingFreq, st.resamplingAgg, MinCountsShare)
                 && Get(r.value.tags, "freq") == Some(ResampledFreq)
                 && Get(r.value.tags, "data_version") == Some("meteoscreening")
                 && (forall k :: k != "freq" && k != "data_version" ==> Get(r.value.tags, k) == Get(tags, k))
  {
    var r := ProcessGroup(g, st, sv);
    var tags := ExtractTags(g.tags);
    if r.Success? {
      var units := Get(tags, "units").value;
      ScreenedGroupMask(g, units, st, sv);
      assert r.value.tags == ResampledTags(tags);
      ResampledTagsRewrite(tags, "units");
      forall k | k != "freq" && k != "data_version" ensures Get(r.value.tags, k) == Get(tags, k) {
        ResampledTagsRewrite(tags, k);
      }
    }
  }

  /**
   * The high-resolution series of a screened group lies on the sanitized index;
   * a value is removed exactly where QCF exceeds 0 and is otherwise unchanged.
   */
  lemma ScreenedGroupMask(g: Detailed, units: string, st: Settings, sv: Services)
    requires ScreenVar.KeepsIndex(sv.screen)
    ensures ScreenGroup(g, units, st, sv).Success? ==>
              var s := ScreenGroup(g, units, st, sv).value;
              && |QualityChecked(s)| == |sv.sanitize(g.values)|
              && forall i :: 0 <= i < |QualityChecked(s)| ==>
                   QualityChecked(s)[i] == if ScreenVar.RowSum(s.tests, i) > 0 then None else s.series[i]
  {
    if ScreenGroup(g, units, st, sv).Success? {
      var s := ScreenGroup(g, units, st, sv).value;
      assert s == ScreenVar.Screen(sv.sanitize(g.values), st.measurement, units, st.field, st.site, st.pipes, sv.screen).value;
    }
  }

  // ---------------------------------------------------------------- the group loop

  /** `groupby(freq)`: the sub-frame of every key, in key order. */
  function Groups(d: Detailed, cells: seq<string>, keys: seq<string>): (groups: seq<Detailed>)
    requires WellFormed(d) && |cells| == |d.values|
    ensures |groups| == |keys|
    ensures forall k :: 0 <= k < |keys| ==> groups[k] == Group(d, Rows(cells, keys[k]))
  {
    seq(|keys|, k requires 0 <= k < |keys| => Group(d, Rows(cells, keys[k])))
  }

  /**
   * `_run_by_freq_group` over the remaining groups: the first group's outputs
   * become the collection, later groups run but their outputs are discarded;
   * the first failing group's error propagates.
   */
  function Collect(groups: seq<Detailed>, acc: Option<GroupOutput>, st: Settings, sv: Services)
    : (r: Result<Option<GroupOutput>, MeteoError>)
    requires ScreenVar.KeepsIndex(sv.screen)
    ensures r.Success? && acc.Some? ==> r.value == acc
    ensures r.Success? && acc.None? && |groups| > 0 ==>
              ProcessGroup(groups[0], st, sv).Success? && r.value == Some(ProcessGroup(groups[0], st, sv).value)
    ensures |groups| == 0 ==> r == Success(acc)
    ensures r.Failure? ==> r.error.Screening? || r.error == MissingColumn("units")
    decreases |groups|
  {
    if |groups| == 0 then Success(acc)
    else
      var out :- ProcessGroup(groups[0], st, sv);
      Collect(groups[1..], if acc.None? then Some(out) else acc, st, sv)
  }

  /** Some group fails. */
  ghost predicate SomeGroupFails(groups: seq<Detailed>, st: Settings, sv: Services)
    requires ScreenVar.KeepsIndex(sv.screen)
  {
    exists k :: 0 <= k < |groups| && ProcessGroup(groups[k], st, sv).Failure?
  }

  /** An element satisfies `p` exactly when the first one does or one of the rest does. */
  lemma ExistsFirstOrRest<T>(xs: seq<T>, p: T -> bool)
    requires |xs| > 0
    ensures (exists k :: 0 <= k < |xs| && p(xs[k])) <==> p(xs[0]) || exists k :: 0 <= k < |xs[1..]| && p(xs[1..][k])
  {
    if exists k :: 0 <= k < |xs| && p(xs[k]) {
      var k :| 0 <= k < |xs| && p(xs[k]);
      if k > 0 {
        assert xs[1..][k - 1] == xs[k];
      }
    }
    if exists k :: 0 <= k < |xs[1..]| && p(xs[1..][k]) {
      var k :| 0 <= k < |xs[1..]| && p(xs[1..][k]);
      assert xs[1..][k] == xs[k + 1];
    }
  }

  /** Some group fails exactly when the first one does or some later one does. */
  lemma SomeGroupFailsStep(groups: seq<Detailed>, st: Settings, sv: Services)
    requires ScreenVar.KeepsIndex(sv.screen)
    requires |groups| > 0
    ensures SomeGroupFails(groups, st, sv) <==>
              ProcessGroup(groups[0], st, sv).Failure? || SomeGroupFails(groups[1..], st, sv)
  {
    var fails := g => ProcessGroup(g, st, sv).Failure?;
    ExistsFirstOrRest(groups, fails);
    assert SomeGroupFails(groups, st, sv) <==> exists k :: 0 <= k < |groups| && fails(groups[k]);
    assert SomeGroupFails(groups[1..], st, sv) <==> exists k :: 0 <= k < |groups[1..]| && fails(groups[1..][k]);
  }

  /** The loop fails exactly when some group fails, with the error of the first group if that one fails. */
  lemma {:induction false} CollectFailsIffSomeGroupFails(groups: seq<Detailed>, acc: Option<GroupOutput>,
                                                         st: Settings, sv: Services)
    requires ScreenVar.KeepsIndex(sv.screen)
    ensures Collect(groups, acc, st, sv).Failure? <==> SomeGroupFails(groups, st, sv)
    ensures |groups| > 0 && ProcessGroup(groups[0], st, sv).Failure? ==>
              Collect(groups, acc, st, sv) == Failure(ProcessGroup(groups[0], st, sv).error)
    decreases |groups|
  {
    if |groups| > 0 {
      SomeGroupFailsStep(groups, st, sv);
      var first := ProcessGroup(groups[0], st, sv);
      if first.Success? {
        var next := if acc.None? then Some(first.value) else acc;
        assert Collect(groups, acc, st, sv) == Collect(groups[1..], next, st, sv);
        CollectFailsIffSomeGroupFails(groups[1..], next, st, sv);
      } else {
        assert Collect(groups, acc, st, sv) == Failure(first.error);
      }
    }
  }

  // ---------------------------------------------------------------- the whole run

  /**
   * Construction and `run`: check the units, group by `freq`, screen every group
   * in ascending `freq` order and return the collection. With no group the
   * collection is never set and `run` fails.
   */
  function Run(d: Detailed, st: Settings, sv: Services): (r: Result<GroupOutput, MeteoError>)
    requires WellFormed(d) && ScreenVar.KeepsIndex(sv.screen)
    ensures CheckUnits(d).Failure? ==> r == Failure(CheckUnits(d).error)
    ensures CheckUnits(d).Success? && Column(d, "freq").Failure? ==> r == Failure(MissingColumn("freq"))
  {
    var unitsChecked :- CheckUnits(d);
    var cells :- Column(d, "freq");
    var coll :- Collect(Groups(d, cells, Text.SortedDistinct(cells)), None, st, sv);
    if coll.None? then Failure(NothingCollected) else Success(coll.value)
  }

  /**
   * A successful run returns exactly the outputs of the group with the smallest
   * `freq` value: every other group's outputs are lost.
   */
  lemma RunIsFirstGroup(d: Detailed, st: Settings, sv: Services)
    requires WellFormed(d) && ScreenVar.KeepsIndex(sv.screen)
    ensures var r := Run(d, st, sv);
            r.Success? ==>
              && Column(d, "freq").Success?
              && var cells := Column(d, "freq").value;
                 var keys := Text.SortedDistinct(cells);
                 && |keys| > 0
                 && Success(r.value) == ProcessGroup(Group(d, Rows(cells, keys[0])), st, sv)
                 && forall i :: 0 <= i < |cells| && cells[i] != keys[0] ==> Text.Below(keys[0], cells[i])
  {
    var r := Run(d, st, sv);
    if r.Success? {
      assert CheckUnits(d).Success? && Column(d, "freq").Success?;
      var cells := Column(d, "freq").value;
      var keys := Text.SortedDistinct(cells);
      var groups := Groups(d, cells, keys);
      var coll := Collect(groups, None, st, sv);
      assert coll.Success? && coll.value.Some?;
      assert |keys| > 0 && groups[0] == Group(d, Rows(cells, keys[0]));
      FirstGroupHasSmallestKey(cells);
    }
  }

  /** A frame with a single unit and a `freq` column but no rows has no group, so the run fails. */
  lemma RunWithoutRowsCollectsNothing(d: Detailed, st: Settings, sv: Services)
    requires WellFormed(d) && ScreenVar.KeepsIndex(sv.screen)
    requires CheckUnits(d).Success? && Column(d, "freq").Success?
    ensures Run(d, st, sv) == Failure(NothingCollected) <==> |d.values| == 0
  {
    var cells := Column(d, "freq").value;
    var keys := Text.SortedDistinct(cells);
    var coll := Collect(Groups(d, cells, keys), None, st, sv);
    if |d.values| > 0 {
      assert cells[0] in keys;
      assert coll.Success? ==> coll.value.Some?;
    } else {
      assert keys == [];
      assert coll == Success(None);
    }
  }

  /** Once the units and `freq` checks pass, the run fails exactly when some `freq` group fails. */
  lemma RunFailsIffSomeGroupFails(d: Detailed, st: Settings, sv: Services)
    requires WellFormed(d) && ScreenVar.KeepsIndex(sv.screen)
    requires CheckUnits(d).Success? && Column(d, "freq").Success? && |d.values| > 0
    ensures var cells := Column(d, "freq").value;
            Run(d, st, sv).Failure? <==> SomeGroupFails(Groups(d, cells, Text.SortedDistinct(cells)), st, sv)
  {
    var cells := Column(d, "freq").value;
    var keys := Text.SortedDistinct(cells);
    var groups := Groups(d, cells, keys);
    assert cells[0] in keys;
    CollectFailsIffSomeGroupFails(groups, None, st, sv);
  }

  /**
   * Every group of a frame that passed the units check is screened with the
   * frame's single unit.
   */
  lemma GroupsScreenWithTheUnit(d: Detailed, cells: seq<string>, key: string)
    requires WellFormed(d) && CheckUnits(d).Success? && |cells| == |d.values| && key in cells
    ensures var units := Column(d, "units").value;
            Get(ExtractTags(Group(d, Rows(cells, key)).tags), "units") == Some(units[0])
  {
    CheckUnitsIffOneUnit(d);
    var units := Column(d, "units").value;
    var rows := Rows(cells, key);
    var i :| 0 <= i < |cells| && cells[i] == key;
    assert i in rows;
    var picked := Pick(units, rows);
    assert forall k :: 0 <= k < |picked| ==> picked[k] == units[0];
    var g := Group(d, rows);
    GroupColumn(d, rows, "units", units);
    SingleValueTag(g.tags, "units", units[0]);
  }

  /** A group's column is the frame's column restricted to the group's rows. */
  lemma GroupColumn(d: Detailed, rows: seq<nat>, name: string, column: seq<string>)
    requires WellFormed(d) && Get(d.tags, name) == Some(column)
    requires forall k :: 0 <= k < |rows| ==> rows[k] < |d.values|
    ensures |column| == |d.values|
    ensures Get(Group(d, rows).tags, name) == Some(Pick(column, rows))
  {
    var c :| 0 <= c < |d.tags| && d.tags[c] == (name, column);
    var g := Group(d, rows);
    assert g.tags[c] == (name, Pick(column, rows));
    GetAtPosition(g.tags, c);
  }

}
