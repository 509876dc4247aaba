/** Checker results arrive in dependency order; reports leave in input order. */
module ReportAssembly {
  import opened Wrappers
  import opened Counting

  datatype FileInput = FileInput(name: string, source: string)

  /** What the checker says about one unit. */
  datatype CheckResult = CheckResult(unitSlot: nat, ordinal: nat, channels: Channels)

  datatype Channels = Channels(diagnostics: seq<string>, incomplete: seq<string>)

  datatype FileReport = FileReport(name: string, source: string, parseErrors: seq<string>, channels: Channels)

  datatype AssemblyError =
    | InputCoverage
    | ParseCoverage
    | ProjectUnitOutOfRange
    | DuplicateProjectUnit
    | ResultCoverage
    | ResultOrder
    | ResultOutOfRange
    | ResultMisindexed
    | DuplicateResult
    | MissingResult

  datatype Outcome = Reports(reports: seq<FileReport>) | Failed(error: AssemblyError)

  /** The units are the inputs in some order. */
  ghost predicate Permutes(units: seq<nat>, n: nat) {
    |units| == n && Distinct(units) && forall k | 0 <= k < |units| :: units[k] < n
  }

  /** Result k is for slot k and for the unit in slot k. */
  ghost predicate InStep(units: seq<nat>, results: seq<CheckResult>, upTo: nat)
    requires upTo <= |units| && upTo <= |results|
  {
    forall k | 0 <= k < upTo :: results[k].unitSlot == k && results[k].ordinal == units[k]
  }

  ghost function Filled(channels: seq<Option<Channels>>): multiset<Channels> {
    if channels == [] then multiset{}
    else Filled(channels[1..]) + if channels[0].Some? then multiset{channels[0].value} else multiset{}
  }

  lemma FilledFirst(channels: seq<Option<Channels>>)
    requires channels != []
    ensures Filled(channels) == Filled(channels[1..]) + if channels[0].Some? then multiset{channels[0].value} else multiset{}
  {
  }

  lemma {:induction false} FillOne(channels: seq<Option<Channels>>, i: nat, c: Channels)
    requires i < |channels| && channels[i].None?
    ensures Filled(channels[i := Some(c)]) == Filled(channels) + multiset{c}
  {
    hide Filled;
    var after := channels[i := Some(c)];
    FilledFirst(channels);
    FilledFirst(after);
    if i == 0 {
      assert after[1..] == channels[1..];
    } else {
      FillOne(channels[1..], i - 1, c);
      assert after[1..] == channels[1..][i - 1 := Some(c)];
    }
  }

  lemma {:induction false} NothingFilled(channels: seq<Option<Channels>>)
    requires forall i | 0 <= i < |channels| :: channels[i].None?
    ensures Filled(channels) == multiset{}
  {
    if channels != [] {
      NothingFilled(channels[1..]);
    }
  }

  function AllChannels(results: seq<CheckResult>): (r: seq<Channels>)
    ensures |r| == |results| && forall i | 0 <= i < |r| :: r[i] == results[i].channels
  {
    seq(|results|, i requires 0 <= i < |results| => results[i].channels)
  }

  function ReportChannels(reports: seq<FileReport>): (r: seq<Channels>)
    ensures |r| == |reports| && forall i | 0 <= i < |r| :: r[i] == reports[i].channels
  {
    seq(|reports|, i requires 0 <= i < |reports| => reports[i].channels)
  }

  /** The first unit that cannot be marked off. */
  ghost predicate FirstBadUnit(units: seq<nat>, n: nat, s: nat) {
    s < |units| && Distinct(units[..s]) && (forall k | 0 <= k < s :: units[k] < n) && (units[s] >= n || units[s] in units[..s])
  }

  ghost function UnitError(units: seq<nat>, n: nat, s: nat): AssemblyError
    requires s < |units|
  {
    if units[s] >= n then ProjectUnitOutOfRange else DuplicateProjectUnit
  }

  /** Check that the units are a permutation of the inputs by marking them off. */
  method MarkUnits(units: seq<nat>, n: nat) returns (error: Option<AssemblyError>)
    requires |units| == n
    ensures error.None? <==> Permutes(units, n)
    ensures error.Some? ==> exists s: nat :: FirstBadUnit(units, n, s) && error.value == UnitError(units, n, s)
  {
    var seen := new bool[n](i => false);
    for s := 0 to n
      invariant Distinct(units[..s]) && forall k | 0 <= k < s :: units[k] < n
      invariant forall i | 0 <= i < n :: seen[i] <==> i in units[..s]
    {
      assert units[..s + 1] == units[..s] + [units[s]];
      if units[s] >= n {
        assert FirstBadUnit(units, n, s);
        return Some(ProjectUnitOutOfRange);
      }
      if seen[units[s]] {
        var k :| 0 <= k < s && units[k] == units[s];
        assert FirstBadUnit(units, n, s);
        return Some(DuplicateProjectUnit);
      }
      seen[units[s]] := true;
    }
    assert units[..n] == units;
    return None;
  }

  /** The first `k` results are in their slots and the other slots are free. */
  ghost predicate Placed(units: seq<nat>, results: seq<CheckResult>, k: nat, slots: seq<Option<Channels>>) {
    && k <= |units| == |results| == |slots| && Permutes(units, |slots|)
    && (forall j | 0 <= j < k :: slots[units[j]] == Some(results[j].channels))
    && (forall j | k <= j < |units| :: slots[units[j]] == None)
    && Filled(slots) == multiset(AllChannels(results)[..k])
  }

  lemma PlaceOne(units: seq<nat>, results: seq<CheckResult>, k: nat, slots: seq<Option<Channels>>)
    requires Placed(units, results, k, slots) && k < |units|
    ensures units[k] < |slots| && slots[units[k]] == None
    ensures Placed(units, results, k + 1, slots[units[k] := Some(results[k].channels)])
  {
    hide Filled;
    FillOne(slots, units[k], results[k].channels);
    assert AllChannels(results)[..k + 1] == AllChannels(results)[..k] + [results[k].channels];
  }

  /** The first result that is out of step. */
  ghost predicate FirstMisstep(units: seq<nat>, results: seq<CheckResult>, k: nat) {
    && k < |units| && k < |results| && InStep(units, results, k)
    && (results[k].unitSlot != k || results[k].ordinal != units[k])
  }

  /** A wrong slot is reported first, then a unit that does not exist, then another unit. */
  ghost function MisstepError(units: seq<nat>, r: CheckResult, k: nat): AssemblyError {
    if r.unitSlot != k then ResultOrder else if r.ordinal >= |units| then ResultOutOfRange else ResultMisindexed
  }

  /** Put every result in the slot of its input. */
  method Distribute(units: seq<nat>, results: seq<CheckResult>, n: nat)
      returns (error: Option<AssemblyError>, channels: seq<Option<Channels>>)
    requires Permutes(units, n) && |results| == n
    ensures error.None? <==> InStep(units, results, n)
    ensures error.Some? ==> exists k: nat :: FirstMisstep(units, results, k) && error.value == MisstepError(units, results[k], k)
    ensures error.None? ==> Placed(units, results, n, channels)
  {
    hide Placed;
    var slots := new Option<Channels>[n](i => None);
    StartPlacing(units, results, slots[..]);
    for k := 0 to n
      invariant InStep(units, results, k) && Placed(units, results, k, slots[..])
    {
      var r := results[k];
      assert r.unitSlot != k || r.ordinal != units[k] ==> FirstMisstep(units, results, k);
      if r.unitSlot != k {
        return Some(ResultOrder), [];
      }
      if r.ordinal >= n {
        return Some(ResultOutOfRange), [];
      }
      if units[k] != r.ordinal {
        return Some(ResultMisindexed), [];
      }
      PlaceOne(units, results, k, slots[..]);
      if slots[r.ordinal].Some? {
        return Some(DuplicateResult), [];
      }
      ghost var before := slots[..];
      slots[r.ordinal] := Some(r.channels);
      assert slots[..] == before[r.ordinal := Some(r.channels)];
    }
    return None, slots[..];
  }

  lemma StartPlacing(units: seq<nat>, results: seq<CheckResult>, slots: seq<Option<Channels>>)
    requires |results| == |slots| && Permutes(units, |slots|) && forall i | 0 <= i < |slots| :: slots[i] == None
    ensures Placed(units, results, 0, slots)
  {
    NothingFilled(slots);
    assert AllChannels(results)[..0] == [];
  }

  lemma {:induction false} FilledIsAll(channels: seq<Option<Channels>>, reports: seq<FileReport>)
    requires |channels| == |reports| && forall i | 0 <= i < |channels| :: channels[i] == Some(reports[i].channels)
    ensures Filled(channels) == multiset(ReportChannels(reports))
  {
    if channels != [] {
      FilledIsAll(channels[1..], reports[1..]);
      assert ReportChannels(reports) == [reports[0].channels] + ReportChannels(reports[1..]);
    } else {
      assert ReportChannels(reports) == [];
    }
  }

  /** Assembly succeeds exactly when the units permute the inputs and every result is in step with its
      slot and unit.  Report i then holds input i, its parse errors and its one result; nothing the
      checker said is lost or doubled; the last two errors never occur. */
  method Assemble(inputs: seq<FileInput>, parseErrors: seq<seq<string>>, units: seq<nat>, results: seq<CheckResult>)
      returns (r: Outcome)
    ensures r.Reports? <==> && |parseErrors| == |inputs| && Permutes(units, |inputs|)
                            && |results| == |inputs| && InStep(units, results, |inputs|)
    ensures r.Reports? ==> |r.reports| == |inputs|
    ensures r.Reports? ==> forall i | 0 <= i < |inputs| ::
              r.reports[i].name == inputs[i].name && r.reports[i].source == inputs[i].source
              && r.reports[i].parseErrors == parseErrors[i]
    ensures r.Reports? ==> forall k | 0 <= k < |units| :: units[k] < |inputs| && r.reports[units[k]].channels == results[k].channels
    ensures r.Reports? ==> multiset(ReportChannels(r.reports)) == multiset(AllChannels(results))
    ensures r.Failed? ==> r.error != DuplicateResult && r.error != MissingResult
    ensures r == Failed(InputCoverage) <==> |units| != |inputs|
    ensures r == Failed(ParseCoverage) <==> |units| == |inputs| && |parseErrors| != |inputs|
    ensures var n := |inputs|;
            |units| == |parseErrors| == n && !Permutes(units, n) ==>
              exists s: nat :: FirstBadUnit(units, n, s) && r == Failed(UnitError(units, n, s))
    ensures |parseErrors| == |inputs| && Permutes(units, |inputs|) && |results| != |inputs| ==> r == Failed(ResultCoverage)
    ensures |parseErrors| == |inputs| && Permutes(units, |inputs|) && |results| == |inputs| && !InStep(units, results, |inputs|) ==>
              exists k: nat :: FirstMisstep(units, results, k) && r == Failed(MisstepError(units, results[k], k))
  {
    hide Filled;
    var n := |inputs|;
    if |units| != n {
      return Failed(InputCoverage);
    }
    if |parseErrors| != n {
      return Failed(ParseCoverage);
    }
    var bad := MarkUnits(units, n);
    if bad.Some? {
      return Failed(bad.value);
    }
    if |results| != n {
      return Failed(ResultCoverage);
    }
    var error, channels := Distribute(units, results, n);
    if error.Some? {
      return Failed(error.value);
    }
    assert AllChannels(results)[..n] == AllChannels(results);
    var reports: seq<FileReport> := [];
    for i := 0 to n
      invariant |reports| == i
      invariant forall j | 0 <= j < i :: channels[j].Some?
      invariant forall j | 0 <= j < i :: reports[j] == FileReport(inputs[j].name, inputs[j].source, parseErrors[j], channels[j].value)
    {
      DistinctCovers(units, i);
      ghost var k :| 0 <= k < n && units[k] == i;
      if channels[i].None? {
        return Failed(MissingResult);
      }
      reports := reports + [FileReport(inputs[i].name, inputs[i].source, parseErrors[i], channels[i].value)];
    }
    FilledIsAll(channels, reports);
    return Reports(reports);
  }
}
