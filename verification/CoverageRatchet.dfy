/** The coverage ratchet over LCOV texts. What it keeps is weaker than raise-only, and is proved exactly. */
module CoverageRatchet {
  import opened Collections
  import opened Text
  import opened Lcov

  type Report = map<string, Percents>

  /** A file's entry in the baseline: JSON writes a number that is not finite as null. */
  datatype Entry = Entry(functions: Option<real>, lines: Option<real>)
  type Baseline = map<string, Entry>

  datatype Metric = Functions | Lines

  const TOLERANCE := 1.0

  function Stored(n: Num): Option<real> { if n.Finite? then Some(n.value) else None }

  function Written(report: Report): Baseline {
    map file | file in report :: Entry(Stored(report[file].functions), Some(report[file].lines))
  }

  function Was(e: Entry, m: Metric): Option<real> { if m == Functions then e.functions else e.lines }

  function Now(p: Percents, m: Metric): Num { if m == Functions then p.functions else Finite(p.lines) }

  /** `now < bound`, which is false of what is not a number. */
  predicate Under(now: Num, bound: real) { now == Infinite(false) || (now.Finite? && now.value < bound) }

  /** In arithmetic null is 0. */
  function AsNumber(was: Option<real>): real { if was.Some? then was.value else 0.0 }

  datatype Regression = Regression(file: string, metric: Metric, was: Option<real>, now: Num)

  /** The metric of a file in both fell by more than the tolerance. */
  predicate Regressed(baseline: Baseline, current: Report, tolerance: real, file: string, m: Metric) {
    file in baseline && file in current && Under(Now(current[file], m), AsNumber(Was(baseline[file], m)) - tolerance)
  }

  ghost predicate Regresses(baseline: Baseline, current: Report, tolerance: real) {
    exists file, m :: Regressed(baseline, current, tolerance, file, m)
  }

  ghost predicate IsRegression(baseline: Baseline, current: Report, tolerance: real, r: Regression) {
    && Regressed(baseline, current, tolerance, r.file, r.metric)
    && r.was == Was(baseline[r.file], r.metric) && r.now == Now(current[r.file], r.metric)
  }

  /** A file that is gone from the report is no regression. */
  method FindRegressions(baseline: Baseline, current: Report, tolerance: real) returns (out: seq<Regression>)
    ensures forall r :: r in out <==> IsRegression(baseline, current, tolerance, r)
  {
    out := [];
    var todo := baseline.Keys;
    while todo != {}
      invariant todo <= baseline.Keys
      invariant forall r :: r in out <==> IsRegression(baseline, current, tolerance, r) && r.file !in todo
    {
      var file :| file in todo;
      todo := todo - {file};
      if file !in current { continue; }
      var was, now := baseline[file], current[file];
      if Under(now.functions, AsNumber(was.functions) - tolerance) {
        out := out + [Regression(file, Functions, was.functions, now.functions)];
      }
      if Under(Finite(now.lines), AsNumber(was.lines) - tolerance) {
        out := out + [Regression(file, Lines, was.lines, Finite(now.lines))];
      }
    }
  }

  /** The flags of one run, and the text of the report, if there is one. */
  datatype Call = Call(update: bool, acceptDrop: bool, lcov: Option<string>)

  ghost function ExitCode(baseline: Option<Baseline>, call: Call): nat {
    if call.lcov.None? || PercentsIn(call.lcov.value) == map[] then 2
    else if call.acceptDrop && !call.update then 2
    else if baseline.None? then (if call.update then 0 else 2)
    else if call.update && call.acceptDrop then 0
    else if Regresses(baseline.value, PercentsIn(call.lcov.value), TOLERANCE) then 1
    else 0
  }

  ghost predicate Step(before: Option<Baseline>, call: Call, code: nat, after: Option<Baseline>) {
    && code == ExitCode(before, call)
    && after == if code == 0 && call.update then Some(Written(PercentsIn(call.lcov.value))) else before
  }

  class Ratchet {
    var baseline: Option<Baseline>

    method Run(update: bool, acceptDrop: bool, lcov: Option<string>) returns (code: nat)
      modifies this
      ensures Step(old(baseline), Call(update, acceptDrop, lcov), code, baseline)
    {
      if lcov.None? { return 2; }
      var current := ParseLcov(lcov.value);
      if current == map[] { return 2; }
      if acceptDrop && !update { return 2; }
      if baseline.None? {
        if !update { return 2; }
        baseline := Some(Written(current));
        return 0;
      }
      var regressions := FindRegressions(baseline.value, current, TOLERANCE);
      RegressesIffFound(baseline.value, current, regressions);
      if update {
        if regressions != [] && !acceptDrop { return 1; }
        baseline := Some(Written(current));
        return 0;
      }
      return if regressions != [] then 1 else 0;
    }
  }

  lemma {:induction false} RegressesIffFound(baseline: Baseline, current: Report, out: seq<Regression>)
    requires forall r :: r in out <==> IsRegression(baseline, current, TOLERANCE, r)
    ensures out != [] <==> Regresses(baseline, current, TOLERANCE)
  {
    if out != [] { assert out[0] in out; }
    if file, m :| Regressed(baseline, current, TOLERANCE, file, m) {
      assert Regression(file, m, Was(baseline[file], m), Now(current[file], m)) in out;
    }
  }

  // ---------------------------------------------------------------- one update

  /** An update that wrote, without `--accept-drop`. */
  ghost predicate Updates(before: Option<Baseline>, text: string, after: Option<Baseline>) {
    Step(before, Call(true, false, Some(text)), 0, after)
  }

  /** Both entries are numbers, the later one at most the tolerance lower. */
  predicate Bounded(was: Option<real>, now: Option<real>) {
    was.Some? && now.Some? && now.value >= was.value - TOLERANCE
  }

  /**
   * An accepted update keeps a kept file's metric within the tolerance exactly when the metric was a number and the
   * report has a finite one. For lines the second always holds. With null read as 0, as the comparison reads it, a
   * metric can fall further only from above the tolerance to what is not finite.
   */
  lemma {:induction false} BoundedIffNumbers(before: Baseline, report: Report, file: string, m: Metric)
    requires !Regresses(before, report, TOLERANCE) && file in before && file in report
    ensures Bounded(Was(before[file], m), Was(Written(report)[file], m)) <==>
      Was(before[file], m).Some? && Now(report[file], m).Finite?
    ensures AsNumber(Was(Written(report)[file], m)) >= AsNumber(Was(before[file], m)) - TOLERANCE <==>
      Now(report[file], m).Finite? || AsNumber(Was(before[file], m)) <= TOLERANCE
    ensures Now(report[file], Lines).Finite? && Was(Written(report)[file], Lines).Some?
  {
    assert !Regressed(before, report, TOLERANCE, file, m);
  }

  /** The same of a run on a text. */
  lemma {:induction false} UpdateBoundedIff(before: Baseline, text: string, after: Option<Baseline>, file: string,
                                            m: Metric)
    requires Updates(Some(before), text, after) && file in before && file in PercentsIn(text)
    ensures after.Some? && file in after.value
    ensures Bounded(Was(before[file], m), Was(after.value[file], m)) <==>
      Was(before[file], m).Some? && Now(PercentsIn(text)[file], m).Finite?
    ensures AsNumber(Was(after.value[file], m)) >= AsNumber(Was(before[file], m)) - TOLERANCE <==>
      Now(PercentsIn(text)[file], m).Finite? || AsNumber(Was(before[file], m)) <= TOLERANCE
    ensures Was(after.value[file], Lines).Some?
  {
    BoundedIffNumbers(before, PercentsIn(text), file, m);
  }

  /** Any report of one file whose functions do not drop may be written over any baseline. */
  lemma {:induction false} OneFileUpdates(before: Baseline, text: string, file: string, p: Percents)
    requires PercentsIn(text) == map[file := p]
    requires file in before ==>
      !Under(p.functions, AsNumber(before[file].functions) - TOLERANCE) &&
        p.lines >= AsNumber(before[file].lines) - TOLERANCE
    ensures Updates(Some(before), text, Some(map[file := Entry(Stored(p.functions), Some(p.lines))]))
  {
    var report := PercentsIn(text);
    assert file in report;
    forall f, m ensures !Regressed(before, report, TOLERANCE, f, m) {}
    assert Written(report) == map[file := Entry(Stored(p.functions), Some(p.lines))];
  }

  /**
   * A function count that is not a number takes the metric of a kept file from any number to null, and the next
   * update from there to any percentage: the two updates pass whatever was covered before.
   */
  lemma {:induction false} NotANumberForgets(name: string, was: real, found: nat, hit: nat)
    returns (bad: string, good: string, between: Option<Baseline>, after: Option<Baseline>)
    requires IsName(name) && hit <= found <= MAX_SAFE
    ensures bad == "SF:" + name + "\nFNF:x\n"
    ensures Updates(Some(map[Slashed(name) := Entry(Some(was), Some(100.0))]), bad, between)
    ensures Updates(between, good, after)
    ensures between == Some(map[Slashed(name) := Entry(None, Some(100.0))])
    ensures after == Some(map[Slashed(name) :=
      Entry(Stored(Percent(Finite(hit as real), Finite(found as real))), Some(100.0))])
  {
    var file, c := Slashed(name), Covered(name, found, hit, []);
    bad := NoNumberText(name);
    good := OneFileText(c);
    var p := PercentsOf(RecordOf(c));
    between := Some(map[file := Entry(None, Some(100.0))]);
    after := Some(map[file := Entry(Stored(p.functions), Some(100.0))]);
    OneFileUpdates(map[file := Entry(Some(was), Some(100.0))], bad, file, Percents(NaN, 100.0));
    PercentIsShare(hit, found);
    OneFileUpdates(between.value, good, file, p);
  }

  lemma {:induction false} PercentIsShare(hit: nat, found: nat)
    requires hit <= found
    ensures Percent(Finite(hit as real), Finite(found as real)) == Finite(LinePercent(hit, found))
    ensures LinePercent(hit, found) >= 0.0
  {
    ShareIsPercentage(hit, found);
  }

  // ---------------------------------------------------------------- histories

  datatype Run = Run(call: Call, code: nat)

  ghost predicate History(baselines: seq<Option<Baseline>>, runs: seq<Run>) {
    && |baselines| == |runs| + 1
    && forall i :: 0 <= i < |runs| ==> Step(baselines[i], runs[i].call, runs[i].code, baselines[i + 1])
  }

  ghost predicate Holds(baseline: Option<Baseline>, file: string) { baseline.Some? && file in baseline.value }

  /** A kept file's metric in the baseline. */
  function Value(baseline: Option<Baseline>, file: string, m: Metric): Option<real> {
    if baseline.Some? && file in baseline.value then Was(baseline.value[file], m) else None
  }

  /** The same as a number, where there is one. */
  function Level(baseline: Option<Baseline>, file: string, m: Metric): real { AsNumber(Value(baseline, file, m)) }

  /** How many of the runs from i to j wrote the baseline. */
  function Writes(runs: seq<Run>, i: nat, j: nat): nat
    requires i <= j <= |runs|
  {
    if i == j then 0 else Writes(runs, i, j - 1) + WritesAt(runs, j - 1)
  }

  function WritesAt(runs: seq<Run>, i: nat): nat
    requires i < |runs|
  {
    if runs[i].code == 0 && runs[i].call.update then 1 else 0
  }

  /** A value lowered by so many tolerances. */
  function Lowered(was: real, times: nat): real { was - times as real * TOLERANCE }

  lemma {:induction false} LoweredTwice(was: real, times: nat, more: nat)
    ensures Lowered(Lowered(was, times), more) == Lowered(was, times + more)
    ensures forall x: real, y: real :: x >= y ==> Lowered(x, more) >= Lowered(y, more)
  {
  }

  /** A run that writes nothing leaves the baseline; one that writes is an update. */
  lemma {:induction false} StepLowersLittle(before: Option<Baseline>, call: Call, code: nat, after: Option<Baseline>,
                                            file: string, m: Metric)
    requires Step(before, call, code, after) && !call.acceptDrop
    requires Value(before, file, m).Some? && Value(after, file, m).Some?
    ensures code != 0 || !call.update ==> after == before
    ensures Bounded(Value(before, file, m), Value(after, file, m))
  {
    if code == 0 && call.update {
      UpdateBoundedIff(before.value, call.lcov.value, after, file, m);
    }
  }

  /** No run from i to j has `--accept-drop`, and the metric is a number before and after each. */
  ghost predicate StaysNumber(baselines: seq<Option<Baseline>>, runs: seq<Run>, i: nat, j: nat, file: string, m: Metric)
    requires |baselines| == |runs| + 1 && i <= j <= |runs|
  {
    && (forall k :: i <= k < j ==> !runs[k].call.acceptDrop)
    && forall k :: i <= k <= j ==> Value(baselines[k], file, m).Some?
  }

  /** While a file's metric stays a number, k writes without `--accept-drop` lower it by at most k tolerances. */
  lemma {:induction false} LowersAtMostPerWrite(baselines: seq<Option<Baseline>>, runs: seq<Run>, i: nat, j: nat,
                                                file: string, m: Metric)
    requires History(baselines, runs) && i <= j <= |runs| && StaysNumber(baselines, runs, i, j, file, m)
    ensures Level(baselines[j], file, m) >= Lowered(Level(baselines[i], file, m), Writes(runs, i, j))
  {
    var levels := seq(|baselines|, k requires 0 <= k < |baselines| => Level(baselines[k], file, m));
    forall k | i <= k < j ensures levels[k + 1] >= Lowered(levels[k], WritesAt(runs, k)) {
      OneRunLower(baselines, runs, k, file, m);
    }
    LowersStepByStep(levels, runs, i, j);
  }

  lemma {:induction false} LowersStepByStep(levels: seq<real>, runs: seq<Run>, i: nat, j: nat)
    requires |levels| == |runs| + 1 && i <= j <= |runs|
    requires forall k :: i <= k < j ==> levels[k + 1] >= Lowered(levels[k], WritesAt(runs, k))
    ensures levels[j] >= Lowered(levels[i], Writes(runs, i, j))
  {
    if i < j {
      LowersStepByStep(levels, runs, i, j - 1);
      LoweredTwice(levels[i], Writes(runs, i, j - 1), WritesAt(runs, j - 1));
      assert levels[j - 1 + 1] >= Lowered(levels[j - 1], WritesAt(runs, j - 1));
    }
  }

  lemma {:induction false} OneRunLower(baselines: seq<Option<Baseline>>, runs: seq<Run>, k: nat, file: string,
                                       m: Metric)
    requires History(baselines, runs) && k < |runs| && !runs[k].call.acceptDrop
    requires Value(baselines[k], file, m).Some? && Value(baselines[k + 1], file, m).Some?
    ensures Level(baselines[k + 1], file, m) >= Lowered(Level(baselines[k], file, m), WritesAt(runs, k))
  {
    StepLowersLittle(baselines[k], runs[k].call, runs[k].code, baselines[k + 1], file, m);
  }

  /** Lines stay a number while the file stays, so for them nothing more is needed. */
  lemma {:induction false} LinesLowerAtMostPerWrite(baselines: seq<Option<Baseline>>, runs: seq<Run>, i: nat, j: nat,
                                                    file: string)
    requires History(baselines, runs) && i <= j <= |runs|
    requires forall k :: i <= k < j ==> !runs[k].call.acceptDrop
    requires (forall k :: i <= k <= j ==> Holds(baselines[k], file)) && Value(baselines[i], file, Lines).Some?
    ensures forall k :: i <= k <= j ==> Value(baselines[k], file, Lines).Some?
    ensures Level(baselines[j], file, Lines) >=
      Lowered(Level(baselines[i], file, Lines), Writes(runs, i, j))
    decreases j
  {
    if i < j {
      LinesLowerAtMostPerWrite(baselines, runs, i, j - 1, file);
      assert Step(baselines[j - 1], runs[j - 1].call, runs[j - 1].code, baselines[j - 1 + 1]);
    }
    LowersAtMostPerWrite(baselines, runs, i, j, file, Lines);
  }

  // ---------------------------------------------------------------- what updates can reach

  /** Runs that all update and pass, without `--accept-drop`, keep the file, and take its metric from w to v. */
  ghost predicate Trail(baselines: seq<Option<Baseline>>, runs: seq<Run>, file: string, m: Metric, w: Option<real>,
                        v: Option<real>) {
    && History(baselines, runs)
    && (forall i :: 0 <= i < |runs| ==> runs[i].call.update && !runs[i].call.acceptDrop && runs[i].code == 0)
    && (forall i :: 0 <= i < |baselines| ==> Holds(baselines[i], file))
    && Value(baselines[0], file, m) == w && Value(baselines[|runs|], file, m) == v
  }

  ghost predicate CanTake(file: string, m: Metric, w: real, v: real, k: nat) {
    exists baselines, runs :: |runs| == k && Trail(baselines, runs, file, m, Some(w), Some(v))
  }

  lemma {:induction false} AllWrites(runs: seq<Run>, j: nat)
    requires j <= |runs| && forall i :: 0 <= i < |runs| ==> runs[i].call.update && runs[i].code == 0
    ensures Writes(runs, 0, j) == j
  {
    if j > 0 { AllWrites(runs, j - 1); }
  }

  /** One point lower is a share of lines too, unless it is below 0. */
  lemma {:induction false} LowerShare(p: real)
    requires LineShare(p) && p >= TOLERANCE
    ensures LineShare(p - TOLERANCE)
  {
    var hit: nat, found: nat :| hit <= found && p == LinePercent(hit, found);
    if found == 0 {
      assert p - TOLERANCE == LinePercent(99, 100);
    } else {
      var h, f := 100 * hit - found, 100 * found;
      PointLower(hit as real, found as real);
      assert h as real == 100.0 * hit as real - found as real && f as real == 100.0 * found as real;
      assert p - TOLERANCE == LinePercent(h, f);
    }
  }

  lemma {:induction false} PointLower(h: real, f: real)
    requires f > 0.0 && h / f * 100.0 >= 1.0
    ensures 100.0 * h - f >= 0.0 && (100.0 * h - f) / (100.0 * f) * 100.0 == h / f * 100.0 - 1.0
  {
    var q, x := h / f, (100.0 * h - f) / (100.0 * f);
    assert q * f == h && x * (100.0 * f) == 100.0 * h - f;
    Times100(x, f);
    Times100(q, f);
    assert (100.0 * q - 1.0) * f == (100.0 * q) * f - f;
    Cancel(100.0 * x, 100.0 * q - 1.0, f);
    NotBelowZero(100.0 * q - 1.0, f);
  }

  lemma {:induction false} Times100(x: real, f: real)
    ensures x * (100.0 * f) == (100.0 * x) * f == 100.0 * (x * f)
  {
  }

  lemma {:induction false} Cancel(a: real, b: real, f: real)
    requires f > 0.0 && a * f == b * f
    ensures a == b
  {
    assert (a - b) * f == 0.0;
  }

  lemma {:induction false} NotBelowZero(a: real, f: real)
    requires a >= 0.0 && f > 0.0
    ensures a * f >= 0.0
  {
  }

  lemma {:induction false} LowerShares(p: real, j: nat)
    requires LineShare(p) && p >= j as real * TOLERANCE
    ensures LineShare(p - j as real * TOLERANCE)
  {
    if j > 0 {
      LowerShares(p, j - 1);
      LowerShare(p - (j - 1) as real * TOLERANCE);
    }
  }

  function FileEntry(file: string, functions: Option<real>, lines: real): Option<Baseline> {
    Some(map[file := Entry(functions, Some(lines))])
  }

  function OneEntry(file: string, lines: real): Option<Baseline> { FileEntry(file, Some(100.0), lines) }

  /** One update between two shares of lines, when the second is at most the tolerance lower. */
  lemma {:induction false} OneUpdate(name: string, w: real, v: real) returns (text: string)
    requires IsName(name) && LineShare(v) && v >= w - TOLERANCE
    ensures Updates(OneEntry(Slashed(name), w), text, OneEntry(Slashed(name), v))
  {
    var hit: nat, found: nat :| hit <= found && v == LinePercent(hit, found);
    var c := Covered(name, 0, 0, LinesWith(hit, found));
    text := OneFileText(c);
    OneFileUpdates(OneEntry(Slashed(name), w).value, text, Slashed(name), PercentsOf(RecordOf(c)));
  }

  function UpdateRun(text: string): Run { Run(Call(true, false, Some(text)), 0) }

  lemma {:induction false} TrailGrows(baselines: seq<Option<Baseline>>, runs: seq<Run>, file: string, m: Metric,
                                      w: Option<real>, text: string, next: Option<Baseline>)
    requires |baselines| == |runs| + 1 && Trail(baselines, runs, file, m, w, Value(baselines[|runs|], file, m))
    requires Updates(baselines[|runs|], text, next) && Holds(next, file)
    ensures Trail(baselines + [next], runs + [UpdateRun(text)], file, m, w, Value(next, file, m))
  {
    var after, more := baselines + [next], runs + [UpdateRun(text)];
    forall i | 0 <= i < |more| ensures Step(after[i], more[i].call, more[i].code, after[i + 1]) {
      assert i < |runs| ==> Step(baselines[i], runs[i].call, runs[i].code, baselines[i + 1]);
    }
  }

  /** Down a point at a time as far as v, and the last step to v. */
  lemma {:induction false} Descend(name: string, w: real, v: real, k: nat)
    returns (baselines: seq<Option<Baseline>>, runs: seq<Run>)
    requires IsName(name) && LineShare(w) && LineShare(v) && (k == 0 ==> w == v)
    requires v >= w - k as real * TOLERANCE
    ensures |runs| == k && Trail(baselines, runs, Slashed(name), Lines, Some(w), Some(v))
    ensures baselines[k] == OneEntry(Slashed(name), v)
    decreases k
  {
    if k == 0 {
      baselines, runs := [OneEntry(Slashed(name), w)], [];
    } else {
      var u := LastStop(w, v, k);
      var shorter, fewer := Descend(name, w, u, k - 1);
      var text := OneUpdate(name, u, v);
      TrailGrows(shorter, fewer, Slashed(name), Lines, Some(w), text, OneEntry(Slashed(name), v));
      baselines, runs := shorter + [OneEntry(Slashed(name), v)], fewer + [UpdateRun(text)];
    }
  }

  lemma {:induction false} LastStop(w: real, v: real, k: nat) returns (u: real)
    requires LineShare(w) && LineShare(v) && k >= 1 && v >= w - k as real * TOLERANCE
    ensures LineShare(u) && u >= w - (k - 1) as real * TOLERANCE && v >= u - TOLERANCE && (k == 1 ==> u == w)
  {
    var low := w - (k - 1) as real * TOLERANCE;
    if k == 1 {
      u := w;
    } else if low > v {
      ShareBounds(v);
      LowerShares(w, k - 1);
      u := low;
    } else {
      u := v;
    }
  }

  lemma {:induction false} ShareBounds(p: real)
    requires LineShare(p)
    ensures 0.0 <= p <= 100.0
  {
    var hit: nat, found: nat :| hit <= found && p == LinePercent(hit, found);
    ShareIsPercentage(hit, found);
  }

  /**
   * What the ratchet promises of a kept file's lines, exactly: k accepted updates can take them from one percentage to
   * another if and only if the second is at most k tolerances lower. With k == 1 that is why no update is raise-only.
   */
  lemma {:induction false} CanTakeIff(name: string, w: real, v: real, k: nat)
    requires IsName(name) && LineShare(w) && LineShare(v) && k >= 1
    ensures CanTake(Slashed(name), Lines, w, v, k) <==> v >= w - k as real * TOLERANCE
  {
    if CanTake(Slashed(name), Lines, w, v, k) {
      var baselines, runs :| |runs| == k && Trail(baselines, runs, Slashed(name), Lines, Some(w), Some(v));
      LinesLowerAtMostPerWrite(baselines, runs, 0, k, Slashed(name));
      AllWrites(runs, k);
    }
    if v >= w - k as real * TOLERANCE {
      var baselines, runs := Descend(name, w, v, k);
    }
  }

  /** A percentage of functions that counts a reader can hold give. */
  ghost predicate FunctionShare(p: real) {
    exists hit: nat, found: nat :: hit <= found <= MAX_SAFE && p == LinePercent(hit, found)
  }

  /** One update of the functions of a file, from a number at most the tolerance higher or from null. */
  lemma {:induction false} OneFunctionsUpdate(name: string, w: Option<real>, v: real) returns (text: string)
    requires IsName(name) && FunctionShare(v) && v >= AsNumber(w) - TOLERANCE
    ensures Updates(FileEntry(Slashed(name), w, 100.0), text, FileEntry(Slashed(name), Some(v), 100.0))
  {
    var hit: nat, found: nat :| hit <= found <= MAX_SAFE && v == LinePercent(hit, found);
    var c := Covered(name, found, hit, []);
    text := OneFileText(c);
    PercentIsShare(hit, found);
    OneFileUpdates(FileEntry(Slashed(name), w, 100.0).value, text, Slashed(name), PercentsOf(RecordOf(c)));
  }

  /** To null and on to v, where the metric then stays; or to v at once. */
  lemma {:induction false} Forget(name: string, w: real, v: real, k: nat)
    returns (baselines: seq<Option<Baseline>>, runs: seq<Run>)
    requires IsName(name) && FunctionShare(v) && (k >= 2 || (k == 1 && v >= w - TOLERANCE))
    ensures |runs| == k && Trail(baselines, runs, Slashed(name), Functions, Some(w), Some(v))
    ensures baselines[k] == FileEntry(Slashed(name), Some(v), 100.0)
    decreases k
  {
    var file := Slashed(name);
    var start, end := FileEntry(file, Some(w), 100.0), FileEntry(file, Some(v), 100.0);
    var text;
    if k > 2 {
      baselines, runs := Forget(name, w, v, k - 1);
      text := OneFunctionsUpdate(name, Some(v), v);
    } else {
      baselines, runs := [start], [];
      var from := Some(w);
      if k == 2 {
        var bad := NoNumberText(name);
        var lost := FileEntry(file, None, 100.0);
        OneFileUpdates(start.value, bad, file, Percents(NaN, 100.0));
        TrailGrows(baselines, runs, file, Functions, Some(w), bad, lost);
        baselines, runs, from := baselines + [lost], runs + [UpdateRun(bad)], None;
        ShareOfFunctions(v);
      }
      text := OneFunctionsUpdate(name, from, v);
    }
    TrailGrows(baselines, runs, file, Functions, Some(w), text, end);
    baselines, runs := baselines + [end], runs + [UpdateRun(text)];
  }

  lemma {:induction false} ShareOfFunctions(p: real)
    requires FunctionShare(p)
    ensures p >= 0.0
  {
    var hit: nat, found: nat :| hit <= found <= MAX_SAFE && p == LinePercent(hit, found);
    ShareIsPercentage(hit, found);
  }

  /** One update keeps the functions of a kept file within the tolerance of a number; two can take them anywhere. */
  lemma {:induction false} FunctionsCanTakeIff(name: string, w: real, v: real, k: nat)
    requires IsName(name) && FunctionShare(v) && k >= 1
    ensures CanTake(Slashed(name), Functions, w, v, k) <==> k >= 2 || v >= w - TOLERANCE
  {
    if k == 1 && CanTake(Slashed(name), Functions, w, v, k) {
      var baselines, runs :| |runs| == k && Trail(baselines, runs, Slashed(name), Functions, Some(w), Some(v));
      OneRunLower(baselines, runs, 0, Slashed(name), Functions);
    }
    if k >= 2 || v >= w - TOLERANCE {
      var baselines, runs := Forget(name, w, v, k);
    }
  }

  /** A file that leaves the baseline is forgotten: two plain updates take its lines from any share to any other. */
  lemma {:induction false} VanishedFileIsForgotten(name: string, other: string, was: real, now: real)
    returns (without: string, again: string)
    requires IsName(name) && IsName(other) && Slashed(name) != Slashed(other) && LineShare(now)
    ensures Updates(OneEntry(Slashed(name), was), without, OneEntry(Slashed(other), 100.0))
    ensures Updates(OneEntry(Slashed(other), 100.0), again, OneEntry(Slashed(name), now))
  {
    var c := Covered(other, 0, 0, []);
    without := OneFileText(c);
    OneFileUpdates(OneEntry(Slashed(name), was).value, without, Slashed(other), PercentsOf(RecordOf(c)));
    var hit: nat, found: nat :| hit <= found && now == LinePercent(hit, found);
    var d := Covered(name, 0, 0, LinesWith(hit, found));
    again := OneFileText(d);
    OneFileUpdates(OneEntry(Slashed(other), 100.0).value, again, Slashed(name), PercentsOf(RecordOf(d)));
  }
}
