/** The benchmark summary and the loop that measures until every row is settled, blind to which row leads. */
module Report {
  import opened Collections
  import opened Rounds
  import opened Stats

  datatype Roles = Roles(nifra: string, rival: Option<string>)

  /** One run's results, with the key order of each record that `Object.entries` or `Object.keys` walks. */
  datatype RunOutput = RunOutput(
    results: Matrix<Cell>, rowOrder: map<string, seq<string>>,
    ceilings: map<string, map<string, string>>, ceilingOrder: map<string, seq<string>>,
    roles: map<string, map<string, Roles>>, roleOrder: map<string, seq<string>>)

  datatype Verdict = Ok | Noisy | TooFewRounds

  datatype RowSummary = RowSummary(row: string, rps: Option<real>, ofCeiling: Option<MedianInterval>,
                                   nifraOver: Option<MedianInterval>, verdict: Verdict)

  datatype WorkloadSummary = WorkloadSummary(workload: string, ceiling: Option<string>, nifra: Option<string>,
                                             rival: Option<string>, rows: seq<RowSummary>)

  const CONFIDENCE := 0.95

  function IntervalAt95(values: seq<real>): Option<MedianInterval> {
    match IntervalOf(values, CONFIDENCE)
    case Interval(i) => Some(i)
    case _ => None
  }

  /** `widthPct(i) > max`: a median that is not positive has infinite width. */
  predicate TooWide(i: MedianInterval, max: real) {
    if i.median > 0.0 then (i.hi - i.lo) / i.median * 100.0 > max else true
  }

  function Lookup<V>(table: map<string, map<string, V>>, runtime: string, key: string): Option<V> {
    if runtime in table && key in table[runtime] then Some(table[runtime][key]) else None
  }

  function FirstCeiling(runs: seq<RunOutput>, runtime: string, workload: string): Option<string> {
    if runs == [] then None
    else
      var here := Lookup(runs[0].ceilings, runtime, workload);
      if here.Some? then here else FirstCeiling(runs[1..], runtime, workload)
  }

  function FirstRoles(runs: seq<RunOutput>, runtime: string, workload: string): Option<Roles> {
    if runs == [] then None
    else
      var here := Lookup(runs[0].roles, runtime, workload);
      if here.Some? then here else FirstRoles(runs[1..], runtime, workload)
  }

  /** In first-seen order, without repeats. */
  function Unique(values: seq<string>): seq<string> {
    if values == [] then []
    else
      var front, last := Unique(values[..|values| - 1]), values[|values| - 1];
      if last in front then front else front + [last]
  }

  function WorkloadNames(runs: seq<RunOutput>, runtime: string): seq<string> {
    if runs == [] then []
    else
      var own := GetOr(runs[0].roleOrder, runtime, []) + GetOr(runs[0].ceilingOrder, runtime, []);
      own + WorkloadNames(runs[1..], runtime)
  }

  function Holding(rows: seq<string>, m: Matrix<Cell>, runtime: string, workload: string): seq<string> {
    if rows == [] then []
    else (if HasCell(m, runtime, rows[0], workload) then [rows[0]] else []) + Holding(rows[1..], m, runtime, workload)
  }

  function RowNames(runs: seq<RunOutput>, runtime: string, workload: string): seq<string> {
    if runs == [] then []
    else
      var own := Holding(GetOr(runs[0].rowOrder, runtime, []), runs[0].results, runtime, workload);
      own + RowNames(runs[1..], runtime, workload)
  }

  function FirstNifra(rows: seq<string>): Option<string> {
    if rows == [] then None else if "nifra" <= rows[0] then Some(rows[0]) else FirstNifra(rows[1..])
  }

  function RivalRow(runtime: string, nifra: string): string
    requires "nifra" <= nifra
  {
    (if runtime == "node" then "fastify" else "elysia") + nifra[|"nifra"|..]
  }

  lemma {:induction false} RivalKeepsSuffix(runtime: string, suffix: string)
    ensures "nifra" <= "nifra" + suffix
    ensures RivalRow(runtime, "nifra" + suffix) == (if runtime == "node" then "fastify" else "elysia") + suffix
  {
    assert ("nifra" + suffix)[..|"nifra"|] == "nifra" && ("nifra" + suffix)[|"nifra"|..] == suffix;
  }

  function Matrices(runs: seq<RunOutput>): (m: seq<Matrix<Cell>>)
    ensures |m| == |runs| && forall i :: 0 <= i < |runs| ==> m[i] == runs[i].results
  {
    if runs == [] then [] else [runs[0].results] + Matrices(runs[1..])
  }

  function AllRps(runs: seq<RunOutput>, runtime: string, row: string, workload: string): seq<real> {
    if runs == [] then []
    else Rps(RoundsOf(runs[0].results, runtime, row, workload)) + AllRps(runs[1..], runtime, row, workload)
  }

  function Over(runs: seq<RunOutput>, runtime: string, a: string, b: string, workload: string): Option<MedianInterval> {
    IntervalAt95(PooledRatios(Matrices(runs), runtime, a, b, workload))
  }

  predicate ComparesNifra(row: string, nifra: Option<string>, ceiling: Option<string>) {
    nifra.Some? && row != nifra.value && Some(row) != ceiling
  }

  function VerdictOf(needed: seq<Option<MedianInterval>>, max: real): Verdict {
    if exists i :: 0 <= i < |needed| && needed[i].None? then TooFewRounds
    else if exists i :: 0 <= i < |needed| && needed[i].Some? && TooWide(needed[i].value, max) then Noisy
    else Ok
  }

  function Needed(hasCeiling: bool, ofCeiling: Option<MedianInterval>,
                  compares: bool, nifraOver: Option<MedianInterval>): seq<Option<MedianInterval>> {
    (if hasCeiling then [ofCeiling] else []) + (if compares then [nifraOver] else [])
  }

  function Summarized(runs: seq<RunOutput>, runtime: string, workload: string, row: string,
                      ceiling: Option<string>, nifra: Option<string>, max: real): RowSummary {
    var ofCeiling := if ceiling.None? then None else Over(runs, runtime, row, ceiling.value, workload);
    var compares := ComparesNifra(row, nifra, ceiling);
    var nifraOver := if compares then Over(runs, runtime, nifra.value, row, workload) else None;
    var needed := Needed(ceiling.Some?, ofCeiling, compares, nifraOver);
    var rps := AllRps(runs, runtime, row, workload);
    RowSummary(row, if rps == [] then None else Some(Median(rps)), ofCeiling, nifraOver, VerdictOf(needed, max))
  }

  function MedianOr(i: Option<MedianInterval>): real { if i.Some? then i.value.median else -1.0 }

  /** Best ratio to the ceiling first, then by name. */
  predicate RowBefore(a: RowSummary, b: RowSummary) {
    MedianOr(a.ofCeiling) > MedianOr(b.ofCeiling) ||
    (MedianOr(a.ofCeiling) == MedianOr(b.ofCeiling) && StringLe(a.row, b.row))
  }

  ghost predicate RowsInOrder(rows: seq<RowSummary>) {
    |rows| >= 2 ==> RowBefore(rows[0], rows[1]) && RowsInOrder(rows[1..])
  }

  function InsertRow(x: RowSummary, rows: seq<RowSummary>): (r: seq<RowSummary>)
    requires RowsInOrder(rows)
    ensures RowsInOrder(r) && multiset(r) == multiset([x]) + multiset(rows)
    ensures r != [] && (r[0] == x || (rows != [] && r[0] == rows[0]))
    ensures NotOk(r) == (if x.verdict == Ok then 0 else 1) + NotOk(rows)
  {
    assert ([x] + rows)[1..] == rows;
    if rows == [] || RowBefore(x, rows[0]) then [x] + rows
    else (
      StringLeConnected(x.row, rows[0].row);
      assert rows == [rows[0]] + rows[1..];
      var rest := InsertRow(x, rows[1..]);
      assert ([rows[0]] + rest)[1..] == rest;
      [rows[0]] + rest)
  }

  function SortRows(rows: seq<RowSummary>): (r: seq<RowSummary>)
    ensures RowsInOrder(r) && multiset(r) == multiset(rows) && NotOk(r) == NotOk(rows)
  {
    if rows == [] then []
    else
      assert rows == [rows[0]] + rows[1..];
      InsertRow(rows[0], SortRows(rows[1..]))
  }

  function NotOk(rows: seq<RowSummary>): nat {
    if rows == [] then 0 else (if rows[0].verdict == Ok then 0 else 1) + NotOk(rows[1..])
  }

  function SummarizeRows(runs: seq<RunOutput>, runtime: string, workload: string, rows: seq<string>,
                         ceiling: Option<string>, nifra: Option<string>, max: real): (r: seq<RowSummary>)
    ensures |r| == |rows|
  {
    if rows == [] then []
    else
      [Summarized(runs, runtime, workload, rows[0], ceiling, nifra, max)] +
      SummarizeRows(runs, runtime, workload, rows[1..], ceiling, nifra, max)
  }

  function NifraOf(roles: Option<Roles>, rows: seq<string>): Option<string> {
    if roles.Some? then Some(roles.value.nifra) else FirstNifra(rows)
  }

  lemma {:induction false} FirstNifraStarts(rows: seq<string>)
    ensures FirstNifra(rows).Some? ==> "nifra" <= FirstNifra(rows).value
  {
    if rows != [] { FirstNifraStarts(rows[1..]); }
  }

  /** A workload with neither a ceiling nor roles gives no section. */
  function SummarizeWorkload(runs: seq<RunOutput>, runtime: string, workload: string, max: real)
    : Option<WorkloadSummary>
  {
    var ceiling, roles := FirstCeiling(runs, runtime, workload), FirstRoles(runs, runtime, workload);
    if ceiling.None? && roles.None? then None
    else
      var names := Unique(RowNames(runs, runtime, workload));
      var nifra := NifraOf(roles, names);
      FirstNifraStarts(names);
      var rival :=
        if roles.Some? then roles.value.rival
        else if nifra.Some? then Some(RivalRow(runtime, nifra.value)) else None;
      var rows := SummarizeRows(runs, runtime, workload, names, ceiling, nifra, max);
      Some(WorkloadSummary(workload, ceiling, nifra, rival, if ceiling.Some? then SortRows(rows) else rows))
  }

  function SummarizeEach(runs: seq<RunOutput>, runtime: string, workloads: seq<string>, max: real)
    : seq<WorkloadSummary>
  {
    if workloads == [] then []
    else
      var first := SummarizeWorkload(runs, runtime, workloads[0], max);
      (if first.Some? then [first.value] else []) + SummarizeEach(runs, runtime, workloads[1..], max)
  }

  function Summarize(runs: seq<RunOutput>, runtime: string, max: real): seq<WorkloadSummary> {
    SummarizeEach(runs, runtime, Unique(WorkloadNames(runs, runtime)), max)
  }

  function UnsettledRows(workloads: seq<WorkloadSummary>): nat {
    if workloads == [] then 0 else NotOk(workloads[0].rows) + UnsettledRows(workloads[1..])
  }

  // ---------------------------------------------------------------- scaling one row

  function ScaleReals(f: real, s: seq<real>): (r: seq<real>)
    ensures |r| == |s|
  {
    if s == [] then [] else [Scale(f, s[0])] + ScaleReals(f, s[1..])
  }

  /** Every round of one row measures `factor` times the req/s, in every section and workload. */
  function ScaleRow(row: string, factor: real, m: Matrix<Cell>): Matrix<Cell> {
    map runtime | runtime in m :: map r | r in m[runtime] :: map w | w in m[runtime][r] ::
      if r == row then Cell(DriftRounds(i => factor, m[runtime][r][w].rounds)) else m[runtime][r][w]
  }

  function ScaleRuns(row: string, factor: real, runs: seq<RunOutput>): (r: seq<RunOutput>)
    ensures |r| == |runs|
  {
    if runs == [] then []
    else [runs[0].(results := ScaleRow(row, factor, runs[0].results))] + ScaleRuns(row, factor, runs[1..])
  }

  /** What the scaling does to the ratios of `a` to `b`. */
  function RatioFactor(row: string, factor: real, a: string, b: string): real
    requires factor > 0.0
  {
    (if a == row then factor else 1.0) / (if b == row then factor else 1.0)
  }

  lemma {:induction false} ScaleCons(f: real, x: real, s: seq<real>)
    ensures ScaleReals(f, [x] + s) == [Scale(f, x)] + ScaleReals(f, s)
  {
    assert ([x] + s)[1..] == s;
  }

  lemma {:induction false} ScaledRatio(x: real, y: real, ca: real, cb: real)
    requires y > 0.0 && ca > 0.0 && cb > 0.0
    ensures Scale(cb, y) > 0.0 && Scale(ca, x) / Scale(cb, y) == Scale(ca / cb, x / y)
  {
    var p, q := ca / cb, x / y;
    assert p * cb == ca && q * y == x;
    assert (p * q) * (cb * y) == (p * cb) * (q * y);
    assert cb * y != 0.0;
  }

  lemma {:induction false} RatiosScale(a: seq<real>, b: seq<real>, ca: real, cb: real)
    requires ca > 0.0 && cb > 0.0
    ensures RoundRatios(ScaleReals(ca, a), ScaleReals(cb, b)) == ScaleReals(ca / cb, RoundRatios(a, b))
  {
    if a != [] && b != [] {
      RatiosScale(a[1..], b[1..], ca, cb);
      var rest := RoundRatios(a[1..], b[1..]);
      assert ScaleReals(ca, a)[1..] == ScaleReals(ca, a[1..]) && ScaleReals(cb, b)[1..] == ScaleReals(cb, b[1..]);
      SignOfScaled(b[0], cb);
      if b[0] > 0.0 {
        ScaledRatio(a[0], b[0], ca, cb);
        ScaleCons(ca / cb, a[0] / b[0], rest);
      } else {
        assert RoundRatios(a, b) == rest;
        assert RoundRatios(ScaleReals(ca, a), ScaleReals(cb, b)) ==
          RoundRatios(ScaleReals(ca, a[1..]), ScaleReals(cb, b[1..]));
      }
    }
  }

  lemma {:induction false} ScaleConcat(f: real, a: seq<real>, b: seq<real>)
    ensures ScaleReals(f, a + b) == ScaleReals(f, a) + ScaleReals(f, b)
  {
    if a == [] {
      assert a + b == b;
    } else {
      assert (a + b)[1..] == a[1..] + b && (a + b)[0] == a[0];
      ScaleConcat(f, a[1..], b);
      assert ScaleReals(f, a + b) == [Scale(f, a[0])] + (ScaleReals(f, a[1..]) + ScaleReals(f, b));
    }
  }

  lemma {:induction false} ScaleByOne(s: seq<real>)
    ensures ScaleReals(1.0, s) == s
  {
    if s != [] { ScaleByOne(s[1..]); }
  }

  lemma {:induction false} RpsScales(factor: real, rounds: seq<Measure>)
    ensures Rps(DriftRounds(i => factor, rounds)) == ScaleReals(factor, Rps(rounds))
  {
    if rounds != [] {
      RpsScales(factor, rounds[1..]);
      assert Rps(rounds) == [rounds[0].rps] + Rps(rounds[1..]);
      ScaleCons(factor, rounds[0].rps, Rps(rounds[1..]));
      assert Rps(DriftRounds(i => factor, rounds)) ==
        [Scale(factor, rounds[0].rps)] + Rps(DriftRounds(i => factor, rounds[1..]));
    }
  }

  lemma {:induction false} CellScales(row: string, factor: real, m: Matrix<Cell>, runtime: string, a: string,
                                      workload: string)
    ensures Rps(RoundsOf(ScaleRow(row, factor, m), runtime, a, workload)) ==
      ScaleReals(if a == row then factor else 1.0, Rps(RoundsOf(m, runtime, a, workload)))
    ensures HasCell(ScaleRow(row, factor, m), runtime, a, workload) == HasCell(m, runtime, a, workload)
  {
    var rounds := RoundsOf(m, runtime, a, workload);
    RpsScales(factor, rounds);
    ScaleByOne(Rps(rounds));
  }

  lemma {:induction false} PooledScale(runs: seq<RunOutput>, row: string, factor: real,
                                       runtime: string, a: string, b: string, workload: string)
    requires factor > 0.0
    ensures PooledRatios(Matrices(ScaleRuns(row, factor, runs)), runtime, a, b, workload) ==
      ScaleReals(RatioFactor(row, factor, a, b), PooledRatios(Matrices(runs), runtime, a, b, workload))
  {
    if runs != [] {
      var m := runs[0].results;
      var ca, cb := if a == row then factor else 1.0, if b == row then factor else 1.0;
      var x, y := Rps(RoundsOf(m, runtime, a, workload)), Rps(RoundsOf(m, runtime, b, workload));
      PooledScale(runs[1..], row, factor, runtime, a, b, workload);
      CellScales(row, factor, m, runtime, a, workload);
      CellScales(row, factor, m, runtime, b, workload);
      RatiosScale(x, y, ca, cb);
      ScaleConcat(ca / cb, RoundRatios(x, y), PooledRatios(Matrices(runs[1..]), runtime, a, b, workload));
    }
  }

  // ---------------------------------------------------------------- intervals scale with their values

  lemma {:induction false} OrderScales(f: real, x: real, y: real)
    requires f > 0.0
    ensures Scale(f, x) <= Scale(f, y) <==> x <= y
  {
    if x <= y { assert f * (y - x) >= 0.0; } else { assert f * (x - y) > 0.0; }
  }

  lemma {:induction false} InsertScales(f: real, x: real, s: seq<real>)
    requires f > 0.0 && Ascending(s) && Ascending(ScaleReals(f, s))
    ensures InsertReal(Scale(f, x), ScaleReals(f, s)) == ScaleReals(f, InsertReal(x, s))
  {
    ScaleCons(f, x, s);
    if s != [] {
      OrderScales(f, x, s[0]);
      if x > s[0] {
        assert ScaleReals(f, s)[1..] == ScaleReals(f, s[1..]);
        InsertScales(f, x, s[1..]);
        ScaleCons(f, s[0], InsertReal(x, s[1..]));
      }
    }
  }

  lemma {:induction false} SortScales(f: real, s: seq<real>)
    requires f > 0.0
    ensures SortReals(ScaleReals(f, s)) == ScaleReals(f, SortReals(s))
  {
    if s != [] {
      var sorted := SortReals(s[1..]);
      SortScales(f, s[1..]);
      InsertScales(f, s[0], sorted);
      assert ScaleReals(f, s)[1..] == ScaleReals(f, s[1..]) && ScaleReals(f, s)[0] == Scale(f, s[0]);
    }
  }

  lemma {:induction false} ScaleAt(f: real, s: seq<real>, i: nat)
    requires i < |s|
    ensures ScaleReals(f, s)[i] == Scale(f, s[i])
  {
    if i > 0 { ScaleAt(f, s[1..], i - 1); }
  }

  lemma {:induction false} MiddleScales(f: real, s: seq<real>)
    ensures Middle(ScaleReals(f, s)) == Scale(f, Middle(s))
  {
    if s != [] {
      var mid := |s| / 2;
      ScaleAt(f, s, mid);
      if |s| % 2 == 0 {
        ScaleAt(f, s, mid - 1);
        HalfSum(f, s[mid - 1], s[mid]);
      }
    }
  }

  lemma {:induction false} HalfSum(f: real, a: real, b: real)
    ensures (Scale(f, a) + Scale(f, b)) / 2.0 == Scale(f, (a + b) / 2.0)
  {
  }

  ghost predicate ScaledInterval(f: real, i: Option<MedianInterval>, j: Option<MedianInterval>) {
    match (i, j)
    case (None, None) => true
    case (Some(x), Some(y)) => y.median == Scale(f, x.median) && y.lo == Scale(f, x.lo) && y.hi == Scale(f, x.hi)
    case _ => false
  }

  ghost predicate EndsAre(i: MedianInterval, s: seq<real>, k: nat) {
    1 <= k <= |s| && i.median == Middle(s) && i.lo == s[k - 1] && i.hi == s[|s| - k]
  }

  lemma {:induction false} EndsAt95(values: seq<real>)
    requires IntervalAt95(values).Some?
    ensures EndsAre(IntervalAt95(values).value, SortReals(values), Rank(|values|, Tail(CONFIDENCE)))
  {
    var k, sorted := IntervalEnds(values, CONFIDENCE);
  }

  lemma {:induction false} EndsScale(f: real, i: MedianInterval, j: MedianInterval, s: seq<real>, k: nat)
    requires EndsAre(i, s, k) && EndsAre(j, ScaleReals(f, s), k)
    ensures ScaledInterval(f, Some(i), Some(j))
  {
    MiddleScales(f, s);
    ScaleAt(f, s, k - 1);
    ScaleAt(f, s, |s| - k);
  }

  /** Only the number of values decides whether there is an interval. */
  lemma {:induction false} SameSizeSameOutcome(a: seq<real>, b: seq<real>)
    requires |a| == |b|
    ensures IntervalAt95(a).Some? == IntervalAt95(b).Some?
  {
  }

  lemma {:induction false} IntervalScales(f: real, values: seq<real>)
    requires f > 0.0
    ensures ScaledInterval(f, IntervalAt95(values), IntervalAt95(ScaleReals(f, values)))
  {
    var scaled := ScaleReals(f, values);
    SameSizeSameOutcome(values, scaled);
    if IntervalAt95(values).Some? {
      var i, j := IntervalAt95(values).value, IntervalAt95(scaled).value;
      EndsAt95(values);
      EndsAt95(scaled);
      SortScales(f, values);
      EndsScale(f, i, j, SortReals(values), Rank(|values|, Tail(CONFIDENCE)));
      assert IntervalAt95(values) == Some(i) && IntervalAt95(scaled) == Some(j);
    }
  }

  lemma {:induction false} WidthIgnoresScale(f: real, i: MedianInterval, j: MedianInterval, max: real)
    requires f > 0.0 && ScaledInterval(f, Some(i), Some(j))
    ensures TooWide(i, max) == TooWide(j, max)
  {
    SignOfScaled(i.median, f);
    if i.median > 0.0 {
      var w := i.hi - i.lo;
      assert j.hi - j.lo == Scale(f, w);
      RatioOfScaled(w, i.median, f);
    }
  }

  lemma {:induction false} OverScales(runs: seq<RunOutput>, row: string, factor: real,
                                      runtime: string, a: string, b: string, workload: string)
    requires factor > 0.0
    ensures RatioFactor(row, factor, a, b) > 0.0
    ensures ScaledInterval(RatioFactor(row, factor, a, b), Over(runs, runtime, a, b, workload),
                           Over(ScaleRuns(row, factor, runs), runtime, a, b, workload))
  {
    PooledScale(runs, row, factor, runtime, a, b, workload);
    IntervalScales(RatioFactor(row, factor, a, b), PooledRatios(Matrices(runs), runtime, a, b, workload));
  }

  ghost predicate SameVerdict(i: Option<MedianInterval>, j: Option<MedianInterval>, max: real) {
    i.None? == j.None? && (i.Some? ==> TooWide(i.value, max) == TooWide(j.value, max))
  }

  lemma {:induction false} OverVerdict(runs: seq<RunOutput>, row: string, factor: real, runtime: string,
                                       a: string, b: string, workload: string, max: real)
    requires factor > 0.0
    ensures SameVerdict(Over(runs, runtime, a, b, workload),
      Over(ScaleRuns(row, factor, runs), runtime, a, b, workload), max)
  {
    OverScales(runs, row, factor, runtime, a, b, workload);
    var i, j := Over(runs, runtime, a, b, workload), Over(ScaleRuns(row, factor, runs), runtime, a, b, workload);
    if i.Some? { WidthIgnoresScale(RatioFactor(row, factor, a, b), i.value, j.value, max); }
  }

  lemma {:induction false} VerdictFromEach(hasCeiling: bool, i: Option<MedianInterval>, i': Option<MedianInterval>,
                                           compares: bool, j: Option<MedianInterval>, j': Option<MedianInterval>,
                                           max: real)
    requires hasCeiling ==> SameVerdict(i, i', max)
    requires compares ==> SameVerdict(j, j', max)
    ensures VerdictOf(Needed(hasCeiling, i, compares, j), max) == VerdictOf(Needed(hasCeiling, i', compares, j'), max)
  {
    var needed, needed' := Needed(hasCeiling, i, compares, j), Needed(hasCeiling, i', compares, j');
    assert |needed| == |needed'| && forall k :: 0 <= k < |needed| ==> SameVerdict(needed[k], needed'[k], max);
  }

  /** No row's verdict moves, whichever row is scaled: the row itself, the row it is compared with, or a third one. */
  lemma {:induction false} VerdictIgnoresScale(runs: seq<RunOutput>, scaled: string, factor: real, runtime: string,
                                               workload: string, row: string, ceiling: Option<string>,
                                               nifra: Option<string>, max: real)
    requires factor > 0.0
    ensures Summarized(ScaleRuns(scaled, factor, runs), runtime, workload, row, ceiling, nifra, max).verdict ==
      Summarized(runs, runtime, workload, row, ceiling, nifra, max).verdict
  {
    var runs' := ScaleRuns(scaled, factor, runs);
    var compares := ComparesNifra(row, nifra, ceiling);
    if ceiling.Some? { OverVerdict(runs, scaled, factor, runtime, row, ceiling.value, workload, max); }
    if compares { OverVerdict(runs, scaled, factor, runtime, nifra.value, row, workload, max); }
    VerdictFromEach(ceiling.Some?,
                    if ceiling.None? then None else Over(runs, runtime, row, ceiling.value, workload),
                    if ceiling.None? then None else Over(runs', runtime, row, ceiling.value, workload),
                    compares,
                    if compares then Over(runs, runtime, nifra.value, row, workload) else None,
                    if compares then Over(runs', runtime, nifra.value, row, workload) else None, max);
  }

  lemma {:induction false} RowsKeepVerdicts(runs: seq<RunOutput>, scaled: string, factor: real, runtime: string,
                                            workload: string, rows: seq<string>, ceiling: Option<string>,
                                            nifra: Option<string>, max: real)
    requires factor > 0.0
    ensures NotOk(SummarizeRows(ScaleRuns(scaled, factor, runs), runtime, workload, rows, ceiling, nifra, max)) ==
      NotOk(SummarizeRows(runs, runtime, workload, rows, ceiling, nifra, max))
  {
    if rows != [] {
      VerdictIgnoresScale(runs, scaled, factor, runtime, workload, rows[0], ceiling, nifra, max);
      RowsKeepVerdicts(runs, scaled, factor, runtime, workload, rows[1..], ceiling, nifra, max);
      NotOkHead(runs, runtime, workload, rows, ceiling, nifra, max);
      NotOkHead(ScaleRuns(scaled, factor, runs), runtime, workload, rows, ceiling, nifra, max);
    }
  }

  lemma {:induction false} NotOkHead(runs: seq<RunOutput>, runtime: string, workload: string, rows: seq<string>,
                                     ceiling: Option<string>, nifra: Option<string>, max: real)
    requires rows != []
    ensures NotOk(SummarizeRows(runs, runtime, workload, rows, ceiling, nifra, max)) ==
      (if Summarized(runs, runtime, workload, rows[0], ceiling, nifra, max).verdict == Ok then 0 else 1) +
      NotOk(SummarizeRows(runs, runtime, workload, rows[1..], ceiling, nifra, max))
  {
    var first, rest := Summarized(runs, runtime, workload, rows[0], ceiling, nifra, max),
                       SummarizeRows(runs, runtime, workload, rows[1..], ceiling, nifra, max);
    assert ([first] + rest)[1..] == rest;
  }

  /** The names a summary is built from do not depend on any measurement. */
  lemma {:induction false} NamesIgnoreScale(runs: seq<RunOutput>, scaled: string, factor: real, runtime: string,
                                            workload: string)
    ensures RowNames(ScaleRuns(scaled, factor, runs), runtime, workload) == RowNames(runs, runtime, workload)
    ensures WorkloadNames(ScaleRuns(scaled, factor, runs), runtime) == WorkloadNames(runs, runtime)
    ensures FirstCeiling(ScaleRuns(scaled, factor, runs), runtime, workload) == FirstCeiling(runs, runtime, workload)
    ensures FirstRoles(ScaleRuns(scaled, factor, runs), runtime, workload) == FirstRoles(runs, runtime, workload)
  {
    if runs != [] {
      NamesIgnoreScale(runs[1..], scaled, factor, runtime, workload);
      HoldingIgnoresScale(GetOr(runs[0].rowOrder, runtime, []), runs[0].results, scaled, factor, runtime, workload);
    }
  }

  lemma {:induction false} HoldingIgnoresScale(rows: seq<string>, m: Matrix<Cell>, scaled: string, factor: real,
                                               runtime: string, workload: string)
    ensures Holding(rows, ScaleRow(scaled, factor, m), runtime, workload) == Holding(rows, m, runtime, workload)
  {
    if rows != [] {
      CellScales(scaled, factor, m, runtime, rows[0], workload);
      HoldingIgnoresScale(rows[1..], m, scaled, factor, runtime, workload);
    }
  }

  lemma {:induction false} WorkloadKeepsUnsettled(runs: seq<RunOutput>, scaled: string, factor: real, runtime: string,
                                                  workload: string, max: real)
    requires factor > 0.0
    ensures
      var a, b := SummarizeWorkload(runs, runtime, workload, max),
        SummarizeWorkload(ScaleRuns(scaled, factor, runs), runtime, workload, max);
      a.Some? == b.Some? && (a.Some? ==> NotOk(a.value.rows) == NotOk(b.value.rows))
  {
    NamesIgnoreScale(runs, scaled, factor, runtime, workload);
    var names := Unique(RowNames(runs, runtime, workload));
    RowsKeepVerdicts(runs, scaled, factor, runtime, workload, names, FirstCeiling(runs, runtime, workload),
                     NifraOf(FirstRoles(runs, runtime, workload), names), max);
  }

  lemma {:induction false} EachKeepsUnsettled(runs: seq<RunOutput>, scaled: string, factor: real, runtime: string,
                                              workloads: seq<string>, max: real)
    requires factor > 0.0
    ensures UnsettledRows(SummarizeEach(ScaleRuns(scaled, factor, runs), runtime, workloads, max)) ==
      UnsettledRows(SummarizeEach(runs, runtime, workloads, max))
  {
    if workloads != [] {
      WorkloadKeepsUnsettled(runs, scaled, factor, runtime, workloads[0], max);
      EachKeepsUnsettled(runs, scaled, factor, runtime, workloads[1..], max);
      var runs' := ScaleRuns(scaled, factor, runs);
      UnsettledHead(SummarizeWorkload(runs, runtime, workloads[0], max),
        SummarizeEach(runs, runtime, workloads[1..], max));
      UnsettledHead(SummarizeWorkload(runs', runtime, workloads[0], max),
        SummarizeEach(runs', runtime, workloads[1..], max));
    }
  }

  lemma {:induction false} UnsettledHead(first: Option<WorkloadSummary>, rest: seq<WorkloadSummary>)
    ensures UnsettledRows((if first.Some? then [first.value] else []) + rest) ==
      (if first.Some? then NotOk(first.value.rows) else 0) + UnsettledRows(rest)
  {
    if first.Some? {
      assert ([first.value] + rest)[1..] == rest;
    } else {
      assert [] + rest == rest;
    }
  }

  /** The number of unsettled rows is blind to the level of any one row. */
  lemma {:induction false} UnsettledIgnoresScale(runs: seq<RunOutput>, scaled: string, factor: real,
                                                 runtime: string, max: real)
    requires factor > 0.0
    ensures UnsettledRows(Summarize(ScaleRuns(scaled, factor, runs), runtime, max)) ==
      UnsettledRows(Summarize(runs, runtime, max))
  {
    NamesIgnoreScale(runs, scaled, factor, runtime, "");
    EachKeepsUnsettled(runs, scaled, factor, runtime, Unique(WorkloadNames(runs, runtime)), max);
  }

  // ---------------------------------------------------------------- what a row's verdict says

  /** A comparison of `a` with `b` that would survive: six pairs of rounds or more, and an interval narrow enough. */
  ghost predicate IsTight(runs: seq<RunOutput>, runtime: string, a: string, b: string, workload: string, max: real) {
    var pairs := PooledRatios(Matrices(runs), runtime, a, b, workload);
    |pairs| >= 6 && exists i :: IntervalOf(pairs, CONFIDENCE) == Interval(i) && Narrow(i, max)
  }

  predicate Narrow(i: MedianInterval, max: real) {
    i.median > 0.0 && (i.hi - i.lo) * 100.0 <= max * i.median
  }

  lemma {:induction false} NarrowIff(i: MedianInterval, max: real)
    ensures Narrow(i, max) <==> !TooWide(i, max)
  {
    if i.median > 0.0 { ShareAbove(i.hi - i.lo, i.median, max); }
  }

  lemma {:induction false} ShareAbove(width: real, middle: real, max: real)
    requires middle > 0.0
    ensures width / middle * 100.0 > max <==> width * 100.0 > max * middle
  {
    var q := width / middle;
    assert q * middle == width;
    assert (q * 100.0 - max) * middle == width * 100.0 - max * middle;
    if q * 100.0 > max { assert (q * 100.0 - max) * middle > 0.0; }
    if q * 100.0 <= max { assert (max - q * 100.0) * middle >= 0.0; }
  }

  /** At 95% an interval needs six values. */
  lemma {:induction false} SixForAnInterval(values: seq<real>)
    ensures IntervalAt95(values).Some? <==> |values| >= 6
    ensures IntervalAt95(values).Some? ==> IntervalOf(values, CONFIDENCE) == Interval(IntervalAt95(values).value)
  {
    TooFewExactly(values, CONFIDENCE);
    assert HalfToThe(0) == 1.0;
    assert HalfToThe(2) == HalfToThe(1) / 2.0 == 0.25;
    assert HalfToThe(4) == HalfToThe(3) / 2.0 == HalfToThe(2) / 4.0;
    assert HalfToThe(6) == HalfToThe(5) / 2.0 == HalfToThe(4) / 4.0;
    if |values| >= 6 { HalvesFall(6, |values|); } else { HalvesFall(|values|, 5); }
  }

  lemma {:induction false} HalvesFall(m: nat, n: nat)
    requires m <= n
    ensures HalfToThe(n) <= HalfToThe(m) && HalfToThe(n) > 0.0
    decreases n
  {
    if n > 0 {
      if m < n { HalvesFall(m, n - 1); } else { HalvesFall(n - 1, n - 1); }
    }
  }

  ghost predicate IsPair(i: Option<MedianInterval>, runs: seq<RunOutput>, runtime: string, a: string, b: string,
                         workload: string) {
    var pairs := PooledRatios(Matrices(runs), runtime, a, b, workload);
    && (i.None? <==> |pairs| < 6)
    && (i.Some? ==> IntervalOf(pairs, CONFIDENCE) == Interval(i.value))
  }

  lemma {:induction false} OverIsPair(runs: seq<RunOutput>, runtime: string, a: string, b: string, workload: string)
    ensures IsPair(Over(runs, runtime, a, b, workload), runs, runtime, a, b, workload)
  {
    SixForAnInterval(PooledRatios(Matrices(runs), runtime, a, b, workload));
  }

  /** The row is compared with nifra's: it is neither that row nor the ceiling. */
  predicate AgainstNifra(w: WorkloadSummary, row: string) {
    w.nifra.Some? && row != w.nifra.value && w.ceiling != Some(row)
  }

  predicate Good(i: Option<MedianInterval>, max: real) { i.Some? && Narrow(i.value, max) }

  /** The median req/s of the rounds, if there are any. */
  ghost predicate HasRps(rps: Option<real>, rounds: seq<Measure>) {
    if rounds == [] then rps.None? else rps.Some? && IsMedianOf(rps.value, rounds, (x: Measure) => x.rps)
  }

  lemma {:induction false} ConcatenatedFront(ms: seq<Matrix<Cell>>, runtime: string, row: string, workload: string)
    requires ms != []
    ensures Concatenated(ms, runtime, row, workload) ==
      RoundsOf(ms[0], runtime, row, workload) + Concatenated(ms[1..], runtime, row, workload)
  {
    var n := |ms| - 1;
    if n > 0 {
      ConcatenatedFront(ms[..n], runtime, row, workload);
      assert ms[..n][1..] == ms[1..][..n - 1] && ms[..n][0] == ms[0] && ms[1..][n - 1] == ms[n];
    } else {
      assert ms[..0] == [] && ms[1..] == [];
    }
  }

  lemma {:induction false} AllRpsIs(runs: seq<RunOutput>, runtime: string, row: string, workload: string)
    ensures AllRps(runs, runtime, row, workload) == Rps(Concatenated(Matrices(runs), runtime, row, workload))
  {
    if runs != [] {
      AllRpsIs(runs[1..], runtime, row, workload);
      ConcatenatedFront(Matrices(runs), runtime, row, workload);
      assert Matrices(runs)[1..] == Matrices(runs[1..]);
      RpsOfBoth(RoundsOf(runs[0].results, runtime, row, workload),
                Concatenated(Matrices(runs[1..]), runtime, row, workload));
    }
  }

  lemma {:induction false} RpsOfBoth(a: seq<Measure>, b: seq<Measure>)
    ensures Rps(a + b) == Rps(a) + Rps(b)
  {
  }

  lemma {:induction false} RpsIs(runs: seq<RunOutput>, runtime: string, row: string, workload: string)
    ensures
      var rps := AllRps(runs, runtime, row, workload);
      HasRps(if rps == [] then None else Some(Median(rps)), Concatenated(Matrices(runs), runtime, row, workload))
  {
    AllRpsIs(runs, runtime, row, workload);
    var rounds := Concatenated(Matrices(runs), runtime, row, workload);
    FieldMedian(Rps(rounds), rounds, (x: Measure) => x.rps);
  }

  /** A row's intervals are those of its pairs of rounds, and its verdict says which are missing or too wide. */
  ghost predicate IsRowOf(runs: seq<RunOutput>, runtime: string, max: real, w: WorkloadSummary, r: RowSummary) {
    && (if w.ceiling.Some? then IsPair(r.ofCeiling, runs, runtime, r.row, w.ceiling.value, w.workload)
        else r.ofCeiling.None?)
    && (if AgainstNifra(w, r.row) then IsPair(r.nifraOver, runs, runtime, w.nifra.value, r.row, w.workload)
        else r.nifraOver.None?)
    && HasRps(r.rps, Concatenated(Matrices(runs), runtime, r.row, w.workload))
    && (r.verdict == Ok <==>
         (w.ceiling.Some? ==> Good(r.ofCeiling, max)) && (AgainstNifra(w, r.row) ==> Good(r.nifraOver, max)))
    && (r.verdict == TooFewRounds <==>
         (w.ceiling.Some? && r.ofCeiling.None?) || (AgainstNifra(w, r.row) && r.nifraOver.None?))
  }

  lemma {:induction false} VerdictIs(hasCeiling: bool, i: Option<MedianInterval>, compares: bool,
                                     j: Option<MedianInterval>, max: real)
    ensures
      var v := VerdictOf(Needed(hasCeiling, i, compares, j), max);
      && (v == Ok <==> (hasCeiling ==> Good(i, max)) && (compares ==> Good(j, max)))
      && (v == TooFewRounds <==> (hasCeiling && i.None?) || (compares && j.None?))
  {
    var needed := Needed(hasCeiling, i, compares, j);
    if i.Some? { NarrowIff(i.value, max); }
    if j.Some? { NarrowIff(j.value, max); }
    assert hasCeiling ==> needed[0] == i;
    assert compares ==> needed[|needed| - 1] == j;
    assert forall k :: 0 <= k < |needed| ==> (hasCeiling && needed[k] == i) || (compares && needed[k] == j);
  }

  lemma {:induction false} SummarizedIsRow(runs: seq<RunOutput>, runtime: string, w: WorkloadSummary, row: string,
                                           max: real)
    ensures
      var r := Summarized(runs, runtime, w.workload, row, w.ceiling, w.nifra, max);
      r.row == row && IsRowOf(runs, runtime, max, w, r)
  {
    var r := Summarized(runs, runtime, w.workload, row, w.ceiling, w.nifra, max);
    RpsIs(runs, runtime, row, w.workload);
    VerdictIs(w.ceiling.Some?, r.ofCeiling, AgainstNifra(w, row), r.nifraOver, max);
    if w.ceiling.Some? { OverIsPair(runs, runtime, row, w.ceiling.value, w.workload); }
    if AgainstNifra(w, row) { OverIsPair(runs, runtime, w.nifra.value, row, w.workload); }
  }

  // ---------------------------------------------------------------- which rows there are

  lemma {:induction false} UniqueHas(values: seq<string>)
    ensures Distinct(Unique(values)) && forall x :: x in Unique(values) <==> x in values
  {
    if values != [] {
      var front := values[..|values| - 1];
      UniqueHas(front);
      assert values == front + [values[|values| - 1]];
    }
  }

  /** Some run names the workload. */
  ghost predicate IsNamed(runs: seq<RunOutput>, runtime: string, workload: string) {
    exists i :: 0 <= i < |runs| && IsNamedIn(runs[i], runtime, workload)
  }

  predicate IsNamedIn(run: RunOutput, runtime: string, workload: string) {
    workload in GetOr(run.roleOrder, runtime, []) || workload in GetOr(run.ceilingOrder, runtime, [])
  }

  /** Some run has a cell for the row. */
  ghost predicate HasRow(runs: seq<RunOutput>, runtime: string, workload: string, row: string) {
    exists i :: 0 <= i < |runs| && HasRowIn(runs[i], runtime, workload, row)
  }

  predicate HasRowIn(run: RunOutput, runtime: string, workload: string, row: string) {
    row in GetOr(run.rowOrder, runtime, []) && HasCell(run.results, runtime, row, workload)
  }

  lemma {:induction false} HoldingHas(rows: seq<string>, m: Matrix<Cell>, runtime: string, workload: string)
    ensures forall r :: r in Holding(rows, m, runtime, workload) <==> r in rows && HasCell(m, runtime, r, workload)
  {
    if rows != [] {
      HoldingHas(rows[1..], m, runtime, workload);
      assert rows == [rows[0]] + rows[1..];
    }
  }

  lemma {:induction false} RowNamesHave(runs: seq<RunOutput>, runtime: string, workload: string, row: string)
    ensures row in RowNames(runs, runtime, workload) <==> HasRow(runs, runtime, workload, row)
  {
    if runs != [] {
      HoldingHas(GetOr(runs[0].rowOrder, runtime, []), runs[0].results, runtime, workload);
      RowNamesHave(runs[1..], runtime, workload, row);
      if HasRow(runs[1..], runtime, workload, row) {
        var i :| 0 <= i < |runs| - 1 && HasRowIn(runs[1..][i], runtime, workload, row);
        assert HasRowIn(runs[i + 1], runtime, workload, row);
      }
      if HasRow(runs, runtime, workload, row) {
        var i :| 0 <= i < |runs| && HasRowIn(runs[i], runtime, workload, row);
        if i > 0 { assert HasRowIn(runs[1..][i - 1], runtime, workload, row); }
      }
    }
  }
  lemma {:induction false} WorkloadsNamed(runs: seq<RunOutput>, runtime: string, workload: string)
    ensures workload in WorkloadNames(runs, runtime) <==> IsNamed(runs, runtime, workload)
  {
    if runs != [] {
      WorkloadsNamed(runs[1..], runtime, workload);
      if IsNamed(runs[1..], runtime, workload) {
        var i :| 0 <= i < |runs| - 1 && IsNamedIn(runs[1..][i], runtime, workload);
        assert IsNamedIn(runs[i + 1], runtime, workload);
      }
      if IsNamed(runs, runtime, workload) {
        var i :| 0 <= i < |runs| && IsNamedIn(runs[i], runtime, workload);
        if i > 0 { assert IsNamedIn(runs[1..][i - 1], runtime, workload); }
      }
    }
  }

  /** The first of the runs' values for a workload. */
  ghost predicate IsFirst<V>(values: seq<Option<V>>, first: Option<V>) {
    if first.None? then forall i :: 0 <= i < |values| ==> values[i].None?
    else exists i :: 0 <= i < |values| && values[i] == first && forall j :: 0 <= j < i ==> values[j].None?
  }

  lemma {:induction false} FirstOfRest<V>(values: seq<Option<V>>, first: Option<V>)
    requires values != []
    requires if values[0].Some? then first == values[0] else IsFirst(values[1..], first)
    ensures IsFirst(values, first)
  {
    if values[0].None? {
      if first.None? {
        forall i | 0 <= i < |values| ensures values[i].None? { if i > 0 { assert values[1..][i - 1].None?; } }
      } else {
        var i :| 0 <= i < |values| - 1 && values[1..][i] == first && forall j :: 0 <= j < i ==> values[1..][j].None?;
        forall j | 0 <= j < i + 1 ensures values[j].None? { if j > 0 { assert values[1..][j - 1].None?; } }
        assert values[i + 1] == first;
      }
    }
  }

  function Ceilings(runs: seq<RunOutput>, runtime: string, workload: string): seq<Option<string>> {
    seq(|runs|, i requires 0 <= i < |runs| => Lookup(runs[i].ceilings, runtime, workload))
  }

  function RolesIn(runs: seq<RunOutput>, runtime: string, workload: string): seq<Option<Roles>> {
    seq(|runs|, i requires 0 <= i < |runs| => Lookup(runs[i].roles, runtime, workload))
  }

  lemma {:induction false} FirstsAreFirst(runs: seq<RunOutput>, runtime: string, workload: string)
    ensures IsFirst(Ceilings(runs, runtime, workload), FirstCeiling(runs, runtime, workload))
    ensures IsFirst(RolesIn(runs, runtime, workload), FirstRoles(runs, runtime, workload))
  {
    if runs != [] {
      FirstsAreFirst(runs[1..], runtime, workload);
      assert Ceilings(runs, runtime, workload)[1..] == Ceilings(runs[1..], runtime, workload);
      assert RolesIn(runs, runtime, workload)[1..] == RolesIn(runs[1..], runtime, workload);
      FirstOfRest(Ceilings(runs, runtime, workload), FirstCeiling(runs, runtime, workload));
      FirstOfRest(RolesIn(runs, runtime, workload), FirstRoles(runs, runtime, workload));
    }
  }

  /** The rows of nifra among the names. */
  function Nifras(rows: seq<string>): seq<Option<string>> {
    seq(|rows|, i requires 0 <= i < |rows| => if "nifra" <= rows[i] then Some(rows[i]) else None)
  }

  /** The section of a workload: its ceiling and roles are the first some run gives, nifra's row by role or by name. */
  ghost predicate IsSection(runs: seq<RunOutput>, runtime: string, w: WorkloadSummary) {
    && IsNamed(runs, runtime, w.workload)
    && IsFirst(Ceilings(runs, runtime, w.workload), w.ceiling)
    && exists roles :: IsFirst(RolesIn(runs, runtime, w.workload), roles) && HasNifra(runs, runtime, roles, w)
  }

  ghost predicate HasNifra(runs: seq<RunOutput>, runtime: string, roles: Option<Roles>, w: WorkloadSummary) {
    if roles.Some? then w.nifra == Some(roles.value.nifra)
    else w.ceiling.Some? && IsFirst(Nifras(RowNames(runs, runtime, w.workload)), w.nifra)
  }

  lemma {:induction false} OneFirst<V>(values: seq<Option<V>>, a: Option<V>, b: Option<V>)
    requires IsFirst(values, a) && IsFirst(values, b)
    ensures a == b
  {
  }

  lemma {:induction false} FirstNifraIs(rows: seq<string>)
    ensures IsFirst(Nifras(rows), FirstNifra(rows))
  {
    if rows != [] {
      FirstNifraIs(rows[1..]);
      assert Nifras(rows)[1..] == Nifras(rows[1..]);
      FirstOfRest(Nifras(rows), FirstNifra(rows));
    }
  }

  lemma {:induction false} FirstNifraAppend(rows: seq<string>, last: string)
    ensures FirstNifra(rows + [last]) ==
      if FirstNifra(rows).Some? then FirstNifra(rows) else if "nifra" <= last then Some(last) else None
    ensures FirstNifra(rows).None? && last in rows ==> !("nifra" <= last)
  {
    if rows == [] {
      assert rows + [last] == [last];
    } else {
      assert (rows + [last])[1..] == rows[1..] + [last];
      FirstNifraAppend(rows[1..], last);
      assert rows == [rows[0]] + rows[1..];
    }
  }

  /** Leaving out repeats leaves the first. */
  lemma {:induction false} FirstNifraUnique(rows: seq<string>)
    ensures FirstNifra(Unique(rows)) == FirstNifra(rows)
  {
    if rows != [] {
      var front, last := rows[..|rows| - 1], rows[|rows| - 1];
      FirstNifraUnique(front);
      FirstNifraAppend(front, last);
      FirstNifraAppend(Unique(front), last);
      assert rows == front + [last];
    }
  }

  lemma {:induction false} SummarizedRows(runs: seq<RunOutput>, runtime: string, workload: string, rows: seq<string>,
                                          ceiling: Option<string>, nifra: Option<string>, max: real, r: RowSummary)
    ensures r in SummarizeRows(runs, runtime, workload, rows, ceiling, nifra, max) <==>
      r.row in rows && r == Summarized(runs, runtime, workload, r.row, ceiling, nifra, max)
  {
    if rows != [] {
      SummarizedRows(runs, runtime, workload, rows[1..], ceiling, nifra, max, r);
      assert rows == [rows[0]] + rows[1..];
    }
  }

  /** The section's rows are those some run has a cell for, each with its own intervals and verdict. */
  ghost predicate IsSummaryOf(runs: seq<RunOutput>, runtime: string, max: real, w: WorkloadSummary) {
    && IsSection(runs, runtime, w)
    && (forall r :: r in w.rows ==> IsRowOf(runs, runtime, max, w, r))
    && forall row :: HasRow(runs, runtime, w.workload, row) <==> exists r :: r in w.rows && r.row == row
  }

  lemma {:induction false} WorkloadIsSummary(runs: seq<RunOutput>, runtime: string, workload: string, max: real)
    requires IsNamed(runs, runtime, workload) && SummarizeWorkload(runs, runtime, workload, max).Some?
    ensures SummarizeWorkload(runs, runtime, workload, max).value.workload == workload
    ensures IsSummaryOf(runs, runtime, max, SummarizeWorkload(runs, runtime, workload, max).value)
  {
    var w := SummarizeWorkload(runs, runtime, workload, max).value;
    var names := Unique(RowNames(runs, runtime, workload));
    WorkloadIsSection(runs, runtime, workload, max);
    UniqueHas(RowNames(runs, runtime, workload));
    forall r ensures r in w.rows <==>
      r.row in names && r == Summarized(runs, runtime, workload, r.row, w.ceiling, w.nifra, max)
    {
      SummarizedRows(runs, runtime, workload, names, w.ceiling, w.nifra, max, r);
      assert w.ceiling.Some? ==> (r in w.rows <==> r in multiset(w.rows));
    }
    forall r | r in w.rows ensures IsRowOf(runs, runtime, max, w, r) { SummarizedIsRow(runs, runtime, w, r.row, max); }
    forall row ensures HasRow(runs, runtime, workload, row) <==> exists r :: r in w.rows && r.row == row {
      RowNamesHave(runs, runtime, workload, row);
      SummarizedIsRow(runs, runtime, w, row, max);
      assert row in names ==> Summarized(runs, runtime, workload, row, w.ceiling, w.nifra, max) in w.rows;
    }
  }

  lemma {:induction false} WorkloadIsSection(runs: seq<RunOutput>, runtime: string, workload: string, max: real)
    requires IsNamed(runs, runtime, workload) && SummarizeWorkload(runs, runtime, workload, max).Some?
    ensures SummarizeWorkload(runs, runtime, workload, max).value.workload == workload
    ensures IsSection(runs, runtime, SummarizeWorkload(runs, runtime, workload, max).value)
  {
    FirstsAreFirst(runs, runtime, workload);
    FirstNifraIs(RowNames(runs, runtime, workload));
    FirstNifraUnique(RowNames(runs, runtime, workload));
  }

  lemma {:induction false} EachHas(runs: seq<RunOutput>, runtime: string, workloads: seq<string>, max: real,
                                   w: WorkloadSummary)
    ensures w in SummarizeEach(runs, runtime, workloads, max) <==>
      exists workload :: workload in workloads && SummarizeWorkload(runs, runtime, workload, max) == Some(w)
  {
    if workloads != [] {
      var first, rest := SummarizeWorkload(runs, runtime, workloads[0], max), workloads[1..];
      EachHas(runs, runtime, rest, max, w);
      assert workloads == [workloads[0]] + rest;
      assert w in SummarizeEach(runs, runtime, workloads, max) <==>
        first == Some(w) || w in SummarizeEach(runs, runtime, rest, max);
    }
  }

  /** Every section of the summary is one of a named workload, with all its rows. */
  lemma {:induction false} SummaryIsSound(runs: seq<RunOutput>, runtime: string, max: real, w: WorkloadSummary)
    requires w in Summarize(runs, runtime, max)
    ensures IsSummaryOf(runs, runtime, max, w)
  {
    var names := WorkloadNames(runs, runtime);
    EachHas(runs, runtime, Unique(names), max, w);
    var workload :| workload in Unique(names) && SummarizeWorkload(runs, runtime, workload, max) == Some(w);
    UniqueHas(names);
    WorkloadsNamed(runs, runtime, workload);
    WorkloadIsSummary(runs, runtime, workload, max);
  }

  /** Every workload that some run names, with a ceiling or roles, has its section in the summary. */
  lemma {:induction false} SummaryIsComplete(runs: seq<RunOutput>, runtime: string, max: real, w: WorkloadSummary)
    returns (found: WorkloadSummary)
    requires IsSection(runs, runtime, w)
    ensures found in Summarize(runs, runtime, max)
    ensures found.workload == w.workload && found.ceiling == w.ceiling && found.nifra == w.nifra
  {
    var names := WorkloadNames(runs, runtime);
    UniqueHas(names);
    WorkloadsNamed(runs, runtime, w.workload);
    SectionIsFound(runs, runtime, max, w);
    found := SummarizeWorkload(runs, runtime, w.workload, max).value;
    EachHas(runs, runtime, Unique(names), max, found);
  }

  lemma {:induction false} SectionIsFound(runs: seq<RunOutput>, runtime: string, max: real, w: WorkloadSummary)
    requires IsSection(runs, runtime, w)
    ensures
      var found := SummarizeWorkload(runs, runtime, w.workload, max);
      && found.Some? && found.value.workload == w.workload
      && found.value.ceiling == w.ceiling && found.value.nifra == w.nifra
  {
    var roles :| IsFirst(RolesIn(runs, runtime, w.workload), roles) && HasNifra(runs, runtime, roles, w);
    FirstsAreFirst(runs, runtime, w.workload);
    OneFirst(Ceilings(runs, runtime, w.workload), w.ceiling, FirstCeiling(runs, runtime, w.workload));
    OneFirst(RolesIn(runs, runtime, w.workload), roles, FirstRoles(runs, runtime, w.workload));
    FirstNifraIs(RowNames(runs, runtime, w.workload));
    FirstNifraUnique(RowNames(runs, runtime, w.workload));
    if roles.None? {
      OneFirst(Nifras(RowNames(runs, runtime, w.workload)), w.nifra, FirstNifra(RowNames(runs, runtime, w.workload)));
    }
  }

  /** Each comparison of the row would survive. */
  ghost predicate IsTightRow(runs: seq<RunOutput>, runtime: string, w: WorkloadSummary, row: string, max: real) {
    && (w.ceiling.Some? ==> IsTight(runs, runtime, row, w.ceiling.value, w.workload, max))
    && (AgainstNifra(w, row) ==> IsTight(runs, runtime, w.nifra.value, row, w.workload, max))
  }

  /** Each row of each section would. */
  ghost predicate AllTight(runs: seq<RunOutput>, runtime: string, max: real) {
    forall w, row :: IsSection(runs, runtime, w) && HasRow(runs, runtime, w.workload, row) ==>
      IsTightRow(runs, runtime, w, row, max)
  }

  lemma {:induction false} OkIffTight(runs: seq<RunOutput>, runtime: string, w: WorkloadSummary, r: RowSummary,
                                      max: real)
    requires IsRowOf(runs, runtime, max, w, r)
    ensures r.verdict == Ok <==> IsTightRow(runs, runtime, w, r.row, max)
  {
  }

  lemma {:induction false} NotOkIff(rows: seq<RowSummary>)
    ensures NotOk(rows) == 0 <==> forall r :: r in rows ==> r.verdict == Ok
  {
    if rows != [] {
      NotOkIff(rows[1..]);
      assert rows == [rows[0]] + rows[1..];
    }
  }

  lemma {:induction false} UnsettledIff(workloads: seq<WorkloadSummary>)
    ensures UnsettledRows(workloads) == 0 <==>
      forall w, r :: w in workloads && r in w.rows ==> r.verdict == Ok
  {
    if workloads != [] {
      UnsettledIff(workloads[1..]);
      NotOkIff(workloads[0].rows);
      assert workloads == [workloads[0]] + workloads[1..];
    }
  }

  /** No row is unsettled exactly when each row's comparisons have six pairs of rounds and are narrow enough. */
  lemma {:induction false} SettledIffTight(runs: seq<RunOutput>, runtime: string, max: real)
    ensures UnsettledRows(Summarize(runs, runtime, max)) == 0 <==> AllTight(runs, runtime, max)
  {
    var sections := Summarize(runs, runtime, max);
    UnsettledIff(sections);
    forall w | w in sections ensures IsSummaryOf(runs, runtime, max, w) { SummaryIsSound(runs, runtime, max, w); }
    forall w, r | w in sections && r in w.rows
      ensures r.verdict == Ok <==> IsTightRow(runs, runtime, w, r.row, max)
      ensures IsSection(runs, runtime, w) && HasRow(runs, runtime, w.workload, r.row)
    {
      OkIffTight(runs, runtime, w, r, max);
    }
    if UnsettledRows(sections) == 0 {
      forall w, row | IsSection(runs, runtime, w) && HasRow(runs, runtime, w.workload, row)
        ensures IsTightRow(runs, runtime, w, row, max)
      {
        var found := SummaryIsComplete(runs, runtime, max, w);
        var r :| r in found.rows && r.row == row;
        assert IsTightRow(runs, runtime, found, row, max);
      }
    }
  }

  // ---------------------------------------------------------------- the stopping loop

  datatype Options = Options(runtime: string, minRuns: nat, maxRuns: nat, maxWidth: real)

  /** `measure(i)` is what the i-th fresh process will print. */
  function FirstRuns(measure: nat -> RunOutput, n: nat): (r: seq<RunOutput>)
    ensures |r| == n
  {
    if n == 0 then [] else FirstRuns(measure, n - 1) + [measure(n - 1)]
  }

  ghost predicate Settled(measure: nat -> RunOutput, n: nat, options: Options) {
    UnsettledRows(Summarize(FirstRuns(measure, n), options.runtime, options.maxWidth)) == 0
  }

  /** Between the two bounds, early only when settled, and never later than the first settled run. */
  ghost predicate StopsAfter(measure: nat -> RunOutput, options: Options, n: nat) {
    && options.minRuns <= n <= options.maxRuns
    && (n < options.maxRuns ==> Settled(measure, n, options))
    && forall m :: options.minRuns <= m < n ==> !Settled(measure, m, options)
  }

  /** The loop ends early exactly when each comparison of each row has enough pairs and is narrow enough. */
  method MeasureUntilSettled(measure: nat -> RunOutput, options: Options) returns (runs: seq<RunOutput>)
    requires 1 <= options.minRuns <= options.maxRuns
    ensures runs == FirstRuns(measure, |runs|)
    ensures StopsAfter(measure, options, |runs|)
    ensures |runs| < options.maxRuns ==> AllTight(runs, options.runtime, options.maxWidth)
    ensures forall n :: options.minRuns <= n < |runs| ==>
      !AllTight(FirstRuns(measure, n), options.runtime, options.maxWidth)
  {
    var settled := (rs: seq<RunOutput>) => UnsettledRows(Summarize(rs, options.runtime, options.maxWidth)) == 0;
    runs := MeasureUntil(measure, settled, options.minRuns, options.maxRuns);
    assert forall m: nat :: Settled(measure, m, options) == settled(FirstRuns(measure, m));
    forall n: nat
      ensures Settled(measure, n, options) <==>
        AllTight(FirstRuns(measure, n), options.runtime, options.maxWidth)
    {
      SettledIffTight(FirstRuns(measure, n), options.runtime, options.maxWidth);
    }
  }

  /** The loop, whatever settles it. */
  method MeasureUntil(measure: nat -> RunOutput, settled: seq<RunOutput> -> bool, least: nat, most: nat)
    returns (runs: seq<RunOutput>)
    requires 1 <= least <= most
    ensures runs == FirstRuns(measure, |runs|) && least <= |runs| <= most
    ensures |runs| < most ==> settled(runs)
    ensures forall m: nat :: least <= m < |runs| ==> !settled(FirstRuns(measure, m))
  {
    runs := [];
    while |runs| < most
      invariant |runs| <= most && runs == FirstRuns(measure, |runs|)
      invariant forall m: nat :: least <= m <= |runs| ==> !settled(FirstRuns(measure, m))
    {
      runs := runs + [measure(|runs|)];
      if |runs| < least { continue; }
      if settled(runs) { break; }
    }
  }

  lemma {:induction false} FirstRunsScale(measure: nat -> RunOutput, faster: nat -> RunOutput, scaled: string,
                                          factor: real, n: nat)
    requires forall i :: faster(i) == measure(i).(results := ScaleRow(scaled, factor, measure(i).results))
    ensures FirstRuns(faster, n) == ScaleRuns(scaled, factor, FirstRuns(measure, n))
  {
    if n > 0 {
      FirstRunsScale(measure, faster, scaled, factor, n - 1);
      ScaleRunsAppend(scaled, factor, FirstRuns(measure, n - 1), measure(n - 1));
    }
  }

  lemma {:induction false} ScaleRunsAppend(scaled: string, factor: real, runs: seq<RunOutput>, last: RunOutput)
    ensures ScaleRuns(scaled, factor, runs + [last]) ==
      ScaleRuns(scaled, factor, runs) + [last.(results := ScaleRow(scaled, factor, last.results))]
  {
    if runs != [] {
      assert (runs + [last])[1..] == runs[1..] + [last];
      ScaleRunsAppend(scaled, factor, runs[1..], last);
    }
  }

  /** The loop stops after exactly one number of runs, and scaling a row by any positive constant leaves it the same. */
  lemma {:induction false} StoppingIgnoresLeader(measure: nat -> RunOutput, faster: nat -> RunOutput, scaled: string,
                                                 factor: real, options: Options, n: nat, n': nat)
    requires factor > 0.0
    requires forall i :: faster(i) == measure(i).(results := ScaleRow(scaled, factor, measure(i).results))
    requires StopsAfter(measure, options, n) && StopsAfter(faster, options, n')
    ensures n == n'
  {
    forall m: nat ensures Settled(measure, m, options) == Settled(faster, m, options) {
      FirstRunsScale(measure, faster, scaled, factor, m);
      UnsettledIgnoresScale(FirstRuns(measure, m), scaled, factor, options.runtime, options.maxWidth);
    }
  }
}
