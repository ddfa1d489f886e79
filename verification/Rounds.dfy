/**
 * Interleaved benchmark rounds: fair orders, paired ratios, and the pooling of whole-matrix runs. Floats are modelled
 * as `real`; a record is a map, and `Object.entries` visits it in any order, since what is pooled does not depend on
 * it.
 */
module Rounds {
  import opened Collections

  // ---------------------------------------------------------------- fair orders

  function Reversed<T>(s: seq<T>): (r: seq<T>)
    ensures |r| == |s| && forall i :: 0 <= i < |s| ==> r[i] == s[|s| - 1 - i]
  {
    if s == [] then [] else Reversed(s[1..]) + [s[0]]
  }

  function RoundOrder<T>(items: seq<T>, round: nat): seq<T> {
    if items == [] then []
    else
      var k := (round / 2) % |items|;
      var order := items[k..] + items[..k];
      if round % 2 == 1 then Reversed(order) else order
  }

  /** Where row `row` of `n` runs in `round`. */
  function Position(n: nat, round: nat, row: nat): (p: nat)
    requires row < n
    ensures p < n
  {
    var k := (round / 2) % n;
    var forward := if row >= k then row - k else row - k + n;
    if round % 2 == 1 then n - 1 - forward else forward
  }

  /** A round runs every row once: `Position` places each row, and no two rows share a place. */
  lemma RoundIsPermutation<T>(items: seq<T>, round: nat, row: nat)
    requires row < |items|
    ensures |RoundOrder(items, round)| == |items|
    ensures RoundOrder(items, round)[Position(|items|, round, row)] == items[row]
    ensures forall other: nat :: other < |items| && other != row ==>
      Position(|items|, round, other) != Position(|items|, round, row)
    ensures multiset(RoundOrder(items, round)) == multiset(items)
  {
    var k := (round / 2) % |items|;
    var order := items[k..] + items[..k];
    assert items == items[..k] + items[k..];
    ReversedKeepsElements(order);
  }

  lemma {:induction false} ReversedKeepsElements<T>(s: seq<T>)
    ensures multiset(Reversed(s)) == multiset(s)
  {
    if s != [] {
      assert s == [s[0]] + s[1..];
      ReversedKeepsElements(s[1..]);
    }
  }

  /** Within a pair of rounds any two rows swap order: a row's two positions sum to n - 1. */
  lemma PairSwapsRows(n: nat, pair: nat, row: nat, other: nat)
    requires row < n && other < n && row != other
    ensures Position(n, 2 * pair, row) + Position(n, 2 * pair + 1, row) == n - 1
    ensures Position(n, 2 * pair, row) < Position(n, 2 * pair, other) <==>
      Position(n, 2 * pair + 1, other) < Position(n, 2 * pair + 1, row)
  {
    assert (2 * pair) / 2 == (2 * pair + 1) / 2 == pair;
  }

  lemma MultiplesAreFar(n: nat, times: int)
    requires n > 0
    ensures times >= 1 ==> times * n >= n
    ensures times <= -1 ==> times * n <= -(n as int)
  {
    assert times * n - n == (times - 1) * n && times * n + n == (times + 1) * n;
  }

  lemma AddModulus(n: nat, x: nat)
    requires n > 0
    ensures (x + n) % n == x % n
  {
    var q, q' := x / n, (x + n) / n;
    assert x == q * n + x % n && x + n == q' * n + (x + n) % n;
    assert (q' - q - 1) * n == q' * n - q * n - n;
    MultiplesAreFar(n, q' - q - 1);
  }

  lemma SameRemainder(n: nat, a: nat, b: nat)
    requires n > 0 && a % n == b % n && a < b + n && b < a + n
    ensures a == b
  {
    assert a == a / n * n + a % n && b == b / n * n + b % n;
    assert (a / n - b / n) * n == a - b;
    MultiplesAreFar(n, a / n - b / n);
  }

  /** Among n consecutive pairs some one has a given rotation; `SameRemainder` makes it the only one. */
  lemma {:induction false} SomePairRotates(n: nat, start: nat, rotation: nat) returns (pair: nat)
    requires rotation < n
    ensures start <= pair < start + n && pair % n == rotation
    decreases start
  {
    if start == 0 {
      pair := rotation;
    } else {
      pair := SomePairRotates(n, start - 1, rotation);
      if pair == start - 1 {
        AddModulus(n, pair);
        pair := pair + n;
      }
    }
  }

  /** Over any 2n rounds that start with a pair, every row takes every position exactly twice. */
  lemma EveryRowTakesEveryPositionTwice(n: nat, start: nat, row: nat, place: nat)
    requires row < n && place < n
    ensures |set round | 2 * start <= round < 2 * start + 2 * n && Position(n, round, row) == place| == 2
  {
    var taken := set round | 2 * start <= round < 2 * start + 2 * n && Position(n, round, row) == place;
    var back := n - 1 - place;
    var forward := SomePairRotates(n, start, if row >= place then row - place else row - place + n);
    var backward := SomePairRotates(n, start, if row >= back then row - back else row - back + n);
    assert (2 * forward) / 2 == forward && (2 * backward + 1) / 2 == backward;
    forall round | round in taken ensures round == 2 * forward || round == 2 * backward + 1 {
      var pair := round / 2;
      assert start <= pair < start + n;
      if round % 2 == 0 { SameRemainder(n, pair, forward); } else { SameRemainder(n, pair, backward); }
    }
    assert taken == {2 * forward, 2 * backward + 1};
    assert 2 * forward != 2 * backward + 1;
  }

  // ---------------------------------------------------------------- medians and ratios

  ghost predicate Ascending(s: seq<real>) {
    |s| >= 2 ==> s[0] <= s[1] && Ascending(s[1..])
  }

  lemma {:induction false} AscendingAt(s: seq<real>, i: nat, j: nat)
    requires Ascending(s) && i <= j < |s|
    ensures s[i] <= s[j]
  {
    if i > 0 {
      AscendingAt(s[1..], i - 1, j - 1);
    } else if j > 0 {
      AscendingAt(s[1..], 0, j - 1);
    }
  }

  function InsertReal(x: real, s: seq<real>): (r: seq<real>)
    requires Ascending(s)
    ensures Ascending(r) && |r| == |s| + 1 && (s == [] || x <= s[0] ==> r[0] == x)
    ensures (s != [] && x > s[0] ==> r[0] == s[0])
    ensures multiset(r) == multiset([x]) + multiset(s)
  {
    if s == [] then [x]
    else if x <= s[0] then
      assert ([x] + s)[1..] == s;
      [x] + s
    else
      assert s == [s[0]] + s[1..];
      var rest := InsertReal(x, s[1..]);
      assert ([s[0]] + rest)[1..] == rest;
      [s[0]] + rest
  }

  /** `sort((a, b) => a - b)`. */
  function SortReals(s: seq<real>): (r: seq<real>)
    ensures Ascending(r) && multiset(r) == multiset(s) && |r| == |s|
  {
    if s == [] then []
    else
      assert s == [s[0]] + s[1..];
      InsertReal(s[0], SortReals(s[1..]))
  }

  /** An ascending sequence is the only one of its elements. */
  lemma {:induction false} AscendingIsSorted(s: seq<real>)
    requires Ascending(s)
    ensures SortReals(s) == s
  {
    if s != [] {
      AscendingIsSorted(s[1..]);
      assert s == [s[0]] + s[1..];
    }
  }

  function Middle(sorted: seq<real>): real {
    var mid := |sorted| / 2;
    if sorted == [] then 0.0
    else if |sorted| % 2 == 1 then sorted[mid]
    else (sorted[mid - 1] + sorted[mid]) / 2.0
  }

  function Median(values: seq<real>): real {
    Middle(SortReals(values))
  }

  /** In whatever way the values are put in order, the one in the middle, or the mean of the two. */
  ghost predicate IsMedian(m: real, values: seq<real>) {
    forall s :: Ascending(s) && multiset(s) == multiset(values) ==> InMiddle(m, s)
  }

  ghost predicate InMiddle(m: real, s: seq<real>) {
    && (|s| == 0 ==> m == 0.0)
    && (|s| % 2 == 1 ==> m == s[(|s| - 1) / 2])
    && (|s| % 2 == 0 && |s| > 0 ==> m + m == s[|s| / 2 - 1] + s[|s| / 2])
  }

  /** The values have one order, so one median, and the median is it. */
  lemma {:induction false} MedianIff(m: real, values: seq<real>)
    ensures m == Median(values) <==> IsMedian(m, values)
  {
    var sorted := SortReals(values);
    forall s | Ascending(s) && multiset(s) == multiset(values) ensures s == sorted { OneOrder(s, sorted); }
    MiddleIff(m, sorted);
  }

  lemma {:induction false} MiddleIff(m: real, s: seq<real>)
    ensures m == Middle(s) <==> InMiddle(m, s)
  {
  }

  lemma {:induction false} OneOrder(s: seq<real>, t: seq<real>)
    requires Ascending(s) && Ascending(t) && multiset(s) == multiset(t)
    ensures s == t
    decreases |s|
  {
    assert |s| == |multiset(s)| == |multiset(t)| == |t|;
    if s != [] {
      FirstIsLeast(s, t);
      FirstIsLeast(t, s);
      assert s == [s[0]] + s[1..] && t == [t[0]] + t[1..];
      assert multiset(s[1..]) == multiset(s) - multiset([s[0]]) == multiset(t[1..]);
      OneOrder(s[1..], t[1..]);
    }
  }

  lemma {:induction false} FirstIsLeast(s: seq<real>, t: seq<real>)
    requires Ascending(s) && s != [] && t != [] && multiset(s) == multiset(t)
    ensures s[0] <= t[0]
  {
    assert t[0] in multiset(t);
    var i :| 0 <= i < |s| && s[i] == t[0];
    AscendingAt(s, 0, i);
  }

  function CountBelow(values: seq<real>, x: real): nat {
    if values == [] then 0 else (if values[0] < x then 1 else 0) + CountBelow(values[1..], x)
  }

  function CountAbove(values: seq<real>, x: real): nat {
    if values == [] then 0 else (if values[0] > x then 1 else 0) + CountAbove(values[1..], x)
  }

  lemma {:induction false} InsertCounts(x: real, s: seq<real>, y: real)
    requires Ascending(s)
    ensures CountBelow(InsertReal(x, s), y) == (if x < y then 1 else 0) + CountBelow(s, y)
    ensures CountAbove(InsertReal(x, s), y) == (if x > y then 1 else 0) + CountAbove(s, y)
  {
    var r := InsertReal(x, s);
    if s == [] || x <= s[0] {
      assert r[1..] == s;
    } else {
      InsertCounts(x, s[1..], y);
      assert r[1..] == InsertReal(x, s[1..]);
    }
  }

  lemma {:induction false} SortCounts(values: seq<real>, y: real)
    ensures CountBelow(SortReals(values), y) == CountBelow(values, y)
    ensures CountAbove(SortReals(values), y) == CountAbove(values, y)
  {
    if values != [] {
      SortCounts(values[1..], y);
      InsertCounts(values[0], SortReals(values[1..]), y);
    }
  }

  lemma {:induction false} CountsAt(s: seq<real>, k: nat, y: real)
    requires Ascending(s) && k < |s|
    ensures y <= s[k] ==> CountBelow(s, y) <= k
    ensures s[k] <= y ==> CountAbove(s, y) <= |s| - 1 - k
  {
    if k > 0 {
      AscendingAt(s, 0, k);
      CountsAt(s[1..], k - 1, y);
    } else if y <= s[0] {
      NoneFallBelow(s, y);
    }
    CountsBound(s[1..], y);
  }

  lemma {:induction false} CountsBound(s: seq<real>, y: real)
    ensures CountAbove(s, y) <= |s|
  {
    if s != [] { CountsBound(s[1..], y); }
  }

  lemma {:induction false} NoneFallBelow(s: seq<real>, y: real)
    requires Ascending(s) && (s != [] ==> y <= s[0])
    ensures CountBelow(s, y) == 0
  {
    if s != [] { NoneFallBelow(s[1..], y); }
  }

  /** No more than half of the values lie below their median, and no more than half above. */
  lemma {:induction false} MedianBalances(values: seq<real>)
    ensures 2 * CountBelow(values, Median(values)) <= |values| && 2 * CountAbove(values, Median(values)) <= |values|
  {
    var s, m := SortReals(values), Median(values);
    SortCounts(values, m);
    if s != [] {
      MiddleBetween(s);
      CountsAt(s, |s| / 2, m);
      CountsAt(s, (|s| - 1) / 2, m);
    }
  }

  lemma {:induction false} MiddleBetween(s: seq<real>)
    requires Ascending(s) && s != []
    ensures s[(|s| - 1) / 2] <= Middle(s) <= s[|s| / 2]
  {
    AscendingAt(s, (|s| - 1) / 2, |s| / 2);
  }

  function RoundRatios(a: seq<real>, b: seq<real>): (r: seq<real>) {
    if a == [] || b == [] then []
    else (if b[0] > 0.0 then [a[0] / b[0]] else []) + RoundRatios(a[1..], b[1..])
  }

  datatype Measure = Measure(rps: real, p50ms: real, p99ms: real)
  datatype Cell = Cell(rounds: seq<Measure>)
  datatype MatrixCell = MatrixCell(rps: real, p50ms: real, p99ms: real, rounds: seq<Measure>, ofCeiling: Option<real>)

  /** cells[runtime][row][workload] */
  type Matrix<C> = map<string, map<string, map<string, C>>>

  predicate HasCell<C>(m: Matrix<C>, runtime: string, row: string, workload: string) {
    runtime in m && row in m[runtime] && workload in m[runtime][row]
  }

  function RoundsOf(m: Matrix<Cell>, runtime: string, row: string, workload: string): seq<Measure> {
    if HasCell(m, runtime, row, workload) then m[runtime][row][workload].rounds else []
  }

  function Rps(rounds: seq<Measure>): (r: seq<real>)
    ensures |r| == |rounds|
  {
    seq(|rounds|, i requires 0 <= i < |rounds| => rounds[i].rps)
  }

  function PooledRatios(runs: seq<Matrix<Cell>>, runtime: string, a: string, b: string, workload: string): seq<real> {
    if runs == [] then []
    else
      RoundRatios(Rps(RoundsOf(runs[0], runtime, a, workload)), Rps(RoundsOf(runs[0], runtime, b, workload))) +
      PooledRatios(runs[1..], runtime, a, b, workload)
  }

  /** The rounds before the n-th that have a positive baseline. */
  function PairsBefore(b: seq<real>, n: nat): nat
    requires n <= |b|
  {
    if n == 0 then 0 else PairsBefore(b, n - 1) + if b[n - 1] > 0.0 then 1 else 0
  }

  lemma {:induction false} PairsAfterFirst(b: seq<real>, n: nat)
    requires 0 < n <= |b|
    ensures PairsBefore(b, n) == (if b[0] > 0.0 then 1 else 0) + PairsBefore(b[1..], n - 1)
  {
    if n > 1 { PairsAfterFirst(b, n - 1); }
  }

  /** Each round that both rows measured, over a positive baseline, gives its own ratio, and nothing else does. */
  lemma {:induction false} RatioOfRound(a: seq<real>, b: seq<real>, i: nat)
    requires i < |a| && i < |b|
    ensures |RoundRatios(a, b)| == PairsBefore(b, if |a| < |b| then |a| else |b|)
    ensures b[i] > 0.0 ==>
      PairsBefore(b, i) < |RoundRatios(a, b)| && RoundRatios(a, b)[PairsBefore(b, i)] == a[i] / b[i]
  {
    PairsAfterFirst(b, if |a| < |b| then |a| else |b|);
    if i > 0 {
      RatioOfRound(a[1..], b[1..], i - 1);
      PairsAfterFirst(b, i);
    } else if |a| > 1 && |b| > 1 {
      RatioOfRound(a[1..], b[1..], 0);
    }
  }

  function PooledRatio(runs: seq<Matrix<Cell>>, runtime: string, a: string, b: string, workload: string): Option<real> {
    var ratios := PooledRatios(runs, runtime, a, b, workload);
    if ratios == [] then None else Some(Median(ratios))
  }

  // ---------------------------------------------------------------- drift cancels

  /** Named so that equal factors give equal products. */
  function Scale(f: real, x: real): real { f * x }

  /** The host ran `load(i)` times as fast during round `i`, for every row alike. */
  function Drift(load: nat -> real, m: Matrix<Cell>): Matrix<Cell> {
    map runtime | runtime in m :: map row | row in m[runtime] :: map workload | workload in m[runtime][row] ::
      Cell(DriftRounds(load, m[runtime][row][workload].rounds))
  }

  function DriftRounds(load: nat -> real, rounds: seq<Measure>): (r: seq<Measure>)
    ensures |r| == |rounds|
  {
    seq(|rounds|, i requires 0 <= i < |rounds| => rounds[i].(rps := Scale(load(i), rounds[i].rps)))
  }

  ghost predicate Positive(load: nat -> real) { forall i :: load(i) > 0.0 }

  lemma {:induction false} RatioOfScaled(a: real, b: real, c: real)
    requires b != 0.0 && c != 0.0
    ensures Scale(c, b) != 0.0 && Scale(c, a) / Scale(c, b) == a / b
  {
    var q := a / b;
    assert q * b == a;
    assert c * b != 0.0;
    assert q * (c * b) == c * a;
  }

  lemma {:induction false} SignOfScaled(x: real, c: real)
    requires c > 0.0
    ensures Scale(c, x) > 0.0 <==> x > 0.0
  {
  }

  lemma {:induction false} RatiosIgnoreLoad(a: seq<real>, b: seq<real>, a': seq<real>, b': seq<real>, load: seq<real>)
    requires |a'| == |a| <= |load| && |b'| == |b| <= |load|
    requires forall i :: 0 <= i < |load| ==> load[i] > 0.0
    requires forall i :: 0 <= i < |a| ==> a'[i] == Scale(load[i], a[i])
    requires forall i :: 0 <= i < |b| ==> b'[i] == Scale(load[i], b[i])
    ensures RoundRatios(a', b') == RoundRatios(a, b)
  {
    if a != [] && b != [] {
      SignOfScaled(b[0], load[0]);
      if b[0] > 0.0 { RatioOfScaled(a[0], b[0], load[0]); }
      RatiosIgnoreLoad(a[1..], b[1..], a'[1..], b'[1..], load[1..]);
    }
  }

  /** Load that moves every row of a round by one factor, different in each round of each run, moves no pooled ratio. */
  lemma {:induction false} DriftCancels(runs: seq<Matrix<Cell>>, drifted: seq<Matrix<Cell>>, loads: seq<nat -> real>,
                                        runtime: string, a: string, b: string, workload: string)
    requires |drifted| == |runs| == |loads|
    requires forall r :: 0 <= r < |runs| ==> Positive(loads[r]) && drifted[r] == Drift(loads[r], runs[r])
    ensures PooledRatios(drifted, runtime, a, b, workload) == PooledRatios(runs, runtime, a, b, workload)
  {
    if runs != [] {
      var x, y := RoundsOf(runs[0], runtime, a, workload), RoundsOf(runs[0], runtime, b, workload);
      var x', y' := RoundsOf(drifted[0], runtime, a, workload), RoundsOf(drifted[0], runtime, b, workload);
      var load := seq(|x| + |y|, (i: nat) => loads[0](i));
      assert drifted[0] == Drift(loads[0], runs[0]) && Positive(loads[0]);
      RatiosIgnoreLoad(Rps(x), Rps(y), Rps(x'), Rps(y'), load);
      DriftCancels(runs[1..], drifted[1..], loads[1..], runtime, a, b, workload);
    }
  }

  // ---------------------------------------------------------------- pooling runs

  /** The rounds of one cell over the runs, in run order. */
  function Concatenated(runs: seq<Matrix<Cell>>, runtime: string, row: string, workload: string): seq<Measure> {
    if runs == [] then []
    else Concatenated(runs[..|runs| - 1], runtime, row, workload) + RoundsOf(runs[|runs| - 1], runtime, row, workload)
  }

  predicate SomeRunHas(runs: seq<Matrix<Cell>>, runtime: string, row: string, workload: string) {
    exists r :: 0 <= r < |runs| && HasCell(runs[r], runtime, row, workload)
  }

  /** Append samples to one cell, creating its section, row and cell on first use; every other cell stays. */
  method PushRounds(matrix: Matrix<Cell>, runtime: string, row: string, workload: string, measures: seq<Measure>)
    returns (pushed: Matrix<Cell>)
    ensures HasCell(pushed, runtime, row, workload)
    ensures RoundsOf(pushed, runtime, row, workload) == RoundsOf(matrix, runtime, row, workload) + measures
    ensures forall a, b, c :: (a, b, c) != (runtime, row, workload) ==>
      HasCell(pushed, a, b, c) == HasCell(matrix, a, b, c) && RoundsOf(pushed, a, b, c) == RoundsOf(matrix, a, b, c)
  {
    var section := GetOr(matrix, runtime, map[]);
    var cells := GetOr(section, row, map[]);
    var cell := GetOr(cells, workload, Cell([]));
    cells := cells[workload := Cell(cell.rounds + measures)];
    section := section[row := cells];
    pushed := matrix[runtime := section];
  }

  type Key = (string, string, string)

  function Keys<C>(m: Matrix<C>): set<Key> {
    set a, b, c | a in m && b in m[a] && c in m[a][b] :: (a, b, c)
  }

  ghost predicate PooledOver(pooled: Matrix<Cell>, runs: seq<Matrix<Cell>>, next: Matrix<Cell>, done: set<Key>) {
    forall a, b, c :: Pooled(pooled, runs, next, done, a, b, c)
  }

  ghost predicate Pooled(pooled: Matrix<Cell>, runs: seq<Matrix<Cell>>, next: Matrix<Cell>, done: set<Key>,
                         a: string, b: string, c: string) {
    && (HasCell(pooled, a, b, c) <==> SomeRunHas(runs, a, b, c) || (a, b, c) in done)
    && RoundsOf(pooled, a, b, c) ==
       Concatenated(runs, a, b, c) + (if (a, b, c) in done then RoundsOf(next, a, b, c) else [])
  }

  /** One cell of a run has been pushed. */
  lemma {:induction false} CellDone(was: Matrix<Cell>, pooled: Matrix<Cell>, runs: seq<Matrix<Cell>>, run: Matrix<Cell>,
                                    done: set<Key>, key: Key)
    requires PooledOver(was, runs, run, done) && key !in done && HasCell(pooled, key.0, key.1, key.2)
    requires RoundsOf(pooled, key.0, key.1, key.2) ==
      RoundsOf(was, key.0, key.1, key.2) + RoundsOf(run, key.0, key.1, key.2)
    requires forall a, b, c :: (a, b, c) != key ==>
      HasCell(pooled, a, b, c) == HasCell(was, a, b, c) && RoundsOf(pooled, a, b, c) == RoundsOf(was, a, b, c)
    ensures PooledOver(pooled, runs, run, done + {key})
  {
    forall a, b, c ensures Pooled(pooled, runs, run, done + {key}, a, b, c) {
      assert Pooled(was, runs, run, done, a, b, c);
    }
  }

  /** The innermost loop: one row's workloads, in any order. */
  method PoolRow(before: Matrix<Cell>, ghost runs: seq<Matrix<Cell>>, run: Matrix<Cell>, ghost done: set<Key>,
                 runtime: string, row: string) returns (pooled: Matrix<Cell>)
    requires runtime in run && row in run[runtime]
    requires forall k :: k in done ==> (k.0, k.1) != (runtime, row)
    requires PooledOver(before, runs, run, done)
    ensures PooledOver(pooled, runs, run, done + set c | c in run[runtime][row] :: (runtime, row, c))
  {
    pooled := before;
    var workloads := run[runtime][row].Keys;
    ghost var now := done;
    while workloads != {}
      invariant workloads <= run[runtime][row].Keys
      invariant now == done + set c | c in run[runtime][row] && c !in workloads :: (runtime, row, c)
      invariant PooledOver(pooled, runs, run, now)
    {
      var workload :| workload in workloads;
      ghost var key, was := (runtime, row, workload), pooled;
      pooled := PushRounds(pooled, runtime, row, workload, run[runtime][row][workload].rounds);
      CellDone(was, pooled, runs, run, now, key);
      now := now + {key};
      workloads := workloads - {workload};
    }
    assert now == done + set c | c in run[runtime][row] :: (runtime, row, c);
  }

  /** The middle loop: one section's rows, in any order. */
  method PoolSection(before: Matrix<Cell>, ghost runs: seq<Matrix<Cell>>, run: Matrix<Cell>, ghost done: set<Key>,
                     runtime: string) returns (pooled: Matrix<Cell>)
    requires runtime in run && forall k :: k in done ==> k.0 != runtime
    requires PooledOver(before, runs, run, done)
    ensures PooledOver(pooled, runs, run, done + set k | k in Keys(run) && k.0 == runtime)
  {
    pooled := before;
    var rows := run[runtime].Keys;
    ghost var now := done;
    while rows != {}
      invariant rows <= run[runtime].Keys
      invariant now == done + set k | k in Keys(run) && k.0 == runtime && k.1 !in rows
      invariant PooledOver(pooled, runs, run, now)
    {
      var row :| row in rows;
      pooled := PoolRow(pooled, runs, run, now, runtime, row);
      rows := rows - {row};
      now := now + set c | c in run[runtime][row] :: (runtime, row, c);
    }
    assert now == done + set k | k in Keys(run) && k.0 == runtime;
  }

  /** Every cell of one more run is appended, whatever order its sections, rows and workloads are visited in. */
  method PoolRun(before: Matrix<Cell>, ghost runs: seq<Matrix<Cell>>, run: Matrix<Cell>) returns (pooled: Matrix<Cell>)
    requires PooledOver(before, runs, run, {})
    ensures PooledOver(pooled, runs, run, Keys(run))
  {
    pooled := before;
    var runtimes := run.Keys;
    ghost var now: set<Key> := {};
    while runtimes != {}
      invariant runtimes <= run.Keys
      invariant now == set k | k in Keys(run) && k.0 !in runtimes
      invariant PooledOver(pooled, runs, run, now)
    {
      var runtime :| runtime in runtimes;
      pooled := PoolSection(pooled, runs, run, now, runtime);
      runtimes := runtimes - {runtime};
      now := now + set k | k in Keys(run) && k.0 == runtime;
    }
    assert now == Keys(run);
  }

  /** The pooling half of `mergeRuns`. */
  lemma {:induction false} NextRun(pooled: Matrix<Cell>, before: seq<Matrix<Cell>>, run: Matrix<Cell>)
    requires PooledOver(pooled, before, map[], {})
    ensures PooledOver(pooled, before, run, {})
  {
    forall a, b, c ensures Pooled(pooled, before, run, {}, a, b, c) {
      assert Pooled(pooled, before, map[], {}, a, b, c);
    }
  }

  lemma {:induction false} RunDone(pooled: Matrix<Cell>, before: seq<Matrix<Cell>>, run: Matrix<Cell>)
    requires PooledOver(pooled, before, run, Keys(run))
    ensures PooledOver(pooled, before + [run], map[], {})
  {
    var after := before + [run];
    assert after[..|before|] == before && after[|before|] == run;
    forall a, b, c ensures Pooled(pooled, after, map[], {}, a, b, c) {
      assert Pooled(pooled, before, run, Keys(run), a, b, c);
      assert SomeRunHas(after, a, b, c) <==> SomeRunHas(before, a, b, c) || HasCell(run, a, b, c);
    }
  }

  method PoolRuns(runs: seq<Matrix<Cell>>) returns (pooled: Matrix<Cell>)
    ensures PooledOver(pooled, runs, map[], {})
  {
    pooled := map[];
    for r := 0 to |runs|
      invariant PooledOver(pooled, runs[..r], map[], {})
    {
      NextRun(pooled, runs[..r], runs[r]);
      pooled := PoolRun(pooled, runs[..r], runs[r]);
      RunDone(pooled, runs[..r], runs[r]);
      assert runs[..r + 1] == runs[..r] + [runs[r]];
    }
    assert runs[..|runs|] == runs;
  }

  function CellOf(rounds: seq<Measure>, ofCeiling: Option<real>): MatrixCell {
    MatrixCell(Median(Rps(rounds)),
               Median(seq(|rounds|, i requires 0 <= i < |rounds| => rounds[i].p50ms)),
               Median(seq(|rounds|, i requires 0 <= i < |rounds| => rounds[i].p99ms)),
               rounds, ofCeiling)
  }

  function OfCeiling(runs: seq<Matrix<Cell>>, ceilingOf: (string, string) -> Option<string>,
                     runtime: string, row: string, workload: string): Option<real> {
    match ceilingOf(runtime, workload)
    case None => None
    case Some(ceiling) => PooledRatio(runs, runtime, row, ceiling, workload)
  }

  /** The median of one field over the rounds. */
  ghost predicate IsMedianOf(m: real, rounds: seq<Measure>, field: Measure -> real) {
    IsMedian(m, seq(|rounds|, i requires 0 <= i < |rounds| => field(rounds[i])))
  }

  /** The cell holds the rounds, the median of each field over them and, if any pairs, of the ratios to the ceiling. */
  ghost predicate IsCell(cell: MatrixCell, rounds: seq<Measure>, runs: seq<Matrix<Cell>>, ceiling: Option<string>,
                         key: Key) {
    && cell.rounds == rounds
    && IsMedianOf(cell.rps, rounds, (x: Measure) => x.rps)
    && IsMedianOf(cell.p50ms, rounds, (x: Measure) => x.p50ms)
    && IsMedianOf(cell.p99ms, rounds, (x: Measure) => x.p99ms)
    && (cell.ofCeiling.Some? <==> ceiling.Some? && PooledRatios(runs, key.0, key.1, ceiling.value, key.2) != [])
    && (cell.ofCeiling.Some? ==>
         IsMedian(cell.ofCeiling.value, PooledRatios(runs, key.0, key.1, ceiling.value, key.2)))
  }

  lemma {:induction false} FieldMedian(values: seq<real>, rounds: seq<Measure>, field: Measure -> real)
    requires |values| == |rounds| && forall i :: 0 <= i < |rounds| ==> values[i] == field(rounds[i])
    ensures IsMedianOf(Median(values), rounds, field)
  {
    assert values == seq(|rounds|, i requires 0 <= i < |rounds| => field(rounds[i]));
    MedianIff(Median(values), values);
  }

  lemma {:induction false} CellIsCell(rounds: seq<Measure>, runs: seq<Matrix<Cell>>,
                                      ceilingOf: (string, string) -> Option<string>, key: Key)
    ensures IsCell(CellOf(rounds, OfCeiling(runs, ceilingOf, key.0, key.1, key.2)), rounds, runs,
                   ceilingOf(key.0, key.2), key)
  {
    var ofCeiling := OfCeiling(runs, ceilingOf, key.0, key.1, key.2);
    FieldMedian(Rps(rounds), rounds, (x: Measure) => x.rps);
    FieldMedian(seq(|rounds|, i requires 0 <= i < |rounds| => rounds[i].p50ms), rounds, (x: Measure) => x.p50ms);
    FieldMedian(seq(|rounds|, i requires 0 <= i < |rounds| => rounds[i].p99ms), rounds, (x: Measure) => x.p99ms);
    if ofCeiling.Some? {
      MedianIff(ofCeiling.value, PooledRatios(runs, key.0, key.1, ceilingOf(key.0, key.2).value, key.2));
    }
  }

  function MergedRow(runs: seq<Matrix<Cell>>, ceilingOf: (string, string) -> Option<string>,
                     runtime: string, row: string, cells: map<string, Cell>): map<string, MatrixCell> {
    map workload | workload in cells && cells[workload].rounds != [] ::
      CellOf(cells[workload].rounds, OfCeiling(runs, ceilingOf, runtime, row, workload))
  }

  /**
   * Pooling conserves rounds: a cell is there exactly when some run sampled it at least once, and it holds
   * the in-order concatenation of that cell's rounds, with their medians and the pooled ratio to the ceiling.
   */
  method MergeRuns(runs: seq<Matrix<Cell>>, ceilingOf: (string, string) -> Option<string>)
    returns (merged: Matrix<MatrixCell>)
    ensures forall a, b, c :: HasCell(merged, a, b, c) <==> Concatenated(runs, a, b, c) != []
    ensures forall a, b, c :: HasCell(merged, a, b, c) ==>
      IsCell(merged[a][b][c], Concatenated(runs, a, b, c), runs, ceilingOf(a, c), (a, b, c))
  {
    var pooled := PoolRuns(runs);
    merged := map runtime | runtime in pooled :: map row | row in pooled[runtime] ::
      MergedRow(runs, ceilingOf, runtime, row, pooled[runtime][row]);
    forall a, b, c
      ensures RoundsOf(pooled, a, b, c) == Concatenated(runs, a, b, c)
    {
      assert Pooled(pooled, runs, map[], {}, a, b, c);
    }
    forall a, b, c | HasCell(merged, a, b, c)
      ensures IsCell(merged[a][b][c], Concatenated(runs, a, b, c), runs, ceilingOf(a, c), (a, b, c))
    {
      CellIsCell(Concatenated(runs, a, b, c), runs, ceilingOf, (a, b, c));
    }
  }
}
