/**
 * The worker pools of three gates. Workers pull from one queue and are interleaved only where they await, so a pool
 * is a state machine whose schedule says which worker moves next; every theorem is about every schedule.
 */
module WorkQueue {
  import opened Collections

  /** Between two awaits a worker is about to shift the queue, or handling an item, or through. */
  datatype Worker<T> = Ready | Busy(item: T) | Finished

  /** `handled` lists the items in the order their handling ended. */
  datatype Pool<T> = Pool(queue: seq<T>, workers: seq<Worker<T>>, handled: seq<T>)

  function Start<T>(items: seq<T>, workers: nat): Pool<T> {
    Pool(items, seq(workers, i => Ready), [])
  }

  predicate CanMove<T>(p: Pool<T>, w: nat) {
    w < |p.workers| && !p.workers[w].Finished?
  }

  /** `queue.shift()`, or the end of one item's handling. */
  function Move<T>(p: Pool<T>, w: nat): Pool<T>
    requires CanMove(p, w)
  {
    match p.workers[w]
    case Busy(item) => p.(workers := p.workers[w := Ready], handled := p.handled + [item])
    case Ready =>
      if p.queue == [] then p.(workers := p.workers[w := Finished])
      else p.(queue := p.queue[1..], workers := p.workers[w := Busy(p.queue[0])])
  }

  predicate Allowed<T>(p: Pool<T>, schedule: seq<nat>)
    decreases schedule
  {
    schedule == [] || (CanMove(p, schedule[0]) && Allowed(Move(p, schedule[0]), schedule[1..]))
  }

  function After<T>(p: Pool<T>, schedule: seq<nat>): Pool<T>
    requires Allowed(p, schedule)
    decreases schedule
  {
    if schedule == [] then p else After(Move(p, schedule[0]), schedule[1..])
  }

  predicate AllFinished<T>(p: Pool<T>) { forall w :: 0 <= w < |p.workers| ==> p.workers[w].Finished? }

  // ---------------------------------------------------------------- every item once

  function Hand<T>(w: Worker<T>): multiset<T> {
    if w.Busy? then multiset{w.item} else multiset{}
  }

  function InHand<T>(workers: seq<Worker<T>>): multiset<T> {
    if workers == [] then multiset{} else Hand(workers[0]) + InHand(workers[1..])
  }

  /** No item is lost or doubled, and a worker is through only when the queue is empty. */
  ghost predicate Conserved<T>(p: Pool<T>, items: seq<T>) {
    Everything(p) == multiset(items) && (p.queue != [] ==> NoneFinished(p.workers))
  }

  function Everything<T>(p: Pool<T>): multiset<T> { multiset(p.queue) + InHand(p.workers) + multiset(p.handled) }

  predicate NoneFinished<T>(workers: seq<Worker<T>>) { forall w :: 0 <= w < |workers| ==> !workers[w].Finished? }

  lemma {:induction false} InHandUpdate<T>(workers: seq<Worker<T>>, w: nat, next: Worker<T>)
    requires w < |workers|
    ensures InHand(workers[w := next]) + Hand(workers[w]) == InHand(workers) + Hand(next)
  {
    var head, tail := workers[0], workers[1..];
    UpdatedTail(workers, w, next);
    InHandCons(head, tail);
    if w > 0 {
      var tail' := tail[w - 1 := next];
      InHandUpdate(tail, w - 1, next);
      InHandCons(head, tail');
      Balance(Hand(head), InHand(tail), Hand(next), InHand(tail'), Hand(tail[w - 1]));
    } else {
      InHandCons(next, tail);
      Swap(Hand(next), InHand(tail), Hand(head));
    }
  }

  lemma {:induction false} InHandCons<T>(head: Worker<T>, tail: seq<Worker<T>>)
    ensures InHand([head] + tail) == Hand(head) + InHand(tail)
  {
    assert ([head] + tail)[1..] == tail;
  }

  lemma {:induction false} UpdatedTail<T>(s: seq<T>, i: nat, x: T)
    requires i < |s|
    ensures s == [s[0]] + s[1..]
    ensures s[i := x] == if i == 0 then [x] + s[1..] else [s[0]] + s[1..][i - 1 := x]
  {
  }

  lemma {:induction false} Swap<T>(a: multiset<T>, b: multiset<T>, c: multiset<T>)
    ensures a + b + c == c + b + a
  {
  }

  lemma {:induction false} Balance<T>(head: multiset<T>, rest: multiset<T>, into: multiset<T>, rest': multiset<T>,
                                      out: multiset<T>)
    requires rest' + out == rest + into
    ensures (head + rest') + out == (head + rest) + into
  {
    assert (head + rest') + out == head + (rest' + out);
  }

  lemma {:induction false} BalanceAll<T>(q: multiset<T>, h: multiset<T>, d: multiset<T>, q': multiset<T>,
                                         h': multiset<T>, d': multiset<T>,
                                         out: multiset<T>, into: multiset<T>)
    requires h' + out == h + into && q' + into + d' == q + out + d
    ensures q' + h' + d' == q + h + d
  {
    forall x ensures (q' + h' + d')[x] == (q + h + d)[x] {
      assert (h' + out)[x] == (h + into)[x] && (q' + into + d')[x] == (q + out + d)[x];
    }
  }

  lemma {:induction false} MoveConserves<T>(p: Pool<T>, w: nat, items: seq<T>)
    requires Conserved(p, items) && CanMove(p, w)
    ensures Conserved(Move(p, w), items) && |Move(p, w).workers| == |p.workers|
  {
    MoveKeepsEverything(p, w);
    var q := Move(p, w);
    if q.queue != [] {
      forall v | 0 <= v < |q.workers| ensures !q.workers[v].Finished? { assert v == w || q.workers[v] == p.workers[v]; }
    }
  }

  lemma {:induction false} MoveKeepsEverything<T>(p: Pool<T>, w: nat)
    requires CanMove(p, w)
    ensures Everything(Move(p, w)) == Everything(p)
  {
    var q := Move(p, w);
    InHandUpdate(p.workers, w, q.workers[w]);
    MoveBalances(p, w);
    assert q.workers == p.workers[w := q.workers[w]];
    BalanceAll(multiset(p.queue), InHand(p.workers), multiset(p.handled),
               multiset(q.queue), InHand(q.workers), multiset(q.handled),
               Hand(p.workers[w]), Hand(q.workers[w]));
  }

  lemma {:induction false} MoveBalances<T>(p: Pool<T>, w: nat)
    requires CanMove(p, w)
    ensures
      var q := Move(p, w);
      multiset(q.queue) + Hand(q.workers[w]) + multiset(q.handled) ==
        multiset(p.queue) + Hand(p.workers[w]) + multiset(p.handled)
  {
    if p.queue != [] { assert p.queue == [p.queue[0]] + p.queue[1..]; }
  }

  lemma {:induction false} StartConserves<T>(items: seq<T>, workers: nat)
    ensures Conserved(Start(items, workers), items)
  {
    NoneInHand(Start(items, workers).workers);
  }

  lemma {:induction false} NoneInHand<T>(workers: seq<Worker<T>>)
    requires forall w :: 0 <= w < |workers| ==> !workers[w].Busy?
    ensures InHand(workers) == multiset{}
  {
    if workers != [] { NoneInHand(workers[1..]); }
  }

  /** Whatever the schedule, each item is in exactly one place: queued, in one worker's hands, or handled. */
  lemma {:induction false} EveryScheduleConserves<T>(p: Pool<T>, items: seq<T>, schedule: seq<nat>)
    requires Conserved(p, items) && Allowed(p, schedule)
    ensures Conserved(After(p, schedule), items) && |After(p, schedule).workers| == |p.workers|
    decreases schedule
  {
    if schedule != [] {
      MoveConserves(p, schedule[0], items);
      EveryScheduleConserves(Move(p, schedule[0]), items, schedule[1..]);
    }
  }

  // ---------------------------------------------------------------- every worker ends

  function Work<T>(workers: seq<Worker<T>>): nat {
    if workers == [] then 0
    else Work(workers[1..]) + (match workers[0] case Ready => 1 case Busy(_) => 2 case Finished => 0)
  }

  /** The moves still to come: two for each queued item, and those of the workers. */
  function Remaining<T>(p: Pool<T>): nat { 2 * |p.queue| + Work(p.workers) }

  lemma {:induction false} WorkUpdate<T>(workers: seq<Worker<T>>, w: nat, next: Worker<T>)
    requires w < |workers|
    ensures Work(workers[w := next]) + Work([workers[w]]) == Work(workers) + Work([next])
  {
    if w > 0 {
      assert workers[w := next][1..] == workers[1..][w - 1 := next];
      WorkUpdate(workers[1..], w - 1, next);
    } else {
      assert workers[0 := next][1..] == workers[1..];
    }
  }

  lemma {:induction false} MoveIsProgress<T>(p: Pool<T>, w: nat)
    requires CanMove(p, w)
    ensures Remaining(Move(p, w)) == Remaining(p) - 1
  {
    WorkUpdate(p.workers, w, Move(p, w).workers[w]);
  }

  lemma {:induction false} WorkOfReady<T>(workers: seq<Worker<T>>)
    requires forall w :: 0 <= w < |workers| ==> workers[w].Ready?
    ensures Work(workers) == |workers|
  {
    if workers != [] { WorkOfReady(workers[1..]); }
  }

  lemma {:induction false} WorkOfFinished<T>(workers: seq<Worker<T>>)
    ensures Work(workers) == 0 <==> forall w :: 0 <= w < |workers| ==> workers[w].Finished?
  {
    if workers != [] {
      WorkOfFinished(workers[1..]);
      assert forall w :: 0 < w < |workers| ==> workers[w] == workers[1..][w - 1];
    }
  }

  lemma {:induction false} ScheduleLength<T>(p: Pool<T>, schedule: seq<nat>)
    requires Allowed(p, schedule)
    ensures |schedule| + Remaining(After(p, schedule)) == Remaining(p)
    decreases schedule
  {
    if schedule != [] {
      MoveIsProgress(p, schedule[0]);
      ScheduleLength(Move(p, schedule[0]), schedule[1..]);
    }
  }

  /**
   * Every schedule ends, after exactly two moves for each item and one for each worker, with every item handled once. A
   * schedule can be continued until then, since a worker that is not through can always move.
   */
  lemma {:induction false} EveryScheduleEnds<T>(items: seq<T>, workers: nat, schedule: seq<nat>)
    requires Allowed(Start(items, workers), schedule) && (workers > 0 || items == [])
    ensures
      var p := After(Start(items, workers), schedule);
      && |schedule| <= 2 * |items| + workers
      && (AllFinished(p) <==> |schedule| == 2 * |items| + workers)
      && (AllFinished(p) ==> multiset(p.handled) == multiset(items) && p.queue == [])
      && (!AllFinished(p) ==> exists w :: CanMove(p, w))
  {
    var p := After(Start(items, workers), schedule);
    StartConserves(items, workers);
    EveryScheduleConserves(Start(items, workers), items, schedule);
    ScheduleLength(Start(items, workers), schedule);
    WorkOfReady(Start(items, workers).workers);
    FinishedHandledAll(p, items, workers);
    WorkOfFinished(p.workers);
    if !AllFinished(p) {
      SomeCanMove(p);
    }
  }

  lemma {:induction false} SomeCanMove<T>(p: Pool<T>)
    requires !AllFinished(p)
    ensures exists w :: 0 <= w < |p.workers| && CanMove(p, w)
  {
    var w :| 0 <= w < |p.workers| && !p.workers[w].Finished?;
    assert CanMove(p, w);
  }

  lemma {:induction false} FinishedHandledAll<T>(p: Pool<T>, items: seq<T>, workers: nat)
    requires Conserved(p, items) && |p.workers| == workers && (workers > 0 || items == [])
    ensures AllFinished(p) ==> multiset(p.handled) == multiset(items) && p.queue == []
  {
    if AllFinished(p) {
      NoneInHand(p.workers);
      if workers > 0 { assert p.workers[0].Finished? && !NoneFinished(p.workers); }
      assert workers == 0 ==> |multiset(p.queue)| == 0;
    }
  }

  /** One move of whichever worker the event loop resumes next, and the item it was done with, if any. */
  method Turn<T>(before: Pool<T>, ghost items: seq<T>) returns (pool: Pool<T>, ended: Option<T>)
    requires Conserved(before, items) && !AllFinished(before)
    ensures Conserved(pool, items) && |pool.workers| == |before.workers| && Remaining(pool) < Remaining(before)
    ensures ended.None? ==> pool.handled == before.handled
    ensures ended.Some? ==> pool.handled == before.handled + [ended.value]
  {
    SomeCanMove(before);
    var w :| 0 <= w < |before.workers| && CanMove(before, w);
    MoveConserves(before, w, items);
    MoveIsProgress(before, w);
    ended := if before.workers[w].Busy? then Some(before.workers[w].item) else None;
    pool := Move(before, w);
  }

  // ---------------------------------------------------------------- results do not depend on the schedule

  function Gathered<T(!new), R>(of: T -> seq<R>, items: seq<T>): seq<R> {
    if items == [] then [] else Gathered(of, items[..|items| - 1]) + of(items[|items| - 1])
  }

  lemma {:induction false} GatheredAppend<T(!new), R>(of: T -> seq<R>, items: seq<T>, x: T)
    ensures Gathered(of, items + [x]) == Gathered(of, items) + of(x)
  {
    assert (items + [x])[..|items|] == items;
  }

  lemma {:induction false} GatheredWithout<T(!new), R>(of: T -> seq<R>, items: seq<T>, j: nat)
    requires j < |items|
    ensures multiset(Gathered(of, items)) ==
      multiset(Gathered(of, items[..j] + items[j + 1..])) + multiset(of(items[j]))
    decreases |items|
  {
    var n := |items| - 1;
    var rest := items[..j] + items[j + 1..];
    if j < n {
      var front := items[..n];
      assert front[..j] + front[j + 1..] == rest[..n - 1];
      assert rest[n - 1] == items[n];
      GatheredWithout(of, front, j);
    } else {
      assert rest == items[..n];
    }
  }

  /** The same items in another order give the same failures, counted. */
  lemma {:induction false} GatheredIgnoresOrder<T(!new), R>(of: T -> seq<R>, a: seq<T>, b: seq<T>)
    requires multiset(a) == multiset(b)
    ensures multiset(Gathered(of, a)) == multiset(Gathered(of, b))
    decreases |a|
  {
    SameSize(a, b);
    if a != [] {
      var n := |a| - 1;
      var j := MatchLast(a, b);
      GatheredIgnoresOrder(of, a[..n], b[..j] + b[j + 1..]);
      GatheredWithout(of, b, j);
    }
  }

  lemma {:induction false} MatchLast<T>(a: seq<T>, b: seq<T>) returns (j: nat)
    requires multiset(a) == multiset(b) && a != []
    ensures j < |b| && b[j] == a[|a| - 1] && multiset(a[..|a| - 1]) == multiset(b[..j] + b[j + 1..])
  {
    var n := |a| - 1;
    assert a[n] in multiset(b);
    j :| 0 <= j < |b| && b[j] == a[n];
    assert a[..n] + a[n + 1..] == a[..n];
    WithoutOne(a, n);
    WithoutOne(b, j);
  }

  lemma {:induction false} WithoutOne<T>(s: seq<T>, i: nat)
    requires i < |s|
    ensures multiset(s[..i] + s[i + 1..]) == multiset(s) - multiset{s[i]}
  {
    assert s == s[..i] + [s[i]] + s[i + 1..];
  }

  /** `npmParity`: whichever worker is resumed next, the sorted failures are those of one pass over the list. */
  method NpmParity<T(!new)>(packages: seq<T>, failuresOf: T -> seq<string>, workers: nat)
    returns (failures: seq<string>)
    requires workers > 0
    ensures failures == SortStrings(Gathered(failuresOf, packages))
  {
    var pool := Start(packages, workers);
    failures := [];
    StartConserves(packages, workers);
    while !AllFinished(pool)
      invariant Conserved(pool, packages) && |pool.workers| == workers
      invariant failures == Gathered(failuresOf, pool.handled)
      decreases Remaining(pool)
    {
      ghost var done := pool.handled;
      var ended;
      pool, ended := Turn(pool, packages);
      if ended.Some? {
        GatheredAppend(failuresOf, done, ended.value);
        failures := failures + failuresOf(ended.value);
      }
    }
    FinishedHandledAll(pool, packages, workers);
    GatheredIgnoresOrder(failuresOf, pool.handled, packages);
    StringLeIsTotal();
    SortForgetsOrder(StringLe, failures, Gathered(failuresOf, packages));
    failures := SortStrings(failures);
  }

  // ---------------------------------------------------------------- results read back in list order

  function Recorded<T(!new, ==), R>(of: T -> R, items: seq<T>): map<T, R> {
    map x | x in items :: of(x)
  }

  lemma {:induction false} RecordedAppend<T(!new), R>(of: T -> R, items: seq<T>, x: T)
    ensures Recorded(of, items + [x]) == Recorded(of, items)[x := of(x)]
  {
  }

  lemma {:induction false} RecordedIgnoresOrder<T(!new), R>(of: T -> R, a: seq<T>, b: seq<T>)
    requires multiset(a) == multiset(b)
    ensures Recorded(of, a) == Recorded(of, b)
  {
    assert forall x :: x in a <==> x in multiset(a);
    assert forall x :: x in b <==> x in multiset(b);
  }

  datatype CheckResult = CheckResult(ok: bool, output: string)

  function Failing<T(!new)>(projects: seq<T>, check: T -> CheckResult): seq<T> {
    if projects == [] then []
    else
      var n := |projects| - 1;
      Failing(projects[..n], check) + (if check(projects[n]).ok then [] else [projects[n]])
  }

  /** `typecheck`: the failed projects, in the order of the list, each with its own result to print. */
  method Typecheck<T(!new, ==)>(projects: seq<T>, check: T -> CheckResult, parallelism: nat)
    returns (failed: seq<T>, results: map<T, CheckResult>)
    requires parallelism > 0
    ensures results == Recorded(check, projects)
    ensures failed == Failing(projects, check)
  {
    var workers := if parallelism < |projects| then parallelism else |projects|;
    var pool := Start(projects, workers);
    results := map[];
    StartConserves(projects, workers);
    while !AllFinished(pool)
      invariant Conserved(pool, projects) && |pool.workers| == workers
      invariant results == Recorded(check, pool.handled)
      decreases Remaining(pool)
    {
      ghost var done := pool.handled;
      var ended;
      pool, ended := Turn(pool, projects);
      if ended.Some? {
        RecordedAppend(check, done, ended.value);
        results := results[ended.value := check(ended.value)];
      }
    }
    FinishedHandledAll(pool, projects, workers);
    RecordedIgnoresOrder(check, pool.handled, projects);
    failed := [];
    for i := 0 to |projects|
      invariant failed == Failing(projects[..i], check)
    {
      assert projects[..i + 1][..i] == projects[..i];
      if !(projects[i] in results && results[projects[i]].ok) { failed := failed + [projects[i]]; }
    }
    assert projects[..|projects|] == projects;
  }

  // ---------------------------------------------------------------- results kept by name

  /** What one package's turn pushes, and the paths it records, if its tarball could be fetched. */
  datatype Outcome = Outcome(failures: seq<string>, paths: Option<seq<string>>)

  function FailuresFrom<T(!new)>(outcome: T -> Outcome): T -> seq<string> { x => outcome(x).failures }

  function PathsFrom<T(!new)>(outcome: T -> Outcome): T -> seq<string> {
    x => if outcome(x).paths.Some? then outcome(x).paths.value else []
  }

  function Published<T(!new)>(name: T -> string, outcome: T -> Outcome, items: seq<T>): map<string, seq<string>> {
    if items == [] then map[]
    else
      var n := |items| - 1;
      var before := Published(name, outcome, items[..n]);
      var paths := outcome(items[n]).paths;
      if paths.Some? then before[name(items[n]) := paths.value] else before
  }

  lemma {:induction false} PublishedAppend<T(!new)>(name: T -> string, outcome: T -> Outcome, items: seq<T>, x: T)
    ensures
      var before, paths := Published(name, outcome, items), outcome(x).paths;
      Published(name, outcome, items + [x]) == if paths.Some? then before[name(x) := paths.value] else before
  {
    assert (items + [x])[..|items|] == items;
  }

  /** Packages of one name record one list of paths; distinct names are the usual case. */
  ghost predicate Agree<T(!new)>(name: T -> string, outcome: T -> Outcome, items: seq<T>) {
    forall x, y :: x in items && y in items ==> !Race(name, outcome, x, y)
  }

  ghost predicate Race<T(!new)>(name: T -> string, outcome: T -> Outcome, x: T, y: T) {
    && name(x) == name(y) && outcome(x).paths.Some? && outcome(y).paths.Some?
    && outcome(x).paths != outcome(y).paths
  }

  lemma {:induction false} PublishedHas<T(!new)>(name: T -> string, outcome: T -> Outcome, items: seq<T>)
    requires Agree(name, outcome, items)
    ensures forall x :: x in items && outcome(x).paths.Some? ==>
      name(x) in Published(name, outcome, items) && Published(name, outcome, items)[name(x)] == outcome(x).paths.value
    ensures forall n :: n in Published(name, outcome, items) ==>
      exists x :: x in items && name(x) == n && outcome(x).paths.Some?
  {
    if items != [] {
      var front := items[..|items| - 1];
      var last := items[|items| - 1];
      assert items == front + [last];
      PublishedHas(name, outcome, front);
      assert forall x :: x in items ==> !Race(name, outcome, x, last);
    }
  }

  lemma {:induction false} PublishedIgnoresOrder<T(!new)>(name: T -> string, outcome: T -> Outcome, a: seq<T>,
                                                          b: seq<T>)
    requires multiset(a) == multiset(b) && Agree(name, outcome, b)
    ensures Published(name, outcome, a) == Published(name, outcome, b)
  {
    assert forall x :: x in a <==> x in multiset(a);
    assert forall x :: x in b <==> x in multiset(b);
    PublishedHas(name, outcome, a);
    PublishedHas(name, outcome, b);
  }

  // ---------------------------------------------------------------- the orders a pool can finish in

  /** The schedule runs until every worker is through. */
  predicate Completes<T>(p: Pool<T>, schedule: seq<nat>) {
    Allowed(p, schedule) && AllFinished(After(p, schedule))
  }

  /** The items in the order their handling ended. */
  function FinishOrder<T>(items: seq<T>, workers: nat, schedule: seq<nat>): seq<T>
    requires Completes(Start(items, workers), schedule)
  {
    After(Start(items, workers), schedule).handled
  }

  lemma {:induction false} AfterBoth<T>(p: Pool<T>, a: seq<nat>, b: seq<nat>)
    requires Allowed(p, a) && Allowed(After(p, a), b)
    ensures Allowed(p, a + b) && After(p, a + b) == After(After(p, a), b)
    decreases a
  {
    if a == [] {
      assert a + b == b;
    } else {
      assert (a + b)[0] == a[0] && (a + b)[1..] == a[1..] + b;
      AfterBoth(Move(p, a[0]), a[1..], b);
    }
  }

  lemma {:induction false} AfterOne<T>(p: Pool<T>, w: nat)
    requires CanMove(p, w)
    ensures Allowed(p, [w]) && After(p, [w]) == Move(p, w)
  {
    assert [w][1..] == [];
    assert Allowed(Move(p, w), []);
  }

  /** One ready worker can handle the next n items in order while the others stand still. */
  lemma {:induction false} HandleNext<T>(p: Pool<T>, n: nat) returns (schedule: seq<nat>)
    requires n <= |p.queue| && p.workers != [] && p.workers[0].Ready?
    ensures Allowed(p, schedule)
    ensures After(p, schedule) == Pool(p.queue[n..], p.workers, p.handled + p.queue[..n])
    decreases n
  {
    if n == 0 {
      schedule := [];
    } else {
      var taken := Move(p, 0);
      var ended := Move(taken, 0);
      assert ended == Pool(p.queue[1..], p.workers, p.handled + [p.queue[0]]);
      var rest := HandleNext(ended, n - 1);
      AfterOne(p, 0);
      AfterOne(taken, 0);
      AfterBoth(p, [0], [0]);
      AfterBoth(p, [0] + [0], rest);
      schedule := [0] + [0] + rest;
      assert p.queue[1..][n - 1..] == p.queue[n..] && [p.queue[0]] + p.queue[1..][..n - 1] == p.queue[..n];
    }
  }

  /** With nothing queued and no item in hand the workers find nothing more to do. */
  lemma {:induction false} RunOut<T>(p: Pool<T>) returns (schedule: seq<nat>)
    requires p.queue == [] && forall w :: 0 <= w < |p.workers| ==> !p.workers[w].Busy?
    ensures Completes(p, schedule) && After(p, schedule).handled == p.handled
    decreases Remaining(p)
  {
    if AllFinished(p) {
      schedule := [];
    } else {
      var w: nat :| w < |p.workers| && !p.workers[w].Finished?;
      MoveIsProgress(p, w);
      var rest := RunOut(Move(p, w));
      AfterOne(p, w);
      AfterBoth(p, [w], rest);
      schedule := [w] + rest;
    }
  }

  /** The first worker handles i items, and the second takes the next. */
  lemma {:induction false} TakeAside<T>(items: seq<T>, workers: nat, i: nat) returns (schedule: seq<nat>)
    requires workers >= 2 && i < |items|
    ensures Allowed(Start(items, workers), schedule)
    ensures After(Start(items, workers), schedule) ==
      Pool(items[i + 1..], Start(items, workers).workers[1 := Busy(items[i])], items[..i])
  {
    var start := Start(items, workers);
    var before := HandleNext(start, i);
    AfterOne(After(start, before), 1);
    AfterBoth(start, before, [1]);
    schedule := before + [1];
    assert items[i..][1..] == items[i + 1..] && [] + items[..i] == items[..i];
  }

  /** The first worker handles all that is queued before the second ends the item in its hand. */
  lemma {:induction false} EndAside<T>(p: Pool<T>, x: T) returns (schedule: seq<nat>)
    requires |p.workers| >= 2 && p.workers[1] == Busy(x)
    requires forall w :: 0 <= w < |p.workers| && w != 1 ==> p.workers[w].Ready?
    ensures Completes(p, schedule) && After(p, schedule).handled == p.handled + p.queue + [x]
  {
    var others := HandleNext(p, |p.queue|);
    var q := After(p, others);
    assert q.queue == [] && q.handled == p.handled + p.queue;
    var last := RunOut(Move(q, 1));
    AfterOne(q, 1);
    AfterBoth(q, [1], last);
    AfterBoth(p, others, [1] + last);
    schedule := others + ([1] + last);
  }

  /** Two workers suffice to finish any one item last, and the others in order. */
  lemma {:induction false} HoldBack<T>(items: seq<T>, workers: nat, i: nat) returns (schedule: seq<nat>)
    requires workers >= 2 && i < |items|
    ensures Completes(Start(items, workers), schedule)
    ensures FinishOrder(items, workers, schedule) == items[..i] + items[i + 1..] + [items[i]]
  {
    var aside := TakeAside(items, workers, i);
    var p := After(Start(items, workers), aside);
    var rest := EndAside(p, items[i]);
    AfterBoth(Start(items, workers), aside, rest);
    schedule := aside + rest;
  }

  function InHandOf<T>(w: Worker<T>): seq<T> { if w.Busy? then [w.item] else [] }

  /** One worker handles the items in the list's order. */
  lemma {:induction false} OneWorkerKeepsOrder<T>(p: Pool<T>, schedule: seq<nat>, items: seq<T>)
    requires Allowed(p, schedule) && |p.workers| == 1 && p.handled + InHandOf(p.workers[0]) + p.queue == items
    ensures
      var q := After(p, schedule);
      |q.workers| == 1 && q.handled + InHandOf(q.workers[0]) + q.queue == items
    decreases schedule
  {
    if schedule != [] {
      assert schedule[0] == 0;
      var next := Move(p, 0);
      assert p.queue != [] ==> p.queue == [p.queue[0]] + p.queue[1..];
      assert next.handled + InHandOf(next.workers[0]) + next.queue == items;
      OneWorkerKeepsOrder(next, schedule[1..], items);
    }
  }

  lemma {:induction false} OneWorkerInOrder<T>(items: seq<T>, schedule: seq<nat>)
    requires Completes(Start(items, 1), schedule)
    ensures FinishOrder(items, 1, schedule) == items
  {
    var p := Start(items, 1);
    assert p.handled + InHandOf(p.workers[0]) + p.queue == items;
    OneWorkerKeepsOrder(p, schedule, items);
    EveryScheduleEnds(items, 1, schedule);
    var q := After(p, schedule);
    assert q.workers[0].Finished? && q.queue == [];
    assert q.handled + [] + [] == q.handled;
  }

  /** Whatever the schedule, the snapshot is the same. */
  ghost predicate OneSnapshot<T(!new)>(name: T -> string, outcome: T -> Outcome, items: seq<T>, workers: nat) {
    forall s, t | Completes(Start(items, workers), s) && Completes(Start(items, workers), t) ::
      Published(name, outcome, FinishOrder(items, workers, s)) ==
        Published(name, outcome, FinishOrder(items, workers, t))
  }

  /** The snapshot does not depend on the schedule exactly when there is one worker or no two packages race. */
  lemma {:induction false} OneSnapshotIff<T(!new)>(name: T -> string, outcome: T -> Outcome, items: seq<T>,
                                                   workers: nat)
    requires workers > 0
    ensures OneSnapshot(name, outcome, items, workers) <==> workers == 1 || Agree(name, outcome, items)
  {
    if workers == 1 || Agree(name, outcome, items) {
      forall s | Completes(Start(items, workers), s)
        ensures Published(name, outcome, FinishOrder(items, workers, s)) == Published(name, outcome, items)
      {
        SameAsList(name, outcome, items, workers, s);
      }
    } else {
      var x, y :| x in items && y in items && Race(name, outcome, x, y);
      RaceShows(name, outcome, items, workers, x, y);
    }
  }

  lemma {:induction false} SameAsList<T(!new)>(name: T -> string, outcome: T -> Outcome, items: seq<T>, workers: nat,
                                               schedule: seq<nat>)
    requires workers > 0 && Completes(Start(items, workers), schedule) && (workers == 1 || Agree(name, outcome, items))
    ensures Published(name, outcome, FinishOrder(items, workers, schedule)) == Published(name, outcome, items)
  {
    EveryScheduleEnds(items, workers, schedule);
    if workers == 1 {
      OneWorkerInOrder(items, schedule);
    } else {
      PublishedIgnoresOrder(name, outcome, FinishOrder(items, workers, schedule), items);
    }
  }

  /** Holding back one of two packages that race, or the other, shows in the snapshot. */
  lemma {:induction false} RaceShows<T(!new)>(name: T -> string, outcome: T -> Outcome, items: seq<T>,
                                              workers: nat, x: T, y: T)
    requires workers >= 2 && x in items && y in items && Race(name, outcome, x, y)
    ensures !OneSnapshot(name, outcome, items, workers)
  {
    var i: nat :| i < |items| && items[i] == x;
    var j: nat :| j < |items| && items[j] == y;
    var s := HoldBack(items, workers, i);
    var t := HoldBack(items, workers, j);
    PublishedAppend(name, outcome, items[..i] + items[i + 1..], x);
    PublishedAppend(name, outcome, items[..j] + items[j + 1..], y);
    assert Published(name, outcome, FinishOrder(items, workers, s))[name(x)] == outcome(x).paths.value;
    assert Published(name, outcome, FinishOrder(items, workers, t))[name(x)] == outcome(y).paths.value;
  }

  ghost predicate Rearranges<T>(a: seq<T>, b: seq<T>) { multiset(a) == multiset(b) }

  /**
   * `verify-published`: whatever the schedule, the file count and the sorted failures are those of one pass over
   * the list, and the snapshot is that of a pass in some order: the list's own, if no two packages race.
   */
  method VerifyPublished<T(!new)>(packages: seq<T>, name: T -> string, outcome: T -> Outcome, workers: nat)
    returns (published: map<string, seq<string>>, files: nat, failures: seq<string>, ghost finished: seq<T>)
    requires workers > 0
    ensures Rearranges(finished, packages) && published == Published(name, outcome, finished)
    ensures Agree(name, outcome, packages) ==> published == Published(name, outcome, packages)
    ensures files == |Gathered(PathsFrom(outcome), packages)|
    ensures failures == SortStrings(Gathered(FailuresFrom(outcome), packages))
  {
    published, files, failures, finished := RunPool(packages, name, outcome, workers);
    SameResults(outcome, finished, packages);
    if Agree(name, outcome, packages) { PublishedIgnoresOrder(name, outcome, finished, packages); }
    failures := SortStrings(failures);
  }

  /** The workers, to the end. */
  method RunPool<T(!new)>(packages: seq<T>, name: T -> string, outcome: T -> Outcome, workers: nat)
    returns (published: map<string, seq<string>>, files: nat, failures: seq<string>, ghost finished: seq<T>)
    requires workers > 0
    ensures Rearranges(finished, packages) && published == Published(name, outcome, finished)
    ensures files == |Gathered(PathsFrom(outcome), finished)|
    ensures failures == Gathered(FailuresFrom(outcome), finished)
  {
    var pool := Start(packages, workers);
    published, files, failures := map[], 0, [];
    StartConserves(packages, workers);
    while !AllFinished(pool)
      invariant Conserved(pool, packages) && |pool.workers| == workers
      invariant published == Published(name, outcome, pool.handled)
      invariant files == |Gathered(PathsFrom(outcome), pool.handled)|
      invariant failures == Gathered(FailuresFrom(outcome), pool.handled)
      decreases Remaining(pool)
    {
      ghost var done := pool.handled;
      var ended;
      pool, ended := Turn(pool, packages);
      if ended.Some? {
        var x := ended.value;
        OneMorePackage(name, outcome, done, x);
        failures := failures + outcome(x).failures;
        if outcome(x).paths.Some? {
          published := published[name(x) := outcome(x).paths.value];
          files := files + |outcome(x).paths.value|;
        }
      }
    }
    FinishedHandledAll(pool, packages, workers);
    finished := pool.handled;
  }

  lemma {:induction false} OneMorePackage<T(!new)>(name: T -> string, outcome: T -> Outcome, done: seq<T>, x: T)
    ensures
      var before, paths := Published(name, outcome, done), outcome(x).paths;
      && Gathered(FailuresFrom(outcome), done + [x]) == Gathered(FailuresFrom(outcome), done) + outcome(x).failures
      && |Gathered(PathsFrom(outcome), done + [x])| ==
         |Gathered(PathsFrom(outcome), done)| + (if paths.Some? then |paths.value| else 0)
      && Published(name, outcome, done + [x]) == if paths.Some? then before[name(x) := paths.value] else before
  {
    GatheredAppend(FailuresFrom(outcome), done, x);
    GatheredAppend(PathsFrom(outcome), done, x);
    PublishedAppend(name, outcome, done, x);
  }

  lemma {:induction false} SameResults<T(!new)>(outcome: T -> Outcome, handled: seq<T>, packages: seq<T>)
    requires multiset(handled) == multiset(packages)
    ensures |Gathered(PathsFrom(outcome), handled)| == |Gathered(PathsFrom(outcome), packages)|
    ensures SortStrings(Gathered(FailuresFrom(outcome), handled)) ==
      SortStrings(Gathered(FailuresFrom(outcome), packages))
  {
    var failuresOf, pathsOf := FailuresFrom(outcome), PathsFrom(outcome);
    GatheredIgnoresOrder(pathsOf, handled, packages);
    GatheredIgnoresOrder(failuresOf, handled, packages);
    SameSize(Gathered(pathsOf, handled), Gathered(pathsOf, packages));
    StringLeIsTotal();
    SortForgetsOrder(StringLe, Gathered(failuresOf, handled), Gathered(failuresOf, packages));
  }

  lemma {:induction false} SameSize<T>(a: seq<T>, b: seq<T>)
    requires multiset(a) == multiset(b)
    ensures |a| == |b|
  {
    assert |multiset(a)| == |a| && |multiset(b)| == |b|;
  }
}
