/** The two lowering-only ratchets over counts, both proved to take the steps of one abstract ratchet. */
module CountRatchets {
  import opened Collections

  type Counts<K> = map<K, nat>

  function At<K>(c: Counts<K>, k: K): nat { GetOr(c, k, 0) }

  /** The flags of one run, and what it measured, if it could. */
  datatype Call<K> = Call(update: bool, accept: bool, scan: Option<Counts<K>>)

  predicate Rises<K>(was: Counts<K>, now: Counts<K>) { exists k :: k in now && now[k] > At(was, k) }

  ghost predicate AtMost<K(!new)>(now: Counts<K>, was: Counts<K>) { forall k :: At(now, k) <= At(was, k) }

  ghost predicate SameCounts<K(!new)>(a: Counts<K>, b: Counts<K>) { forall k :: At(a, k) == At(b, k) }

  /** The exit code: 2 when the gate cannot run or decide, 1 when a count rose unaccepted, 0 otherwise. */
  function ExitCode<K>(baseline: Option<Counts<K>>, call: Call<K>): nat {
    if call.accept && !call.update then 2
    else if call.scan.None? then 2
    else if baseline.None? then (if call.update then 0 else 2)
    else if Rises(baseline.value, call.scan.value) && !call.accept then 1
    else 0
  }

  /** One run: only a successful update writes, and then the baseline reads what was measured. */
  ghost predicate Step<K(!new)>(before: Option<Counts<K>>, call: Call<K>, code: nat, after: Option<Counts<K>>) {
    && code == ExitCode(before, call)
    && (code != 0 || !call.update ==> after == before)
    && (code == 0 && call.update ==> after.Some? && SameCounts(after.value, call.scan.value))
  }

  // ---------------------------------------------------------------- histories

  datatype Run<K> = Run(call: Call<K>, code: nat)

  /** The baselines before, between and after a sequence of runs. */
  ghost predicate History<K(!new)>(baselines: seq<Option<Counts<K>>>, runs: seq<Run<K>>) {
    |baselines| == |runs| + 1 && forall i :: 0 <= i < |runs| ==>
      Step(baselines[i], runs[i].call, runs[i].code, baselines[i + 1])
  }

  ghost predicate NoneAccepts<K>(runs: seq<Run<K>>) { forall i :: 0 <= i < |runs| ==> !runs[i].call.accept }

  lemma {:induction false} StepNeverRises<K(!new)>(before: Counts<K>, call: Call<K>, code: nat,
                                                   after: Option<Counts<K>>)
    requires Step(Some(before), call, code, after) && !call.accept
    ensures after.Some? && AtMost(after.value, before)
    ensures code == 0 ==> AtMost(call.scan.value, before)
  {
    if code == 0 {
      forall k ensures At(call.scan.value, k) <= At(before, k) {
        assert !Rises(before, call.scan.value);
      }
    }
  }

  /** Without `--accept-increase` no entry of the baseline ever rises, between any two points of any history. */
  lemma {:induction false} BaselineNeverRises<K(!new)>(baselines: seq<Option<Counts<K>>>, runs: seq<Run<K>>,
                                                       i: nat, j: nat)
    requires History(baselines, runs) && NoneAccepts(runs) && i <= j < |baselines| && baselines[i].Some?
    ensures baselines[j].Some? && AtMost(baselines[j].value, baselines[i].value)
    decreases j
  {
    if i < j {
      BaselineNeverRises(baselines, runs, i, j - 1);
      assert Step(baselines[j - 1], runs[j - 1].call, runs[j - 1].code, baselines[j - 1 + 1]);
      StepNeverRises(baselines[j - 1].value, runs[j - 1].call, runs[j - 1].code, baselines[j]);
    }
  }

  /** A run that passes is pointwise at most every earlier baseline. */
  lemma {:induction false} PassIsBelowEveryBaseline<K(!new)>(baselines: seq<Option<Counts<K>>>,
                                                             runs: seq<Run<K>>, i: nat, j: nat)
    requires History(baselines, runs) && NoneAccepts(runs) && i <= j < |runs| && baselines[i].Some? && runs[j].code == 0
    ensures runs[j].call.scan.Some? && AtMost(runs[j].call.scan.value, baselines[i].value)
  {
    BaselineNeverRises(baselines, runs, i, j);
    StepNeverRises(baselines[j].value, runs[j].call, runs[j].code, baselines[j + 1]);
  }

  // ---------------------------------------------------------------- clones

  datatype Change<K> = Change(key: K, was: nat, now: nat)

  ghost predicate Rose<K>(changes: seq<Change<K>>, was: Counts<K>, now: Counts<K>) {
    && (forall c :: c in changes ==> c.was == At(was, c.key) < At(now, c.key) == c.now)
    && forall k :: k in now && At(now, k) > At(was, k) ==> Change(k, At(was, k), At(now, k)) in changes
  }

  ghost predicate Fell<K>(changes: seq<Change<K>>, was: Counts<K>, now: Counts<K>) {
    && (forall c :: c in changes ==> c.was == At(was, c.key) > At(now, c.key) == c.now)
    && forall k :: k in was && At(now, k) < At(was, k) ==> Change(k, At(was, k), At(now, k)) in changes
  }

  /** Every package whose count rose, and every one that fell, whichever record names it. */
  method CompareCounts<K(!new, ==)>(baseline: Counts<K>, current: Counts<K>)
    returns (increased: seq<Change<K>>, decreased: seq<Change<K>>)
    ensures Rose(increased, baseline, current) && Fell(decreased, baseline, current)
  {
    increased, decreased := [], [];
    var todo := baseline.Keys + current.Keys;
    while todo != {}
      invariant forall c :: c in increased ==> c.was == At(baseline, c.key) < At(current, c.key) == c.now
      invariant forall c :: c in decreased ==> c.was == At(baseline, c.key) > At(current, c.key) == c.now
      invariant forall k :: k in baseline.Keys + current.Keys && k !in todo ==>
        (At(current, k) > At(baseline, k) ==> Change(k, At(baseline, k), At(current, k)) in increased) &&
        (At(current, k) < At(baseline, k) ==> Change(k, At(baseline, k), At(current, k)) in decreased)
    {
      var k :| k in todo;
      var was, now := At(baseline, k), At(current, k);
      if now > was { increased := increased + [Change(k, was, now)]; }
      else if now < was { decreased := decreased + [Change(k, was, now)]; }
      todo := todo - {k};
    }
  }

  function Without<K>(c: Counts<K>): Counts<K> { map k | k in c && c[k] != 0 :: c[k] }

  ghost predicate Applied<K>(changes: seq<Change<K>>, before: Counts<K>, after: Counts<K>) {
    && after.Keys == before.Keys + (set c | c in changes :: c.key)
    && (forall c :: c in changes ==> At(after, c.key) == c.now)
    && forall k :: k in before && (forall c :: c in changes ==> c.key != k) ==> after[k] == before[k]
  }

  /** The counts with every change made, each entry set to what it is now. */
  method Apply<K(!new, ==)>(before: Counts<K>, changes: seq<Change<K>>, ghost now: Counts<K>) returns (after: Counts<K>)
    requires forall c :: c in changes ==> c.now == At(now, c.key)
    ensures Applied(changes, before, after)
  {
    after := before;
    for i := 0 to |changes|
      invariant Applied(changes[..i], before, after)
    {
      assert changes[..i + 1] == changes[..i] + [changes[i]];
      after := after[changes[i].key := changes[i].now];
    }
    assert changes[..|changes|] == changes;
  }

  class CloneRatchet {
    var baseline: Option<Counts<string>>

    /** An update keeps the baseline's other entries, moves the changed ones, and drops what reached zero. */
    method Run(update: bool, acceptIncrease: bool, scan: Option<Counts<string>>) returns (code: nat)
      modifies this
      ensures Step(old(baseline), Call(update, acceptIncrease, scan), code, baseline)
      ensures code == 0 && update && old(baseline).Some? ==> baseline == Some(Without(scan.value))
      ensures code == 0 && update && old(baseline).None? ==> baseline == scan
    {
      if acceptIncrease && !update { return 2; }
      if scan.None? { return 2; }
      var current := scan.value;
      if baseline.None? {
        if !update { return 2; }
        baseline := Some(current);
        return 0;
      }
      var was := baseline.value;
      var increased, decreased := CompareCounts(was, current);
      RisesIffIncreased(was, current, increased);
      if increased != [] && !acceptIncrease { return 1; }
      if update {
        var next := Apply(was, decreased, current);
        ghost var lowered := next;
        if acceptIncrease { next := Apply(next, increased, current); }
        LocksIn(was, current, increased, decreased, lowered, next, acceptIncrease);
        baseline := Some(Without(next));
      }
      return 0;
    }
  }

  lemma {:induction false} RisesIffIncreased<K(!new)>(was: Counts<K>, now: Counts<K>, increased: seq<Change<K>>)
    requires Rose(increased, was, now)
    ensures increased != [] <==> Rises(was, now)
  {
    if increased != [] {
      var c := increased[0];
      assert c in increased;
      assert c.key in now && now[c.key] > At(was, c.key);
    }
    if Rises(was, now) {
      var k :| k in now && now[k] > At(was, k);
      assert Change(k, At(was, k), At(now, k)) in increased;
    }
  }

  /** Whether increases were accepted or there were none, every entry of the new baseline is the current count. */
  lemma {:induction false} LocksIn<K(!new)>(was: Counts<K>, now: Counts<K>, increased: seq<Change<K>>,
                                            decreased: seq<Change<K>>,
                                            lowered: Counts<K>, next: Counts<K>, accept: bool)
    requires Rose(increased, was, now) && Fell(decreased, was, now) && (increased == [] || accept)
    requires Applied(decreased, was, lowered) && (if accept then Applied(increased, lowered, next) else next == lowered)
    ensures Without(next) == Without(now) && SameCounts(Without(next), now)
  {
    forall k ensures At(next, k) == At(now, k) { LocksInAt(was, now, increased, decreased, lowered, next, accept, k); }
    SameWithout(next, now);
  }

  lemma {:induction false} SameWithout<K(!new)>(a: Counts<K>, b: Counts<K>)
    requires forall k :: At(a, k) == At(b, k)
    ensures Without(a) == Without(b) && SameCounts(Without(a), b)
  {
    forall k ensures k in Without(a) <==> k in Without(b) { assert At(a, k) == At(b, k); }
    forall k | k in Without(a) ensures Without(a)[k] == Without(b)[k] { assert At(a, k) == At(b, k); }
  }

  lemma {:induction false} LocksInAt<K(!new)>(was: Counts<K>, now: Counts<K>, increased: seq<Change<K>>,
                                              decreased: seq<Change<K>>,
                                              lowered: Counts<K>, next: Counts<K>, accept: bool, k: K)
    requires Rose(increased, was, now) && Fell(decreased, was, now) && (increased == [] || accept)
    requires Applied(decreased, was, lowered) && (if accept then Applied(increased, lowered, next) else next == lowered)
    ensures At(next, k) == At(now, k)
  {
    if At(now, k) < At(was, k) {
      assert Change(k, At(was, k), At(now, k)) in decreased;
    } else if At(now, k) > At(was, k) {
      assert Change(k, At(was, k), At(now, k)) in increased;
    }
  }

  // ---------------------------------------------------------------- anti-slop

  /** counts[rule][file] */
  type ByRule = map<string, map<string, nat>>

  datatype Finding = Finding(rule: string, file: string)

  function Flat(c: ByRule): Counts<(string, string)> {
    map rule, file | rule in c && file in c[rule] :: (rule, file) := c[rule][file]
  }

  function FlatOption(c: Option<ByRule>): Option<Counts<(string, string)>> {
    if c.None? then None else Some(Flat(c.value))
  }

  function CountOf(findings: seq<Finding>, rule: string, file: string): nat {
    if findings == [] then 0
    else
      var n := |findings| - 1;
      CountOf(findings[..n], rule, file) + (if findings[n] == Finding(rule, file) then 1 else 0)
  }

  function AtFile(c: ByRule, rule: string, file: string): nat {
    if rule in c && file in c[rule] then c[rule][file] else 0
  }

  lemma {:induction false} FlatReads(c: ByRule, rule: string, file: string)
    ensures At(Flat(c), (rule, file)) == AtFile(c, rule, file)
  {
  }

  method EmptyCounts(rules: seq<string>) returns (counts: ByRule)
    ensures counts.Keys == (set r | r in rules) && forall r :: r in counts ==> counts[r] == map[]
  {
    counts := map[];
    for i := 0 to |rules|
      invariant counts.Keys == (set r | r in rules[..i]) && forall r :: r in counts ==> counts[r] == map[]
    {
      assert rules[..i + 1] == rules[..i] + [rules[i]];
      counts := counts[rules[i] := map[]];
    }
    assert rules[..|rules|] == rules;
  }

  ghost predicate Tallied(counts: ByRule, findings: seq<Finding>) {
    forall rule, file :: AtFile(counts, rule, file) == CountOf(findings, rule, file)
  }

  lemma {:induction false} TallyOne(counts: ByRule, findings: seq<Finding>, x: Finding)
    requires Tallied(counts, findings)
    ensures
      var byFile := GetOr(counts, x.rule, map[]);
      Tallied(counts[x.rule := byFile[x.file := At(byFile, x.file) + 1]], findings + [x])
  {
    var byFile := GetOr(counts, x.rule, map[]);
    var more := counts[x.rule := byFile[x.file := At(byFile, x.file) + 1]];
    assert At(byFile, x.file) == AtFile(counts, x.rule, x.file);
    forall rule, file ensures AtFile(more, rule, file) == CountOf(findings + [x], rule, file) {
      assert (findings + [x])[..|findings|] == findings;
      assert AtFile(counts, rule, file) == CountOf(findings, rule, file);
    }
  }

  /** Every rule has an entry, and an entry counts its findings. */
  method CountFindings(findings: seq<Finding>, rules: seq<string>) returns (counts: ByRule)
    ensures Tallied(counts, findings)
    ensures forall rule :: rule in rules ==> rule in counts
  {
    counts := EmptyCounts(rules);
    for i := 0 to |findings|
      invariant forall r :: r in rules ==> r in counts
      invariant Tallied(counts, findings[..i])
    {
      assert findings[..i + 1] == findings[..i] + [findings[i]];
      TallyOne(counts, findings[..i], findings[i]);
      var byFile := GetOr(counts, findings[i].rule, map[]);
      counts := counts[findings[i].rule := byFile[findings[i].file := At(byFile, findings[i].file) + 1]];
    }
    assert findings[..|findings|] == findings;
  }

  class AntiSlopRatchet {
    var baseline: Option<ByRule>

    /** An update writes the current counts whole. */
    method Run(update: bool, acceptIncrease: bool, scan: Option<ByRule>) returns (code: nat)
      modifies this
      ensures Step(FlatOption(old(baseline)), Call(update, acceptIncrease, FlatOption(scan)), code,
        FlatOption(baseline))
      ensures code == 0 && update ==> baseline == scan
    {
      if acceptIncrease && !update { return 2; }
      if scan.None? { return 2; }
      if baseline.None? {
        if !update { return 2; }
        baseline := scan;
        return 0;
      }
      var increased := Increased(baseline.value, scan.value);
      RisesIffIncreased(Flat(baseline.value), Flat(scan.value), increased);
      if increased != [] && !(update && acceptIncrease) { return 1; }
      if update { baseline := scan; }
      return 0;
    }
  }

  /** The first half of `compareCounts`: the current entries above their baseline. */
  method Increased(baseline: ByRule, current: ByRule) returns (increased: seq<Change<(string, string)>>)
    ensures Rose(increased, Flat(baseline), Flat(current))
  {
    increased := [];
    var todo := Flat(current).Keys;
    while todo != {}
      invariant todo <= Flat(current).Keys
      invariant RoseExcept(increased, Flat(baseline), Flat(current), todo)
    {
      var k :| k in todo;
      var was, now := AtFile(baseline, k.0, k.1), current[k.0][k.1];
      FlatReads(baseline, k.0, k.1);
      RoseOnce(increased, Flat(baseline), Flat(current), todo, k);
      if now > was { increased := increased + [Change(k, was, now)]; }
      todo := todo - {k};
    }
  }

  ghost predicate RoseExcept<K>(changes: seq<Change<K>>, was: Counts<K>, now: Counts<K>, todo: set<K>) {
    && (forall c :: c in changes ==> c.was == At(was, c.key) < At(now, c.key) == c.now)
    && forall k :: k in now && k !in todo && At(now, k) > At(was, k) ==> Change(k, At(was, k), At(now, k)) in changes
  }

  lemma {:induction false} RoseOnce<K>(changes: seq<Change<K>>, was: Counts<K>, now: Counts<K>, todo: set<K>, k: K)
    requires RoseExcept(changes, was, now, todo) && k in todo
    ensures
      var more := if At(now, k) > At(was, k) then changes + [Change(k, At(was, k), At(now, k))] else changes;
      RoseExcept(more, was, now, todo - {k})
  {
  }
}
