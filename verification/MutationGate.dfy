/**
 * The mutation gate: how mutants are keyed and sharded, how survivors become a baseline, and when the gate fails. A
 * key's JSON text is modelled as the key itself, under any total order on keys.
 */
module MutationGate {
  import opened Collections

  /** What identifies a mutant apart from its number among its likes. */
  datatype Base = Base(op: string, fn: string, code: string, from: string)
  datatype Key = Key(base: Base, nth: nat)

  /** One proposed edit, in source order. */
  datatype Edit = Edit(base: Base, original: string, to: string)
  datatype Mutant = Mutant(id: nat, base: Base, nth: nat, to: string)

  function KeyOf(m: Mutant): Key { Key(m.base, m.nth) }

  // ---------------------------------------------------------------- numbering

  function Kept(edits: seq<Edit>): seq<Edit> {
    if edits == [] then []
    else
      var last := edits[|edits| - 1];
      Kept(edits[..|edits| - 1]) + (if last.original == last.to then [] else [last])
  }

  function Earlier(mutants: seq<Mutant>, base: Base): nat {
    if mutants == [] then 0
    else Earlier(mutants[..|mutants| - 1], base) + (if mutants[|mutants| - 1].base == base then 1 else 0)
  }

  /** Ids count up, and `nth` counts the earlier mutants of the same base. */
  ghost predicate Numbered(mutants: seq<Mutant>) {
    forall i :: 0 <= i < |mutants| ==> mutants[i].id == i && mutants[i].nth == Earlier(mutants[..i], mutants[i].base)
  }

  /** Every edit that changes something becomes a mutant, in order, numbered among its likes. */
  method GenerateMutants(edits: seq<Edit>) returns (mutants: seq<Mutant>)
    ensures Numbered(mutants) && |mutants| == |Kept(edits)|
    ensures forall i :: 0 <= i < |mutants| ==>
      mutants[i].base == Kept(edits)[i].base && mutants[i].to == Kept(edits)[i].to
  {
    mutants := [];
    var seen: map<Base, nat> := map[];
    for i := 0 to |edits|
      invariant Numbered(mutants) && |mutants| == |Kept(edits[..i])|
      invariant forall k :: 0 <= k < |mutants| ==>
        mutants[k].base == Kept(edits[..i])[k].base && mutants[k].to == Kept(edits[..i])[k].to
      invariant forall b :: GetOr(seen, b, 0) == Earlier(mutants, b)
    {
      var edit := edits[i];
      assert edits[..i + 1][..i] == edits[..i];
      if edit.original == edit.to { continue; }
      var nth := GetOr(seen, edit.base, 0);
      seen := seen[edit.base := nth + 1];
      NumberedGrows(mutants, edit);
      mutants := mutants + [Mutant(|mutants|, edit.base, nth, edit.to)];
    }
    assert edits[..|edits|] == edits;
  }

  lemma {:induction false} NumberedGrows(mutants: seq<Mutant>, edit: Edit)
    requires Numbered(mutants)
    ensures
      var more := mutants + [Mutant(|mutants|, edit.base, Earlier(mutants, edit.base), edit.to)];
      Numbered(more) && forall b :: Earlier(more, b) == Earlier(mutants, b) + if b == edit.base then 1 else 0
  {
    var more := mutants + [Mutant(|mutants|, edit.base, Earlier(mutants, edit.base), edit.to)];
    assert more[..|mutants|] == mutants;
    forall k | 0 <= k < |more| ensures more[k].id == k && more[k].nth == Earlier(more[..k], more[k].base) {
      if k < |mutants| { assert more[..k] == mutants[..k]; }
    }
  }

  lemma {:induction false} EarlierGrows(mutants: seq<Mutant>, i: nat, j: nat)
    requires i < j <= |mutants|
    ensures Earlier(mutants[..i], mutants[i].base) < Earlier(mutants[..j], mutants[i].base)
    decreases j
  {
    assert mutants[..j][..j - 1] == mutants[..j - 1];
    if i < j - 1 { EarlierGrows(mutants, i, j - 1); }
  }

  /** Mutant keys are unique in a file. */
  lemma {:induction false} KeysAreUnique(mutants: seq<Mutant>, i: nat, j: nat)
    requires Numbered(mutants) && i < |mutants| && j < |mutants| && KeyOf(mutants[i]) == KeyOf(mutants[j])
    ensures i == j
  {
    if i < j { EarlierGrows(mutants, i, j); }
    if j < i { EarlierGrows(mutants, j, i); }
  }

  // ---------------------------------------------------------------- sharding

  /** The mutants of one file that fall to shard `index` of `count`, the file's first having ordinal `ordinal`. */
  function Share(mutants: seq<Mutant>, ordinal: nat, index: nat, count: nat): seq<Mutant>
    requires index < count
  {
    if mutants == [] then []
    else
      var n := |mutants| - 1;
      Share(mutants[..n], ordinal, index, count) + (if (ordinal + n) % count == index then [mutants[n]] else [])
  }

  method ShareOf(mutants: seq<Mutant>, ordinal: nat, index: nat, count: nat) returns (mine: seq<Mutant>, next: nat)
    requires index < count
    ensures mine == Share(mutants, ordinal, index, count) && next == ordinal + |mutants|
  {
    mine, next := [], ordinal;
    for i := 0 to |mutants|
      invariant mine == Share(mutants[..i], ordinal, index, count) && next == ordinal + i
    {
      assert mutants[..i + 1][..i] == mutants[..i];
      if next % count == index { mine := mine + [mutants[i]]; }
      next := next + 1;
    }
    assert mutants[..|mutants|] == mutants;
  }

  /** The shards partition the mutants: the one at position `i` falls to the shard its ordinal leaves, and no other. */
  lemma {:induction false} ShardsPartition(mutants: seq<Mutant>, ordinal: nat, i: nat, index: nat, count: nat)
    requires Numbered(mutants) && i < |mutants| && index < count
    ensures mutants[i] in Share(mutants, ordinal, index, count) <==> index == (ordinal + i) % count
    ensures (ordinal + i) % count < count
  {
    if index == (ordinal + i) % count { ShareAt(mutants, ordinal, i, index, count); }
    if mutants[i] in Share(mutants, ordinal, index, count) {
      var j := ShareHolds(mutants, ordinal, index, count, mutants[i]);
      assert mutants[i].id == i && mutants[j].id == j;
    }
  }

  lemma {:induction false} ShareAt(mutants: seq<Mutant>, ordinal: nat, i: nat, index: nat, count: nat)
    requires i < |mutants| && index < count && index == (ordinal + i) % count
    ensures mutants[i] in Share(mutants, ordinal, index, count)
    decreases |mutants|
  {
    var n := |mutants| - 1;
    if i < n { ShareAt(mutants[..n], ordinal, i, index, count); }
  }

  lemma {:induction false} ShareHolds(mutants: seq<Mutant>, ordinal: nat, index: nat, count: nat, m: Mutant)
    returns (j: nat)
    requires index < count && m in Share(mutants, ordinal, index, count)
    ensures j < |mutants| && mutants[j] == m && (ordinal + j) % count == index
  {
    var n := |mutants| - 1;
    if m in Share(mutants[..n], ordinal, index, count) {
      j := ShareHolds(mutants[..n], ordinal, index, count, m);
    } else {
      j := n;
    }
  }

  // ---------------------------------------------------------------- entries

  /** An entry of the baseline or of the equivalents; `nth` is left out for the first of its likes. */
  datatype Entry = Entry(base: Base, nth: Option<nat>, reason: Option<string>)

  function EntryKey(e: Entry): Key { Key(e.base, if e.nth.Some? then e.nth.value else 0) }

  function EntryKeys(entries: seq<Entry>): set<Key> { set e | e in entries :: EntryKey(e) }

  function MutantKeys(mutants: seq<Mutant>): set<Key> { set m | m in mutants :: KeyOf(m) }

  /** The entry a survivor is recorded with. */
  function EquivalentEntry(m: Mutant): Entry {
    Entry(m.base, if m.nth == 0 then None else Some(m.nth), Some(""))
  }

  function Unmatched(entries: seq<Entry>, used: set<Key>): seq<Entry> {
    if entries == [] then []
    else
      var n := |entries| - 1;
      Unmatched(entries[..n], used) + (if EntryKey(entries[n]) in used then [] else [entries[n]])
  }

  lemma {:induction false} UnmatchedIsEmpty(entries: seq<Entry>, used: set<Key>)
    ensures Unmatched(entries, used) == [] <==> EntryKeys(entries) <= used
  {
    if entries != [] {
      var n := |entries| - 1;
      UnmatchedIsEmpty(entries[..n], used);
      assert EntryKeys(entries) == EntryKeys(entries[..n]) + {EntryKey(entries[n])};
    }
  }

  method IndexEntries(entries: seq<Entry>) returns (byKey: map<Key, Entry>)
    ensures byKey.Keys == EntryKeys(entries)
    ensures forall k :: k in byKey ==> byKey[k] in entries && EntryKey(byKey[k]) == k
  {
    byKey := map[];
    for i := 0 to |entries|
      invariant byKey.Keys == EntryKeys(entries[..i])
      invariant forall k :: k in byKey ==> byKey[k] in entries && EntryKey(byKey[k]) == k
    {
      assert entries[..i + 1] == entries[..i] + [entries[i]];
      assert EntryKeys(entries[..i + 1]) == EntryKeys(entries[..i]) + {EntryKey(entries[i])};
      byKey := byKey[EntryKey(entries[i]) := entries[i]];
    }
    assert entries[..|entries|] == entries;
  }

  /** The ids of the mutants whose key is among `keys`; an id is a position. */
  function MatchedIds(mutants: seq<Mutant>, keys: set<Key>): set<nat> { MatchedBelow(mutants, |mutants|, keys) }

  function MatchedBelow(mutants: seq<Mutant>, n: nat, keys: set<Key>): set<nat>
    requires n <= |mutants|
  {
    set i | 0 <= i < n && KeyOf(mutants[i]) in keys
  }

  ghost predicate IdsAreOrdinals(mutants: seq<Mutant>) {
    forall i :: 0 <= i < |mutants| ==> mutants[i].id == i
  }

  ghost predicate Answers(mutants: seq<Mutant>, entries: seq<Entry>, matched: map<nat, Entry>) {
    forall k :: k in matched ==> k < |mutants| && matched[k] in entries && EntryKey(matched[k]) == KeyOf(mutants[k])
  }

  method MatchMutants(mutants: seq<Mutant>, ghost entries: seq<Entry>, byKey: map<Key, Entry>)
    returns (matched: map<nat, Entry>, used: set<Key>)
    requires IdsAreOrdinals(mutants) && byKey.Keys == EntryKeys(entries)
    requires forall k :: k in byKey ==> byKey[k] in entries && EntryKey(byKey[k]) == k
    ensures matched.Keys == MatchedIds(mutants, EntryKeys(entries)) && Answers(mutants, entries, matched)
    ensures used == MutantKeys(mutants) * EntryKeys(entries)
  {
    matched, used := map[], {};
    for i := 0 to |mutants|
      invariant used == MutantKeys(mutants[..i]) * EntryKeys(entries)
      invariant matched.Keys == MatchedBelow(mutants, i, EntryKeys(entries)) && Answers(mutants, entries, matched)
    {
      var m := mutants[i];
      OneMutantMore(mutants, i);
      assert MatchedBelow(mutants, i + 1, EntryKeys(entries)) ==
        MatchedBelow(mutants, i, EntryKeys(entries)) + if KeyOf(m) in byKey then {i} else {};
      if KeyOf(m) in byKey {
        matched := matched[m.id := byKey[KeyOf(m)]];
        used := used + {KeyOf(m)};
      }
    }
    assert mutants[..|mutants|] == mutants;
  }

  lemma {:induction false} OneMutantMore(mutants: seq<Mutant>, i: nat)
    requires i < |mutants|
    ensures MutantKeys(mutants[..i + 1]) == MutantKeys(mutants[..i]) + {KeyOf(mutants[i])}
  {
    assert mutants[..i + 1] == mutants[..i] + [mutants[i]];
  }

  /** The mutants some entry names, each with such an entry; `unused` lists the entries no mutant answers to. */
  method MatchEntries(mutants: seq<Mutant>, entries: seq<Entry>) returns (matched: map<nat, Entry>, unused: seq<Entry>)
    requires Numbered(mutants)
    ensures matched.Keys == MatchedIds(mutants, EntryKeys(entries)) && Answers(mutants, entries, matched)
    ensures unused == Unmatched(entries, MutantKeys(mutants))
  {
    var byKey := IndexEntries(entries);
    var used;
    matched, used := MatchMutants(mutants, entries, byKey);
    unused := [];
    for i := 0 to |entries|
      invariant unused == Unmatched(entries[..i], MutantKeys(mutants))
    {
      assert entries[..i + 1][..i] == entries[..i];
      assert EntryKey(entries[i]) in EntryKeys(entries);
      if EntryKey(entries[i]) !in used { unused := unused + [entries[i]]; }
    }
    assert entries[..|entries|] == entries;
  }

  // ---------------------------------------------------------------- merging survivors

  type Survivors = map<string, seq<Entry>>

  function EntriesOf(list: Survivors, file: string): seq<Entry> { GetOr(list, file, []) }

  /** An entry as the baseline holds it: the reason goes. */
  function Bare(e: Entry): Entry { Entry(e.base, e.nth, None) }

  /** The keys some list records for the file. */
  function RecordedKeys(lists: seq<Survivors>, file: string): set<Key> {
    if lists == [] then {}
    else RecordedKeys(lists[..|lists| - 1], file) + EntryKeys(EntriesOf(lists[|lists| - 1], file))
  }

  type ByKey = map<Key, Entry>

  ghost predicate Keyed(byKey: ByKey) {
    forall k :: k in byKey ==> EntryKey(byKey[k]) == k && byKey[k].reason == None
  }

  method MergeFile(before: ByKey, entries: seq<Entry>) returns (byKey: ByKey)
    requires Keyed(before)
    ensures Keyed(byKey) && byKey.Keys == before.Keys + EntryKeys(entries)
  {
    byKey := before;
    for i := 0 to |entries|
      invariant Keyed(byKey) && byKey.Keys == before.Keys + EntryKeys(entries[..i])
    {
      assert entries[..i + 1] == entries[..i] + [entries[i]];
      assert EntryKeys(entries[..i + 1]) == EntryKeys(entries[..i]) + {EntryKey(entries[i])};
      byKey := byKey[EntryKey(entries[i]) := Bare(entries[i])];
    }
    assert entries[..|entries|] == entries;
  }

  /** Every file's table holds what `keys` says. */
  ghost predicate MergedTo(merged: map<string, ByKey>, lists: seq<Survivors>, next: Survivors, done: set<string>) {
    forall file :: MergedAt(merged, lists, next, done, file)
  }

  ghost predicate MergedAt(merged: map<string, ByKey>, lists: seq<Survivors>, next: Survivors, done: set<string>,
                           file: string) {
    var table, more := GetOr(merged, file, map[]), if file in done then EntryKeys(EntriesOf(next, file)) else {};
    Keyed(table) && table.Keys == RecordedKeys(lists, file) + more
  }

  method MergeList(before: map<string, ByKey>, ghost lists: seq<Survivors>, list: Survivors)
    returns (merged: map<string, ByKey>)
    requires MergedTo(before, lists, list, {})
    ensures MergedTo(merged, lists, list, list.Keys)
  {
    merged := before;
    var todo := list.Keys;
    assert list.Keys - todo == {};
    while todo != {}
      invariant todo <= list.Keys && MergedTo(merged, lists, list, list.Keys - todo)
    {
      var file :| file in todo;
      ghost var was, done := merged, list.Keys - todo;
      assert MergedAt(merged, lists, list, done, file);
      var table := MergeFile(GetOr(merged, file, map[]), list[file]);
      merged := merged[file := table];
      todo := todo - {file};
      ghost var now := list.Keys - todo;
      forall other ensures MergedAt(merged, lists, list, now, other) {
        assert MergedAt(was, lists, list, done, other);
        assert other in now <==> other in done || other == file;
      }
    }
    assert list.Keys - todo == list.Keys;
  }

  /** The entries in key order, one for each key. */
  ghost predicate InKeyOrder(le: (Key, Key) -> bool, entries: seq<Entry>) {
    forall i, j :: 0 <= i < j < |entries| ==>
      EntryKey(entries[i]) != EntryKey(entries[j]) && le(EntryKey(entries[i]), EntryKey(entries[j]))
  }

  function Values(byKey: ByKey, keys: seq<Key>): (entries: seq<Entry>)
    requires Keyed(byKey) && forall k :: k in keys ==> k in byKey
    ensures |entries| == |keys| && forall i :: 0 <= i < |keys| ==> EntryKey(entries[i]) == keys[i]
  {
    if keys == [] then [] else [byKey[keys[0]]] + Values(byKey, keys[1..])
  }

  method KeysOf(byKey: ByKey) returns (keys: seq<Key>)
    ensures Distinct(keys) && forall k :: k in keys <==> k in byKey
  {
    keys := [];
    var todo := byKey.Keys;
    while todo != {}
      invariant todo <= byKey.Keys && Distinct(keys) && forall k :: k in keys <==> k in byKey && k !in todo
    {
      var k :| k in todo;
      keys, todo := keys + [k], todo - {k};
    }
  }

  method InOrder(byKey: ByKey, le: (Key, Key) -> bool) returns (entries: seq<Entry>)
    requires Keyed(byKey) && TotalOrder(le)
    ensures EntryKeys(entries) == byKey.Keys && InKeyOrder(le, entries)
  {
    var keys := KeysOf(byKey);
    var sorted := Sort(le, keys);
    DistinctRearranged(keys, sorted);
    assert forall k :: k in sorted <==> k in multiset(sorted);
    assert forall k :: k in keys <==> k in multiset(keys);
    entries := Values(byKey, sorted);
    ValuesHaveKeys(byKey, sorted);
  }

  lemma {:induction false} ValuesHaveKeys(byKey: ByKey, keys: seq<Key>)
    requires Keyed(byKey) && forall k :: k in keys ==> k in byKey
    ensures EntryKeys(Values(byKey, keys)) == set k | k in keys
  {
    var entries := Values(byKey, keys);
    forall k | k in keys ensures k in EntryKeys(entries) {
      var i :| 0 <= i < |keys| && keys[i] == k;
      assert entries[i] in entries;
    }
  }

  /** One baseline from every shard's survivors: each file's entries are the union of what the shards recorded. */
  method MergeSurvivors(lists: seq<Survivors>, le: (Key, Key) -> bool) returns (baseline: Survivors)
    requires TotalOrder(le)
    ensures forall file :: EntryKeys(EntriesOf(baseline, file)) == RecordedKeys(lists, file)
    ensures forall file :: InKeyOrder(le, EntriesOf(baseline, file))
  {
    var merged: map<string, ByKey> := map[];
    for i := 0 to |lists|
      invariant MergedTo(merged, lists[..i], map[], {})
    {
      ghost var before, after := lists[..i], lists[..i + 1];
      assert after[..i] == before;
      forall file ensures MergedAt(merged, before, lists[i], {}, file) {
        assert MergedAt(merged, before, map[], {}, file);
      }
      merged := MergeList(merged, before, lists[i]);
      forall file ensures MergedAt(merged, after, map[], {}, file) {
        assert MergedAt(merged, before, lists[i], lists[i].Keys, file);
      }
    }
    assert lists[..|lists|] == lists;
    baseline := map[];
    var todo := merged.Keys;
    while todo != {}
      invariant todo <= merged.Keys && baseline.Keys == merged.Keys - todo
      invariant forall file :: file in baseline ==>
        EntryKeys(baseline[file]) == merged[file].Keys && InKeyOrder(le, baseline[file])
    {
      var file :| file in todo;
      assert MergedAt(merged, lists, map[], {}, file);
      var entries := InOrder(merged[file], le);
      baseline := baseline[file := entries];
      todo := todo - {file};
    }
    forall file ensures EntryKeys(EntriesOf(baseline, file)) == RecordedKeys(lists, file) {
      assert MergedAt(merged, lists, map[], {}, file);
    }
  }

  // ---------------------------------------------------------------- the gate

  datatype Status = Survived | Killed | Timeout | Error | Equivalent | NotRun
  datatype Result = Result(mutant: Mutant, status: Status)

  /** An exit code is undefined when no run was tried, and null when a signal ended it. */
  datatype FileReport = FileReport(
    file: string, baselineFailures: seq<string>, baselineExitCode: Option<Option<int>>, results: seq<Result>,
    unusedEquivalents: seq<Entry>, baselined: set<nat>, unusedBaseline: seq<Entry>)

  datatype Failure =
    | TestsFail(file: string)
    | Survives(file: string, mutant: Mutant)
    | Caught(file: string, mutant: Mutant, status: Status)
    | DidNotRun(file: string, mutant: Mutant)
    | StaleBaseline(file: string, entry: Entry)
    | StaleEquivalent(file: string, entry: Entry)

  predicate Detected(s: Status) { s == Killed || s == Timeout || s == Error }

  predicate Broken(r: FileReport) {
    r.baselineFailures != [] || (r.baselineExitCode.Some? && r.baselineExitCode != Some(Some(0)))
  }

  function FailureOf(r: FileReport, x: Result): seq<Failure> {
    var known := x.mutant.id in r.baselined;
    if x.status == Survived && !known then [Survives(r.file, x.mutant)]
    else if Detected(x.status) && known then [Caught(r.file, x.mutant, x.status)]
    else if x.status == NotRun && !Broken(r) then [DidNotRun(r.file, x.mutant)]
    else []
  }

  function ResultFailures(r: FileReport, n: nat): seq<Failure>
    requires n <= |r.results|
  {
    if n == 0 then [] else ResultFailures(r, n - 1) + FailureOf(r, r.results[n - 1])
  }

  function Each(entries: seq<Entry>, failure: Entry -> Failure): (f: seq<Failure>)
    ensures |f| == |entries|
  {
    seq(|entries|, i requires 0 <= i < |entries| => failure(entries[i]))
  }

  function FailuresOf(r: FileReport): seq<Failure> {
    (if Broken(r) then [TestsFail(r.file)] else []) + ResultFailures(r, |r.results|) +
    Each(r.unusedBaseline, e => StaleBaseline(r.file, e)) + Each(r.unusedEquivalents, e => StaleEquivalent(r.file, e))
  }

  function AllFailures(reports: seq<FileReport>): seq<Failure> {
    if reports == [] then [] else AllFailures(reports[..|reports| - 1]) + FailuresOf(reports[|reports| - 1])
  }

  /** One turn of the loop over a report's results. */
  method PushFailure(r: FileReport, x: Result, broken: bool, before: seq<Failure>) returns (failures: seq<Failure>)
    requires broken == Broken(r)
    ensures failures == before + FailureOf(r, x)
  {
    failures := before;
    if x.status == Survived && x.mutant.id !in r.baselined {
      failures := failures + [Survives(r.file, x.mutant)];
    } else if Detected(x.status) && x.mutant.id in r.baselined {
      failures := failures + [Caught(r.file, x.mutant, x.status)];
    } else if x.status == NotRun && !broken {
      failures := failures + [DidNotRun(r.file, x.mutant)];
    }
  }

  /** The loop over a report's results. */
  method ResultsFailures(r: FileReport, broken: bool, before: seq<Failure>) returns (failures: seq<Failure>)
    requires broken == Broken(r)
    ensures failures == before + ResultFailures(r, |r.results|)
  {
    failures := before;
    for i := 0 to |r.results|
      invariant failures == before + ResultFailures(r, i)
    {
      failures := PushFailure(r, r.results[i], broken, failures);
    }
  }

  method ReportFailures(r: FileReport, before: seq<Failure>) returns (failures: seq<Failure>)
    ensures failures == before + FailuresOf(r)
  {
    failures := before;
    var broken := Broken(r);
    if broken { failures := failures + [TestsFail(r.file)]; }
    failures := ResultsFailures(r, broken, failures);
    failures := failures + Each(r.unusedBaseline, e => StaleBaseline(r.file, e));
    failures := failures + Each(r.unusedEquivalents, e => StaleEquivalent(r.file, e));
  }

  method GateFailures(reports: seq<FileReport>) returns (failures: seq<Failure>)
    ensures failures == AllFailures(reports)
  {
    failures := [];
    for i := 0 to |reports|
      invariant failures == AllFailures(reports[..i])
    {
      assert reports[..i + 1][..i] == reports[..i];
      failures := ReportFailures(reports[i], failures);
    }
    assert reports[..|reports|] == reports;
  }

  /** The unmutated tests pass, every mutant ran, the listed ones are the survivors, and no entry is stale. */
  ghost predicate Clean(r: FileReport) {
    !Broken(r) && r.unusedBaseline == [] && r.unusedEquivalents == [] && ResultsPass(r)
  }

  ghost predicate ResultsPass(r: FileReport) { forall x :: x in r.results ==> ResultPasses(r, x) }

  predicate ResultPasses(r: FileReport, x: Result) {
    x.status != NotRun && (x.status != Equivalent ==> (x.status == Survived <==> x.mutant.id in r.baselined))
  }

  lemma {:induction false} ResultsFailIff(r: FileReport, n: nat)
    requires n <= |r.results|
    ensures |ResultFailures(r, n)| == 0 <==> NoneFails(r, n)
  {
    if n > 0 {
      ResultsFailIff(r, n - 1);
      NoneFailsStep(r, n);
    }
  }

  ghost predicate NoneFails(r: FileReport, n: nat)
    requires n <= |r.results|
  {
    forall i :: 0 <= i < n ==> |FailureOf(r, r.results[i])| == 0
  }

  lemma {:induction false} NoneFailsStep(r: FileReport, n: nat)
    requires 0 < n <= |r.results|
    ensures NoneFails(r, n) <==> NoneFails(r, n - 1) && |FailureOf(r, r.results[n - 1])| == 0
    ensures |ResultFailures(r, n)| == |ResultFailures(r, n - 1)| + |FailureOf(r, r.results[n - 1])|
  {
  }

  lemma {:induction false} BothEmpty(a: seq<Failure>, b: seq<Failure>)
    ensures a + b == [] <==> a == [] && b == []
  {
    assert |a + b| == |a| + |b|;
  }

  lemma {:induction false} ReportCleanIff(r: FileReport)
    ensures FailuresOf(r) == [] <==> Clean(r)
  {
    ResultsFailIff(r, |r.results|);
    if FailuresOf(r) == [] {
      assert ResultFailures(r, |r.results|) == [];
      forall x | x in r.results ensures FailureOf(r, x) == [] {}
    }
    if Clean(r) {
      forall i | 0 <= i < |r.results| ensures FailureOf(r, r.results[i]) == [] { assert r.results[i] in r.results; }
    }
  }

  /** The gate passes exactly when every report is clean. */
  lemma {:induction false} GatePassesIff(reports: seq<FileReport>)
    ensures AllFailures(reports) == [] <==> AllClean(reports)
  {
    if reports != [] {
      var front, last := reports[..|reports| - 1], reports[|reports| - 1];
      GatePassesIff(front);
      ReportCleanIff(last);
      BothEmpty(AllFailures(front), FailuresOf(last));
      AllCleanWith(front, last);
      assert reports == front + [last];
    }
  }

  ghost predicate AllClean(reports: seq<FileReport>) { forall r :: r in reports ==> Clean(r) }

  lemma {:induction false} AllCleanWith(front: seq<FileReport>, last: FileReport)
    ensures AllClean(front + [last]) <==> AllClean(front) && Clean(last)
  {
    if AllClean(front + [last]) {
      assert last in front + [last];
      forall r | r in front ensures Clean(r) { assert r in front + [last]; }
    }
  }

  // ---------------------------------------------------------------- the round trip through the baseline

  /** One whole nightly run: the files in order, their mutants, and what each mutant's run says once and for all. */
  datatype Plan = Plan(
    targets: seq<string>, mutants: map<string, seq<Mutant>>, equivalents: Survivors,
    verdicts: map<string, seq<Status>>, failing: map<string, seq<string>>, exitCodes: map<string, Option<int>>)

  ghost predicate ValidPlan(plan: Plan) {
    forall file :: file in plan.targets ==>
      file in plan.mutants && Numbered(plan.mutants[file]) && file in plan.verdicts &&
      |plan.verdicts[file]| == |plan.mutants[file]| && Equivalent !in plan.verdicts[file]
  }

  function StatusOf(plan: Plan, file: string, m: Mutant): Status {
    if KeyOf(m) in EntryKeys(EntriesOf(plan.equivalents, file)) then Equivalent
    else if file in plan.verdicts && m.id < |plan.verdicts[file]| then plan.verdicts[file][m.id] else NotRun
  }

  function ResultsOf(plan: Plan, file: string, mine: seq<Mutant>): (r: seq<Result>)
    ensures |r| == |mine| && forall i :: 0 <= i < |mine| ==> r[i] == Result(mine[i], StatusOf(plan, file, mine[i]))
  {
    seq(|mine|, i requires 0 <= i < |mine| => Result(mine[i], StatusOf(plan, file, mine[i])))
  }

  function MutantsOf(plan: Plan, file: string): seq<Mutant> { GetOr(plan.mutants, file, []) }

  /** The ordinal of the first mutant of the n-th file. */
  function Ordinal(plan: Plan, n: nat): nat
    requires n <= |plan.targets|
  {
    if n == 0 then 0 else Ordinal(plan, n - 1) + |MutantsOf(plan, plan.targets[n - 1])|
  }

  /** What shard `index` reports for the n-th file; stale entries are the first shard's to report. */
  function ReportOf(plan: Plan, n: nat, index: nat, count: nat, baseline: Survivors): FileReport
    requires n < |plan.targets| && index < count
  {
    var file := plan.targets[n];
    var all := MutantsOf(plan, file);
    FileReport(file, GetOr(plan.failing, file, []), if file in plan.exitCodes then Some(plan.exitCodes[file]) else None,
               ResultsOf(plan, file, Share(all, Ordinal(plan, n), index, count)),
               if index == 0 then Unmatched(EntriesOf(plan.equivalents, file), MutantKeys(all)) else [],
               MatchedIds(all, EntryKeys(EntriesOf(baseline, file))) * Ids(Share(all, Ordinal(plan, n), index, count)),
               if index == 0 then Unmatched(EntriesOf(baseline, file), MutantKeys(all)) else [])
  }

  function Ids(mutants: seq<Mutant>): set<nat> { set m | m in mutants :: m.id }

  function Reports(plan: Plan, n: nat, index: nat, count: nat, baseline: Survivors): (r: seq<FileReport>)
    requires n <= |plan.targets| && index < count
    ensures |r| == n
  {
    if n == 0 then []
    else
      Reports(plan, n - 1, index, count, baseline) + [ReportOf(plan, n - 1, index, count, baseline)]
  }

  // ---------------------------------------------------------------- when a run passes

  ghost predicate IsListed(entries: seq<Entry>, m: Mutant) {
    exists e :: e in entries && EntryKey(e) == KeyOf(m)
  }

  ghost predicate IsAnswered(e: Entry, mutants: seq<Mutant>) {
    exists m :: m in mutants && KeyOf(m) == EntryKey(e)
  }

  /** The unmutated tests of the file, if they were run. */
  ghost predicate TestsPass(plan: Plan, file: string) {
    GetOr(plan.failing, file, []) == [] && (file in plan.exitCodes ==> plan.exitCodes[file] == Some(0))
  }

  /** Every entry of the file names one of its mutants. */
  ghost predicate NoStaleEntry(plan: Plan, file: string, baseline: Survivors) {
    && (forall e :: e in EntriesOf(baseline, file) ==> IsAnswered(e, MutantsOf(plan, file)))
    && forall e :: e in EntriesOf(plan.equivalents, file) ==> IsAnswered(e, MutantsOf(plan, file))
  }

  /** A mutant that is not listed as equivalent ran, and survived exactly when the baseline lists it. */
  ghost predicate MutantPasses(plan: Plan, file: string, j: nat, baseline: Survivors)
    requires ValidPlan(plan) && file in plan.targets && j < |MutantsOf(plan, file)|
  {
    var m, verdict := MutantsOf(plan, file)[j], plan.verdicts[file][j];
    IsListed(EntriesOf(plan.equivalents, file), m) ||
    (verdict != NotRun && (verdict == Survived <==> IsListed(EntriesOf(baseline, file), m)))
  }

  ghost predicate FilePasses(plan: Plan, file: string, baseline: Survivors)
    requires ValidPlan(plan) && file in plan.targets
  {
    && TestsPass(plan, file) && NoStaleEntry(plan, file, baseline)
    && forall j :: 0 <= j < |MutantsOf(plan, file)| ==> MutantPasses(plan, file, j, baseline)
  }

  /** What a whole run must meet. */
  ghost predicate RunPasses(plan: Plan, baseline: Survivors)
    requires ValidPlan(plan)
  {
    forall file :: file in plan.targets ==> FilePasses(plan, file, baseline)
  }

  /** The n-th file's part that one shard answers for. */
  ghost predicate ShareClean(plan: Plan, n: nat, index: nat, count: nat, baseline: Survivors)
    requires ValidPlan(plan) && index < count && n < |plan.targets|
  {
    var file := plan.targets[n];
    && TestsPass(plan, file) && (index == 0 ==> NoStaleEntry(plan, file, baseline))
    && OwnsPass(plan, n, index, count, baseline)
  }

  ghost predicate OwnsPass(plan: Plan, n: nat, index: nat, count: nat, baseline: Survivors)
    requires ValidPlan(plan) && index < count && n < |plan.targets|
  {
    forall j :: 0 <= j < |MutantsOf(plan, plan.targets[n])| ==> OwnPasses(plan, n, j, index, count, baseline)
  }

  /** The mutant passes, if it falls to the shard. */
  ghost predicate OwnPasses(plan: Plan, n: nat, j: nat, index: nat, count: nat, baseline: Survivors)
    requires ValidPlan(plan) && index < count && n < |plan.targets| && j < |MutantsOf(plan, plan.targets[n])|
  {
    (Ordinal(plan, n) + j) % count == index ==> MutantPasses(plan, plan.targets[n], j, baseline)
  }

  ghost predicate ShardPasses(plan: Plan, index: nat, count: nat, baseline: Survivors)
    requires ValidPlan(plan) && index < count
  {
    forall n :: 0 <= n < |plan.targets| ==> ShareClean(plan, n, index, count, baseline)
  }

  ghost predicate ShardsPass(plan: Plan, n: nat, count: nat, baseline: Survivors)
    requires ValidPlan(plan) && n <= count
  {
    forall index :: 0 <= index < n ==> ShardPasses(plan, index, count, baseline)
  }

  lemma {:induction false} OneShardMore(plan: Plan, n: nat, count: nat, baseline: Survivors)
    requires ValidPlan(plan) && n < count
    ensures ShardsPass(plan, n + 1, count, baseline) <==>
      ShardsPass(plan, n, count, baseline) && ShardPasses(plan, n, count, baseline)
  {
  }

  /** The shards answer for the whole run between them. */
  lemma {:induction false} ShardsCoverRun(plan: Plan, count: nat, baseline: Survivors)
    requires ValidPlan(plan) && count > 0
    ensures ShardsPass(plan, count, count, baseline) <==> RunPasses(plan, baseline)
  {
    if ShardsPass(plan, count, count, baseline) {
      forall file | file in plan.targets ensures FilePasses(plan, file, baseline) {
        var n :| 0 <= n < |plan.targets| && plan.targets[n] == file;
        assert ShardPasses(plan, 0, count, baseline) && ShareClean(plan, n, 0, count, baseline);
        forall j | 0 <= j < |MutantsOf(plan, file)| ensures MutantPasses(plan, file, j, baseline) {
          var index := (Ordinal(plan, n) + j) % count;
          assert ShardPasses(plan, index, count, baseline) && ShareClean(plan, n, index, count, baseline);
          assert OwnPasses(plan, n, j, index, count, baseline);
        }
      }
    }
    if RunPasses(plan, baseline) {
      forall index, n | 0 <= index < count && 0 <= n < |plan.targets|
        ensures ShareClean(plan, n, index, count, baseline)
      {
        assert FilePasses(plan, plan.targets[n], baseline);
      }
    }
  }

  lemma {:induction false} ListedIff(entries: seq<Entry>, m: Mutant)
    ensures KeyOf(m) in EntryKeys(entries) <==> IsListed(entries, m)
  {
  }

  lemma {:induction false} StaleIff(entries: seq<Entry>, mutants: seq<Mutant>)
    ensures Unmatched(entries, MutantKeys(mutants)) == [] <==>
      forall e :: e in entries ==> IsAnswered(e, mutants)
  {
    UnmatchedIsEmpty(entries, MutantKeys(mutants));
    assert EntryKeys(entries) <= MutantKeys(mutants) <==>
      forall e :: e in entries ==> EntryKey(e) in MutantKeys(mutants);
    forall e ensures EntryKey(e) in MutantKeys(mutants) <==> IsAnswered(e, mutants) {}
  }

  lemma {:induction false} ResultIs(plan: Plan, n: nat, index: nat, count: nat, baseline: Survivors, j: nat)
    requires ValidPlan(plan) && index < count && n < |plan.targets| && j < |MutantsOf(plan, plan.targets[n])|
    requires (Ordinal(plan, n) + j) % count == index
    ensures
      var m := MutantsOf(plan, plan.targets[n])[j];
      ResultPasses(ReportOf(plan, n, index, count, baseline), Result(m, StatusOf(plan, plan.targets[n], m))) <==>
      MutantPasses(plan, plan.targets[n], j, baseline)
  {
    var file := plan.targets[n];
    var all, r := MutantsOf(plan, file), ReportOf(plan, n, index, count, baseline);
    ShareAt(all, Ordinal(plan, n), j, index, count);
    BaselinedIff(plan, file, j, EntriesOf(baseline, file));
    ListedIff(EntriesOf(baseline, file), all[j]);
    ListedIff(EntriesOf(plan.equivalents, file), all[j]);
    assert all[j].id in Ids(Share(all, Ordinal(plan, n), index, count));
    assert plan.verdicts[file][j] in plan.verdicts[file];
  }

  /** A report is clean exactly when the shard's part of the file is. */
  lemma {:induction false} CleanIff(plan: Plan, n: nat, index: nat, count: nat, baseline: Survivors)
    requires ValidPlan(plan) && index < count && n < |plan.targets|
    ensures Clean(ReportOf(plan, n, index, count, baseline)) <==> ShareClean(plan, n, index, count, baseline)
  {
    StaleEntries(plan, n, index, count, baseline);
    if OwnsPass(plan, n, index, count, baseline) { OwnPass(plan, n, index, count, baseline); }
    if ResultsPass(ReportOf(plan, n, index, count, baseline)) { ResultsPassOwn(plan, n, index, count, baseline); }
  }

  lemma {:induction false} StaleEntries(plan: Plan, n: nat, index: nat, count: nat, baseline: Survivors)
    requires index < count && n < |plan.targets|
    ensures
      var file, r := plan.targets[n], ReportOf(plan, n, index, count, baseline);
      && (Broken(r) <==> !TestsPass(plan, file))
      && (r.unusedBaseline == [] && r.unusedEquivalents == [] <==>
           (index == 0 ==> NoStaleEntry(plan, file, baseline)))
  {
    var file := plan.targets[n];
    StaleIff(EntriesOf(baseline, file), MutantsOf(plan, file));
    StaleIff(EntriesOf(plan.equivalents, file), MutantsOf(plan, file));
  }

  /** Each result is that of a mutant of the share. */
  lemma {:induction false} ResultOfShare(plan: Plan, n: nat, index: nat, count: nat, baseline: Survivors, k: nat)
    returns (j: nat)
    requires index < count && n < |plan.targets| && k < |ReportOf(plan, n, index, count, baseline).results|
    ensures
      var file := plan.targets[n];
      var all := MutantsOf(plan, file);
      && j < |all| && (Ordinal(plan, n) + j) % count == index
      && ReportOf(plan, n, index, count, baseline).results[k] == Result(all[j], StatusOf(plan, file, all[j]))
  {
    var all := MutantsOf(plan, plan.targets[n]);
    j := ShareHolds(all, Ordinal(plan, n), index, count, Share(all, Ordinal(plan, n), index, count)[k]);
  }

  /** Each mutant of the share has its result. */
  lemma {:induction false} ShareHasResult(plan: Plan, n: nat, index: nat, count: nat, baseline: Survivors, j: nat)
    requires index < count && n < |plan.targets| && j < |MutantsOf(plan, plan.targets[n])|
    requires (Ordinal(plan, n) + j) % count == index
    ensures
      var m := MutantsOf(plan, plan.targets[n])[j];
      Result(m, StatusOf(plan, plan.targets[n], m)) in ReportOf(plan, n, index, count, baseline).results
  {
    var all, r := MutantsOf(plan, plan.targets[n]), ReportOf(plan, n, index, count, baseline);
    var mine := Share(all, Ordinal(plan, n), index, count);
    ShareAt(all, Ordinal(plan, n), j, index, count);
    var k :| 0 <= k < |mine| && mine[k] == all[j];
    assert r.results[k] in r.results;
  }

  lemma {:induction false} OwnPass(plan: Plan, n: nat, index: nat, count: nat, baseline: Survivors)
    requires ValidPlan(plan) && index < count && n < |plan.targets| && OwnsPass(plan, n, index, count, baseline)
    ensures ResultsPass(ReportOf(plan, n, index, count, baseline))
  {
    var r := ReportOf(plan, n, index, count, baseline);
    forall k | 0 <= k < |r.results| ensures ResultPasses(r, r.results[k]) {
      OwnResultPasses(plan, n, index, count, baseline, k);
    }
  }

  lemma {:induction false} OwnResultPasses(plan: Plan, n: nat, index: nat, count: nat, baseline: Survivors, k: nat)
    requires ValidPlan(plan) && index < count && n < |plan.targets| && OwnsPass(plan, n, index, count, baseline)
    requires k < |ReportOf(plan, n, index, count, baseline).results|
    ensures
      var r := ReportOf(plan, n, index, count, baseline);
      ResultPasses(r, r.results[k])
  {
    var j := ResultOfShare(plan, n, index, count, baseline, k);
    assert OwnPasses(plan, n, j, index, count, baseline);
    ResultIs(plan, n, index, count, baseline, j);
  }

  lemma {:induction false} ResultsPassOwn(plan: Plan, n: nat, index: nat, count: nat, baseline: Survivors)
    requires ValidPlan(plan) && index < count && n < |plan.targets|
    requires ResultsPass(ReportOf(plan, n, index, count, baseline))
    ensures OwnsPass(plan, n, index, count, baseline)
  {
    var all := MutantsOf(plan, plan.targets[n]);
    forall j | 0 <= j < |all| ensures OwnPasses(plan, n, j, index, count, baseline) {
      if (Ordinal(plan, n) + j) % count == index {
        ShareHasResult(plan, n, index, count, baseline, j);
        ResultIs(plan, n, index, count, baseline, j);
      }
    }
  }

  /** One shard has no failure exactly when its part of the run passes. */
  lemma {:induction false} ShardPassesIff(plan: Plan, index: nat, count: nat, baseline: Survivors)
    requires ValidPlan(plan) && index < count
    ensures AllFailures(Reports(plan, |plan.targets|, index, count, baseline)) == [] <==>
      ShardPasses(plan, index, count, baseline)
  {
    var reports := Reports(plan, |plan.targets|, index, count, baseline);
    GatePassesIff(reports);
    if ShardPasses(plan, index, count, baseline) {
      forall n | 0 <= n < |reports| ensures Clean(reports[n]) {
        assert ShareClean(plan, n, index, count, baseline);
        CleanAt(plan, n, index, count, baseline);
      }
      CleanByIndex(reports);
    }
    if AllClean(reports) {
      forall n | 0 <= n < |plan.targets| ensures ShareClean(plan, n, index, count, baseline) {
        assert reports[n] in reports;
        CleanAt(plan, n, index, count, baseline);
      }
    }
  }

  lemma {:induction false} CleanAt(plan: Plan, n: nat, index: nat, count: nat, baseline: Survivors)
    requires ValidPlan(plan) && index < count && n < |plan.targets|
    ensures Clean(Reports(plan, |plan.targets|, index, count, baseline)[n]) <==>
      ShareClean(plan, n, index, count, baseline)
  {
    ReportAt(plan, |plan.targets|, index, count, baseline, n);
    CleanIff(plan, n, index, count, baseline);
  }

  lemma {:induction false} CleanByIndex(reports: seq<FileReport>)
    requires forall n :: 0 <= n < |reports| ==> Clean(reports[n])
    ensures AllClean(reports)
  {
  }

  lemma {:induction false} StatusByMatch(plan: Plan, file: string, m: Mutant)
    requires IdsAreOrdinals(MutantsOf(plan, file)) && m in MutantsOf(plan, file)
    ensures m.id in MatchedIds(MutantsOf(plan, file), EntryKeys(EntriesOf(plan.equivalents, file))) <==>
      KeyOf(m) in EntryKeys(EntriesOf(plan.equivalents, file))
  {
  }

  /** A shard's results for one file: a listed equivalent is not run, and everything else gets its verdict. */
  method GradeMutants(plan: Plan, file: string, mine: seq<Mutant>, reasons: map<nat, Entry>)
    returns (results: seq<Result>)
    requires IdsAreOrdinals(MutantsOf(plan, file)) && forall m :: m in mine ==> m in MutantsOf(plan, file)
    requires reasons.Keys == MatchedIds(MutantsOf(plan, file), EntryKeys(EntriesOf(plan.equivalents, file)))
    ensures results == ResultsOf(plan, file, mine)
  {
    results := [];
    for i := 0 to |mine|
      invariant results == ResultsOf(plan, file, mine)[..i]
    {
      var m := mine[i];
      StatusByMatch(plan, file, m);
      results := results + [Result(m, if m.id in reasons then Equivalent else StatusOf(plan, file, m))];
    }
  }

  /**
   * One shard: it has no failure exactly when the unmutated tests pass, each of its own mutants that is no listed
   * equivalent ran and survived exactly when the baseline lists it and, for the first shard, no entry is stale.
   */
  method RunShard(plan: Plan, index: nat, count: nat, baseline: Survivors) returns (reports: seq<FileReport>)
    requires ValidPlan(plan) && index < count
    ensures reports == Reports(plan, |plan.targets|, index, count, baseline)
    ensures AllFailures(reports) == [] <==> ShardPasses(plan, index, count, baseline)
  {
    reports := RunFiles(plan, index, count, baseline);
    ShardPassesIff(plan, index, count, baseline);
  }

  /** The loop of `main`: one ordinal counts the mutants of all files. */
  method RunFiles(plan: Plan, index: nat, count: nat, baseline: Survivors) returns (reports: seq<FileReport>)
    requires ValidPlan(plan) && index < count
    ensures reports == Reports(plan, |plan.targets|, index, count, baseline)
  {
    reports := [];
    var ordinal := 0;
    for n := 0 to |plan.targets|
      invariant ordinal == Ordinal(plan, n) && reports == Reports(plan, n, index, count, baseline)
    {
      var report;
      report, ordinal := RunFile(plan, n, ordinal, index, count, baseline);
      reports := reports + [report];
    }
  }

  /** The gate over all shards, however many there are: it passes exactly when the whole run does. */
  method RunGate(plan: Plan, count: nat, baseline: Survivors) returns (passes: bool)
    requires ValidPlan(plan) && count > 0
    ensures passes <==> RunPasses(plan, baseline)
  {
    passes := true;
    for index := 0 to count
      invariant passes <==> ShardsPass(plan, index, count, baseline)
    {
      OneShardMore(plan, index, count, baseline);
      var reports := RunShard(plan, index, count, baseline);
      var failures := GateFailures(reports);
      if failures != [] { passes := false; }
    }
    ShardsCoverRun(plan, count, baseline);
  }

  /** One file of a shard, matched against its entries as a whole. */
  method RunFile(plan: Plan, n: nat, ordinal: nat, index: nat, count: nat, baseline: Survivors)
    returns (report: FileReport, next: nat)
    requires ValidPlan(plan) && index < count && n < |plan.targets| && ordinal == Ordinal(plan, n)
    ensures report == ReportOf(plan, n, index, count, baseline) && next == Ordinal(plan, n + 1)
  {
    var file := plan.targets[n];
    var all := MutantsOf(plan, file);
    var mine;
    mine, next := ShareOf(all, ordinal, index, count);
    var reasons, unused := MatchEntries(all, EntriesOf(plan.equivalents, file));
    var known, stale := MatchEntries(all, EntriesOf(baseline, file));
    forall m | m in mine ensures m in all { var j := ShareHolds(all, ordinal, index, count, m); }
    var results := GradeMutants(plan, file, mine, reasons);
    report := FileReport(file, GetOr(plan.failing, file, []),
      if file in plan.exitCodes then Some(plan.exitCodes[file]) else None, results,
      if index == 0 then unused else [], known.Keys * Ids(mine), if index == 0 then stale else []);
  }

  function SurvivorEntries(results: seq<Result>): seq<Entry> {
    if results == [] then []
    else
      var n := |results| - 1;
      var entry := if results[n].status == Survived then [EquivalentEntry(results[n].mutant)] else [];
      SurvivorEntries(results[..n]) + entry
  }

  /** `survivors.json`: a file's survivors replace an earlier report's, unless there are none. */
  function SurvivorsOf(reports: seq<FileReport>): Survivors {
    if reports == [] then map[]
    else
      var n := |reports| - 1;
      var list := SurvivorEntries(reports[n].results);
      if list == [] then SurvivorsOf(reports[..n]) else SurvivorsOf(reports[..n])[reports[n].file := list]
  }

  /** The survivors of every shard of one run against some earlier baseline. */
  function ShardSurvivors(plan: Plan, count: nat, earlier: Survivors): (lists: seq<Survivors>)
    ensures |lists| == count
  {
    seq(count, i requires 0 <= i < count => SurvivorsOf(Reports(plan, |plan.targets|, i, count, earlier)))
  }

  lemma {:induction false} SurvivorEntryHas(results: seq<Result>, e: Entry)
    ensures e in SurvivorEntries(results) <==>
      exists x :: x in results && x.status == Survived && EquivalentEntry(x.mutant) == e
  {
    if results != [] {
      var n := |results| - 1;
      SurvivorEntryHas(results[..n], e);
      assert results == results[..n] + [results[n]];
    }
  }

  lemma {:induction false} SurvivorsCome(reports: seq<FileReport>, file: string, e: Entry) returns (k: nat)
    requires e in EntriesOf(SurvivorsOf(reports), file)
    ensures k < |reports| && reports[k].file == file && e in SurvivorEntries(reports[k].results)
  {
    var n := |reports| - 1;
    if reports[n].file == file && SurvivorEntries(reports[n].results) != [] {
      k := n;
    } else {
      k := SurvivorsCome(reports[..n], file, e);
    }
  }

  lemma {:induction false} LastSurvivorsStay(reports: seq<FileReport>, k: nat)
    requires k < |reports| && SurvivorEntries(reports[k].results) != []
    requires forall l :: k < l < |reports| ==> reports[l].file != reports[k].file
    ensures EntriesOf(SurvivorsOf(reports), reports[k].file) == SurvivorEntries(reports[k].results)
  {
    var n := |reports| - 1;
    if k < n { LastSurvivorsStay(reports[..n], k); }
  }

  lemma {:induction false} LastTarget(targets: seq<string>, file: string) returns (k: nat)
    requires file in targets
    ensures k < |targets| && targets[k] == file && forall l :: k < l < |targets| ==> targets[l] != file
  {
    var n := |targets| - 1;
    if targets[n] == file { k := n; } else { k := LastTarget(targets[..n], file); }
  }

  lemma {:induction false} RecordedKeysHas(lists: seq<Survivors>, file: string, key: Key)
    ensures key in RecordedKeys(lists, file) <==>
      exists i, e :: 0 <= i < |lists| && e in EntriesOf(lists[i], file) && EntryKey(e) == key
  {
    if lists != [] {
      var n := |lists| - 1;
      RecordedKeysHas(lists[..n], file, key);
    }
  }

  lemma {:induction false} ReportAt(plan: Plan, n: nat, index: nat, count: nat, baseline: Survivors, k: nat)
    requires k < n <= |plan.targets| && index < count
    ensures Reports(plan, n, index, count, baseline)[k] == ReportOf(plan, k, index, count, baseline)
  {
    if k < n - 1 { ReportAt(plan, n - 1, index, count, baseline, k); }
  }

  /** What a report records: the survivors among the mutants of its share. */
  lemma {:induction false} ReportRecords(plan: Plan, file: string, mine: seq<Mutant>, e: Entry)
    ensures e in SurvivorEntries(ResultsOf(plan, file, mine)) <==>
      exists m :: m in mine && StatusOf(plan, file, m) == Survived && EquivalentEntry(m) == e
  {
    var results := ResultsOf(plan, file, mine);
    SurvivorEntryHas(results, e);
    if x :| x in results && x.status == Survived && EquivalentEntry(x.mutant) == e {
      var i :| 0 <= i < |results| && results[i] == x;
      assert mine[i] in mine;
    }
    if m :| m in mine && StatusOf(plan, file, m) == Survived && EquivalentEntry(m) == e {
      var i :| 0 <= i < |mine| && mine[i] == m;
      assert results[i] in results;
    }
  }

  lemma {:induction false} ReportsAreOf(plan: Plan, index: nat, count: nat, baseline: Survivors, k: nat)
    requires k < |plan.targets| && index < count
    ensures Reports(plan, |plan.targets|, index, count, baseline)[k].file == plan.targets[k]
    ensures Reports(plan, |plan.targets|, index, count, baseline)[k].results ==
      ResultsOf(plan, plan.targets[k], Share(MutantsOf(plan, plan.targets[k]), Ordinal(plan, k), index, count))
  {
    ReportAt(plan, |plan.targets|, index, count, baseline, k);
  }

  /** A surviving mutant is recorded by the shard that owns it, in the last report of its file. */
  lemma {:induction false} SurvivorIsRecorded(plan: Plan, count: nat, earlier: Survivors, file: string, m: Mutant)
    requires count > 0 && file in plan.targets && m in MutantsOf(plan, file) && StatusOf(plan, file, m) == Survived
    ensures KeyOf(m) in RecordedKeys(ShardSurvivors(plan, count, earlier), file)
  {
    var all := MutantsOf(plan, file);
    var k := LastTarget(plan.targets, file);
    var j :| 0 <= j < |all| && all[j] == m;
    var i := (Ordinal(plan, k) + j) % count;
    ShareAt(all, Ordinal(plan, k), j, i, count);
    var reports := Reports(plan, |plan.targets|, i, count, earlier);
    ReportsAreOf(plan, i, count, earlier, k);
    ReportRecords(plan, file, Share(all, Ordinal(plan, k), i, count), EquivalentEntry(m));
    forall l | k < l < |reports| ensures reports[l].file != file { ReportsAreOf(plan, i, count, earlier, l); }
    LastSurvivorsStay(reports, k);
    EntryIsRecorded(ShardSurvivors(plan, count, earlier), file, i, EquivalentEntry(m));
  }

  lemma {:induction false} EntryIsRecorded(lists: seq<Survivors>, file: string, i: nat, e: Entry)
    requires i < |lists| && e in EntriesOf(lists[i], file)
    ensures EntryKey(e) in RecordedKeys(lists, file)
  {
    RecordedKeysHas(lists, file, EntryKey(e));
  }

  /** Whatever is recorded for a file is one of its mutants, and survived. */
  lemma {:induction false} RecordedSurvived(plan: Plan, count: nat, earlier: Survivors, file: string, key: Key)
    returns (m: Mutant)
    requires key in RecordedKeys(ShardSurvivors(plan, count, earlier), file)
    ensures file in plan.targets && m in MutantsOf(plan, file) && KeyOf(m) == key && StatusOf(plan, file, m) == Survived
  {
    var lists := ShardSurvivors(plan, count, earlier);
    RecordedKeysHas(lists, file, key);
    var i, e :| 0 <= i < |lists| && e in EntriesOf(lists[i], file) && EntryKey(e) == key;
    m := ShardSurvived(plan, i, count, earlier, file, e);
  }

  lemma {:induction false} ShardSurvived(plan: Plan, i: nat, count: nat, earlier: Survivors, file: string,
                                         e: Entry) returns (m: Mutant)
    requires i < count && e in EntriesOf(SurvivorsOf(Reports(plan, |plan.targets|, i, count, earlier)), file)
    ensures file in plan.targets && m in MutantsOf(plan, file) && KeyOf(m) == EntryKey(e)
    ensures StatusOf(plan, file, m) == Survived
  {
    var k := SurvivorsCome(Reports(plan, |plan.targets|, i, count, earlier), file, e);
    ReportsAreOf(plan, i, count, earlier, k);
    var mine := Share(MutantsOf(plan, file), Ordinal(plan, k), i, count);
    ReportRecords(plan, file, mine, e);
    m :| m in mine && StatusOf(plan, file, m) == Survived && EquivalentEntry(m) == e;
    var j := ShareHolds(MutantsOf(plan, file), Ordinal(plan, k), i, count, m);
  }

  /** The merged baseline lists exactly the survivors. */
  lemma {:induction false} RecordedIff(plan: Plan, count: nat, earlier: Survivors, file: string, m: Mutant)
    requires ValidPlan(plan) && count > 0 && file in plan.targets && m in MutantsOf(plan, file)
    ensures KeyOf(m) in RecordedKeys(ShardSurvivors(plan, count, earlier), file) <==>
      StatusOf(plan, file, m) == Survived
  {
    if StatusOf(plan, file, m) == Survived { SurvivorIsRecorded(plan, count, earlier, file, m); }
    if KeyOf(m) in RecordedKeys(ShardSurvivors(plan, count, earlier), file) {
      var n := RecordedSurvived(plan, count, earlier, file, KeyOf(m));
      var all := MutantsOf(plan, file);
      var i :| 0 <= i < |all| && all[i] == m;
      var j :| 0 <= j < |all| && all[j] == n;
      KeysAreUnique(all, i, j);
    }
  }

  /** A failure that no baseline can cause or cure. */
  predicate NotOfBaseline(f: Failure) { f.TestsFail? || f.DidNotRun? || f.StaleEquivalent? }

  lemma {:induction false} ResultFailuresHas(r: FileReport, n: nat, f: Failure)
    requires n <= |r.results| && f in ResultFailures(r, n)
    ensures exists i :: 0 <= i < n && f in FailureOf(r, r.results[i])
  {
    if f in ResultFailures(r, n - 1) { ResultFailuresHas(r, n - 1, f); }
  }

  /**
   * Survivors round-trip through the baseline: gating the same results, in any number of shards, against the merged
   * survivors of any number of shards reports no new survivor, no listed mutant that is caught, and no stale entry.
   */
  lemma {:induction false} BaselineRoundTrip(plan: Plan, n: nat, index: nat, count: nat, recorded: nat,
                                             earlier: Survivors, baseline: Survivors)
    requires ValidPlan(plan) && n < |plan.targets| && index < count && recorded > 0
    requires forall file ::
      EntryKeys(EntriesOf(baseline, file)) == RecordedKeys(ShardSurvivors(plan, recorded, earlier), file)
    ensures forall f :: f in FailuresOf(ReportOf(plan, n, index, count, baseline)) ==> NotOfBaseline(f)
  {
    var r := ReportOf(plan, n, index, count, baseline);
    NothingStale(plan, recorded, earlier, plan.targets[n], EntriesOf(baseline, plan.targets[n]));
    forall i | 0 <= i < |r.results| ensures r.results[i].status == Survived <==> r.results[i].mutant.id in r.baselined {
      SurvivorsAreListed(plan, n, index, count, recorded, earlier, baseline, i);
    }
    forall f | f in FailuresOf(r) ensures NotOfBaseline(f) { FailsOtherwise(r, f); }
  }

  /** A report whose survivors are those listed, with nothing stale, fails only in other ways. */
  lemma {:induction false} FailsOtherwise(r: FileReport, f: Failure)
    requires forall i :: 0 <= i < |r.results| ==>
      (r.results[i].status == Survived <==> r.results[i].mutant.id in r.baselined)
    requires r.unusedBaseline == [] && f in FailuresOf(r)
    ensures NotOfBaseline(f)
  {
    if f in ResultFailures(r, |r.results|) {
      ResultFailuresHas(r, |r.results|, f);
      var i :| 0 <= i < |r.results| && f in FailureOf(r, r.results[i]);
      FailureKind(r, r.results[i], f);
    } else {
      NoOtherFailure(r, f);
    }
  }

  /** A mutant of the report survives exactly when the merged baseline lists it. */
  lemma {:induction false} SurvivorsAreListed(plan: Plan, n: nat, index: nat, count: nat, recorded: nat,
                                              earlier: Survivors,
                                            baseline: Survivors, i: nat)
    requires ValidPlan(plan) && n < |plan.targets| && index < count && recorded > 0
    requires i < |ReportOf(plan, n, index, count, baseline).results|
    requires forall file ::
      EntryKeys(EntriesOf(baseline, file)) == RecordedKeys(ShardSurvivors(plan, recorded, earlier), file)
    ensures
      var r := ReportOf(plan, n, index, count, baseline);
      r.results[i].status == Survived <==> r.results[i].mutant.id in r.baselined
  {
    var file := plan.targets[n];
    var all, mine := MutantsOf(plan, file), Share(MutantsOf(plan, file), Ordinal(plan, n), index, count);
    var m := mine[i];
    var j := ShareHolds(all, Ordinal(plan, n), index, count, m);
    BaselinedIff(plan, file, j, EntriesOf(baseline, file));
    RecordedIff(plan, recorded, earlier, file, m);
    assert m.id in Ids(mine);
  }

  lemma {:induction false} FailureKind(r: FileReport, x: Result, f: Failure)
    requires f in FailureOf(r, x) && (x.status == Survived <==> x.mutant.id in r.baselined)
    ensures f.DidNotRun?
  {
  }

  lemma {:induction false} BaselinedIff(plan: Plan, file: string, j: nat, entries: seq<Entry>)
    requires ValidPlan(plan) && file in plan.targets && j < |MutantsOf(plan, file)|
    ensures MutantsOf(plan, file)[j].id == j
    ensures j in MatchedIds(MutantsOf(plan, file), EntryKeys(entries)) <==>
      KeyOf(MutantsOf(plan, file)[j]) in EntryKeys(entries)
  {
  }

  lemma {:induction false} NoOtherFailure(r: FileReport, f: Failure)
    requires f in FailuresOf(r) && f !in ResultFailures(r, |r.results|) && r.unusedBaseline == []
    ensures f.TestsFail? || f.StaleEquivalent?
  {
  }

  lemma {:induction false} NothingStale(plan: Plan, count: nat, earlier: Survivors, file: string, entries: seq<Entry>)
    requires ValidPlan(plan) && EntryKeys(entries) == RecordedKeys(ShardSurvivors(plan, count, earlier), file)
    ensures Unmatched(entries, MutantKeys(MutantsOf(plan, file))) == []
  {
    UnmatchedIsEmpty(entries, MutantKeys(MutantsOf(plan, file)));
    forall key | key in EntryKeys(entries) ensures key in MutantKeys(MutantsOf(plan, file)) {
      var m := RecordedSurvived(plan, count, earlier, file, key);
    }
  }
}
