/**
 * Test selection for one mutated file: a depth-first sweep collects the import graph the tests reach, and a
 * breadth-first search over its reversed edges finds every test with an import chain to the file, nearest first.
 */
module ImportGraph {
  import opened Collections

  /** A file that is not code, or is a `.d.ts`, is kept without edges. */
  datatype SourceFile = SourceFile(isCode: bool, specifiers: seq<string>)

  /** `resolved` is the module resolver: the real path each specifier of a file leads to, where it leads anywhere. */
  datatype Repo = Repo(root: string, files: map<string, SourceFile>, resolved: map<(string, string), string>)

  type Relation = map<string, set<string>>

  predicate Contains(s: string, part: string) {
    part <= s || (s != [] && Contains(s[1..], part))
  }

  predicate InRepo(root: string, path: string) {
    root + "/" <= path && !Contains(path, "/node_modules/")
  }

  lemma {:induction false} ContainsIff(s: string, part: string)
    ensures Contains(s, part) <==> exists i :: 0 <= i <= |s| && part <= s[i..]
  {
    if part <= s {
      assert s[0..] == s;
    } else if s != [] {
      ContainsIff(s[1..], part);
      forall i | 0 < i <= |s| ensures s[i..] == s[1..][i - 1..] {}
      if Contains(s[1..], part) {
        var i :| 0 <= i <= |s[1..]| && part <= s[1..][i..];
        assert s[i + 1..] == s[1..][i..];
      }
      forall i | 0 <= i <= |s| && part <= s[i..] ensures Contains(s, part) {
        assert i > 0 ==> part <= s[1..][i - 1..];
      }
    }
  }

  ghost predicate PassesThrough(path: string, folder: string) {
    exists before, after :: Joins(path, before, folder, after)
  }

  predicate Joins(path: string, before: string, folder: string, after: string) { path == before + folder + after }

  lemma {:induction false} PassesIff(path: string, folder: string)
    ensures Contains(path, folder) <==> PassesThrough(path, folder)
  {
    ContainsIff(path, folder);
    if Contains(path, folder) {
      var i :| 0 <= i <= |path| && folder <= path[i..];
      JoinsAt(path, folder, i);
    }
    forall before, after | Joins(path, before, folder, after) ensures Contains(path, folder) {
      FoundAt(path, before, folder, after);
    }
  }

  lemma {:induction false} JoinsAt(path: string, folder: string, i: nat)
    requires i <= |path| && folder <= path[i..]
    ensures Joins(path, path[..i], folder, path[i..][|folder|..])
  {
    assert path[i..] == folder + path[i..][|folder|..];
  }

  lemma {:induction false} FoundAt(path: string, before: string, folder: string, after: string)
    requires Joins(path, before, folder, after)
    ensures |before| <= |path| && folder <= path[|before|..]
  {
    assert path[|before|..] == folder + after;
  }

  /** A path is in the repository when it goes on from the root and passes through no package folder. */
  lemma {:induction false} InRepoIff(root: string, path: string)
    ensures InRepo(root, path) <==>
      (exists rest :: path == root + "/" + rest) && !PassesThrough(path, "/node_modules/")
  {
    PassesIff(path, "/node_modules/");
    if root + "/" <= path { assert path == root + "/" + path[|root + "/"|..]; }
    forall rest | path == root + "/" + rest ensures root + "/" <= path {}
  }

  function Target(repo: Repo, file: string, specifier: string): Option<string> {
    if (file, specifier) in repo.resolved && InRepo(repo.root, repo.resolved[(file, specifier)])
    then Some(repo.resolved[(file, specifier)]) else None
  }

  function TargetsOf(repo: Repo, file: string, specifiers: set<string>): set<string> {
    set s | s in specifiers && Target(repo, file, s).Some? :: Target(repo, file, s).value
  }

  function Targets(repo: Repo, file: string): set<string>
    requires file in repo.files
  {
    if !repo.files[file].isCode then {} else TargetsOf(repo, file, Members(repo.files[file].specifiers))
  }

  function Members(s: seq<string>): set<string> { set x | x in s }

  /** The runtime imports of the whole repository. */
  function Whole(repo: Repo): Relation {
    map file | file in repo.files :: Targets(repo, file)
  }

  /** The resolver leads to files that exist. */
  ghost predicate Closed(repo: Repo) {
    forall file :: file in repo.files ==> Targets(repo, file) <= repo.files.Keys
  }

  /** An import chain of exactly n steps. */
  ghost predicate Steps(imports: Relation, a: string, b: string, n: nat)
    decreases n
  {
    if n == 0 then a == b
    else a in imports && exists c :: c in imports[a] && Steps(imports, c, b, n - 1)
  }

  ghost predicate Shortest(imports: Relation, a: string, b: string, n: nat) {
    Steps(imports, a, b, n) && forall m: nat :: m < n ==> !Steps(imports, a, b, m)
  }

  ghost predicate Reached(imports: Relation, entries: seq<string>, file: string) {
    exists e, n: nat :: e in entries && Steps(imports, e, file, n)
  }

  lemma {:induction false} OneStepMore(imports: Relation, a: string, b: string, c: string, n: nat)
    requires Steps(imports, a, b, n) && b in imports && c in imports[b]
    ensures Steps(imports, a, c, n + 1)
    decreases n
  {
    if n == 0 {
      assert Steps(imports, c, c, 0);
    } else {
      var next :| next in imports[a] && Steps(imports, next, b, n - 1);
      OneStepMore(imports, next, b, c, n - 1);
    }
  }

  lemma {:induction false} ReachedMore(imports: Relation, entries: seq<string>, b: string)
    requires b in imports && Reached(imports, entries, b)
    ensures forall c :: c in imports[b] ==> Reached(imports, entries, c)
  {
    var e, n: nat :| e in entries && Steps(imports, e, b, n);
    forall c | c in imports[b] ensures Reached(imports, entries, c) { OneStepMore(imports, e, b, c, n); }
  }

  // ---------------------------------------------------------------- building the graph

  type Graph = map<string, seq<string>>

  function Edges(graph: Graph): Relation {
    map file | file in graph :: set x | x in graph[file]
  }

  method EdgesOf(repo: Repo, file: string) returns (edges: seq<string>)
    requires file in repo.files
    ensures Members(edges) == Targets(repo, file)
  {
    edges := [];
    if !repo.files[file].isCode { return; }
    var specifiers := repo.files[file].specifiers;
    var seen: set<string> := {};
    for i := 0 to |specifiers|
      invariant seen == Members(specifiers[..i])
      invariant Members(edges) == TargetsOf(repo, file, seen)
    {
      var s := specifiers[i];
      assert Members(specifiers[..i + 1]) == seen + {s};
      if s !in seen {
        var target := Target(repo, file, s);
        assert TargetsOf(repo, file, seen + {s}) ==
          TargetsOf(repo, file, seen) + if target.Some? then {target.value} else {};
        if target.Some? {
          assert Members(edges + [target.value]) == Members(edges) + {target.value};
          edges := edges + [target.value];
        }
        seen := seen + {s};
      }
    }
    assert specifiers[..|specifiers|] == specifiers;
  }

  /** `seen` is what the graph holds and what is pending: the entries, and the targets of every file in the graph. */
  ghost predicate Explored(repo: Repo, entries: seq<string>, graph: Graph, seen: set<string>) {
    && graph.Keys <= seen <= repo.files.Keys && Members(entries) <= seen
    && (forall f :: f in seen ==> Reached(Whole(repo), entries, f))
    && forall f :: f in graph ==> Members(graph[f]) == Targets(repo, f) && Targets(repo, f) <= seen
  }

  /** What `buildImportGraph` returns: the whole relation, cut down to what the entries reach. */
  ghost predicate ReachedPart(repo: Repo, entries: seq<string>, graph: Graph) {
    && (forall f :: f in graph <==> Reached(Whole(repo), entries, f))
    && graph.Keys <= repo.files.Keys
    && forall f :: f in graph ==> Edges(graph)[f] == Targets(repo, f)
  }

  method PushNew(graph: Graph, edges: seq<string>, before: seq<string>) returns (pending: seq<string>)
    ensures graph.Keys + Members(pending) == graph.Keys + Members(before) + Members(edges)
  {
    pending := before;
    assert Members(edges[..0]) == {};
    for i := 0 to |edges|
      invariant graph.Keys + Members(pending) == graph.Keys + Members(before) + Members(edges[..i])
    {
      assert Members(edges[..i + 1]) == Members(edges[..i]) + {edges[i]};
      if edges[i] !in graph {
        assert Members(pending + [edges[i]]) == Members(pending) + {edges[i]};
        pending := pending + [edges[i]];
      }
    }
    assert edges[..|edges|] == edges;
  }

  function Seen(graph: Graph, pending: seq<string>): set<string> { graph.Keys + Members(pending) }

  /** One turn of the loop: pop a file and, unless the graph has it, add its edges and push their new targets. */
  method ExploreNext(repo: Repo, graph: Graph, pending: seq<string>)
    returns (more: Graph, rest: seq<string>, ghost file: string, ghost edges: seq<string>)
    requires pending != [] && forall f :: f in pending ==> f in repo.files
    ensures file in Seen(graph, pending) && file in repo.files && Members(edges) == Targets(repo, file)
    ensures file in graph ==> more == graph && Seen(more, rest) == Seen(graph, pending) && |rest| < |pending|
    ensures file !in graph ==> more == graph[file := edges] && Seen(more, rest) == Seen(graph, pending) + Members(edges)
  {
    var last := |pending| - 1;
    var popped := pending[last];
    rest, more, file := pending[..last], graph, popped;
    assert pending == rest + [popped];
    assert Members(pending) == Members(rest) + {popped};
    var found := EdgesOf(repo, popped);
    edges := found;
    if popped !in graph {
      more := graph[popped := found];
      rest := PushNew(more, found, rest);
    }
  }

  method BuildImportGraph(repo: Repo, entries: seq<string>) returns (graph: Graph)
    requires Closed(repo) && forall e :: e in entries ==> e in repo.files
    ensures ReachedPart(repo, entries, graph)
  {
    graph := map[];
    var pending := entries;
    EntriesReached(repo, entries);
    while pending != []
      invariant Explored(repo, entries, graph, Seen(graph, pending))
      decreases repo.files.Keys - graph.Keys, |pending|
    {
      ghost var was, seen := graph, Seen(graph, pending);
      PendingIsSeen(graph, pending);
      ghost var file, edges;
      graph, pending, file, edges := ExploreNext(repo, graph, pending);
      if file !in was { StillExplored(repo, entries, was, seen, file, edges); }
    }
    AllExplored(repo, entries, graph);
  }

  lemma {:induction false} PendingIsSeen(graph: Graph, pending: seq<string>)
    ensures forall f :: f in pending ==> f in Seen(graph, pending)
  {
  }

  lemma {:induction false} EntriesReached(repo: Repo, entries: seq<string>)
    ensures forall e :: e in entries ==> Reached(Whole(repo), entries, e)
  {
    forall e | e in entries ensures Reached(Whole(repo), entries, e) { assert Steps(Whole(repo), e, e, 0); }
  }

  lemma {:induction false} StillExplored(repo: Repo, entries: seq<string>, graph: Graph, seen: set<string>,
                                         file: string, edges: seq<string>)
    requires Closed(repo) && Explored(repo, entries, graph, seen) && file in seen
    requires Members(edges) == Targets(repo, file)
    ensures Explored(repo, entries, graph[file := edges], seen + Members(edges))
  {
    ReachedMore(Whole(repo), entries, file);
  }

  lemma {:induction false} AllExplored(repo: Repo, entries: seq<string>, graph: Graph)
    requires Explored(repo, entries, graph, graph.Keys)
    ensures ReachedPart(repo, entries, graph)
  {
    forall f | Reached(Whole(repo), entries, f) ensures f in graph {
      var e, n: nat :| e in entries && Steps(Whole(repo), e, f, n);
      ChainStays(repo, graph, e, f, n);
    }
  }

  lemma {:induction false} ChainStays(repo: Repo, graph: Graph, a: string, b: string, n: nat)
    requires graph.Keys <= repo.files.Keys && forall f :: f in graph ==> Targets(repo, f) <= graph.Keys
    requires a in graph && Steps(Whole(repo), a, b, n)
    ensures b in graph
    decreases n
  {
    if n > 0 {
      ghost var whole := Whole(repo);
      var c :| c in whole[a] && Steps(whole, c, b, n - 1);
      assert whole[a] == Targets(repo, a);
      ChainStays(repo, graph, c, b, n - 1);
    }
  }

  /** From a file in the graph, the graph has exactly the chains of the whole repository. */
  lemma {:induction false} GraphKeepsChains(repo: Repo, entries: seq<string>, graph: Graph, a: string, b: string,
                                            n: nat)
    requires ReachedPart(repo, entries, graph) && a in graph
    ensures Steps(Edges(graph), a, b, n) <==> Steps(Whole(repo), a, b, n)
    decreases n
  {
    if n > 0 {
      assert Edges(graph)[a] == Whole(repo)[a];
      ReachedMore(Whole(repo), entries, a);
      forall c | c in Edges(graph)[a] ensures Steps(Edges(graph), c, b, n - 1) <==> Steps(Whole(repo), c, b, n - 1) {
        GraphKeepsChains(repo, entries, graph, c, b, n - 1);
      }
    }
  }

  // ---------------------------------------------------------------- breadth-first selection

  datatype Selected = Selected(file: string, depth: nat)

  predicate NearerFirst(a: Selected, b: Selected) {
    a.depth < b.depth || (a.depth == b.depth && StringLe(a.file, b.file))
  }

  lemma {:induction false} NearerFirstIsTotal()
    ensures TotalOrder(NearerFirst)
  {
    forall a, b ensures Le(NearerFirst, a, b) || Le(NearerFirst, b, a) { StringLeConnected(a.file, b.file); }
    forall a, b | Le(NearerFirst, a, b) && Le(NearerFirst, b, a)
      ensures a == b
    {
      StringLeAntisymmetric(a.file, b.file);
    }
    forall a, b, c | Le(NearerFirst, a, b) && Le(NearerFirst, b, c) ensures Le(NearerFirst, a, c) {
      if StringLe(a.file, b.file) && StringLe(b.file, c.file) { StringLeTransitive(a.file, b.file, c.file); }
    }
  }

  ghost predicate Reverses(graph: Graph, importers: Graph) {
    forall x, y :: (x in importers && y in importers[x]) <==> (y in graph && x in graph[y])
  }

  ghost predicate ReversedSoFar(graph: Graph, importers: Graph, done: set<string>, file: string, edges: seq<string>) {
    forall x, y :: (x in importers && y in importers[x]) <==>
      (y in done && y in graph && x in graph[y]) || (y == file && x in edges)
  }

  /** Every edge turned round, whatever order the graph is walked in. */
  method ReverseEdges(graph: Graph) returns (importers: Graph)
    ensures Reverses(graph, importers)
  {
    importers := map[];
    var todo := graph.Keys;
    ghost var done: set<string> := {};
    while todo != {}
      invariant todo <= graph.Keys && done == graph.Keys - todo
      invariant ReversedSoFar(graph, importers, done, "", [])
    {
      var file :| file in todo;
      var edges := graph[file];
      assert ReversedSoFar(graph, importers, done, file, edges[..0]);
      for i := 0 to |edges|
        invariant ReversedSoFar(graph, importers, done, file, edges[..i])
      {
        assert edges[..i + 1] == edges[..i] + [edges[i]];
        importers := importers[edges[i] := GetOr(importers, edges[i], []) + [file]];
      }
      assert edges[..|edges|] == edges;
      todo := todo - {file};
      done := done + {file};
    }
  }

  /** Depths never fall along the queue, and rise by at most one from the file being visited to its end. */
  ghost predicate InLayers(levels: seq<nat>, at: nat) {
    && (forall p, q :: 0 <= p < q < |levels| ==> levels[p] <= levels[q])
    && (forall q :: at < q < |levels| ==> levels[q] <= levels[at] + 1)
  }

  ghost predicate Recorded(depth: map<string, nat>, queue: seq<string>, levels: seq<nat>) {
    && |levels| == |queue| && depth.Keys == Members(queue) && Distinct(queue)
    && forall p :: 0 <= p < |queue| ==> depth[queue[p]] == levels[p]
  }

  /** Every recorded depth is the length of a real chain. */
  ghost predicate Chained(graph: Graph, target: string, depth: map<string, nat>) {
    && target in depth && depth[target] == 0
    && forall x :: x in depth ==> Steps(Edges(graph), x, target, depth[x]) && (x in graph || x == target)
  }

  /** The importers of file `x` are all recorded, at most one step further out. */
  ghost predicate Visited(graph: Graph, depth: map<string, nat>, x: string)
    requires x in depth
  {
    forall y :: y in graph && x in graph[y] ==> y in depth && depth[y] <= depth[x] + 1
  }

  ghost predicate Searching(graph: Graph, target: string, depth: map<string, nat>, queue: seq<string>,
                            levels: seq<nat>, at: nat) {
    && at <= |queue| && Recorded(depth, queue, levels) && InLayers(levels, at) && Chained(graph, target, depth)
    && VisitedTo(graph, depth, queue, at)
  }

  ghost predicate VisitedTo(graph: Graph, depth: map<string, nat>, queue: seq<string>, at: nat)
    requires at <= |queue| && forall x :: x in queue ==> x in depth
  {
    forall p :: 0 <= p < at ==> Visited(graph, depth, queue[p])
  }

  ghost predicate Grows(earlier: map<string, nat>, later: map<string, nat>) {
    forall x :: x in earlier ==> x in later && later[x] == earlier[x]
  }

  lemma {:induction false} Enqueue(graph: Graph, target: string, depth: map<string, nat>, queue: seq<string>,
                                   levels: seq<nat>,
                                   at: nat, importer: string)
    requires Searching(graph, target, depth, queue, levels, at) && at < |queue| && importer !in depth
    requires importer in graph && queue[at] in graph[importer]
    ensures
      var d := depth[queue[at]] + 1;
      Searching(graph, target, depth[importer := d], queue + [importer], levels + [d], at)
  {
    var d := depth[queue[at]] + 1;
    EnqueueRecords(depth, queue, levels, importer, d);
    EnqueueChains(graph, target, depth, queue[at], importer);
    EnqueueLayers(levels, at);
    assert levels[at] + 1 == d;
    EnqueueVisited(graph, depth, queue, at, importer, d);
  }

  lemma {:induction false} EnqueueVisited(graph: Graph, depth: map<string, nat>, queue: seq<string>, at: nat,
                                          importer: string, d: nat)
    requires at <= |queue| && importer !in depth && forall x :: x in queue ==> x in depth
    requires VisitedTo(graph, depth, queue, at)
    ensures VisitedTo(graph, depth[importer := d], queue + [importer], at)
  {
    forall p | 0 <= p < at ensures Visited(graph, depth[importer := d], (queue + [importer])[p]) {
      VisitedStays(graph, depth, depth[importer := d], queue[p]);
    }
  }

  lemma {:induction false} VisitedStays(graph: Graph, before: map<string, nat>, after: map<string, nat>, x: string)
    requires x in before && Visited(graph, before, x) && Grows(before, after)
    ensures x in after && Visited(graph, after, x)
  {
  }

  lemma {:induction false} EnqueueLayers(levels: seq<nat>, at: nat)
    requires at < |levels| && InLayers(levels, at)
    ensures InLayers(levels + [levels[at] + 1], at)
  {
  }

  lemma {:induction false} EnqueueRecords(depth: map<string, nat>, queue: seq<string>, levels: seq<nat>,
                                          importer: string, d: nat)
    requires Recorded(depth, queue, levels) && importer !in depth
    ensures Recorded(depth[importer := d], queue + [importer], levels + [d])
  {
    assert importer in queue ==> importer in Members(queue);
    assert depth[importer := d].Keys == Members(queue + [importer]);
  }

  lemma {:induction false} EnqueueChains(graph: Graph, target: string, depth: map<string, nat>, file: string,
                                         importer: string)
    requires Chained(graph, target, depth) && file in depth && importer !in depth && importer in graph
    requires file in graph[importer]
    ensures Chained(graph, target, depth[importer := depth[file] + 1])
  {
    assert file in Edges(graph)[importer];
    assert Steps(Edges(graph), importer, target, depth[file] + 1);
  }

  method VisitImporter(graph: Graph, target: string, importer: string, before: map<string, nat>, was: seq<string>,
                       ghost wasLevels: seq<nat>, at: nat, d: nat)
    returns (depth: map<string, nat>, queue: seq<string>, ghost levels: seq<nat>)
    requires Searching(graph, target, before, was, wasLevels, at) && at < |was|
    requires importer in graph && was[at] in graph[importer]
    requires was[at] in before && d == before[was[at]] + 1
    ensures Searching(graph, target, depth, queue, levels, at) && was <= queue && Grows(before, depth)
    ensures importer in depth && depth[importer] <= d
  {
    if importer in before {
      DepthNear(graph, target, before, was, wasLevels, at, importer);
      return before, was, wasLevels;
    }
    Enqueue(graph, target, before, was, wasLevels, at, importer);
    depth, queue, levels := before[importer := d], was + [importer], wasLevels + [d];
  }

  /** The inner loop: every importer of the file at hand that is new goes to the back of the queue. */
  method VisitImporters(graph: Graph, target: string, importers: seq<string>, before: map<string, nat>,
                        was: seq<string>, ghost wasLevels: seq<nat>, at: nat)
    returns (depth: map<string, nat>, queue: seq<string>, ghost levels: seq<nat>)
    requires Searching(graph, target, before, was, wasLevels, at) && at < |was|
    requires forall y :: y in importers <==> y in graph && was[at] in graph[y]
    ensures Searching(graph, target, depth, queue, levels, at) && was <= queue
    ensures Visited(graph, depth, was[at])
  {
    depth, queue, levels := before, was, wasLevels;
    var d := depth[was[at]] + 1;
    for i := 0 to |importers|
      invariant Searching(graph, target, depth, queue, levels, at) && was <= queue
      invariant was[at] in depth && depth[was[at]] + 1 == d && AtMost(depth, importers[..i], d)
    {
      ghost var earlier := depth;
      depth, queue, levels := VisitImporter(graph, target, importers[i], depth, queue, levels, at, d);
      AtMostGrows(earlier, depth, importers, i, d);
    }
    assert importers[..|importers|] == importers;
  }

  ghost predicate AtMost(depth: map<string, nat>, files: seq<string>, d: nat) {
    forall y :: y in files ==> y in depth && depth[y] <= d
  }

  lemma {:induction false} AtMostGrows(before: map<string, nat>, after: map<string, nat>, files: seq<string>,
                                       i: nat, d: nat)
    requires i < |files| && Grows(before, after) && AtMost(before, files[..i], d) && files[i] in after
    requires after[files[i]] <= d
    ensures AtMost(after, files[..i + 1], d)
  {
    assert files[..i + 1] == files[..i] + [files[i]];
  }

  lemma {:induction false} DepthNear(graph: Graph, target: string, depth: map<string, nat>, queue: seq<string>,
                                     levels: seq<nat>,
                                     at: nat, x: string)
    requires Searching(graph, target, depth, queue, levels, at) && at < |queue| && x in depth
    ensures depth[x] <= depth[queue[at]] + 1
  {
    assert x in Members(queue);
    var q :| 0 <= q < |queue| && queue[q] == x;
    assert levels[q] <= levels[at] + 1;
  }

  lemma {:induction false} NextVisit(graph: Graph, target: string, depth: map<string, nat>, queue: seq<string>,
                                     levels: seq<nat>, at: nat)
    requires Searching(graph, target, depth, queue, levels, at) && at < |queue| && Visited(graph, depth, queue[at])
    ensures Searching(graph, target, depth, queue, levels, at + 1)
  {
    forall q | at + 1 < q < |levels| ensures levels[q] <= levels[at + 1] + 1 {
      assert levels[q] <= levels[at] + 1 && levels[at] <= levels[at + 1];
    }
  }

  /** With every file visited, no chain is shorter than the recorded depth, and none is missed. */
  lemma {:induction false} DepthIsLeast(graph: Graph, target: string, depth: map<string, nat>, queue: seq<string>,
                                        levels: seq<nat>, x: string, n: nat)
    requires Searching(graph, target, depth, queue, levels, |queue|) && Steps(Edges(graph), x, target, n)
    ensures x in depth && depth[x] <= n
    decreases n
  {
    if n > 0 {
      var c :| c in Edges(graph)[x] && Steps(Edges(graph), c, target, n - 1);
      DepthIsLeast(graph, target, depth, queue, levels, c, n - 1);
      assert c in Members(queue);
      var p :| 0 <= p < |queue| && queue[p] == c;
      assert Visited(graph, depth, queue[p]);
    }
  }

  lemma {:induction false} DepthIsShortest(graph: Graph, target: string, depth: map<string, nat>,
                                           queue: seq<string>, levels: seq<nat>)
    requires Searching(graph, target, depth, queue, levels, |queue|)
    ensures forall x, n: nat :: (x in depth && depth[x] == n) <==> Shortest(Edges(graph), x, target, n)
  {
    forall x, n: nat ensures (x in depth && depth[x] == n) <==> Shortest(Edges(graph), x, target, n) {
      if Shortest(Edges(graph), x, target, n) { DepthIsLeast(graph, target, depth, queue, levels, x, n); }
      if x in depth && depth[x] == n {
        forall m: nat | m < n ensures !Steps(Edges(graph), x, target, m) {
          if Steps(Edges(graph), x, target, m) { DepthIsLeast(graph, target, depth, queue, levels, x, m); }
        }
      }
    }
  }

  lemma {:induction false} QueueFits(graph: Graph, target: string, depth: map<string, nat>, queue: seq<string>,
                                     levels: seq<nat>, at: nat)
    requires Searching(graph, target, depth, queue, levels, at)
    ensures |queue| <= |graph.Keys + {target}|
  {
    DistinctSize(queue);
    var nodes := graph.Keys + {target};
    assert Members(queue) <= nodes;
    assert nodes == Members(queue) + (nodes - Members(queue));
  }

  lemma {:induction false} StartsSearching(graph: Graph, target: string)
    ensures Searching(graph, target, map[target := 0], [target], [0], 0)
  {
    assert Members([target]) == {target};
  }

  /** The search loop: the queue grows while it is walked. */
  method Walk(graph: Graph, target: string, importers: map<string, seq<string>>)
    returns (depth: map<string, nat>, queue: seq<string>, ghost levels: seq<nat>)
    requires Reverses(graph, importers)
    ensures Searching(graph, target, depth, queue, levels, |queue|)
  {
    var at := 0;
    levels := [0];
    depth, queue := map[target := 0], [target];
    StartsSearching(graph, target);
    while at < |queue|
      invariant Searching(graph, target, depth, queue, levels, at)
      decreases |graph.Keys + {target}| - at
    {
      var file := queue[at];
      QueueFits(graph, target, depth, queue, levels, at);
      depth, queue, levels := VisitImporters(graph, target, GetOr(importers, file, []), depth, queue, levels, at);
      NextVisit(graph, target, depth, queue, levels, at);
      at := at + 1;
    }
  }

  method Search(graph: Graph, target: string) returns (depth: map<string, nat>, queue: seq<string>)
    ensures forall x, n: nat :: (x in depth && depth[x] == n) <==> Shortest(Edges(graph), x, target, n)
    ensures depth.Keys == Members(queue) && Distinct(queue)
  {
    var importers := ReverseEdges(graph);
    ghost var levels;
    depth, queue, levels := Walk(graph, target, importers);
    DepthIsShortest(graph, target, depth, queue, levels);
  }

  function Chosen(queue: seq<string>, depth: map<string, nat>, tests: set<string>): seq<Selected>
    requires forall x :: x in queue ==> x in depth
  {
    if queue == [] then []
    else (if queue[0] in tests then [Selected(queue[0], depth[queue[0]])] else []) + Chosen(queue[1..], depth, tests)
  }

  lemma {:induction false} ChosenAreTests(queue: seq<string>, depth: map<string, nat>, tests: set<string>)
    requires Distinct(queue) && forall x :: x in queue ==> x in depth
    ensures forall t :: t in Chosen(queue, depth, tests) <==>
      t.file in queue && t.file in tests && t.depth == depth[t.file]
    ensures forall t :: t in Chosen(queue, depth, tests) ==> multiset(Chosen(queue, depth, tests))[t] == 1
  {
    if queue != [] {
      ChosenAreTests(queue[1..], depth, tests);
      assert queue[0] !in queue[1..];
    }
  }

  /** Exactly the tests with an import chain to the target, each once, with its shortest chain, nearest first. */
  method SelectTests(graph: Graph, tests: set<string>, target: string) returns (selected: seq<Selected>)
    ensures forall t :: t in selected <==> t.file in tests && Shortest(Edges(graph), t.file, target, t.depth)
    ensures Sorted(NearerFirst, selected) && Distinct(selected)
  {
    var depth, queue := Search(graph, target);
    assert forall x :: x in queue <==> x in depth;
    NearerFirstIsTotal();
    var chosen := Chosen(queue, depth, tests);
    ChosenAreTests(queue, depth, tests);
    selected := Sort(NearerFirst, chosen);
    assert forall t :: t in selected <==> t in multiset(chosen);
    OnceEachIsDistinct(selected);
  }

  /** Building the graph from the tests and searching it answers for the whole repository, cycles included. */
  method RelatedTests(repo: Repo, tests: seq<string>, target: string) returns (selected: seq<Selected>)
    requires Closed(repo) && forall t :: t in tests ==> t in repo.files
    ensures forall t :: t in selected <==> t.file in tests && Shortest(Whole(repo), t.file, target, t.depth)
    ensures Sorted(NearerFirst, selected) && Distinct(selected)
  {
    var graph := BuildImportGraph(repo, tests);
    selected := SelectTests(graph, Members(tests), target);
    EntriesReached(repo, tests);
    forall t: Selected | t.file in tests
      ensures Shortest(Edges(graph), t.file, target, t.depth) <==> Shortest(Whole(repo), t.file, target, t.depth)
    {
      forall n: nat ensures Steps(Edges(graph), t.file, target, n) <==> Steps(Whole(repo), t.file, target, n) {
        GraphKeepsChains(repo, tests, graph, t.file, target, n);
      }
    }
  }
}
