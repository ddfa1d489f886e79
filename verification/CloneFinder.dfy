/** The clone detector, phase by phase, proved to find exactly the clones. */
module CloneFinder {
  import opened Collections
  import opened Clones

  datatype Token = Token(text: string, line: nat)
  datatype SourceFile = SourceFile(path: string, tokens: seq<Token>)

  // ---------------------------------------------------------------- interning

  /** `path.split("/")[1] ?? path`. */
  function PackageOf(path: string): string {
    if '/' !in path then path else UpToSlash(AfterSlash(path))
  }

  function AfterSlash(path: string): string
    requires '/' in path
  {
    if path[0] == '/' then path[1..] else AfterSlash(path[1..])
  }

  function UpToSlash(path: string): string {
    if path == "" || path[0] == '/' then "" else [path[0]] + UpToSlash(path[1..])
  }

  /** The package by the path's spelling: its second segment, or the whole of a path with one segment. */
  ghost predicate IsPackage(path: string, pkg: string) {
    if '/' !in path then pkg == path else exists dir, rest :: Spells(path, dir, pkg, rest)
  }

  ghost predicate Spells(path: string, dir: string, pkg: string, rest: string) {
    && '/' !in dir && '/' !in pkg
    && (path == dir + "/" + pkg || path == dir + "/" + pkg + "/" + rest)
  }

  /** The first two segments of a path that has a slash. */
  lemma {:induction false} SegmentsOf(dir: string, path: string)
    requires '/' !in dir
    ensures '/' in dir + "/" + path && AfterSlash(dir + "/" + path) == path
    decreases |dir|
  {
    var whole := dir + "/" + path;
    assert whole[|dir|] == '/';
    if dir == "" {
      assert whole[1..] == path;
    } else {
      assert dir[0] in dir && whole[0] == dir[0];
      assert whole[1..] == dir[1..] + "/" + path;
      SegmentsOf(dir[1..], path);
    }
  }

  lemma {:induction false} UpToTheSlash(name: string, rest: string)
    requires '/' !in name && (rest == "" || rest[0] == '/')
    ensures UpToSlash(name + rest) == name
  {
    if name != "" {
      assert name[0] in name && (name + rest)[0] == name[0];
      assert (name + rest)[1..] == name[1..] + rest;
      UpToTheSlash(name[1..], rest);
    }
  }

  /** A file `dir/name` or `dir/name/rest` is of the package `name`. */
  lemma {:induction false} PackageIsSecondSegment(dir: string, name: string, rest: string)
    requires '/' !in dir && '/' !in name
    ensures PackageOf(dir + "/" + name) == name
    ensures PackageOf(dir + "/" + name + "/" + rest) == name
  {
    SegmentsOf(dir, name);
    SegmentsOf(dir, name + ("/" + rest));
    UpToTheSlash(name, "");
    UpToTheSlash(name, "/" + rest);
    assert name + "" == name;
    assert dir + "/" + name + "/" + rest == dir + "/" + (name + ("/" + rest));
  }

  lemma {:induction false} CutAtSlash(path: string) returns (dir: string, rest: string)
    requires '/' in path
    ensures '/' !in dir && path == dir + "/" + rest
  {
    if path[0] == '/' {
      dir, rest := "", path[1..];
    } else {
      dir, rest := CutAtSlash(path[1..]);
      dir := [path[0]] + dir;
    }
  }

  /** The package of a path is the one its spelling gives, and only that one. */
  lemma {:induction false} PackageIffSpelled(path: string, pkg: string)
    ensures PackageOf(path) == pkg <==> IsPackage(path, pkg)
  {
    if '/' in path {
      var dir, rest := CutAtSlash(path);
      if '/' in rest {
        var name, more := CutAtSlash(rest);
        PackageIsSecondSegment(dir, name, more);
        assert path == dir + "/" + name + "/" + more;
        assert Spells(path, dir, name, more);
      } else {
        PackageIsSecondSegment(dir, rest, "");
        assert Spells(path, dir, rest, "");
      }
      forall d, r | Spells(path, d, pkg, r) ensures PackageOf(path) == pkg { PackageIsSecondSegment(d, pkg, r); }
    }
  }

  function Texts(tokens: seq<Token>): (r: seq<string>)
    ensures |r| == |tokens|
  {
    seq(|tokens|, i requires 0 <= i < |tokens| => tokens[i].text)
  }

  /** The corpus is the files': their token texts, and the packages their paths spell. */
  ghost predicate IsCorpusOf(c: Corpus<string>, files: seq<SourceFile>) {
    && |c.streams| == |files| == |c.pkgs|
    && forall f :: 0 <= f < |files| ==> IsFile(files[f], c.streams[f], c.pkgs[f])
  }

  ghost predicate IsFile(file: SourceFile, stream: seq<string>, pkg: string) {
    && |stream| == |file.tokens| && (forall i :: 0 <= i < |stream| ==> stream[i] == file.tokens[i].text)
    && IsPackage(file.path, pkg)
  }

  lemma {:induction false} CorpusIsTheFiles(files: seq<SourceFile>)
    ensures IsCorpusOf(CorpusOf(files), files)
  {
    var c := CorpusOf(files);
    forall f | 0 <= f < |files| ensures IsFile(files[f], c.streams[f], c.pkgs[f]) {
      PackageIffSpelled(files[f].path, c.pkgs[f]);
    }
  }

  function CorpusOf(files: seq<SourceFile>): Corpus<string> {
    Corpus(seq(|files|, i requires 0 <= i < |files| => Texts(files[i].tokens)),
           seq(|files|, i requires 0 <= i < |files| => PackageOf(files[i].path)))
  }

  /** The numbering in use: distinct texts have distinct numbers, none above the table's size. */
  ghost predicate Numbering(ids: map<string, nat>) {
    && (forall t :: t in ids ==> 1 <= ids[t] <= |ids|)
    && forall t, u :: t in ids && u in ids && ids[t] == ids[u] ==> t == u
  }

  ghost predicate Numbers(ids: map<string, nat>, texts: seq<string>, stream: seq<nat>) {
    |stream| == |texts| && forall i :: 0 <= i < |texts| ==> texts[i] in ids && stream[i] == ids[texts[i]]
  }

  ghost predicate Keeps(more: map<string, nat>, ids: map<string, nat>) {
    forall t :: t in ids ==> t in more && more[t] == ids[t]
  }

  /** The numbering half of `tokenize`, through the table all files share. */
  method Intern(tokens: seq<Token>, before: map<string, nat>) returns (stream: seq<nat>, ids: map<string, nat>)
    requires Numbering(before)
    ensures Numbering(ids) && Keeps(ids, before) && Numbers(ids, Texts(tokens), stream)
  {
    stream, ids := [], before;
    for i := 0 to |tokens|
      invariant Numbering(ids) && Keeps(ids, before) && Numbers(ids, Texts(tokens)[..i], stream)
    {
      var text := tokens[i].text;
      OneMoreText(ids, text);
      OneMoreNumber(ids, Numbered(ids, text), Texts(tokens), stream, i);
      if text !in ids { ids := ids[text := |ids| + 1]; }
      stream := stream + [ids[text]];
    }
    assert Texts(tokens)[..|tokens|] == Texts(tokens);
  }

  ghost function Numbered(ids: map<string, nat>, text: string): map<string, nat> {
    if text in ids then ids else ids[text := |ids| + 1]
  }

  lemma {:induction false} OneMoreText(ids: map<string, nat>, text: string)
    requires Numbering(ids)
    ensures Numbering(Numbered(ids, text)) && Keeps(Numbered(ids, text), ids) && text in Numbered(ids, text)
  {
  }

  lemma {:induction false} OneMoreNumber(ids: map<string, nat>, more: map<string, nat>, texts: seq<string>,
                                         stream: seq<nat>, i: nat)
    requires i < |texts| && Numbers(ids, texts[..i], stream) && Keeps(more, ids) && texts[i] in more
    ensures Numbers(more, texts[..i + 1], stream + [more[texts[i]]])
  {
  }

  method InternAll(files: seq<SourceFile>) returns (c: Corpus<nat>)
    ensures SameShape(CorpusOf(files), c)
  {
    var streams: seq<seq<nat>>, ids := [], map[];
    for f := 0 to |files|
      invariant Numbering(ids) && |streams| == f
      invariant forall g :: 0 <= g < f ==> Numbers(ids, Texts(files[g].tokens), streams[g])
    {
      ghost var was := ids;
      var stream;
      stream, ids := Intern(files[f].tokens, ids);
      forall g | 0 <= g < f ensures Numbers(ids, Texts(files[g].tokens), streams[g]) {
        assert Numbers(was, Texts(files[g].tokens), streams[g]);
      }
      streams := streams + [stream];
    }
    c := Corpus(streams, CorpusOf(files).pkgs);
    SameNumbers(files, c, ids);
  }

  lemma {:induction false} SameNumbers(files: seq<SourceFile>, c: Corpus<nat>, ids: map<string, nat>)
    requires Numbering(ids) && c.pkgs == CorpusOf(files).pkgs && |c.streams| == |files|
    requires forall g :: 0 <= g < |files| ==> Numbers(ids, Texts(files[g].tokens), c.streams[g])
    ensures SameShape(CorpusOf(files), c)
  {
    var texts := CorpusOf(files).streams;
    assert forall f :: 0 <= f < |files| ==> Numbers(ids, texts[f], c.streams[f]);
  }

  // ---------------------------------------------------------------- buckets

  type Buckets = map<seq<nat>, seq<Place>>

  ghost predicate InOrder(b: seq<Place>) {
    forall x, y :: 0 <= x < y < |b| ==> Before(b[x], b[y])
  }

  /** The places before `cursor` whose window is `key`: all of them, unless there are too many to matter. */
  ghost predicate GoodBucket(c: Corpus<nat>, cursor: Place, key: seq<nat>, b: seq<Place>) {
    && 0 < |b| <= BUCKET_CAP + 1 && InOrder(b)
    && (forall p :: p in b ==> Before(p, cursor) && IsWindow(c, p) && WindowAt(c, p) == key)
    && (|b| <= BUCKET_CAP ==> forall p :: Before(p, cursor) && IsWindow(c, p) && WindowAt(c, p) == key ==> p in b)
  }

  ghost predicate Filled(c: Corpus<nat>, cursor: Place, buckets: Buckets) {
    && (forall key :: key in buckets ==> GoodBucket(c, cursor, key, buckets[key]))
    && forall p :: Before(p, cursor) && IsWindow(c, p) ==> WindowAt(c, p) in buckets
  }

  function Pushed(buckets: Buckets, key: seq<nat>, p: Place): Buckets {
    if key !in buckets then buckets[key := [p]]
    else if |buckets[key]| <= BUCKET_CAP then buckets[key := buckets[key] + [p]]
    else buckets
  }

  lemma {:induction false} PushKeeps(c: Corpus<nat>, buckets: Buckets, p: Place)
    requires IsWindow(c, p) && Filled(c, p, buckets)
    ensures Filled(c, Place(p.file, p.at + 1), Pushed(buckets, WindowAt(c, p), p))
  {
    var key, next := WindowAt(c, p), Place(p.file, p.at + 1);
    var more := Pushed(buckets, key, p);
    assert forall q :: Before(q, next) <==> Before(q, p) || q == p;
    forall k | k in more ensures GoodBucket(c, next, k, more[k]) {
      if k in buckets { assert GoodBucket(c, p, k, buckets[k]); }
      if k == key && k !in buckets { assert forall q :: Before(q, p) && IsWindow(c, q) ==> WindowAt(c, q) != key; }
    }
  }

  method FillBuckets(c: Corpus<nat>) returns (buckets: Buckets)
    ensures Filled(c, Place(|c.streams|, 0), buckets)
  {
    buckets := map[];
    for file := 0 to |c.streams|
      invariant Filled(c, Place(file, 0), buckets)
    {
      var at := 0;
      while at + WINDOW <= |c.streams[file]|
        invariant Filled(c, Place(file, at), buckets)
      {
        var p := Place(file, at);
        PushKeeps(c, buckets, p);
        var key := WindowAt(c, p);
        if key !in buckets {
          buckets := buckets[key := [p]];
        } else if |buckets[key]| <= BUCKET_CAP {
          buckets := buckets[key := buckets[key] + [p]];
        }
        at := at + 1;
      }
      NextFile(c, Place(file, at), buckets);
    }
  }

  lemma {:induction false} NextFile(c: Corpus<nat>, cursor: Place, buckets: Buckets)
    requires Filled(c, cursor, buckets) && !IsWindow(c, cursor)
    ensures Filled(c, Place(cursor.file + 1, 0), buckets)
  {
    var next := Place(cursor.file + 1, 0);
    assert forall p :: IsWindow(c, p) && Before(p, next) ==> Before(p, cursor);
    forall key | key in buckets ensures GoodBucket(c, next, key, buckets[key]) {
      assert GoodBucket(c, cursor, key, buckets[key]);
    }
  }

  /** A full table's bucket tells how often its window occurs, and lists the places unless it is boilerplate. */
  lemma {:induction false} BucketIsAlike(c: Corpus<nat>, buckets: Buckets, key: seq<nat>)
    requires Filled(c, Place(|c.streams|, 0), buckets) && key in buckets
    ensures |buckets[key]| <= BUCKET_CAP <==> |Alike(c, key)| <= BUCKET_CAP
    ensures |buckets[key]| <= BUCKET_CAP ==> forall p :: p in buckets[key] <==> p in Alike(c, key)
    ensures InOrder(buckets[key]) && forall p :: p in buckets[key] ==> IsWindow(c, p) && WindowAt(c, p) == key
  {
    var b := buckets[key];
    assert GoodBucket(c, Place(|c.streams|, 0), key, b);
    var places := set p | p in b;
    DistinctSize(b);
    assert places <= Alike(c, key);
    if |b| <= BUCKET_CAP {
      assert Alike(c, key) == places;
    } else {
      assert Alike(c, key) == places + (Alike(c, key) - places);
    }
  }

  // ---------------------------------------------------------------- diagonals

  type Diagonals = map<Diagonal, seq<nat>>

  ghost predicate Holds(ds: Diagonals, p: Place, q: Place) {
    DiagonalOf(p, q) in ds && p.at in ds[DiagonalOf(p, q)]
  }

  /** The diagonals hold exactly the pairs in `done`, and no start twice. */
  ghost predicate Grouped(ds: Diagonals, done: set<(Place, Place)>) {
    && (forall p, q :: Holds(ds, p, q) <==> (p, q) in done)
    && forall d :: d in ds ==> ds[d] != [] && Distinct(ds[d]) && forall a :: a in ds[d] ==> a - d.offset >= 0
  }

  method AddPair(ds: Diagonals, p: Place, q: Place, ghost done: set<(Place, Place)>) returns (more: Diagonals)
    requires Grouped(ds, done) && (p, q) !in done
    ensures Grouped(more, done + {(p, q)})
  {
    var d := DiagonalOf(p, q);
    more := if d !in ds then ds[d := [p.at]] else ds[d := ds[d] + [p.at]];
    assert !Holds(ds, p, q);
    forall a, b ensures Holds(more, a, b) <==> (a, b) in done + {(p, q)} {
      assert Holds(ds, a, b) <==> (a, b) in done;
      assert DiagonalOf(a, b) == d && a.at == p.at ==> a == p && b == q;
    }
  }

  predicate Linked(c: Corpus<nat>, p: Place, q: Place) {
    PkgOf(c, p.file) == PkgOf(c, q.file) && !(p.file == q.file && -WINDOW < p.at - q.at < WINDOW)
  }

  ghost function Row(c: Corpus<nat>, p: Place, rest: seq<Place>): set<(Place, Place)> {
    set q | q in rest && Linked(c, p, q) :: (p, q)
  }

  /** The inner loop: one place against the rest of its bucket. */
  method PairRow(c: Corpus<nat>, p: Place, rest: seq<Place>, before: Diagonals, ghost done: set<(Place, Place)>)
    returns (ds: Diagonals)
    requires Grouped(before, done) && Distinct(rest) && forall pair :: pair in done ==> pair.0 != p
    ensures Grouped(ds, done + Row(c, p, rest))
  {
    ds := before;
    ghost var now := done;
    for y := 0 to |rest|
      invariant now == done + Row(c, p, rest[..y]) && Grouped(ds, now)
    {
      var q := rest[y];
      assert rest[..y + 1] == rest[..y] + [q] && q !in rest[..y];
      if Linked(c, p, q) {
        assert Row(c, p, rest[..y + 1]) == Row(c, p, rest[..y]) + {(p, q)};
        ds := AddPair(ds, p, q, now);
        now := now + {(p, q)};
      } else {
        assert Row(c, p, rest[..y + 1]) == Row(c, p, rest[..y]);
      }
    }
    assert rest[..|rest|] == rest;
  }

  ghost function Rows(c: Corpus<nat>, firsts: seq<Place>, bucket: seq<Place>): set<(Place, Place)> {
    set p, q | p in firsts && q in bucket && Before(p, q) && Linked(c, p, q) :: (p, q)
  }

  /** Every pair of one bucket, each once and in order. */
  method PairBucket(c: Corpus<nat>, bucket: seq<Place>, before: Diagonals, ghost done: set<(Place, Place)>)
    returns (ds: Diagonals)
    requires Grouped(before, done) && InOrder(bucket) && forall pair :: pair in done ==> pair.0 !in bucket
    ensures Grouped(ds, done + Rows(c, bucket, bucket))
  {
    ds := before;
    ghost var now := done;
    for x := 0 to |bucket|
      invariant now == done + Rows(c, bucket[..x], bucket) && Grouped(ds, now)
    {
      ghost var rest := bucket[x + 1..];
      RowOfBucket(c, bucket, x);
      ds := PairRow(c, bucket[x], bucket[x + 1..], ds, now);
      now := now + Row(c, bucket[x], rest);
    }
    assert bucket[..|bucket|] == bucket;
  }

  lemma {:induction false} RowOfBucket(c: Corpus<nat>, bucket: seq<Place>, x: nat)
    requires InOrder(bucket) && x < |bucket|
    ensures Rows(c, bucket[..x + 1], bucket) == Rows(c, bucket[..x], bucket) + Row(c, bucket[x], bucket[x + 1..])
    ensures bucket[x] !in bucket[..x] && Distinct(bucket[x + 1..])
  {
    assert bucket[..x + 1] == bucket[..x] + [bucket[x]];
    forall q ensures q in bucket && Before(bucket[x], q) <==> q in bucket[x + 1..] {
      if q in bucket[x + 1..] { assert q in bucket; }
      if q in bucket && Before(bucket[x], q) {
        var y :| 0 <= y < |bucket| && bucket[y] == q;
        assert y > x;
        assert bucket[x + 1..][y - x - 1] == q;
      }
    }
  }

  /** Every bucket of a full table, in any order: what the diagonals then hold is exactly the matching pairs. */
  method PairUp(c: Corpus<nat>, buckets: Buckets) returns (ds: Diagonals, ghost done: set<(Place, Place)>)
    requires Filled(c, Place(|c.streams|, 0), buckets)
    ensures Grouped(ds, done) && forall p, q :: (p, q) in done <==> Pair(c, p, q)
  {
    ds, done := map[], {};
    var todo := buckets.Keys;
    while todo != {}
      invariant todo <= buckets.Keys && Grouped(ds, done)
      invariant forall p, q :: (p, q) in done <==> Pair(c, p, q) && WindowAt(c, p) !in todo
    {
      var key :| key in todo;
      var bucket := buckets[key];
      BucketPairs(c, buckets, key);
      if !(|bucket| < 2 || |bucket| > BUCKET_CAP) {
        forall pair | pair in done ensures pair.0 !in bucket {
          assert (pair.0, pair.1) in done;
        }
        ds := PairBucket(c, bucket, ds, done);
        done := done + Rows(c, bucket, bucket);
      }
      todo := todo - {key};
    }
  }

  /** The pairs whose window is `key` are the rows of its bucket; a lone or an overfull bucket has none. */
  lemma {:induction false} BucketPairs(c: Corpus<nat>, buckets: Buckets, key: seq<nat>)
    requires Filled(c, Place(|c.streams|, 0), buckets) && key in buckets
    ensures InOrder(buckets[key]) && forall p :: p in buckets[key] ==> IsWindow(c, p) && WindowAt(c, p) == key
    ensures 2 <= |buckets[key]| <= BUCKET_CAP ==>
      forall p, q :: (p, q) in Rows(c, buckets[key], buckets[key]) <==> Pair(c, p, q) && WindowAt(c, p) == key
    ensures |buckets[key]| < 2 || |buckets[key]| > BUCKET_CAP ==> forall p, q :: Pair(c, p, q) ==> WindowAt(c, p) != key
  {
    BucketIsAlike(c, buckets, key);
    var b := buckets[key];
    forall p, q | Pair(c, p, q) && WindowAt(c, p) == key
      ensures 2 <= |b| <= BUCKET_CAP && (p, q) in Rows(c, b, b)
    {
      assert p in Alike(c, key) && q in Alike(c, key);
      assert p in b && q in b;
    }
  }

  // ---------------------------------------------------------------- runs

  predicate NatLe(a: nat, b: nat) { a <= b }

  ghost predicate MaximalRun(starts: seq<nat>, r: Run) {
    && r.first <= r.last && (forall a: nat :: r.first <= a <= r.last ==> a in starts)
    && (forall a :: a in starts ==> a != r.first - 1 && a != r.last + 1)
  }

  /** Every start below `from` is in one of the runs, and the runs are maximal and lie below it. */
  ghost predicate Chained(starts: seq<nat>, d: Diagonal, runs: seq<Run>, from: int) {
    && (forall r :: r in runs ==> r.diagonal == d && MaximalRun(starts, r) && r.last < from)
    && (forall a: nat :: a in starts && a < from ==> InSome(runs, a))
    && Distinct(runs)
  }

  ghost predicate InSome(runs: seq<Run>, a: nat) {
    exists r :: r in runs && r.first <= a <= r.last
  }

  /** `flush`: the run that ends at `last` is complete, and nothing starts between it and `next`. */
  lemma {:induction false} Flushed(starts: seq<nat>, d: Diagonal, runs: seq<Run>, r: Run, next: int)
    requires Chained(starts, d, runs, r.first) && MaximalRun(starts, r) && r.diagonal == d && r.last < next
    requires forall a :: a in starts ==> a <= r.last || a >= next
    ensures Chained(starts, d, runs + [r], next)
  {
    assert forall s :: s in runs ==> s != r;
    forall a: nat | a in starts && a < next ensures InSome(runs + [r], a) {
      if a < r.first {
        var s :| s in runs && s.first <= a <= s.last;
        assert s in runs + [r];
      } else {
        assert r in runs + [r];
      }
    }
  }

  /** Sort the starts and cut them wherever the next is not the successor. */
  method Chain(d: Diagonal, unsorted: seq<nat>) returns (runs: seq<Run>)
    requires unsorted != [] && Distinct(unsorted)
    ensures forall r :: r in runs ==> r.diagonal == d && MaximalRun(unsorted, r)
    ensures forall a :: a in unsorted ==> InSome(runs, a)
    ensures Distinct(runs)
  {
    assert TotalOrder(NatLe);
    var starts := Sort(NatLe, unsorted);
    DistinctRearranged(unsorted, starts);
    assert forall a :: a in starts <==> a in multiset(starts);
    assert forall a :: a in unsorted <==> a in multiset(unsorted);
    runs := ChainSorted(d, starts);
  }

  method ChainSorted(d: Diagonal, starts: seq<nat>) returns (runs: seq<Run>)
    requires starts != [] && Distinct(starts) && Sorted(NatLe, starts)
    ensures forall r :: r in runs ==> r.diagonal == d && MaximalRun(starts, r)
    ensures forall a :: a in starts ==> InSome(runs, a)
    ensures Distinct(runs)
  {
    var first: nat, last: nat := starts[0], starts[0];
    runs := [];
    Ascends(starts, 0);
    for i := 1 to |starts|
      invariant first <= last == starts[i - 1] && forall a: nat :: first <= a <= last ==> a in starts
      invariant forall a :: a in starts ==> a != first - 1
      invariant Chained(starts, d, runs, first)
    {
      var at := starts[i];
      Ascends(starts, i);
      if at == last + 1 {
        last := at;
      } else {
        Flushed(starts, d, runs, Run(d, first, last), at);
        runs := runs + [Run(d, first, last)];
        first, last := at, at;
      }
    }
    Ascends(starts, |starts|);
    Flushed(starts, d, runs, Run(d, first, last), last + 1);
    runs := runs + [Run(d, first, last)];
  }

  lemma {:induction false} Ascends(starts: seq<nat>, i: nat)
    requires Sorted(NatLe, starts) && Distinct(starts) && 0 <= i <= |starts|
    ensures 0 < i < |starts| ==> starts[i - 1] < starts[i]
    ensures forall a :: a in starts ==> (0 < i && a <= starts[i - 1]) || (i < |starts| && a >= starts[i])
  {
    assert 0 < i < |starts| ==> NatLe(starts[i - 1], starts[i]);
    forall a | a in starts ensures (0 < i && a <= starts[i - 1]) || (i < |starts| && a >= starts[i]) {
      var k :| 0 <= k < |starts| && starts[k] == a;
      assert k < i - 1 ==> NatLe(starts[k], starts[i - 1]);
      assert k > i ==> NatLe(starts[i], starts[k]);
    }
  }

  lemma {:induction false} DiagonalIsStarts(c: Corpus<nat>, ds: Diagonals, done: set<(Place, Place)>,
                                            d: Diagonal, at: nat)
    requires Grouped(ds, done) && forall p, q :: (p, q) in done <==> Pair(c, p, q)
    ensures OnDiagonal(c, d, at) <==> d in ds && at in ds[d]
  {
    if at - d.offset >= 0 {
      var p, q := Place(d.fileA, at), Place(d.fileB, at - d.offset);
      assert DiagonalOf(p, q) == d;
      assert Holds(ds, p, q) <==> (p, q) in done;
    }
  }

  lemma {:induction false} MaximalIsClone(c: Corpus<nat>, ds: Diagonals, done: set<(Place, Place)>, r: Run)
    requires Grouped(ds, done) && forall p, q :: (p, q) in done <==> Pair(c, p, q)
    ensures IsClone(c, r) <==> r.diagonal in ds && MaximalRun(ds[r.diagonal], r)
  {
    var starts := if r.diagonal in ds then ds[r.diagonal] else [];
    forall at: nat ensures OnDiagonal(c, r.diagonal, at) <==> at in starts {
      DiagonalIsStarts(c, ds, done, r.diagonal, at);
    }
    StartsDecide(c, r, starts);
    assert MaximalRun(starts, r) ==> r.first in starts;
  }

  lemma {:induction false} StartsDecide(c: Corpus<nat>, r: Run, starts: seq<nat>)
    requires forall at: nat :: OnDiagonal(c, r.diagonal, at) <==> at in starts
    ensures IsClone(c, r) <==> MaximalRun(starts, r)
  {
    if MaximalRun(starts, r) {
      forall at: int | r.first <= at <= r.last ensures OnDiagonal(c, r.diagonal, at) { assert at in starts; }
    }
    if IsClone(c, r) {
      forall a: nat | r.first <= a <= r.last ensures a in starts { assert OnDiagonal(c, r.diagonal, a); }
    }
  }

  /** The runs of every diagonal, in any order, are exactly the clones. */
  method AllRuns(c: Corpus<nat>, ds: Diagonals, ghost done: set<(Place, Place)>) returns (runs: seq<Run>)
    requires Grouped(ds, done) && forall p, q :: (p, q) in done <==> Pair(c, p, q)
    ensures Distinct(runs) && forall r :: r in runs <==> IsClone(c, r)
  {
    runs := [];
    var todo := ds.Keys;
    forall r | IsClone(c, r) ensures r.diagonal in ds { MaximalIsClone(c, ds, done, r); }
    while todo != {}
      invariant todo <= ds.Keys && Distinct(runs)
      invariant forall r :: r in runs <==> IsClone(c, r) && r.diagonal !in todo
    {
      var d :| d in todo;
      var more := Chain(d, ds[d]);
      forall r ensures r in more <==> IsClone(c, r) && r.diagonal == d { RunsAreClones(c, ds, done, d, more, r); }
      assert forall r :: r in more ==> r !in runs;
      runs := runs + more;
      todo := todo - {d};
    }
  }

  lemma {:induction false} RunsAreClones(c: Corpus<nat>, ds: Diagonals, done: set<(Place, Place)>, d: Diagonal,
                                         runs: seq<Run>, r: Run)
    requires Grouped(ds, done) && (forall p, q :: (p, q) in done <==> Pair(c, p, q)) && d in ds
    requires forall s :: s in runs ==> s.diagonal == d && MaximalRun(ds[d], s)
    requires forall a :: a in ds[d] ==> InSome(runs, a)
    ensures r in runs <==> IsClone(c, r) && r.diagonal == d
  {
    MaximalIsClone(c, ds, done, r);
    if IsClone(c, r) && r.diagonal == d {
      assert r.first in ds[d];
      var s :| s in runs && s.first <= r.first <= s.last;
      MaximalIsClone(c, ds, done, s);
      CloneIsUnique(c, r, s, r.first);
    }
  }

  // ---------------------------------------------------------------- coverage bitmaps

  method Fill(marks: array<bool>, start: nat, end: nat)
    requires start <= end <= marks.Length
    modifies marks
    ensures forall i :: 0 <= i < marks.Length ==> marks[i] == (start <= i < end || old(marks[i]))
  {
    for i := start to end
      invariant forall k :: 0 <= k < marks.Length ==> marks[k] == (start <= k < i || old(marks[k]))
    {
      marks[i] := true;
    }
  }

  ghost predicate Fits(c: Corpus<nat>, r: Run) {
    var d := r.diagonal;
    && r.first <= r.last && d.fileA < |c.streams| && d.fileB < |c.streams|
    && r.last + WINDOW <= |c.streams[d.fileA]|
    && 0 <= r.first - d.offset && r.last - d.offset + WINDOW <= |c.streams[d.fileB]|
  }

  lemma {:induction false} CloneFits(c: Corpus<nat>, r: Run)
    requires IsClone(c, r)
    ensures Fits(c, r)
  {
    assert OnDiagonal(c, r.diagonal, r.first) && OnDiagonal(c, r.diagonal, r.last);
  }

  ghost predicate Covers(runs: seq<Run>, token: Place) {
    exists r :: r in runs && InRun(r, token)
  }

  /** One bitmap per file, as long as the file. */
  ghost predicate Shaped(c: Corpus<nat>, covered: seq<array<bool>>) {
    && |covered| == |c.streams| && Distinct(covered)
    && forall f :: 0 <= f < |covered| ==> covered[f].Length == |c.streams[f]|
  }

  method NewMarks(c: Corpus<nat>) returns (covered: seq<array<bool>>)
    ensures Shaped(c, covered) && forall f :: 0 <= f < |covered| ==> fresh(covered[f])
    ensures forall f, i :: 0 <= f < |covered| && 0 <= i < covered[f].Length ==> !covered[f][i]
  {
    covered := [];
    for f := 0 to |c.streams|
      invariant |covered| == f && Distinct(covered)
      invariant forall g :: 0 <= g < f ==> fresh(covered[g]) && covered[g].Length == |c.streams[g]|
      invariant forall g, i :: 0 <= g < f && 0 <= i < covered[g].Length ==> !covered[g][i]
    {
      var marks := new bool[|c.streams[f]|](i => false);
      covered := covered + [marks];
    }
  }

  /** Both sides of one run are marked; nothing is unmarked and no other token is touched. */
  method Mark(c: Corpus<nat>, covered: seq<array<bool>>, r: Run)
    requires Shaped(c, covered) && Fits(c, r)
    modifies covered[r.diagonal.fileA], covered[r.diagonal.fileB]
    ensures forall f, i :: 0 <= f < |covered| && 0 <= i < covered[f].Length ==>
      covered[f][i] == (InRun(r, Place(f, i)) || old(covered[f][i]))
  {
    var d := r.diagonal;
    Fill(covered[d.fileA], r.first, r.last + WINDOW);
    Fill(covered[d.fileB], r.first - d.offset, r.last - d.offset + WINDOW);
  }

  method MarkAll(c: Corpus<nat>, runs: seq<Run>) returns (covered: seq<array<bool>>)
    requires forall r :: r in runs ==> Fits(c, r)
    ensures Shaped(c, covered)
    ensures forall f, i :: 0 <= f < |covered| && 0 <= i < covered[f].Length ==>
      covered[f][i] == Covers(runs, Place(f, i))
  {
    covered := NewMarks(c);
    for k := 0 to |runs|
      invariant Shaped(c, covered) && forall f :: 0 <= f < |covered| ==> fresh(covered[f])
      invariant forall f, i :: 0 <= f < |covered| && 0 <= i < covered[f].Length ==>
        covered[f][i] == Covers(runs[..k], Place(f, i))
    {
      assert runs[..k + 1] == runs[..k] + [runs[k]];
      assert Fits(c, runs[k]);
      assert fresh(covered[runs[k].diagonal.fileA]) && fresh(covered[runs[k].diagonal.fileB]);
      Mark(c, covered, runs[k]);
    }
    assert runs[..|runs|] == runs;
  }

  // ---------------------------------------------------------------- counts

  ghost function MarkedTokens(marks: seq<bool>, file: nat): set<Place> {
    set i | 0 <= i < |marks| && marks[i] :: Place(file, i)
  }

  method CountMarks(marks: array<bool>, ghost file: nat) returns (inside: nat)
    ensures inside == |MarkedTokens(marks[..], file)|
  {
    inside := 0;
    assert MarkedTokens([], file) == {};
    for i := 0 to marks.Length
      invariant inside == |MarkedTokens(marks[..i], file)|
    {
      assert marks[..i + 1] == marks[..i] + [marks[i]];
      if marks[i] {
        assert MarkedTokens(marks[..i + 1], file) == MarkedTokens(marks[..i], file) + {Place(file, i)};
        inside := inside + 1;
      } else {
        assert MarkedTokens(marks[..i + 1], file) == MarkedTokens(marks[..i], file);
      }
    }
    assert marks[..marks.Length] == marks[..];
  }

  ghost function ClonedBefore(c: Corpus<nat>, pkg: string, file: nat): set<Place> {
    set t | t in ClonedTokens(c, pkg) && t.file < file
  }

  ghost predicate CountedAt(c: Corpus<nat>, counts: map<string, nat>, pkg: string, file: nat) {
    (pkg in counts <==> ClonedBefore(c, pkg, file) != {}) && GetOr(counts, pkg, 0) == |ClonedBefore(c, pkg, file)|
  }

  ghost predicate Counted(c: Corpus<nat>, counts: map<string, nat>, file: nat) {
    forall pkg :: CountedAt(c, counts, pkg, file)
  }

  ghost function FileTokens(c: Corpus<nat>, file: nat): set<Place> {
    set i | 0 <= i && file < |c.streams| && i < |c.streams[file]| && Cloned(c, Place(file, i)) :: Place(file, i)
  }

  /** The marks are the cloned tokens. */
  ghost predicate Exact(c: Corpus<nat>, covered: seq<array<bool>>)
    reads set a | a in covered
  {
    forall f :: 0 <= f < |covered| ==> ExactFile(c, covered[f][..], f)
  }

  ghost predicate ExactFile(c: Corpus<nat>, marks: seq<bool>, file: nat) {
    forall i :: 0 <= i < |marks| ==> marks[i] == Cloned(c, Place(file, i))
  }

  method AddFile(c: Corpus<nat>, marks: array<bool>, before: map<string, nat>, file: nat)
    returns (counts: map<string, nat>)
    requires file < |c.streams| && marks.Length == |c.streams[file]| && ExactFile(c, marks[..], file)
    requires Counted(c, before, file)
    ensures Counted(c, counts, file + 1)
  {
    var inside := CountMarks(marks, file);
    assert FileTokens(c, file) == MarkedTokens(marks[..], file);
    counts := Added(before, PkgOf(c, file), inside);
    OneFileMore(c, before, file);
  }

  method CountAll(c: Corpus<nat>, covered: seq<array<bool>>) returns (counts: map<string, nat>)
    requires Shaped(c, covered) && Exact(c, covered)
    ensures Counted(c, counts, |c.streams|)
  {
    counts := map[];
    NoneCounted(c);
    for file := 0 to |c.streams|
      invariant Counted(c, counts, file)
    {
      counts := AddFile(c, covered[file], counts, file);
    }
  }

  lemma {:induction false} NoneCounted(c: Corpus<nat>)
    ensures Counted(c, map[], 0)
  {
    forall pkg ensures CountedAt(c, map[], pkg, 0) { AllBefore(c, pkg); }
  }

  /** A file without a marked token adds no entry. */
  function Added(counts: map<string, nat>, pkg: string, inside: nat): map<string, nat> {
    if inside == 0 then counts else counts[pkg := GetOr(counts, pkg, 0) + inside]
  }

  lemma {:induction false} OneFileMore(c: Corpus<nat>, counts: map<string, nat>, file: nat)
    requires Counted(c, counts, file) && file < |c.streams|
    ensures Counted(c, Added(counts, PkgOf(c, file), |FileTokens(c, file)|), file + 1)
  {
    var more, next := Added(counts, PkgOf(c, file), |FileTokens(c, file)|), file + 1;
    forall pkg ensures CountedAt(c, more, pkg, next) {
      assert CountedAt(c, counts, pkg, file);
      ClonedStep(c, pkg, file);
      AddedSize(counts, PkgOf(c, file), pkg, ClonedBefore(c, pkg, file), FileTokens(c, file));
    }
  }

  lemma {:induction false} AddedSize(counts: map<string, nat>, pkg: string, other: string, before: set<Place>,
                                     more: set<Place>)
    requires (other in counts <==> before != {}) && GetOr(counts, other, 0) == |before| && before !! more
    ensures
      var after := if other == pkg then before + more else before;
      var added := Added(counts, pkg, |more|);
      (other in added <==> after != {}) && GetOr(added, other, 0) == |after|
  {
    assert |before + more| == |before| + |more|;
    if more == {} { assert before + more == before; }
  }

  lemma {:induction false} ClonedStep(c: Corpus<nat>, pkg: string, file: nat)
    requires file < |c.streams|
    ensures ClonedBefore(c, pkg, file + 1) ==
      if pkg == PkgOf(c, file) then ClonedBefore(c, pkg, file) + FileTokens(c, file) else ClonedBefore(c, pkg, file)
    ensures ClonedBefore(c, pkg, file) !! FileTokens(c, file)
  {
    forall t
      ensures t in ClonedTokens(c, pkg) && t.file == file <==> pkg == PkgOf(c, file) && t in FileTokens(c, file)
    {
      assert t == Place(t.file, t.at);
    }
  }

  lemma {:induction false} AllCounted(c: Corpus<nat>, counts: map<string, nat>)
    requires Counted(c, counts, |c.streams|)
    ensures forall pkg :: pkg in counts <==> ClonedTokens(c, pkg) != {}
    ensures forall pkg :: pkg in counts ==> counts[pkg] == |ClonedTokens(c, pkg)|
  {
    forall pkg
      ensures pkg in counts <==> ClonedTokens(c, pkg) != {}
      ensures pkg in counts ==> counts[pkg] == |ClonedTokens(c, pkg)|
    {
      assert CountedAt(c, counts, pkg, |c.streams|);
      AllBefore(c, pkg);
    }
  }

  lemma {:induction false} AllBefore(c: Corpus<nat>, pkg: string)
    ensures ClonedBefore(c, pkg, |c.streams|) == ClonedTokens(c, pkg)
    ensures ClonedBefore(c, pkg, 0) == {}
  {
  }

  // ---------------------------------------------------------------- the whole detector

  datatype Site = Site(path: string, firstLine: nat, lastLine: nat)
  datatype Clone = Clone(pkg: string, tokens: int, a: Site, b: Site)

  function SiteOf(files: seq<SourceFile>, file: nat, start: int, end: int): Site {
    if file < |files| && 0 <= start <= end < |files[file].tokens|
    then Site(files[file].path, files[file].tokens[start].line, files[file].tokens[end].line)
    else Site("", 0, 0)
  }

  function CloneOf(files: seq<SourceFile>, r: Run): Clone {
    var d := r.diagonal;
    Clone(if d.fileA < |files| then PackageOf(files[d.fileA].path) else "",
          r.last - r.first + WINDOW,
          SiteOf(files, d.fileA, r.first, r.last + WINDOW - 1),
          SiteOf(files, d.fileB, r.first - d.offset, r.last - d.offset + WINDOW - 1))
  }

  /** What a clone reports, by its run: the package of both files, the length, and the lines it spans on each side. */
  ghost predicate Reports(files: seq<SourceFile>, r: Run, clone: Clone) {
    var d, size := r.diagonal, r.last - r.first + WINDOW;
    && clone.tokens == size
    && Spans(files, d.fileA, r.first, size, clone.pkg, clone.a)
    && Spans(files, d.fileB, r.first - d.offset, size, clone.pkg, clone.b)
    && forall k :: 0 <= k < size ==> AgreeAt(files[d.fileA].tokens, files[d.fileB].tokens, r, k)
  }

  /** The tokens of the two sides that lie `k` after the run's starts have the same text. */
  ghost predicate AgreeAt(a: seq<Token>, b: seq<Token>, r: Run, k: nat) {
    var i, j := r.first + k, r.first - r.diagonal.offset + k;
    0 <= i < |a| && 0 <= j < |b| && a[i].text == b[j].text
  }

  /** `size` tokens of the file from `start` on, first line to last. */
  ghost predicate Spans(files: seq<SourceFile>, file: nat, start: int, size: int, pkg: string, site: Site) {
    && file < |files| && 0 <= start && 0 < size && start + size <= |files[file].tokens|
    && IsPackage(files[file].path, pkg) && site.path == files[file].path
    && site.firstLine == files[file].tokens[start].line
    && site.lastLine == files[file].tokens[start + size - 1].line
  }

  lemma {:induction false} CloneReports(files: seq<SourceFile>, r: Run)
    requires IsClone(CorpusOf(files), r)
    ensures Reports(files, r, CloneOf(files, r))
  {
    var c, d := CorpusOf(files), r.diagonal;
    var size := r.last - r.first + WINDOW;
    CorpusIsTheFiles(files);
    CloneSidesEqual(c, r, size - 1);
    PackageIffSpelled(files[d.fileA].path, PackageOf(files[d.fileA].path));
    PackageIffSpelled(files[d.fileB].path, PackageOf(files[d.fileB].path));
    forall k | 0 <= k < size ensures AgreeAt(files[d.fileA].tokens, files[d.fileB].tokens, r, k) {
      SidesAgree(files, r, k);
    }
  }

  lemma {:induction false} SidesAgree(files: seq<SourceFile>, r: Run, k: nat)
    requires IsClone(CorpusOf(files), r) && k < r.last - r.first + WINDOW
    ensures r.diagonal.fileA < |files| && r.diagonal.fileB < |files|
    ensures AgreeAt(files[r.diagonal.fileA].tokens, files[r.diagonal.fileB].tokens, r, k)
  {
    CloneSidesEqual(CorpusOf(files), r, k);
  }

  /** Two windows, the second after the first, of equal token texts that occur at most 24 times in all files. */
  ghost predicate Copies(files: seq<SourceFile>, p: Place, q: Place) {
    var c := CorpusOf(files);
    && IsWindow(c, p) && IsWindow(c, q) && WindowAt(c, p) == WindowAt(c, q)
    && |Alike(c, WindowAt(c, p))| <= BUCKET_CAP && Before(p, q) && Apart(p, q)
  }

  ghost predicate SamePackage(files: seq<SourceFile>, f: nat, g: nat) {
    f < |files| && g < |files| && exists pkg :: IsPackage(files[f].path, pkg) && IsPackage(files[g].path, pkg)
  }

  ghost predicate IsFound(runs: seq<Run>, p: Place, q: Place) {
    exists r :: r in runs && RunHolds(r, p, q)
  }

  /** Copies are found exactly when the second segments of their paths agree. */
  lemma {:induction false} ComparedIff(files: seq<SourceFile>, runs: seq<Run>, p: Place, q: Place)
    requires Copies(files, p, q) && forall r :: r in runs <==> IsClone(CorpusOf(files), r)
    ensures IsFound(runs, p, q) <==> SamePackage(files, p.file, q.file)
  {
    var c := CorpusOf(files);
    CorpusIsTheFiles(files);
    forall pkg
      ensures IsPackage(files[p.file].path, pkg) <==> c.pkgs[p.file] == pkg
      ensures IsPackage(files[q.file].path, pkg) <==> c.pkgs[q.file] == pkg
    {
      PackageIffSpelled(files[p.file].path, pkg);
      PackageIffSpelled(files[q.file].path, pkg);
    }
    assert SamePackage(files, p.file, q.file) <==> c.pkgs[p.file] == c.pkgs[q.file];
    if PkgOf(c, p.file) == PkgOf(c, q.file) { var r := PairInOneClone(c, p, q); }
    forall r | r in runs && RunHolds(r, p, q) ensures Matches(c, p, q) {
      assert OnDiagonal(c, r.diagonal, p.at) && Place(q.file, p.at - r.diagonal.offset) == q;
    }
  }

  /** For files spelled `dir/name/rest` that is: the names are equal. */
  lemma {:induction false} SamePackageIff(files: seq<SourceFile>, f: nat, g: nat, dirs: (string, string),
                                          names: (string, string), rests: (string, string))
    requires f < |files| && g < |files| && Spells(files[f].path, dirs.0, names.0, rests.0)
    requires Spells(files[g].path, dirs.1, names.1, rests.1)
    ensures SamePackage(files, f, g) <==> names.0 == names.1
  {
    var a, b := files[f].path, files[g].path;
    PackageIsSecondSegment(dirs.0, names.0, rests.0);
    PackageIsSecondSegment(dirs.1, names.1, rests.1);
    assert PackageOf(a) == names.0 && PackageOf(b) == names.1;
    forall pkg ensures (IsPackage(a, pkg) <==> names.0 == pkg) && (IsPackage(b, pkg) <==> names.1 == pkg) {
      PackageIffSpelled(a, pkg);
      PackageIffSpelled(b, pkg);
    }
    assert IsPackage(a, names.0);
  }

  /**
   * The clones reported are the maximal runs of matching windows, each once, and a package's count is the number of its
   * tokens that lie in a window with a copy; a package without one is not listed.
   */
  method FindClones(files: seq<SourceFile>) returns (clones: seq<Clone>, counts: map<string, nat>, ghost runs: seq<Run>)
    ensures Distinct(runs) && forall r :: r in runs <==> IsClone(CorpusOf(files), r)
    ensures IsCorpusOf(CorpusOf(files), files)
    ensures |clones| == |runs| && forall k :: 0 <= k < |runs| ==> Reports(files, runs[k], clones[k])
    ensures forall p, q :: Copies(files, p, q) ==> (IsFound(runs, p, q) <==> SamePackage(files, p.file, q.file))
    ensures forall pkg :: pkg in counts <==> ClonedTokens(CorpusOf(files), pkg) != {}
    ensures forall pkg :: pkg in counts ==> counts[pkg] == |ClonedTokens(CorpusOf(files), pkg)|
  {
    var c := InternAll(files);
    var buckets := FillBuckets(c);
    ghost var done;
    var ds;
    ds, done := PairUp(c, buckets);
    var found := AllRuns(c, ds, done);
    forall r | r in found ensures Fits(c, r) { CloneFits(c, r); }
    var covered := MarkAll(c, found);
    forall f, i | 0 <= f < |covered| && 0 <= i < covered[f].Length
      ensures covered[f][i] == Cloned(c, Place(f, i))
    {
      ClonedIffInClone(c, Place(f, i));
    }
    counts := CountAll(c, covered);
    AllCounted(c, counts);
    SameClones(CorpusOf(files), c);
    clones := seq(|found|, k requires 0 <= k < |found| => CloneOf(files, found[k]));
    runs := found;
    CorpusIsTheFiles(files);
    forall k | 0 <= k < |found| ensures Reports(files, found[k], clones[k]) { CloneReports(files, found[k]); }
    forall p, q | Copies(files, p, q) ensures IsFound(runs, p, q) <==> SamePackage(files, p.file, q.file) {
      ComparedIff(files, runs, p, q);
    }
  }
}
