/** What a clone is, and what follows from it. A window's two hashes are the window itself. */
module Clones {

  const WINDOW := 60
  const BUCKET_CAP := 24

  /** The token stream and the package of each file. */
  datatype Corpus<T> = Corpus(streams: seq<seq<T>>, pkgs: seq<string>)

  /** A position in a file: the start of a window, or a single token. */
  datatype Place = Place(file: nat, at: nat)

  function PkgOf<T>(c: Corpus<T>, file: nat): string {
    if file < |c.pkgs| then c.pkgs[file] else ""
  }

  predicate IsWindow<T>(c: Corpus<T>, p: Place) {
    p.file < |c.streams| && p.at + WINDOW <= |c.streams[p.file]|
  }

  function WindowAt<T>(c: Corpus<T>, p: Place): (w: seq<T>)
    requires IsWindow(c, p)
    ensures |w| == WINDOW
  {
    c.streams[p.file][p.at..p.at + WINDOW]
  }

  /** Every place, in any file of any package, whose window reads `w`. */
  ghost function Alike<T(!new)>(c: Corpus<T>, w: seq<T>): set<Place> {
    set file, at | 0 <= file < |c.streams| && 0 <= at < |c.streams[file]| &&
      IsWindow(c, Place(file, at)) && WindowAt(c, Place(file, at)) == w :: Place(file, at)
  }

  predicate Apart(p: Place, q: Place) {
    p.file == q.file ==> p.at + WINDOW <= q.at || q.at + WINDOW <= p.at
  }

  /** Two windows of one package that count as copies: equal, not overlapping, and not boilerplate. */
  ghost predicate Matches<T(!new)>(c: Corpus<T>, p: Place, q: Place) {
    && IsWindow(c, p) && IsWindow(c, q)
    && WindowAt(c, p) == WindowAt(c, q)
    && |Alike(c, WindowAt(c, p))| <= BUCKET_CAP
    && PkgOf(c, p.file) == PkgOf(c, q.file) && Apart(p, q)
  }

  predicate Before(p: Place, q: Place) {
    p.file < q.file || (p.file == q.file && p.at < q.at)
  }

  ghost predicate Pair<T(!new)>(c: Corpus<T>, p: Place, q: Place) {
    Before(p, q) && Matches(c, p, q)
  }

  ghost predicate InWindow(p: Place, token: Place) {
    p.file == token.file && p.at <= token.at < p.at + WINDOW
  }

  /** The token lies in a window that has a copy. */
  ghost predicate Cloned<T(!new)>(c: Corpus<T>, token: Place) {
    exists p, q :: Matches(c, p, q) && InWindow(p, token)
  }

  /** A package's tokens that lie inside a clone, every copy included. */
  ghost function ClonedTokens<T(!new)>(c: Corpus<T>, pkg: string): set<Place> {
    set file, at | 0 <= file < |c.streams| && 0 <= at < |c.streams[file]| &&
      PkgOf(c, file) == pkg && Cloned(c, Place(file, at)) :: Place(file, at)
  }

  // ---------------------------------------------------------------- clones are maximal runs

  /** Matching windows of one pair of files at one offset. */
  datatype Diagonal = Diagonal(fileA: nat, fileB: nat, offset: int)
  datatype Run = Run(diagonal: Diagonal, first: nat, last: nat)

  function DiagonalOf(p: Place, q: Place): Diagonal { Diagonal(p.file, q.file, p.at - q.at) }

  /** The window that starts at `at` in the first file pairs with the one `offset` before it in the second. */
  ghost predicate OnDiagonal<T(!new)>(c: Corpus<T>, d: Diagonal, at: int) {
    at >= 0 && at - d.offset >= 0 && Pair(c, Place(d.fileA, at), Place(d.fileB, at - d.offset))
  }

  /** Matching windows start at every token from `first` to `last`, and at neither neighbour. */
  ghost predicate IsClone<T(!new)>(c: Corpus<T>, r: Run) {
    && r.first <= r.last
    && (forall at: int :: r.first <= at <= r.last ==> OnDiagonal(c, r.diagonal, at))
    && !OnDiagonal(c, r.diagonal, r.first - 1)
    && !OnDiagonal(c, r.diagonal, r.last + 1)
  }

  /** The run contains the pair: it is of their diagonal and spans their start. */
  ghost predicate RunHolds(r: Run, p: Place, q: Place) {
    r.diagonal == DiagonalOf(p, q) && r.first <= p.at <= r.last
  }

  /** Both sides of a clone are equal token for token, over at least a window, inside one package. */
  lemma {:induction false} CloneSidesEqual<T(!new)>(c: Corpus<T>, r: Run, k: nat)
    requires IsClone(c, r) && k < r.last - r.first + WINDOW
    ensures
      var d := r.diagonal;
      && d.fileA < |c.streams| && d.fileB < |c.streams| && PkgOf(c, d.fileA) == PkgOf(c, d.fileB)
      && r.first + k < |c.streams[d.fileA]| && 0 <= r.first - d.offset && r.first - d.offset + k < |c.streams[d.fileB]|
      && c.streams[d.fileA][r.first + k] == c.streams[d.fileB][r.first - d.offset + k]
  {
    var d := r.diagonal;
    var at := if r.first + k <= r.last then r.first + k else r.last;
    assert OnDiagonal(c, d, at) && OnDiagonal(c, d, r.first);
    var a, b := Place(d.fileA, at), Place(d.fileB, at - d.offset);
    assert WindowAt(c, a)[r.first + k - at] == WindowAt(c, b)[r.first + k - at];
  }

  /** Two clones of one diagonal that share a start are the same clone. */
  lemma {:induction false} CloneIsUnique<T(!new)>(c: Corpus<T>, r: Run, s: Run, at: nat)
    requires IsClone(c, r) && IsClone(c, s) && r.diagonal == s.diagonal
    requires r.first <= at <= r.last && s.first <= at <= s.last
    ensures r == s
  {
    var d := r.diagonal;
    assert r.first < s.first ==> OnDiagonal(c, d, s.first - 1);
    assert s.first < r.first ==> OnDiagonal(c, d, r.first - 1);
    assert r.last < s.last ==> OnDiagonal(c, d, r.last + 1);
    assert s.last < r.last ==> OnDiagonal(c, d, s.last + 1);
  }

  lemma {:induction false} ExtendRun<T(!new)>(c: Corpus<T>, d: Diagonal, first: nat, last: nat) returns (r: Run)
    requires d.fileA < |c.streams| && first <= last && forall at: int :: first <= at <= last ==> OnDiagonal(c, d, at)
    ensures IsClone(c, r) && r.diagonal == d && r.first <= first && last <= r.last
    decreases first + |c.streams[d.fileA]| - last
  {
    assert OnDiagonal(c, d, last);
    if OnDiagonal(c, d, first - 1) {
      r := ExtendRun(c, d, first - 1, last);
    } else if OnDiagonal(c, d, last + 1) {
      r := ExtendRun(c, d, first, last + 1);
    } else {
      r := Run(d, first, last);
    }
  }

  /** Every matching pair of windows lies in exactly one clone. */
  lemma {:induction false} PairInOneClone<T(!new)>(c: Corpus<T>, p: Place, q: Place) returns (r: Run)
    requires Pair(c, p, q)
    ensures IsClone(c, r) && RunHolds(r, p, q)
    ensures forall s :: IsClone(c, s) && RunHolds(s, p, q) ==> s == r
  {
    var d := DiagonalOf(p, q);
    assert Place(d.fileB, p.at - d.offset) == q;
    assert OnDiagonal(c, d, p.at);
    r := ExtendRun(c, d, p.at, p.at);
    forall s | IsClone(c, s) && RunHolds(s, p, q) ensures s == r { CloneIsUnique(c, s, r, p.at); }
  }

  /** The tokens of both sides of a run, as the coverage bitmaps mark them. */
  predicate InRun(r: Run, token: Place) {
    || (token.file == r.diagonal.fileA && r.first <= token.at < r.last + WINDOW)
    || (token.file == r.diagonal.fileB && r.first - r.diagonal.offset <= token.at < r.last - r.diagonal.offset + WINDOW)
  }

  lemma {:induction false} MatchesIsSymmetric<T(!new)>(c: Corpus<T>, p: Place, q: Place)
    requires Matches(c, p, q)
    ensures Matches(c, q, p) && (Before(p, q) || Before(q, p))
  {
  }

  /** A token is cloned exactly when some clone covers it. */
  lemma {:induction false} ClonedIffInClone<T(!new)>(c: Corpus<T>, token: Place)
    ensures Cloned(c, token) <==> exists r :: IsClone(c, r) && InRun(r, token)
  {
    if Cloned(c, token) {
      var p, q :| Matches(c, p, q) && InWindow(p, token);
      MatchesIsSymmetric(c, p, q);
      if Before(p, q) {
        var r := PairInOneClone(c, p, q);
        assert InRun(r, token);
      } else {
        var r := PairInOneClone(c, q, p);
        assert InRun(r, token);
      }
    }
    if r :| IsClone(c, r) && InRun(r, token) {
      InRunIsCloned(c, r, token);
    }
  }

  lemma {:induction false} InRunIsCloned<T(!new)>(c: Corpus<T>, r: Run, token: Place)
    requires IsClone(c, r) && InRun(r, token)
    ensures Cloned(c, token)
  {
    var d := r.diagonal;
    var side := if token.file == d.fileA && r.first <= token.at < r.last + WINDOW then 0 else d.offset;
    var at := if token.at + side <= r.last then token.at + side else r.last;
    assert OnDiagonal(c, d, at);
    var p, q := Place(d.fileA, at), Place(d.fileB, at - d.offset);
    MatchesIsSymmetric(c, p, q);
    var left := side == 0 && token.file == d.fileA && r.first <= token.at < r.last + WINDOW;
    assert if left then InWindow(p, token) else InWindow(q, token);
  }

  // ---------------------------------------------------------------- numbering token texts

  /** Two corpora whose tokens agree on which are equal, as texts and their interned ids do. */
  ghost predicate SameShape<S(!new), T(!new)>(c: Corpus<S>, d: Corpus<T>) {
    && c.pkgs == d.pkgs && |c.streams| == |d.streams|
    && (forall f :: 0 <= f < |c.streams| ==> |c.streams[f]| == |d.streams[f]|)
    && forall f, i, g, j ::
      0 <= f < |c.streams| && 0 <= i < |c.streams[f]| && 0 <= g < |c.streams| && 0 <= j < |c.streams[g]| ==>
      (c.streams[f][i] == c.streams[g][j] <==> d.streams[f][i] == d.streams[g][j])
  }

  lemma {:induction false} SameWindows<S(!new), T(!new)>(c: Corpus<S>, d: Corpus<T>, p: Place, q: Place)
    requires SameShape(c, d) && IsWindow(c, p) && IsWindow(c, q)
    ensures IsWindow(d, p) && IsWindow(d, q)
    ensures WindowAt(c, p) == WindowAt(c, q) <==> WindowAt(d, p) == WindowAt(d, q)
  {
    var a, b, x, y := WindowAt(c, p), WindowAt(c, q), WindowAt(d, p), WindowAt(d, q);
    forall k | 0 <= k < WINDOW ensures a[k] == b[k] <==> x[k] == y[k] {
      assert a[k] == c.streams[p.file][p.at + k] && b[k] == c.streams[q.file][q.at + k];
      assert x[k] == d.streams[p.file][p.at + k] && y[k] == d.streams[q.file][q.at + k];
    }
    if a == b { assert x == y; }
    if x == y { assert a == b; }
  }

  lemma {:induction false} SameAlike<S(!new), T(!new)>(c: Corpus<S>, d: Corpus<T>, p: Place)
    requires SameShape(c, d) && IsWindow(c, p)
    ensures IsWindow(d, p) && Alike(c, WindowAt(c, p)) == Alike(d, WindowAt(d, p))
  {
    forall q ensures q in Alike(c, WindowAt(c, p)) <==> q in Alike(d, WindowAt(d, p)) {
      if IsWindow(c, q) { SameWindows(c, d, p, q); }
    }
  }

  /** Matching does not see how token texts are numbered. */
  lemma {:induction false} SameMatches<S(!new), T(!new)>(c: Corpus<S>, d: Corpus<T>, p: Place, q: Place)
    requires SameShape(c, d)
    ensures Matches(c, p, q) <==> Matches(d, p, q)
  {
    if IsWindow(c, p) && IsWindow(c, q) {
      SameWindows(c, d, p, q);
      SameAlike(c, d, p);
    }
  }

  lemma {:induction false} SameClones<S(!new), T(!new)>(c: Corpus<S>, d: Corpus<T>)
    requires SameShape(c, d)
    ensures forall r :: IsClone(c, r) <==> IsClone(d, r)
    ensures forall pkg :: ClonedTokens(c, pkg) == ClonedTokens(d, pkg)
  {
    forall p, q ensures Matches(c, p, q) <==> Matches(d, p, q) { SameMatches(c, d, p, q); }
    forall diagonal, at ensures OnDiagonal(c, diagonal, at) <==> OnDiagonal(d, diagonal, at) {}
    forall token ensures Cloned(c, token) <==> Cloned(d, token) {}
  }

  // ---------------------------------------------------------------- reordering the files

  /** `d` is `c` with its files moved: file `f` of `d` is file `from[f]` of `c`, which is moved to `to[from[f]]`. */
  ghost predicate Reordered<T(!new)>(c: Corpus<T>, d: Corpus<T>, from: seq<nat>, to: seq<nat>) {
    && |from| == |to| == |c.streams| == |d.streams|
    && (forall f :: 0 <= f < |from| ==> from[f] < |to| && to[from[f]] == f && d.streams[f] == c.streams[from[f]] &&
                                        PkgOf(d, f) == PkgOf(c, from[f]))
    && forall f :: 0 <= f < |to| ==> to[f] < |from| && from[to[f]] == f
  }

  function Moved(to: seq<nat>, p: Place): Place {
    if p.file < |to| then Place(to[p.file], p.at) else p
  }

  lemma {:induction false} MovedWindow<T(!new)>(c: Corpus<T>, d: Corpus<T>, from: seq<nat>, to: seq<nat>, p: Place)
    requires Reordered(c, d, from, to) && IsWindow(c, p)
    ensures IsWindow(d, Moved(to, p)) && WindowAt(d, Moved(to, p)) == WindowAt(c, p)
    ensures PkgOf(d, Moved(to, p).file) == PkgOf(c, p.file)
  {
    assert from[to[p.file]] == p.file;
  }

  lemma {:induction false} ImageSize(places: set<Place>, to: seq<nat>, from: seq<nat>, image: set<Place>)
    requires forall p :: p in places ==> p.file < |to| && to[p.file] < |from| && from[to[p.file]] == p.file
    requires image == set p | p in places :: Moved(to, p)
    ensures |image| == |places|
    decreases |places|
  {
    if places != {} {
      var p :| p in places;
      var rest := set q | q in places - {p} :: Moved(to, q);
      ImageSize(places - {p}, to, from, rest);
      assert image == rest + {Moved(to, p)};
      forall q | q in places - {p} ensures Moved(to, q) != Moved(to, p) { assert from[to[q.file]] == q.file; }
    }
  }

  lemma {:induction false} MovedAlike<T(!new)>(c: Corpus<T>, d: Corpus<T>, from: seq<nat>, to: seq<nat>, w: seq<T>)
    requires Reordered(c, d, from, to)
    ensures |Alike(d, w)| == |Alike(c, w)|
  {
    var image := set p | p in Alike(c, w) :: Moved(to, p);
    forall q | q in Alike(d, w) ensures q in image {
      var p := Moved(from, q);
      assert to[from[q.file]] == q.file;
      MovedWindow(d, c, to, from, q);
      assert p in Alike(c, w) && Moved(to, p) == q;
    }
    forall p | p in Alike(c, w) ensures Moved(to, p) in Alike(d, w) { MovedWindow(c, d, from, to, p); }
    assert image == Alike(d, w);
    ImageSize(Alike(c, w), to, from, image);
  }

  lemma {:induction false} MovedMatches<T(!new)>(c: Corpus<T>, d: Corpus<T>, from: seq<nat>, to: seq<nat>,
                                                 p: Place, q: Place)
    requires Reordered(c, d, from, to) && Matches(c, p, q)
    ensures Matches(d, Moved(to, p), Moved(to, q))
  {
    MovedWindow(c, d, from, to, p);
    MovedWindow(c, d, from, to, q);
    MovedAlike(c, d, from, to, WindowAt(c, p));
    assert from[to[p.file]] == p.file && from[to[q.file]] == q.file;
  }

  lemma {:induction false} MovedCloned<T(!new)>(c: Corpus<T>, d: Corpus<T>, from: seq<nat>, to: seq<nat>, token: Place)
    requires Reordered(c, d, from, to) && Cloned(c, token)
    ensures Cloned(d, Moved(to, token))
  {
    var p, q :| Matches(c, p, q) && InWindow(p, token);
    MovedMatches(c, d, from, to, p, q);
    assert InWindow(Moved(to, p), Moved(to, token));
  }

  /** A package's count is unchanged by any reordering of the files. */
  lemma {:induction false} CountIgnoresFileOrder<T(!new)>(c: Corpus<T>, d: Corpus<T>, from: seq<nat>,
                                                          to: seq<nat>, pkg: string)
    requires Reordered(c, d, from, to)
    ensures |ClonedTokens(d, pkg)| == |ClonedTokens(c, pkg)|
  {
    var image := set t | t in ClonedTokens(c, pkg) :: Moved(to, t);
    forall t | t in ClonedTokens(c, pkg) ensures Moved(to, t) in ClonedTokens(d, pkg) {
      MovedCloned(c, d, from, to, t);
      assert from[to[t.file]] == t.file;
    }
    forall u | u in ClonedTokens(d, pkg) ensures u in image {
      MovedCloned(d, c, to, from, u);
      assert to[from[u.file]] == u.file;
      assert Moved(from, u) in ClonedTokens(c, pkg) && Moved(to, Moved(from, u)) == u;
    }
    assert image == ClonedTokens(d, pkg);
    ImageSize(ClonedTokens(c, pkg), to, from, image);
  }
}
