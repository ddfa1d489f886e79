/**
 * Following a public name through re-exports to its declaration, and collecting a module's names through star exports:
 * two depth-first searches that share one visited set, over module graphs that may be cyclic. A module's facts and what
 * its specifiers resolve to are given.
 */
module Declarations {
  import opened Collections

  /** Where a name comes from: a specifier, and the name it has there. */
  datatype Origin = Origin(spec: string, original: string)

  /** What one module declares (by statement number), where its other names come from, and what it exports. */
  datatype Facts = Facts(locals: map<string, nat>, from: map<string, Origin>, stars: seq<string>, exported: set<string>)

  /** The modules that exist, and the resolver: the file each specifier of a file names, existing or not. */
  datatype Modules = Modules(facts: map<string, Facts>, resolved: map<(string, string), string>)

  datatype Key = Key(file: string, name: string)
  datatype Found = Found(file: string, statement: nat)

  function Resolve(ms: Modules, file: string, spec: string): Option<string> {
    if (file, spec) in ms.resolved then Some(ms.resolved[(file, spec)]) else None
  }

  /** The declaration a key names outright. */
  function Declared(ms: Modules, k: Key): Option<Found> {
    if k.file in ms.facts && k.name in ms.facts[k.file].locals
    then Some(Found(k.file, ms.facts[k.file].locals[k.name])) else None
  }

  /** The module a name is imported or re-exported from, where its specifier resolves. */
  function NamedOrigin(ms: Modules, k: Key): Option<Key>
    requires k.file in ms.facts
  {
    var from := ms.facts[k.file].from;
    if k.name !in from then None
    else
      var target := Resolve(ms, k.file, from[k.name].spec);
      if target.None? then None else Some(Key(target.value, from[k.name].original))
  }

  /** The search's steps: none from a declaration, one through a named origin, otherwise every resolving `export *`. */
  function Steps(ms: Modules, k: Key): set<Key> {
    if k.file !in ms.facts || Declared(ms, k).Some? then {}
    else if NamedOrigin(ms, k).Some? then {NamedOrigin(ms, k).value}
    else
      set spec | spec in ms.facts[k.file].stars && Resolve(ms, k.file, spec).Some? ::
        Key(Resolve(ms, k.file, spec).value, k.name)
  }

  ghost predicate Reaches(ms: Modules, a: Key, b: Key, n: nat)
    decreases n
  {
    if n == 0 then a == b else exists k :: k in Steps(ms, a) && Reaches(ms, k, b, n - 1)
  }

  ghost predicate Reachable(ms: Modules, a: Key, b: Key) { exists n: nat :: Reaches(ms, a, b, n) }

  /** Every key the search can ask about: finitely many files and names. */
  function Universe(ms: Modules, root: Key): set<Key> {
    var files := ms.facts.Keys + ms.resolved.Values + {root.file};
    var names := (set f, n | f in ms.facts && n in ms.facts[f].from :: ms.facts[f].from[n].original) + {root.name};
    set f, n | f in files && n in names :: Key(f, n)
  }

  ghost predicate ClosedUnder(ms: Modules, keys: set<Key>) {
    forall k :: k in keys ==> Steps(ms, k) <= keys
  }

  lemma {:induction false} UniverseIsClosed(ms: Modules, root: Key)
    ensures ClosedUnder(ms, Universe(ms, root)) && root in Universe(ms, root)
  {
    forall k, next | k in Universe(ms, root) && next in Steps(ms, k) ensures next in Universe(ms, root) {
      if NamedOrigin(ms, k).Some? {
        assert k.name in ms.facts[k.file].from;
        assert (k.file, ms.facts[k.file].from[k.name].spec) in ms.resolved;
      } else {
        var spec :| spec in ms.facts[k.file].stars && Resolve(ms, k.file, spec) == Some(next.file);
        assert (k.file, spec) in ms.resolved;
      }
    }
  }

  // ---------------------------------------------------------------- which declaration is found

  /** A chain of steps that meets no key twice and none of the blocked ones. */
  ghost predicate Trail(ms: Modules, blocked: set<Key>, p: seq<Key>)
    decreases |p|
  {
    && p != [] && p[0] !in blocked
    && (|p| > 1 ==> p[1] in Steps(ms, p[0]) && Trail(ms, blocked + {p[0]}, p[1..]))
  }

  ghost predicate Leads(ms: Modules, blocked: set<Key>, a: Key, p: seq<Key>) {
    Trail(ms, blocked, p) && p[0] == a && Declared(ms, p[|p| - 1]).Some?
  }

  /** Where the first `n` star exports of a module lead. */
  function Starred(ms: Modules, k: Key, n: nat): set<Key>
    requires k.file in ms.facts && n <= |ms.facts[k.file].stars|
  {
    set i | 0 <= i < n && Resolve(ms, k.file, ms.facts[k.file].stars[i]).Some? ::
      Key(Resolve(ms, k.file, ms.facts[k.file].stars[i]).value, k.name)
  }

  /** Some of the first star exports lead to `a`, and none of them to `b`. */
  ghost predicate Sooner(ms: Modules, k: Key, a: Key, b: Key) {
    k.file in ms.facts && exists n :: 0 <= n <= |ms.facts[k.file].stars| && SoonerAt(ms, k, a, b, n)
  }

  predicate SoonerAt(ms: Modules, k: Key, a: Key, b: Key, n: nat)
    requires k.file in ms.facts && n <= |ms.facts[k.file].stars|
  {
    a in Starred(ms, k, n) && b !in Starred(ms, k, n)
  }

  /** At the first key where the trails part, `p` takes the sooner star export. */
  ghost predicate Before(ms: Modules, p: seq<Key>, q: seq<Key>)
    decreases |p|
  {
    |p| > 1 && |q| > 1 && if p[1] == q[1] then Before(ms, p[1..], q[1..]) else Sooner(ms, p[0], p[1], q[1])
  }

  /** The first trail, depth first, from a key to a declaration. */
  ghost predicate IsFirstTrail(ms: Modules, blocked: set<Key>, a: Key, p: seq<Key>) {
    Leads(ms, blocked, a, p) && forall q :: Leads(ms, blocked, a, q) ==> q == p || Before(ms, p, q)
  }

  /** The keys visited since, all but those on the way to the current one, declare nothing and lead nowhere new. */
  ghost predicate DeadEnds(ms: Modules, visited: set<Key>, before: set<Key>) {
    before <= visited && forall k :: k in visited - before ==> Declared(ms, k).None? && Steps(ms, k) <= visited
  }

  /** A trail to a declaration meets no dead end. */
  lemma {:induction false} TrailAvoids(ms: Modules, visited: set<Key>, before: set<Key>, p: seq<Key>)
    requires DeadEnds(ms, visited, before) && Trail(ms, before, p) && Declared(ms, p[|p| - 1]).Some?
    ensures Trail(ms, visited, p)
    decreases |p|
  {
    if |p| > 1 {
      if p[0] in visited {
        InDeadEnds(ms, visited, before, p);
      } else {
        TrailAvoids(ms, visited + {p[0]}, before + {p[0]}, p[1..]);
      }
    }
  }

  lemma {:induction false} InDeadEnds(ms: Modules, visited: set<Key>, before: set<Key>, p: seq<Key>)
    requires DeadEnds(ms, visited, before) && Trail(ms, before, p) && p[0] in visited
    ensures Declared(ms, p[|p| - 1]).None?
    decreases |p|
  {
    if |p| > 1 { InDeadEnds(ms, visited, before + {p[0]}, p[1..]); }
  }

  lemma {:induction false} FewerBlocked(ms: Modules, fewer: set<Key>, blocked: set<Key>, p: seq<Key>)
    requires Trail(ms, blocked, p) && fewer <= blocked
    ensures Trail(ms, fewer, p)
    decreases |p|
  {
    if |p| > 1 { FewerBlocked(ms, fewer + {p[0]}, blocked + {p[0]}, p[1..]); }
  }

  lemma {:induction false} FirstHere(ms: Modules, blocked: set<Key>, k: Key)
    requires Declared(ms, k).Some? && k !in blocked
    ensures IsFirstTrail(ms, blocked, k, [k])
  {
    forall q | Leads(ms, blocked, k, q) ensures q == [k] { assert Steps(ms, k) == {}; }
  }

  /** The first trail through a step that no other live one comes before. */
  lemma {:induction false} FirstThrough(ms: Modules, before: set<Key>, visited: set<Key>, k: Key, next: Key,
                                        p: seq<Key>)
    requires k !in before && next in Steps(ms, k) && DeadEnds(ms, visited, before + {k})
    requires IsFirstTrail(ms, visited, next, p)
    requires forall c :: c in Steps(ms, k) && c !in visited ==> c == next || Sooner(ms, k, next, c)
    ensures IsFirstTrail(ms, before, k, [k] + p)
  {
    var all := [k] + p;
    assert all[1..] == p;
    FewerBlocked(ms, before + {k}, visited, p);
    forall q | Leads(ms, before, k, q) ensures q == all || Before(ms, all, q) {
      assert Steps(ms, k) != {};
      assert |q| > 1 && q == [k] + q[1..];
      TrailAvoids(ms, visited, before + {k}, q[1..]);
      assert q[1] == next ==> Leads(ms, visited, next, q[1..]);
    }
  }

  /** `visited` is the set that every recursive call is handed. */
  class DeclarationSearch {
    const modules: Modules
    ghost const universe: set<Key>
    var visited: set<Key>

    constructor (modules: Modules, ghost universe: set<Key>)
      ensures this.modules == modules && this.universe == universe && visited == {}
    {
      this.modules, this.universe, visited := modules, universe, {};
    }

    /**
     * What is found is what the first trail leads to; without a find, the keys this call was first to visit are dead
     * ends.
     */
    method DeclarationOf(file: string, name: string) returns (found: Option<Found>, ghost trail: seq<Key>)
      requires ClosedUnder(modules, universe) && Key(file, name) in universe
      modifies this
      ensures found.Some? ==> FoundBy(modules, old(visited), Key(file, name), found, trail)
      ensures found.None? ==> Key(file, name) in visited && DeadEnds(modules, visited, old(visited))
      ensures old(visited) <= visited
      decreases universe - visited, 1
    {
      var key := Key(file, name);
      trail := [key];
      if key in visited { return None, trail; }
      ghost var before := visited;
      visited := visited + {key};
      if file !in modules.facts { return None, trail; }
      var facts := modules.facts[file];
      if name in facts.locals {
        FirstHere(modules, before, key);
        return Some(Found(file, facts.locals[name])), trail;
      }
      if name in facts.from {
        var target := Resolve(modules, file, facts.from[name].spec);
        if target.Some? {
          var next := Key(target.value, facts.from[name].original);
          assert next in Steps(modules, key);
          found, trail := DeclarationOf(next.file, next.name);
          if found.Some? { FirstThrough(modules, before, before + {key}, key, next, trail); }
          trail := [key] + trail;
          return;
        }
      }
      found, trail := ThroughStars(key, before);
    }

    /** The loop over a module's star exports. */
    method ThroughStars(key: Key, ghost before: set<Key>) returns (found: Option<Found>, ghost trail: seq<Key>)
      requires ClosedUnder(modules, universe) && key in universe && key !in before && visited == before + {key}
      requires key.file in modules.facts && Declared(modules, key).None? && NamedOrigin(modules, key).None?
      modifies this
      ensures found.Some? ==> FoundBy(modules, before, key, found, trail)
      ensures found.None? ==> DeadEnds(modules, visited, before)
      ensures old(visited) <= visited
      decreases universe - visited, 2
    {
      var stars := modules.facts[key.file].stars;
      trail := [key];
      for i := 0 to |stars|
        invariant DeadEnds(modules, visited, before + {key}) && Starred(modules, key, i) <= visited
      {
        var target := Resolve(modules, key.file, stars[i]);
        OneStarMore(modules, key, i);
        if target.None? { continue; }
        var next := Key(target.value, key.name);
        ghost var mid := visited;
        found, trail := DeclarationOf(next.file, next.name);
        if found.Some? {
          FirstOfStars(modules, before, mid, key, i, trail);
          trail := [key] + trail;
          return;
        }
      }
      assert Starred(modules, key, |stars|) == Steps(modules, key);
      found := None;
    }
  }

  /** The declaration at the end of the first trail. */
  ghost predicate FoundBy(ms: Modules, blocked: set<Key>, a: Key, found: Option<Found>, p: seq<Key>) {
    IsFirstTrail(ms, blocked, a, p) && Declared(ms, p[|p| - 1]) == found
  }

  lemma {:induction false} OneStarMore(ms: Modules, k: Key, i: nat)
    requires k.file in ms.facts && i < |ms.facts[k.file].stars|
    ensures
      var target := Resolve(ms, k.file, ms.facts[k.file].stars[i]);
      Starred(ms, k, i + 1) ==
        Starred(ms, k, i) + if target.Some? then {Key(target.value, k.name)} else {}
    ensures Declared(ms, k).None? && NamedOrigin(ms, k).None? ==> Starred(ms, k, i + 1) <= Steps(ms, k)
  {
  }

  lemma {:induction false} FirstOfStars(ms: Modules, before: set<Key>, visited: set<Key>, k: Key, i: nat,
                                        p: seq<Key>)
    requires k.file in ms.facts && i < |ms.facts[k.file].stars| && Resolve(ms, k.file, ms.facts[k.file].stars[i]).Some?
    requires Declared(ms, k).None? && NamedOrigin(ms, k).None? && k !in before
    requires DeadEnds(ms, visited, before + {k}) && Starred(ms, k, i) <= visited
    requires IsFirstTrail(ms, visited, Key(Resolve(ms, k.file, ms.facts[k.file].stars[i]).value, k.name), p)
    ensures IsFirstTrail(ms, before, k, [k] + p)
  {
    var next := Key(Resolve(ms, k.file, ms.facts[k.file].stars[i]).value, k.name);
    OneStarMore(ms, k, i);
    forall c | c in Steps(ms, k) && c !in visited && c != next ensures Sooner(ms, k, next, c) {
      assert SoonerAt(ms, k, next, c, i + 1);
    }
    FirstThrough(ms, before, visited, k, next, p);
  }

  lemma {:induction false} NothingBeyond(ms: Modules, keys: set<Key>, a: Key, b: Key, n: nat)
    requires ClosedUnder(ms, keys) && a in keys && Reaches(ms, a, b, n)
    ensures b in keys
    decreases n
  {
    if n > 0 {
      var k :| k in Steps(ms, a) && Reaches(ms, k, b, n - 1);
      NothingBeyond(ms, keys, k, b, n - 1);
    }
  }

  lemma {:induction false} TrailReaches(ms: Modules, blocked: set<Key>, p: seq<Key>)
    requires Trail(ms, blocked, p)
    ensures Reaches(ms, p[0], p[|p| - 1], |p| - 1)
    decreases |p|
  {
    if |p| > 1 { TrailReaches(ms, blocked + {p[0]}, p[1..]); }
  }

  /**
   * A declaration is found exactly when one is reachable, cyclic re-exports or not, and it is the one at the end of the
   * first trail: no other trail to a declaration takes a sooner star export where the two part.
   */
  method FindDeclaration(ms: Modules, file: string, name: string) returns (found: Option<Found>)
    ensures found.Some? <==> exists k :: Reachable(ms, Key(file, name), k) && Declared(ms, k).Some?
    ensures found.Some? ==> exists trail :: FoundBy(ms, {}, Key(file, name), found, trail)
  {
    var root := Key(file, name);
    UniverseIsClosed(ms, root);
    var search := new DeclarationSearch(ms, Universe(ms, root));
    ghost var trail;
    found, trail := search.DeclarationOf(file, name);
    if found.Some? {
      TrailReaches(ms, {}, trail);
      assert Reachable(ms, root, trail[|trail| - 1]);
    } else {
      forall k | Reachable(ms, root, k) ensures Declared(ms, k).None? {
        var n: nat :| Reaches(ms, root, k, n);
        NothingBeyond(ms, search.visited, root, k, n);
      }
    }
  }

  /** There is one first trail, so one answer. */
  lemma {:induction false} OneFirstTrail(ms: Modules, blocked: set<Key>, a: Key, p: seq<Key>, q: seq<Key>)
    requires IsFirstTrail(ms, blocked, a, p) && IsFirstTrail(ms, blocked, a, q)
    ensures p == q
  {
    if p != q { PartOnce(ms, p, q); }
  }

  lemma {:induction false} PartOnce(ms: Modules, p: seq<Key>, q: seq<Key>)
    requires Before(ms, p, q) && p[0] == q[0]
    ensures !Before(ms, q, p)
    decreases |p|
  {
    if p[1] == q[1] {
      PartOnce(ms, p[1..], q[1..]);
    } else {
      SoonerOnce(ms, p[0], p[1], q[1]);
    }
  }

  lemma {:induction false} SoonerOnce(ms: Modules, k: Key, a: Key, b: Key)
    requires Sooner(ms, k, a, b)
    ensures !Sooner(ms, k, b, a)
  {
    var n :| 0 <= n <= |ms.facts[k.file].stars| && SoonerAt(ms, k, a, b, n);
    forall m | 0 <= m <= |ms.facts[k.file].stars| ensures !SoonerAt(ms, k, b, a, m) {
      assert m <= n ==> Starred(ms, k, m) <= Starred(ms, k, n);
      assert n <= m ==> Starred(ms, k, n) <= Starred(ms, k, m);
    }
  }

  // ---------------------------------------------------------------- exported names

  function StarTargets(ms: Modules, file: string): set<string> {
    if file !in ms.facts then {}
    else set spec | spec in ms.facts[file].stars && Resolve(ms, file, spec).Some? :: Resolve(ms, file, spec).value
  }

  function ExportedBy(ms: Modules, file: string): set<string> {
    if file in ms.facts then ms.facts[file].exported else {}
  }

  ghost predicate StarReaches(ms: Modules, a: string, b: string, n: nat)
    decreases n
  {
    if n == 0 then a == b else exists f :: f in StarTargets(ms, a) && StarReaches(ms, f, b, n - 1)
  }

  ghost predicate StarReachable(ms: Modules, a: string, b: string) { exists n: nat :: StarReaches(ms, a, b, n) }

  lemma {:induction false} StarReachableBefore(ms: Modules, a: string, next: string, b: string)
    requires next in StarTargets(ms, a) && StarReachable(ms, next, b)
    ensures StarReachable(ms, a, b)
  {
    var n: nat :| StarReaches(ms, next, b, n);
    assert StarReaches(ms, a, b, n + 1);
  }

  ghost function NamesOf(ms: Modules, files: set<string>): set<string> {
    set f, n | f in files && n in ExportedBy(ms, f) :: n
  }

  class ExportSearch {
    const modules: Modules
    ghost const universe: set<string>
    var visited: set<string>

    constructor (modules: Modules, ghost universe: set<string>)
      ensures this.modules == modules && this.universe == universe && visited == {}
    {
      this.modules, this.universe, visited := modules, universe, {};
    }

    ghost predicate Gathered(root: string, before: set<string>, except: set<string>, names: set<string>)
      reads this
    {
      && before <= visited && names == NamesOf(modules, visited - before)
      && (forall f :: f in visited - before ==> StarReachable(modules, root, f))
      && forall f :: f in visited - before - except ==> StarTargets(modules, f) <= visited
    }

    /** A call gathers the names of the modules it is the first to visit, all of them star-reachable from its own. */
    method ExportedNamesOf(file: string) returns (names: set<string>)
      requires file in universe && modules.resolved.Values <= universe
      modifies this
      ensures file in visited && Gathered(file, old(visited), {}, names)
      decreases universe - visited
    {
      names := {};
      if file in visited { return; }
      assert StarReaches(modules, file, file, 0);
      visited := visited + {file};
      assert visited - old(visited) == {file};
      assert NamesOf(modules, {file}) == ExportedBy(modules, file);
      if file !in modules.facts { return; }
      var facts := modules.facts[file];
      names := names + facts.exported;
      for i := 0 to |facts.stars|
        invariant file in visited && file !in old(visited) && Gathered(file, old(visited), {file}, names)
        invariant forall s :: s in facts.stars[..i] && Resolve(modules, file, s).Some? ==>
          Resolve(modules, file, s).value in visited
      {
        var spec := facts.stars[i];
        assert facts.stars[..i + 1] == facts.stars[..i] + [spec];
        var target := Resolve(modules, file, spec);
        if target.Some? {
          ghost var mid := visited;
          assert target.value in StarTargets(modules, file) && (file, spec) in modules.resolved;
          var more := ExportedNamesOf(target.value);
          names := names + more;
          assert visited - old(visited) == (mid - old(visited)) + (visited - mid);
          forall f | f in visited - mid ensures StarReachable(modules, file, f) {
            StarReachableBefore(modules, file, target.value, f);
          }
        }
      }
      assert facts.stars[..|facts.stars|] == facts.stars;
    }
  }

  lemma {:induction false} NoFileBeyond(ms: Modules, files: set<string>, a: string, b: string, n: nat)
    requires a in files && (forall f :: f in files ==> StarTargets(ms, f) <= files) && StarReaches(ms, a, b, n)
    ensures b in files
    decreases n
  {
    if n > 0 {
      var f :| f in StarTargets(ms, a) && StarReaches(ms, f, b, n - 1);
      NoFileBeyond(ms, files, f, b, n - 1);
    }
  }

  /** At the root, the names are the union of what every star-reachable module exports. */
  method AllExportedNames(ms: Modules, file: string) returns (names: set<string>)
    ensures forall n :: n in names <==> exists f :: StarReachable(ms, file, f) && n in ExportedBy(ms, f)
  {
    var search := new ExportSearch(ms, ms.resolved.Values + {file});
    names := search.ExportedNamesOf(file);
    forall f ensures StarReachable(ms, file, f) <==> f in search.visited {
      if StarReachable(ms, file, f) {
        var n: nat :| StarReaches(ms, file, f, n);
        NoFileBeyond(ms, search.visited, file, f, n);
      }
    }
  }
}
