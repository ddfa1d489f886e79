/**
 * How a CI runner's CPUs are split between the servers under test and the load generator: by physical core, never
 * across one. A core is named by its least allowed CPU; the split is shown to be the only one with the properties
 * it promises.
 */
module Cores {
  import opened Collections

  predicate IntLe(a: int, b: int) { a <= b }

  /** `Math.min(first, ...others)`. */
  function LeastOf(first: int, others: seq<int>): (m: int)
    ensures m <= first && (m == first || m in others) && forall o :: o in others ==> m <= o
  {
    if others == [] then first
    else
      assert others == [others[0]] + others[1..];
      var m := LeastOf(first, others[1..]);
      if others[0] < m then others[0] else m
  }

  function Permitted(cpus: seq<int>, allowed: seq<int>): (r: seq<int>)
    ensures forall c :: c in r <==> c in cpus && c in allowed
  {
    if cpus == [] then []
    else if cpus[0] in allowed then [cpus[0]] + Permitted(cpus[1..], allowed)
    else Permitted(cpus[1..], allowed)
  }

  /** The core a CPU sits on, by its least allowed sibling. */
  function CoreOf(cpu: int, allowed: seq<int>, siblingsOf: int -> seq<int>): int {
    LeastOf(cpu, Permitted(siblingsOf(cpu), allowed))
  }

  datatype CoreSplit = CoreSplit(server: seq<int>, load: seq<int>, cores: nat)

  function CoresOf(cpus: seq<int>, core: int -> int): set<int> { set c | c in cpus :: core(c) }

  /** Core by core, and on a core CPU by CPU. */
  predicate Before(a: int, b: int, core: int -> int) { core(a) < core(b) || (core(a) == core(b) && a < b) }

  predicate InOrder(cpus: seq<int>, core: int -> int) {
    forall i, j :: 0 <= i < j < |cpus| ==> Before(cpus[i], cpus[j], core)
  }

  predicate SameCpus(a: seq<int>, b: seq<int>) { (forall c :: c in a ==> c in b) && (forall c :: c in b ==> c in a) }

  // ---------------------------------------------------------------- groups

  /** The allowed CPUs seen so far on one core, ascending. */
  predicate IsGroup(group: seq<int>, k: int, seen: seq<int>, core: int -> int) {
    && InOrder(group, core)
    && (forall c :: c in group ==> c in seen && core(c) == k)
    && (forall c :: c in seen && core(c) == k ==> c in group)
  }

  ghost predicate AreGroups(byCore: map<int, seq<int>>, order: seq<int>, seen: seq<int>, core: int -> int) {
    && Distinct(order)
    && (forall k :: k in order <==> k in byCore)
    && (forall c :: c in seen ==> core(c) in byCore)
    && (forall k :: k in byCore ==> byCore[k] != [] && IsGroup(byCore[k], k, seen, core))
  }

  /** The CPUs of some cores in turn. */
  function Flat(keys: seq<int>, byCore: map<int, seq<int>>): seq<int>
    requires forall k :: k in keys ==> k in byCore
  {
    if keys == [] then []
    else
      var last := keys[|keys| - 1];
      assert last in keys;
      Flat(keys[..|keys| - 1], byCore) + byCore[last]
  }

  /** One turn of the grouping loop. */
  method PutInGroup(byCore: map<int, seq<int>>, order: seq<int>, cpu: int, ghost seen: seq<int>, core: int -> int)
    returns (after: map<int, seq<int>>, keys: seq<int>)
    requires AreGroups(byCore, order, seen, core) && forall c :: c in seen ==> c <= cpu
    ensures AreGroups(after, keys, seen + [cpu], core)
  {
    var k := core(cpu);
    var group := GetOr(byCore, k, []);
    if cpu !in group { group := group + [cpu]; }
    after := byCore[k := group];
    keys := if k in byCore then order else order + [k];
  }

  method SplitCores(allowed: seq<int>, siblingsOf: int -> seq<int>) returns (r: Option<CoreSplit>)
    ensures var core := (c: int) => CoreOf(c, allowed, siblingsOf);
      && (r.None? <==> |CoresOf(allowed, core)| < 2)
      && (r.Some? ==> IsSplit(r.value, allowed, core))
  {
    var core := (c: int) => CoreOf(c, allowed, siblingsOf);
    IntLeIsTotal();
    var cpus := Sort(IntLe, allowed);
    var byCore, order := map[], [];
    for i := 0 to |cpus|
      invariant AreGroups(byCore, order, cpus[..i], core)
    {
      byCore, order := PutInGroup(byCore, order, cpus[i], cpus[..i], core);
      assert cpus[..i + 1] == cpus[..i] + [cpus[i]];
    }
    assert cpus[..|cpus|] == cpus;
    r := SplitGroups(byCore, order, allowed, cpus, core);
  }

  /** The groups in order of their cores, cut in half. */
  method SplitGroups(byCore: map<int, seq<int>>, order: seq<int>, ghost allowed: seq<int>, ghost seen: seq<int>,
                     core: int -> int)
    returns (r: Option<CoreSplit>)
    requires AreGroups(byCore, order, seen, core) && multiset(seen) == multiset(allowed)
    ensures r.None? <==> |CoresOf(allowed, core)| < 2
    ensures r.Some? ==> IsSplit(r.value, allowed, core)
  {
    IntLeIsTotal();
    var keys := Sort(IntLe, order);
    SortedKeys(keys, order, byCore, seen, allowed, core);
    if |keys| < 2 { return None; }
    var half := |keys| / 2;
    assert keys == keys[..half] + keys[half..];
    r := Some(CoreSplit(Flat(keys[..half], byCore), Flat(keys[half..], byCore), |keys|));
    HalvesSplit(keys, half, byCore, seen, allowed, core);
  }

  /**
   * The whole split: the two lists are the allowed CPUs in order of their cores, each once, and the servers' are those
   * of the first half of the cores, rounded down.
   */
  ghost predicate IsSplit(s: CoreSplit, allowed: seq<int>, core: int -> int) {
    && SameCpus(s.server + s.load, allowed) && InOrder(s.server + s.load, core)
    && s.cores == |CoresOf(allowed, core)|
    && |CoresOf(s.server, core)| == s.cores / 2 && |CoresOf(s.load, core)| == (s.cores + 1) / 2
    && forall a, b :: a in s.server && b in s.load ==> core(a) < core(b)
  }

  lemma {:induction false} IntLeIsTotal()
    ensures TotalOrder(IntLe)
  {
    assert forall x, y :: Le(IntLe, x, y) <==> x <= y;
  }

  ghost predicate Ascending(keys: seq<int>) { forall i, j :: 0 <= i < j < |keys| ==> keys[i] < keys[j] }

  lemma {:induction false} SameElements(a: seq<int>, b: seq<int>)
    requires multiset(a) == multiset(b)
    ensures forall x :: x in a <==> x in b
  {
    forall x ensures x in a <==> x in b {
      assert x in a <==> x in multiset(a);
    }
  }

  lemma {:induction false} SortedKeys(keys: seq<int>, order: seq<int>, byCore: map<int, seq<int>>,
                                      seen: seq<int>, allowed: seq<int>,
                                      core: int -> int)
    requires AreGroups(byCore, order, seen, core) && multiset(seen) == multiset(allowed)
    requires Sorted(IntLe, keys) && multiset(keys) == multiset(order)
    ensures Ascending(keys) && (forall k :: k in keys <==> k in byCore)
    ensures |CoresOf(allowed, core)| == |keys|
  {
    DistinctRearranged(order, keys);
    SameElements(keys, order);
    SameElements(seen, allowed);
    DistinctSize(keys);
    var cores := set k | k in keys;
    forall k | k in keys ensures k in CoresOf(allowed, core) {
      var c := byCore[k][0];
      assert IsGroup(byCore[k], k, seen, core) && c in byCore[k];
      assert c in allowed && core(c) == k;
    }
    assert cores == CoresOf(allowed, core);
  }

  lemma {:induction false} FlatHolds(keys: seq<int>, byCore: map<int, seq<int>>, seen: seq<int>, order: seq<int>,
                                     core: int -> int)
    requires AreGroups(byCore, order, seen, core) && forall k :: k in keys ==> k in byCore
    ensures forall c :: c in Flat(keys, byCore) <==> c in seen && core(c) in keys
  {
    if keys != [] {
      var front, last := keys[..|keys| - 1], keys[|keys| - 1];
      FlatHolds(front, byCore, seen, order, core);
      assert IsGroup(byCore[last], last, seen, core);
      assert keys == front + [last];
    }
  }

  lemma {:induction false} FlatInOrder(keys: seq<int>, byCore: map<int, seq<int>>, seen: seq<int>,
                                       order: seq<int>, core: int -> int)
    requires AreGroups(byCore, order, seen, core) && Ascending(keys) && forall k :: k in keys ==> k in byCore
    ensures InOrder(Flat(keys, byCore), core)
  {
    if keys != [] {
      var front, last := keys[..|keys| - 1], keys[|keys| - 1];
      FlatInOrder(front, byCore, seen, order, core);
      FlatHolds(front, byCore, seen, order, core);
      assert IsGroup(byCore[last], last, seen, core);
      OrderJoins(Flat(front, byCore), byCore[last], core);
    }
  }

  lemma {:induction false} OrderJoins(a: seq<int>, b: seq<int>, core: int -> int)
    requires InOrder(a, core) && InOrder(b, core)
    requires forall x, y :: x in a && y in b ==> core(x) < core(y)
    ensures InOrder(a + b, core)
  {
    forall i, j | 0 <= i < j < |a + b| ensures Before((a + b)[i], (a + b)[j], core) {
      assert i < |a| ==> (a + b)[i] in a;
      assert j >= |a| ==> (a + b)[j] in b;
    }
  }

  /** The cores of the CPUs of some groups are the groups' keys. */
  lemma {:induction false} FlatCores(keys: seq<int>, byCore: map<int, seq<int>>, seen: seq<int>, order: seq<int>,
                                     core: int -> int)
    requires AreGroups(byCore, order, seen, core) && Ascending(keys) && forall k :: k in keys ==> k in byCore
    ensures |CoresOf(Flat(keys, byCore), core)| == |keys|
  {
    FlatHolds(keys, byCore, seen, order, core);
    forall k | k in keys ensures k in CoresOf(Flat(keys, byCore), core) {
      var c := byCore[k][0];
      assert IsGroup(byCore[k], k, seen, core) && c in byCore[k];
      assert c in Flat(keys, byCore) && core(c) == k;
    }
    assert (set k | k in keys) == CoresOf(Flat(keys, byCore), core);
    DistinctSize(keys);
  }

  lemma {:induction false} HalvesSplit(keys: seq<int>, half: nat, byCore: map<int, seq<int>>, seen: seq<int>,
                                       allowed: seq<int>,
                                       core: int -> int)
    requires exists order :: AreGroups(byCore, order, seen, core)
    requires multiset(seen) == multiset(allowed) && Ascending(keys) && forall k :: k in keys <==> k in byCore
    requires half == |keys| / 2 && |CoresOf(allowed, core)| == |keys|
    ensures (forall k :: k in keys[..half] ==> k in byCore) && forall k :: k in keys[half..] ==> k in byCore
    ensures IsSplit(CoreSplit(Flat(keys[..half], byCore), Flat(keys[half..], byCore), |keys|), allowed, core)
  {
    var order :| AreGroups(byCore, order, seen, core);
    var low, high := keys[..half], keys[half..];
    assert keys == low + high;
    FlatHolds(low, byCore, seen, order, core);
    FlatHolds(high, byCore, seen, order, core);
    FlatInOrder(low, byCore, seen, order, core);
    FlatInOrder(high, byCore, seen, order, core);
    FlatCores(low, byCore, seen, order, core);
    FlatCores(high, byCore, seen, order, core);
    SameElements(seen, allowed);
    OrderJoins(Flat(low, byCore), Flat(high, byCore), core);
  }

  // ---------------------------------------------------------------- what a split means

  /** Hyperthread siblings, as an equivalence on the allowed CPUs. */
  ghost predicate SiblingsAgree(allowed: seq<int>, siblingsOf: int -> seq<int>) {
    && (forall a :: a in allowed ==> a in siblingsOf(a))
    && (forall a, b :: a in allowed && b in allowed && a in siblingsOf(b) ==> b in siblingsOf(a))
    && forall a, b, c ::
      a in allowed && b in allowed && c in allowed && b in siblingsOf(a) && c in siblingsOf(b) ==> c in siblingsOf(a)
  }

  /** Two allowed CPUs sit on one core exactly when they are siblings. */
  lemma {:induction false} CoreIsSiblings(a: int, b: int, allowed: seq<int>, siblingsOf: int -> seq<int>)
    requires SiblingsAgree(allowed, siblingsOf) && a in allowed && b in allowed
    ensures CoreOf(a, allowed, siblingsOf) == CoreOf(b, allowed, siblingsOf) <==> b in siblingsOf(a)
  {
    var x, y := CoreOf(a, allowed, siblingsOf), CoreOf(b, allowed, siblingsOf);
    assert x in Permitted(siblingsOf(a), allowed) && y in Permitted(siblingsOf(b), allowed);
  }

  lemma {:induction false} OrderIsDistinct(cpus: seq<int>, core: int -> int)
    requires InOrder(cpus, core)
    ensures Distinct(cpus)
  {
    forall i, j | 0 <= i < j < |cpus| ensures cpus[i] != cpus[j] {
      assert Before(cpus[i], cpus[j], core);
    }
  }

  lemma {:induction false} OneSide(s: CoreSplit, allowed: seq<int>, core: int -> int, a: int, b: int)
    requires IsSplit(s, allowed, core) && a in allowed && b in allowed && core(a) == core(b)
    ensures a in s.server <==> b in s.server
    ensures !(a in s.server && a in s.load)
  {
    assert a in s.server + s.load && b in s.server + s.load;
  }

  /** A split is a partition that never parts siblings. */
  lemma {:induction false} SplitParts(s: CoreSplit, allowed: seq<int>, siblingsOf: int -> seq<int>)
    requires SiblingsAgree(allowed, siblingsOf)
    requires IsSplit(s, allowed, (c: int) => CoreOf(c, allowed, siblingsOf))
    ensures Distinct(s.server + s.load) && forall c :: c in allowed <==> (c in s.server || c in s.load)
    ensures forall c :: c in allowed ==> !(c in s.server && c in s.load)
    ensures forall a, b :: a in allowed && b in allowed && b in siblingsOf(a) ==> (a in s.server <==> b in s.server)
  {
    var core := (c: int) => CoreOf(c, allowed, siblingsOf);
    OrderIsDistinct(s.server + s.load, core);
    forall c ensures c in allowed <==> (c in s.server || c in s.load) {
      assert c in s.server + s.load <==> c in allowed;
    }
    forall c | c in allowed ensures !(c in s.server && c in s.load) { OneSide(s, allowed, core, c, c); }
    forall a, b | a in allowed && b in allowed && b in siblingsOf(a) ensures a in s.server <==> b in s.server {
      CoreIsSiblings(a, b, allowed, siblingsOf);
      OneSide(s, allowed, core, a, b);
    }
  }

  lemma {:induction false} EmptyToo(a: seq<int>, b: seq<int>)
    requires SameCpus(a, b)
    ensures a == [] ==> b == []
  {
    if b != [] {
      var c := b[0];
      assert c in b && c in a;
    }
  }

  lemma {:induction false} OneOrder(a: seq<int>, b: seq<int>, core: int -> int)
    requires InOrder(a, core) && InOrder(b, core) && SameCpus(a, b)
    ensures a == b
  {
    EmptyToo(a, b);
    EmptyToo(b, a);
    if a != [] {
      assert a[0] in a && b[0] in b;
      assert a[0] in b && b[0] in a;
      assert a == [a[0]] + a[1..] && b == [b[0]] + b[1..];
      assert forall x :: x in a[1..] ==> Before(a[0], x, core);
      assert forall x :: x in b[1..] ==> Before(b[0], x, core);
      assert a[0] == b[0];
      forall x ensures x in a[1..] <==> x in b[1..] {
        assert x in a <==> x in b;
      }
      OneOrder(a[1..], b[1..], core);
    }
  }

  /** Cutting later takes more cores. */
  lemma {:induction false} LaterCut(s: CoreSplit, t: CoreSplit, allowed: seq<int>, core: int -> int)
    requires IsSplit(s, allowed, core) && IsSplit(t, allowed, core) && s.server + s.load == t.server + t.load
    ensures |t.server| <= |s.server|
  {
    if |s.server| < |t.server| {
      var n, whole := |s.server|, s.server + s.load;
      var c := whole[n];
      assert c == s.load[0] && c == t.server[n];
      assert forall i :: 0 <= i < n ==> s.server[i] == whole[i] && whole[i] == t.server[i];
      var more := CoresOf(s.server, core) + {core(c)};
      assert core(c) !in CoresOf(s.server, core);
      assert more <= CoresOf(t.server, core);
      SubsetSize(more, CoresOf(t.server, core));
    }
  }

  /** There is one split of the allowed CPUs. */
  lemma {:induction false} SplitIsUnique(s: CoreSplit, t: CoreSplit, allowed: seq<int>, core: int -> int)
    requires IsSplit(s, allowed, core) && IsSplit(t, allowed, core)
    ensures s == t
  {
    OneOrder(s.server + s.load, t.server + t.load, core);
    LaterCut(s, t, allowed, core);
    LaterCut(t, s, allowed, core);
    assert s.server == (s.server + s.load)[..|s.server|] && s.load == (s.server + s.load)[|s.server|..];
    assert t.server == (t.server + t.load)[..|t.server|] && t.load == (t.server + t.load)[|t.server|..];
  }
}
