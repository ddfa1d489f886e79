/**
 * Shared vocabulary: optional values, and the library sort as a stable insertion sort under a total order. The order of
 * strings is by character. A sort is used through what it promises, sorted and the same elements, and through the lemma
 * that there is only one such sequence, so results that are sorted at the end forget the order they were gathered in.
 */
module Collections {
  datatype Option<+T> = None | Some(value: T)

  /** The record a lookup falls back from: `record[key] ?? fallback`. */
  function GetOr<K, V>(m: map<K, V>, key: K, fallback: V): V {
    if key in m then m[key] else fallback
  }

  /** Naming a comparison is what lets the quantifiers of `TotalOrder` fire, and only there. */
  predicate Le<T>(le: (T, T) -> bool, x: T, y: T) { le(x, y) }

  ghost predicate TotalOrder<T(!new)>(le: (T, T) -> bool) {
    && (forall x, y :: Le(le, x, y) || Le(le, y, x))
    && (forall x, y :: Le(le, x, y) && Le(le, y, x) ==> x == y)
    && (forall x, y, z :: Le(le, x, y) && Le(le, y, z) ==> Le(le, x, z))
  }

  ghost predicate Sorted<T>(le: (T, T) -> bool, s: seq<T>) {
    forall i, j :: 0 <= i < j < |s| ==> le(s[i], s[j])
  }

  ghost predicate Distinct<T>(s: seq<T>) {
    forall i, j :: 0 <= i < j < |s| ==> s[i] != s[j]
  }

  function Insert<T(!new)>(le: (T, T) -> bool, x: T, s: seq<T>): (r: seq<T>)
    requires TotalOrder(le) && Sorted(le, s)
    ensures Sorted(le, r) && multiset(r) == multiset([x]) + multiset(s) && |r| == |s| + 1
  {
    if s == [] then [x]
    else if le(x, s[0]) then
      assert forall y :: y in s ==> le(x, y) by {
        forall y | y in s ensures le(x, y) {
          assert Le(le, x, s[0]) && Le(le, s[0], s[0]);
          assert Le(le, s[0], y);
          assert Le(le, x, y);
        }
      }
      [x] + s
    else
      assert s == [s[0]] + s[1..];
      var rest := Insert(le, x, s[1..]);
      assert forall i :: 0 <= i < |rest| ==> le(s[0], rest[i]) by {
        assert Le(le, s[0], x) || Le(le, x, s[0]);
        forall i | 0 <= i < |rest| ensures le(s[0], rest[i]) {
          assert rest[i] in multiset(rest);
          assert rest[i] == x || rest[i] in s[1..];
        }
      }
      [s[0]] + rest
  }

  function Sort<T(!new)>(le: (T, T) -> bool, s: seq<T>): (r: seq<T>)
    requires TotalOrder(le)
    ensures Sorted(le, r) && multiset(r) == multiset(s) && |r| == |s|
  {
    if s == [] then []
    else
      assert s == [s[0]] + s[1..];
      Insert(le, s[0], Sort(le, s[1..]))
  }

  lemma SortedHeadIsLeast<T(!new)>(le: (T, T) -> bool, a: seq<T>, x: T)
    requires TotalOrder(le) && Sorted(le, a) && x in a
    ensures le(a[0], x)
  {
    assert Le(le, a[0], a[0]);
  }

  /** A sequence has one sorted arrangement, so whatever order its elements were pushed in is forgotten. */
  lemma {:induction false} SortedUnique<T(!new)>(le: (T, T) -> bool, a: seq<T>, b: seq<T>)
    requires TotalOrder(le) && Sorted(le, a) && Sorted(le, b) && multiset(a) == multiset(b)
    ensures a == b
  {
    assert |multiset(a)| == |multiset(b)|;
    if a != [] {
      SameHead(le, a, b);
      WithoutHead(a);
      WithoutHead(b);
      SortedUnique(le, a[1..], b[1..]);
    }
  }

  lemma {:induction false} SameHead<T(!new)>(le: (T, T) -> bool, a: seq<T>, b: seq<T>)
    requires TotalOrder(le) && Sorted(le, a) && Sorted(le, b) && multiset(a) == multiset(b) && a != [] && b != []
    ensures a[0] == b[0]
  {
    assert a[0] in multiset(b) && b[0] in multiset(a);
    SortedHeadIsLeast(le, a, b[0]);
    SortedHeadIsLeast(le, b, a[0]);
    assert Le(le, a[0], b[0]) && Le(le, b[0], a[0]);
  }

  lemma {:induction false} WithoutHead<T>(s: seq<T>)
    requires s != []
    ensures s == [s[0]] + s[1..] && multiset(s[1..]) == multiset(s) - multiset{s[0]}
  {
    assert s == [s[0]] + s[1..];
  }

  lemma SortForgetsOrder<T(!new)>(le: (T, T) -> bool, a: seq<T>, b: seq<T>)
    requires TotalOrder(le) && multiset(a) == multiset(b)
    ensures Sort(le, a) == Sort(le, b)
  {
    SortedUnique(le, Sort(le, a), Sort(le, b));
  }

  /** `codeUnitOrder`: lexicographic by character. */
  predicate StringLe(a: string, b: string) {
    a == [] || (b != [] && (a[0] < b[0] || (a[0] == b[0] && StringLe(a[1..], b[1..]))))
  }

  lemma {:induction false} StringLeTransitive(a: string, b: string, c: string)
    requires StringLe(a, b) && StringLe(b, c)
    ensures StringLe(a, c)
  {
    if a != [] && a[0] == b[0] == c[0] {
      StringLeTransitive(a[1..], b[1..], c[1..]);
    }
  }

  lemma {:induction false} StringLeAntisymmetric(a: string, b: string)
    requires StringLe(a, b) && StringLe(b, a)
    ensures a == b
  {
    if a != [] {
      StringLeAntisymmetric(a[1..], b[1..]);
      assert a == [a[0]] + a[1..] && b == [b[0]] + b[1..];
    }
  }

  lemma {:induction false} StringLeConnected(a: string, b: string)
    ensures StringLe(a, b) || StringLe(b, a)
  {
    if a != [] && b != [] && a[0] == b[0] {
      StringLeConnected(a[1..], b[1..]);
    }
  }

  lemma StringLeIsTotal()
    ensures TotalOrder(StringLe)
  {
    forall a: string, b: string ensures Le(StringLe, a, b) || Le(StringLe, b, a) { StringLeConnected(a, b); }
    forall a: string, b: string | Le(StringLe, a, b) && Le(StringLe, b, a) ensures a == b {
      StringLeAntisymmetric(a, b);
    }
    forall a: string, b: string, c: string | Le(StringLe, a, b) && Le(StringLe, b, c) ensures Le(StringLe, a, c) {
      StringLeTransitive(a, b, c);
    }
  }

  /** `sort(codeUnitOrder)`. */
  function SortStrings(s: seq<string>): (r: seq<string>)
    ensures multiset(r) == multiset(s) && |r| == |s|
    ensures TotalOrder(StringLe) && Sorted(StringLe, r)
  {
    StringLeIsTotal();
    Sort(StringLe, s)
  }

  /** The elements of a sequence without repeats are as many as its length. */
  lemma {:induction false} DistinctSize<T>(s: seq<T>)
    requires Distinct(s)
    ensures |set x | x in s| == |s|
  {
    if s != [] {
      DistinctSize(s[1..]);
      assert (set x | x in s) == {s[0]} + (set x | x in s[1..]);
    }
  }

  lemma {:induction false} DistinctOnceEach<T>(s: seq<T>)
    requires Distinct(s)
    ensures forall x :: x in s ==> multiset(s)[x] == 1
  {
    if s != [] {
      DistinctOnceEach(s[1..]);
      assert s == [s[0]] + s[1..] && s[0] !in s[1..];
    }
  }

  lemma {:induction false} OnceEachIsDistinct<T>(s: seq<T>)
    requires forall t :: t in s ==> multiset(s)[t] == 1
    ensures Distinct(s)
  {
    forall i, j | 0 <= i < j < |s| ensures s[i] != s[j] {
      assert s == s[..j] + s[j..];
      assert s[i] == s[..j][i] && s[j] == s[j..][0];
      assert multiset(s)[s[i]] == multiset(s[..j])[s[i]] + multiset(s[j..])[s[i]];
      assert s[i] == s[j] ==> multiset(s)[s[i]] >= 2;
    }
  }

  /** Rearranging a sequence without repeats makes none. */
  lemma {:induction false} DistinctRearranged<T>(s: seq<T>, r: seq<T>)
    requires Distinct(s) && multiset(r) == multiset(s)
    ensures Distinct(r)
  {
    DistinctOnceEach(s);
    assert forall x :: x in r ==> x in multiset(s);
    OnceEachIsDistinct(r);
  }

  lemma {:induction false} SubsetSize<T>(a: set<T>, b: set<T>)
    requires a <= b
    ensures |a| <= |b|
  {
    assert b == a + (b - a);
  }
}
