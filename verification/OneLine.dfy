/**
 * How a type node is put on one line: comments are removed and the separators left out are inserted, one edit after
 * another from right to left. Proved to be the same as making all the edits at once on the text as it was, where an
 * insertion comes before the character at its offset and an edit is independent of all the others.
 */
module OneLine {
  import opened Collections

  /** A removal of text[from..to], or an insertion at `from == to`. */
  datatype Edit = Edit(from: nat, to: nat, text: string)

  predicate IsInsertion(e: Edit) { e.from == e.to }

  predicate InText(e: Edit, source: string) { e.from <= e.to <= |source| && (!IsInsertion(e) ==> e.text == "") }

  /**
   * Two edits of the syntax tree: comments do not overlap or hold a member's end, and no two members end at one
   * offset.
   */
  predicate Apart(a: Edit, b: Edit) {
    if IsInsertion(a) && IsInsertion(b) then a.from != b.from
    else if IsInsertion(a) then a.from <= b.from || b.to <= a.from
    else if IsInsertion(b) then b.from <= a.from || a.to <= b.from
    else a.to <= b.from || b.to <= a.from
  }

  ghost predicate Independent(edits: seq<Edit>, source: string) {
    && Distinct(edits) && (forall e :: e in edits ==> InText(e, source))
    && forall a, b :: a in edits && b in edits && a != b ==> Apart(a, b)
  }

  // ---------------------------------------------------------------- all at once

  predicate Removed(edits: set<Edit>, at: nat) { exists e :: e in edits && e.from <= at < e.to }

  /** What is inserted at an offset. */
  ghost function Inserted(edits: set<Edit>, at: nat): string {
    if i :| i in edits && IsInsertion(i) && i.from == at then i.text else ""
  }

  /** The text from an offset on, with every edit made: each offset's insertion, then its character unless removed. */
  ghost function Edited(source: string, edits: set<Edit>, at: nat): string
    requires at <= |source|
    decreases |source| - at, 1
  {
    Inserted(edits, at) + Past(source, edits, at)
  }

  /** The same after the offset's own insertion. */
  ghost function Past(source: string, edits: set<Edit>, at: nat): string
    requires at <= |source|
    decreases |source| - at, 0
  {
    if at == |source| then ""
    else (if Removed(edits, at) then "" else [source[at]]) + Edited(source, edits, at + 1)
  }

  function All(edits: seq<Edit>): set<Edit> { set e | e in edits }

  ghost predicate OneInsertionEach(edits: set<Edit>) {
    forall a, b :: a in edits && b in edits && IsInsertion(a) && IsInsertion(b) && a.from == b.from ==> a == b
  }

  // ---------------------------------------------------------------- one after another

  /** Right to left, a removal before an insertion at the same offset; no two edits tie, so the texts never decide. */
  predicate RightToLeft(a: Edit, b: Edit) {
    if a.from != b.from then a.from > b.from
    else if a.to != b.to then a.to > b.to
    else StringLe(a.text, b.text)
  }

  lemma {:induction false} RightToLeftIsTotal()
    ensures TotalOrder(RightToLeft)
  {
    forall a, b ensures Le(RightToLeft, a, b) || Le(RightToLeft, b, a) { StringLeConnected(a.text, b.text); }
    forall a, b | Le(RightToLeft, a, b) && Le(RightToLeft, b, a)
      ensures a == b
    {
      StringLeAntisymmetric(a.text, b.text);
    }
    forall a, b, c | Le(RightToLeft, a, b) && Le(RightToLeft, b, c) ensures Le(RightToLeft, a, c) {
      if StringLe(a.text, b.text) && StringLe(b.text, c.text) { StringLeTransitive(a.text, b.text, c.text); }
    }
  }

  /**
   * The loop of `oneLine`: every edit's offsets still hold when its turn comes, and the result is that of all at
   * once.
   */
  method ApplyEdits(source: string, edits: seq<Edit>) returns (text: string)
    requires Independent(edits, source)
    ensures text == Edited(source, All(edits), 0)
  {
    RightToLeftIsTotal();
    var sorted := Sort(RightToLeft, edits);
    SortedIndependent(edits, sorted, source);
    text := source;
    NothingEdited(source, 0);
    assert All(sorted[..0]) == {} && source[0..] == source;
    for k := 0 to |sorted|
      invariant text == Edited(source, All(sorted[..k]), 0)
    {
      var e := sorted[k];
      assert All(sorted[..k + 1]) == All(sorted[..k]) + {e};
      ToTheRight(sorted, k, source);
      OneEdit(source, All(sorted[..k]), e);
      text := text[..e.from] + e.text + text[e.to..];
    }
    assert All(sorted[..|sorted|]) == All(edits);
  }

  /** What is to the right of an edit, as far as the edits made before it go. */
  ghost predicate Right(done: set<Edit>, e: Edit) {
    forall d :: d in done ==> d.from >= e.to && (IsInsertion(d) && IsInsertion(e) ==> d.from > e.from)
  }

  lemma {:induction false} SortedIndependent(edits: seq<Edit>, sorted: seq<Edit>, source: string)
    requires Independent(edits, source) && multiset(sorted) == multiset(edits)
    ensures Independent(sorted, source) && All(sorted) == All(edits)
  {
    DistinctRearranged(edits, sorted);
    forall e ensures e in sorted <==> e in edits {
      assert e in multiset(sorted) <==> e in multiset(edits);
    }
  }

  lemma {:induction false} ToTheRight(sorted: seq<Edit>, k: nat, source: string)
    requires Independent(sorted, source) && Sorted(RightToLeft, sorted) && k < |sorted|
    ensures Right(All(sorted[..k]), sorted[k]) && OneInsertionEach(All(sorted[..k + 1]))
  {
    forall d | d in All(sorted[..k])
      ensures d.from >= sorted[k].to && (IsInsertion(d) && IsInsertion(sorted[k]) ==> d.from > sorted[k].from)
    {
      var i :| 0 <= i < k && sorted[i] == d;
      assert InText(sorted[i], source) && InText(sorted[k], source);
      assert sorted[i] != sorted[k] && Apart(sorted[i], sorted[k]) && RightToLeft(sorted[i], sorted[k]);
    }
    var made := All(sorted[..k + 1]);
    forall a, b | a in made && b in made && IsInsertion(a) && IsInsertion(b) && a.from == b.from ensures a == b {
      assert a in sorted && b in sorted && (a != b ==> Apart(a, b));
    }
  }

  lemma {:induction false} NothingEdited(source: string, at: nat)
    requires at <= |source|
    ensures Edited(source, {}, at) == source[at..]
    decreases |source| - at
  {
    if at < |source| {
      NothingEdited(source, at + 1);
    }
  }

  /** Left of every edit the text is as it was. */
  lemma {:induction false} LeftAsItWas(source: string, edits: set<Edit>, from: nat, at: nat)
    requires from <= at <= |source| && forall e :: e in edits ==> e.from >= at
    ensures Edited(source, edits, from) == source[from..at] + Edited(source, edits, at)
    decreases at - from
  {
    if from < at {
      LeftAsItWas(source, edits, from + 1, at);
      assert !Removed(edits, from) && Inserted(edits, from) == "";
      assert Edited(source, edits, from) == [source[from]] + Edited(source, edits, from + 1);
      OneMore(source, from, at, Edited(source, edits, at));
    } else {
      assert source[from..at] == "" && "" + Edited(source, edits, at) == Edited(source, edits, at);
    }
  }

  lemma {:induction false} OneMore(source: string, from: nat, at: nat, rest: string)
    requires from < at <= |source|
    ensures [source[from]] + (source[from + 1..at] + rest) == source[from..at] + rest
  {
    assert [source[from]] + source[from + 1..at] == source[from..at];
  }

  lemma {:induction false} InsertedThere(edits: set<Edit>, e: Edit)
    requires OneInsertionEach(edits) && e in edits && IsInsertion(e)
    ensures Inserted(edits, e.from) == e.text
  {
  }

  /** Right of an edit it makes no difference. */
  lemma {:induction false} RightAsItWas(source: string, done: set<Edit>, e: Edit, at: nat)
    requires OneInsertionEach(done + {e}) && at <= |source| && at >= e.to && (IsInsertion(e) ==> at > e.from)
    ensures Edited(source, done + {e}, at) == Edited(source, done, at)
    decreases |source| - at
  {
    SameInsertion(done, e, at);
    assert Removed(done + {e}, at) == Removed(done, at);
    if at < |source| { RightAsItWas(source, done, e, at + 1); }
  }

  lemma {:induction false} SameInsertion(done: set<Edit>, e: Edit, at: nat)
    requires OneInsertionEach(done + {e}) && !(IsInsertion(e) && e.from == at)
    ensures Inserted(done + {e}, at) == Inserted(done, at)
  {
    if i :| i in done && IsInsertion(i) && i.from == at {
      InsertedThere(done + {e}, i);
      InsertedThere(done, i);
    }
  }

  lemma {:induction false} RangeRemoved(source: string, done: set<Edit>, e: Edit, at: nat)
    requires Right(done, e) && !IsInsertion(e) && e.from <= at <= e.to <= |source|
    ensures Edited(source, done + {e}, at) == Edited(source, done + {e}, e.to)
    decreases e.to - at
  {
    if at < e.to {
      RangeRemoved(source, done, e, at + 1);
      assert e in done + {e} && Removed(done + {e}, at);
    }
  }

  /** One more edit, made where the text is still as it was. */
  lemma {:induction false} OneEdit(source: string, done: set<Edit>, e: Edit)
    requires InText(e, source) && Right(done, e) && OneInsertionEach(done + {e})
    ensures
      var text := Edited(source, done, 0);
      && e.to <= |text| && Edited(source, done + {e}, 0) == text[..e.from] + e.text + text[e.to..]
  {
    LeftAsItWas(source, done, 0, e.to);
    LeftAsItWas(source, done + {e}, 0, e.from);
    EditHere(source, done, e);
    Cut(source[0..e.from], source[e.from..e.to], e.text, Edited(source, done, e.to));
    assert source[0..e.from] + source[e.from..e.to] == source[0..e.to];
  }

  lemma {:induction false} Cut(left: string, gone: string, put: string, right: string)
    ensures
      var text := left + gone + right;
      left + (put + right) == text[..|left|] + put + text[|left + gone|..]
  {
  }

  lemma {:induction false} InsertedHere(done: set<Edit>, e: Edit)
    requires Right(done, e) && OneInsertionEach(done + {e}) && IsInsertion(e)
    ensures Inserted(done + {e}, e.from) == e.text && Inserted(done, e.from) == ""
    ensures Removed(done + {e}, e.from) == Removed(done, e.from)
  {
    InsertedThere(done + {e}, e);
  }

  lemma {:induction false} InsertionHere(source: string, done: set<Edit>, e: Edit)
    requires InText(e, source) && Right(done, e) && OneInsertionEach(done + {e}) && IsInsertion(e)
    ensures Edited(source, done + {e}, e.from) == e.text + Edited(source, done, e.from)
  {
    InsertedHere(done, e);
    SamePast(source, done, e);
    assert "" + Past(source, done, e.from) == Past(source, done, e.from);
  }

  lemma {:induction false} SamePast(source: string, done: set<Edit>, e: Edit)
    requires InText(e, source) && Right(done, e) && OneInsertionEach(done + {e}) && IsInsertion(e)
    ensures Past(source, done + {e}, e.from) == Past(source, done, e.from)
  {
    InsertedHere(done, e);
    if e.from < |source| { RightAsItWas(source, done, e, e.from + 1); }
  }

  lemma {:induction false} EditHere(source: string, done: set<Edit>, e: Edit)
    requires InText(e, source) && Right(done, e) && OneInsertionEach(done + {e})
    ensures Edited(source, done + {e}, e.from) == e.text + Edited(source, done, e.to)
  {
    if IsInsertion(e) {
      InsertionHere(source, done, e);
    } else {
      RangeRemoved(source, done, e, e.from);
      RightAsItWas(source, done, e, e.to);
    }
  }
}
