/** The string consts of a doc page: the evaluator computes the least fixed point of their definitions. */
module DocConsts {
  import opened Collections

  /** `Wrapped` is a parenthesis, `as` or `satisfies`; `Other` is every syntax that is no string, by its kind. */
  datatype Expr =
    | Literal(text: string)
    | Wrapped(inner: Expr)
    | Name(name: string)
    | Template(head: string, spans: seq<Span>)
    | Plus(left: Expr, right: Expr)
    | Join(elements: seq<Element>, separator: Option<Expr>)
    | Other(kind: string)

  datatype Span = Span(expr: Expr, literal: string)
  datatype Element = Item(expr: Expr) | Spread

  datatype Outcome = Value(text: string) | Failed(why: string)
  datatype Items = Items(items: seq<string>) | NoItems(why: string)

  type Consts = map<string, Expr>
  type Env = map<string, string>

  function NotAConst(name: string): string { name + " is not a string const of this page" }

  function NotAString(kind: string): string { kind + " is not a string the page can show" }

  const SPREAD := "a spread inside the joined array"

  function JoinWith(items: seq<string>, separator: string): string {
    if items == [] then "" else if |items| == 1 then items[0]
    else JoinWith(items[..|items| - 1], separator) + separator + items[|items| - 1]
  }

  // ---------------------------------------------------------------- the meaning of one expression

  /** The value of an expression when exactly the names in `env` have one, or its first failure. */
  function Eval(env: Env, e: Expr): Outcome
    decreases e, 1
  {
    match e
    case Literal(text) => Value(text)
    case Wrapped(inner) => Eval(env, inner)
    case Name(name) => if name in env then Value(env[name]) else Failed(NotAConst(name))
    case Template(head, spans) => EvalSpans(env, head, spans)
    case Plus(left, right) =>
      (match Eval(env, left)
       case Failed(why) => Failed(why)
       case Value(l) =>
         match Eval(env, right)
         case Failed(why) => Failed(why)
         case Value(r) => Value(l + r))
    case Join(elements, separator) =>
      (match (if separator.Some? then Eval(env, separator.value) else Value(","))
       case Failed(why) => Failed(why)
       case Value(s) =>
         match EvalItems(env, [], elements)
         case NoItems(why) => Failed(why)
         case Items(items) => Value(JoinWith(items, s)))
    case Other(kind) => Failed(NotAString(kind))
  }

  function EvalSpans(env: Env, out: string, spans: seq<Span>): Outcome
    decreases spans, 0
  {
    if spans == [] then Value(out)
    else
      match Eval(env, spans[0].expr)
      case Failed(why) => Failed(why)
      case Value(part) => EvalSpans(env, out + part + spans[0].literal, spans[1..])
  }

  function EvalItems(env: Env, items: seq<string>, elements: seq<Element>): Items
    decreases elements, 0
  {
    if elements == [] then Items(items)
    else
      assert elements[0].Item? ==> elements[0].expr < elements[0];
      match elements[0]
      case Spread => NoItems(SPREAD)
      case Item(expr) =>
        match Eval(env, expr)
        case Failed(why) => NoItems(why)
        case Value(item) => EvalItems(env, items + [item], elements[1..])
  }

  /** Every name the expression mentions. */
  function Reads(e: Expr): set<string>
    decreases e, 1
  {
    match e
    case Literal(_) => {}
    case Wrapped(inner) => Reads(inner)
    case Name(name) => {name}
    case Template(_, spans) => ReadsOfSpans(spans)
    case Plus(left, right) => Reads(left) + Reads(right)
    case Join(elements, separator) =>
      (if separator.Some? then Reads(separator.value) else {}) + ReadsOfElements(elements)
    case Other(_) => {}
  }

  function ReadsOfSpans(spans: seq<Span>): set<string>
    decreases spans, 0
  {
    if spans == [] then {} else Reads(spans[0].expr) + ReadsOfSpans(spans[1..])
  }

  function ReadsOfElements(elements: seq<Element>): set<string>
    decreases elements, 0
  {
    if elements == [] then {}
    else
      assert elements[0].Item? ==> elements[0].expr < elements[0];
      (if elements[0].Item? then Reads(elements[0].expr) else {}) + ReadsOfElements(elements[1..])
  }

  /** Built from strings, templates, `+`, `join` and names alone. */
  predicate Showable(e: Expr)
    decreases e, 1
  {
    match e
    case Literal(_) => true
    case Wrapped(inner) => Showable(inner)
    case Name(_) => true
    case Template(_, spans) => ShowableSpans(spans)
    case Plus(left, right) => Showable(left) && Showable(right)
    case Join(elements, separator) => (separator.Some? ==> Showable(separator.value)) && ShowableElements(elements)
    case Other(_) => false
  }

  predicate ShowableSpans(spans: seq<Span>)
    decreases spans, 0
  {
    spans == [] || (Showable(spans[0].expr) && ShowableSpans(spans[1..]))
  }

  predicate ShowableElements(elements: seq<Element>)
    decreases elements, 0
  {
    if elements == [] then true
    else
      assert elements[0].Item? ==> elements[0].expr < elements[0];
      elements[0].Item? && Showable(elements[0].expr) && ShowableElements(elements[1..])
  }

  /** Evaluation is strict: it succeeds exactly when every mentioned name has a value and nothing else is in the way. */
  lemma {:induction false} EvalSucceeds(env: Env, e: Expr)
    ensures Eval(env, e).Value? <==> Showable(e) && Reads(e) <= env.Keys
    decreases e, 1
  {
    match e
    case Literal(_) =>
    case Wrapped(inner) => EvalSucceeds(env, inner);
    case Name(_) =>
    case Template(head, spans) => SpansSucceed(env, head, spans);
    case Plus(left, right) => EvalSucceeds(env, left); EvalSucceeds(env, right);
    case Join(elements, separator) =>
      if separator.Some? { EvalSucceeds(env, separator.value); }
      ItemsSucceed(env, [], elements);
    case Other(_) =>
  }

  lemma {:induction false} SpansSucceed(env: Env, out: string, spans: seq<Span>)
    ensures EvalSpans(env, out, spans).Value? <==> ShowableSpans(spans) && ReadsOfSpans(spans) <= env.Keys
    decreases spans, 0
  {
    if spans != [] {
      EvalSucceeds(env, spans[0].expr);
      match Eval(env, spans[0].expr)
      case Failed(_) =>
      case Value(part) => SpansSucceed(env, out + part + spans[0].literal, spans[1..]);
    }
  }

  lemma {:induction false} ItemsSucceed(env: Env, items: seq<string>, elements: seq<Element>)
    ensures EvalItems(env, items, elements).Items? <==>
      ShowableElements(elements) && ReadsOfElements(elements) <= env.Keys
    decreases elements, 0
  {
    if elements != [] && elements[0].Item? {
      assert elements[0].expr < elements[0];
      EvalSucceeds(env, elements[0].expr);
      match Eval(env, elements[0].expr)
      case Failed(_) =>
      case Value(item) => ItemsSucceed(env, items + [item], elements[1..]);
    }
  }

  ghost predicate Extends(more: Env, less: Env) {
    forall n :: n in less ==> n in more && more[n] == less[n]
  }

  /** A value, once there, does not change as more names get theirs. */
  lemma {:induction false} EvalMonotone(less: Env, more: Env, e: Expr)
    requires Extends(more, less) && Eval(less, e).Value?
    ensures Eval(more, e) == Eval(less, e)
    decreases e, 1
  {
    match e
    case Literal(_) =>
    case Wrapped(inner) => EvalMonotone(less, more, inner);
    case Name(_) =>
    case Template(head, spans) => SpansMonotone(less, more, head, spans);
    case Plus(left, right) => EvalMonotone(less, more, left); EvalMonotone(less, more, right);
    case Join(elements, separator) =>
      if separator.Some? { EvalMonotone(less, more, separator.value); }
      ItemsMonotone(less, more, [], elements);
  }

  lemma {:induction false} SpansMonotone(less: Env, more: Env, out: string, spans: seq<Span>)
    requires Extends(more, less) && EvalSpans(less, out, spans).Value?
    ensures EvalSpans(more, out, spans) == EvalSpans(less, out, spans)
    decreases spans, 0
  {
    if spans != [] {
      EvalMonotone(less, more, spans[0].expr);
      SpansMonotone(less, more, out + Eval(less, spans[0].expr).text + spans[0].literal, spans[1..]);
    }
  }

  lemma {:induction false} ItemsMonotone(less: Env, more: Env, items: seq<string>, elements: seq<Element>)
    requires Extends(more, less) && EvalItems(less, items, elements).Items?
    ensures EvalItems(more, items, elements) == EvalItems(less, items, elements)
    decreases elements, 0
  {
    if elements != [] {
      assert elements[0].expr < elements[0];
      EvalMonotone(less, more, elements[0].expr);
      ItemsMonotone(less, more, items + [Eval(less, elements[0].expr).text], elements[1..]);
    }
  }

  // ---------------------------------------------------------------- the text of a value, and the reason for none

  function Lengths(items: seq<string>): nat {
    if items == [] then 0 else Lengths(items[..|items| - 1]) + |items[|items| - 1]|
  }

  /** Item `k` of a joined text starts after the items before it and a separator for each. */
  function StartOf(items: seq<string>, separator: string, k: nat): nat
    requires k <= |items|
  {
    Lengths(items[..k]) + k * |separator|
  }

  predicate StandsAt(text: string, at: int, part: string) {
    0 <= at && at + |part| <= |text| && text[at..at + |part|] == part
  }

  predicate ItemStands(text: string, items: seq<string>, separator: string, k: nat)
    requires k < |items|
  {
    StandsAt(text, StartOf(items, separator, k), items[k])
  }

  predicate FollowedBy(text: string, items: seq<string>, separator: string, k: nat)
    requires k < |items|
  {
    StandsAt(text, StartOf(items, separator, k) + |items[k]|, separator)
  }

  /** Each item at its place, a separator behind each but the last, and nothing else. */
  ghost predicate IsJoined(text: string, items: seq<string>, separator: string) {
    if items == [] then text == ""
    else
      && |text| == Lengths(items) + (|items| - 1) * |separator|
      && (forall k :: 0 <= k < |items| ==> ItemStands(text, items, separator, k))
      && (forall k :: 0 <= k < |items| - 1 ==> FollowedBy(text, items, separator, k))
  }

  /** The joined text is the one text of that shape. */
  lemma {:induction false} JoinedIff(text: string, items: seq<string>, separator: string)
    ensures text == JoinWith(items, separator) <==> IsJoined(text, items, separator)
    decreases |items|
  {
    if |items| == 1 {
      assert items[..0] == [] && StartOf(items, separator, 0) == 0;
      assert items[..|items| - 1] == [] && Lengths(items) == |items[0]|;
      assert ItemStands(text, items, separator, 0) <==> |items[0]| <= |text| && text[..|items[0]|] == items[0];
      assert IsJoined(text, items, separator) <==> |text| == |items[0]| && ItemStands(text, items, separator, 0);
      assert text[..|text|] == text;
    } else if |items| > 1 {
      var n := |items|;
      var front, last := items[..n - 1], items[n - 1];
      var cut := |text| - |last| - |separator|;
      if cut >= 0 {
        JoinedIff(text[..cut], front, separator);
        JoinedFront(text, items, separator, cut);
        CutInThree(text, JoinWith(front, separator), separator, last, cut);
      } else {
        LongEnough(front, separator);
      }
    }
  }

  lemma {:induction false} CutInThree(text: string, a: string, b: string, c: string, cut: nat)
    requires cut == |text| - |c| - |b|
    ensures text == a + b + c <==> text[..cut] == a && StandsAt(text, cut, b) && StandsAt(text, cut + |b|, c)
  {
    assert text == text[..cut] + text[cut..cut + |b|] + text[cut + |b|..];
    if text == a + b + c {
      assert |a| == cut && text[..cut] == a && text[cut..cut + |b|] == b;
    }
  }

  lemma {:induction false} LongEnough(front: seq<string>, separator: string)
    requires front != []
    ensures (|front| - 1) * |separator| >= 0
  {
  }

  lemma {:induction false} NextStart(items: seq<string>, separator: string, k: nat)
    requires k < |items|
    ensures StartOf(items, separator, k + 1) == StartOf(items, separator, k) + |items[k]| + |separator|
  {
    assert items[..k + 1][..k] == items[..k];
    assert (k + 1) * |separator| == k * |separator| + |separator|;
  }

  lemma {:induction false} StartsGrow(items: seq<string>, separator: string, j: nat, k: nat)
    requires j <= k <= |items|
    ensures StartOf(items, separator, j) <= StartOf(items, separator, k)
    decreases k
  {
    if j < k {
      StartsGrow(items, separator, j, k - 1);
      NextStart(items, separator, k - 1);
    }
  }

  /** A joined text by where its pieces stand, without its length. */
  ghost predicate PiecesStand(text: string, items: seq<string>, separator: string) {
    && (forall k :: 0 <= k < |items| ==> ItemStands(text, items, separator, k))
    && (forall k :: 0 <= k < |items| - 1 ==> FollowedBy(text, items, separator, k))
  }

  lemma {:induction false} FrontStart(items: seq<string>, separator: string, k: nat)
    requires k < |items|
    ensures StartOf(items[..|items| - 1], separator, k) == StartOf(items, separator, k)
  {
    assert items[..|items| - 1][..k] == items[..k];
  }

  lemma {:induction false} StandsInFront(text: string, at: nat, part: string, cut: nat)
    requires at + |part| <= cut <= |text|
    ensures StandsAt(text, at, part) <==> StandsAt(text[..cut], at, part)
  {
    assert text[..cut][at..at + |part|] == text[at..at + |part|];
  }

  lemma {:induction false} FrontPiece(text: string, items: seq<string>, separator: string, cut: nat, k: nat)
    requires |items| > 1 && cut <= |text| && cut + |separator| == StartOf(items, separator, |items| - 1)
    requires k < |items| - 1
    ensures ItemStands(text, items, separator, k) <==> ItemStands(text[..cut], items[..|items| - 1], separator, k)
    ensures k < |items| - 2 ==>
      (FollowedBy(text, items, separator, k) <==> FollowedBy(text[..cut], items[..|items| - 1], separator, k))
    ensures k == |items| - 2 ==> StartOf(items, separator, k) + |items[k]| == cut
  {
    FrontStart(items, separator, k);
    NextStart(items, separator, k);
    StartsGrow(items, separator, k + 1, |items| - 1);
    StandsInFront(text, StartOf(items, separator, k), items[k], cut);
    if k < |items| - 2 {
      NextStart(items, separator, k + 1);
      StartsGrow(items, separator, k + 2, |items| - 1);
      StandsInFront(text, StartOf(items, separator, k) + |items[k]|, separator, cut);
    }
  }

  lemma {:induction false} FrontPieces(text: string, items: seq<string>, separator: string, cut: nat)
    requires |items| > 1 && cut <= |text| && cut + |separator| == StartOf(items, separator, |items| - 1)
    ensures PiecesStand(text, items, separator) <==>
      && PiecesStand(text[..cut], items[..|items| - 1], separator)
      && StandsAt(text, cut, separator) && StandsAt(text, cut + |separator|, items[|items| - 1])
  {
    var n := |items|;
    var front, head := items[..n - 1], text[..cut];
    FrontPiece(text, items, separator, cut, n - 2);
    assert FollowedBy(text, items, separator, n - 2) <==> StandsAt(text, cut, separator);
    assert ItemStands(text, items, separator, n - 1) <==> StandsAt(text, cut + |separator|, items[n - 1]);
    forall k | 0 <= k < n - 1
      ensures ItemStands(text, items, separator, k) <==> ItemStands(head, front, separator, k)
      ensures k < n - 2 ==> (FollowedBy(text, items, separator, k) <==> FollowedBy(head, front, separator, k))
    {
      FrontPiece(text, items, separator, cut, k);
    }
  }

  /** All but the last item and its separator are a joined text of their own. */
  lemma {:induction false} JoinedFront(text: string, items: seq<string>, separator: string, cut: nat)
    requires |items| > 1 && cut == |text| - |items[|items| - 1]| - |separator|
    ensures IsJoined(text, items, separator) <==>
      && IsJoined(text[..cut], items[..|items| - 1], separator)
      && StandsAt(text, cut, separator) && StandsAt(text, cut + |separator|, items[|items| - 1])
  {
    var n, g := |items|, |separator|;
    assert (n - 1) * g == (n - 2) * g + g;
    assert StartOf(items, separator, n - 1) == Lengths(items[..n - 1]) + (n - 1) * g;
    if cut + g == StartOf(items, separator, n - 1) { FrontPieces(text, items, separator, cut); }
  }

  /** Each part of a template with the literal behind it. */
  function Between(parts: seq<string>, spans: seq<Span>): seq<string>
    requires |parts| == |spans|
  {
    if parts == [] then [] else [parts[0], spans[0].literal] + Between(parts[1..], spans[1..])
  }

  /** The value of an expression, by the shape of its text. */
  ghost predicate HasText(env: Env, e: Expr, text: string)
    decreases e, 2
  {
    match e
    case Literal(t) => text == t
    case Wrapped(inner) => HasText(env, inner, text)
    case Name(name) => name in env && text == env[name]
    case Template(head, spans) =>
      exists parts :: AreParts(env, spans, parts) && IsJoined(text, [head] + Between(parts, spans), "")
    case Plus(left, right) =>
      exists l, r :: HasText(env, left, l) && HasText(env, right, r) && IsJoined(text, [l, r], "")
    case Join(elements, separator) =>
      exists items, s :: IsSeparator(env, separator, s) && AreItems(env, elements, items) && IsJoined(text, items, s)
    case Other(_) => false
  }

  ghost predicate AreParts(env: Env, spans: seq<Span>, parts: seq<string>)
    decreases spans, 0
  {
    |parts| == |spans| && forall i :: 0 <= i < |spans| ==> HasText(env, spans[i].expr, parts[i])
  }

  /** A missing separator is a comma. */
  ghost predicate IsSeparator(env: Env, separator: Option<Expr>, s: string)
    decreases separator, 0
  {
    if separator.Some? then HasText(env, separator.value, s) else s == ","
  }

  ghost predicate AreItems(env: Env, elements: seq<Element>, items: seq<string>)
    decreases elements, 0
  {
    && |items| == |elements|
    && forall i :: 0 <= i < |elements| ==> IsItem(env, elements[i], items[i])
  }

  ghost predicate IsItem(env: Env, element: Element, item: string)
    decreases element, 0
  {
    element.Item? && HasText(env, element.expr, item)
  }

  lemma {:induction false} JoinFuses(a: string, b: string, c: string, rest: seq<string>)
    ensures JoinWith([a] + ([b, c] + rest), "") == JoinWith([a + b + c] + rest, "")
    decreases |rest|
  {
    var long, short := [a] + ([b, c] + rest), [a + b + c] + rest;
    if rest == [] {
      assert long == [a, b, c] && short == [a + b + c];
      assert long[..2] == [a, b] && [a, b][..1] == [a];
      assert JoinWith([a, b], "") == a + "" + b;
    } else {
      var front := rest[..|rest| - 1];
      JoinFuses(a, b, c, front);
      assert long[..|long| - 1] == [a] + ([b, c] + front);
      assert short[..|short| - 1] == [a + b + c] + front;
    }
  }

  lemma {:induction false} JoinPair(l: string, r: string)
    ensures JoinWith([l, r], "") == l + r
  {
    assert [l, r][..1] == [l];
  }

  lemma {:induction false} TextIsValue(env: Env, e: Expr, text: string)
    requires HasText(env, e, text)
    ensures Eval(env, e) == Value(text)
    decreases e, 1
  {
    match e
    case Literal(_) =>
    case Wrapped(inner) => TextIsValue(env, inner, text);
    case Name(_) =>
    case Template(head, spans) =>
      var parts :| AreParts(env, spans, parts) && IsJoined(text, [head] + Between(parts, spans), "");
      SpansText(env, head, spans, parts);
      JoinedIff(text, [head] + Between(parts, spans), "");
    case Plus(left, right) =>
      var l, r :| HasText(env, left, l) && HasText(env, right, r) && IsJoined(text, [l, r], "");
      TextIsValue(env, left, l);
      TextIsValue(env, right, r);
      JoinedIff(text, [l, r], "");
      JoinPair(l, r);
    case Join(elements, separator) =>
      var items, s :|
        IsSeparator(env, separator, s) && AreItems(env, elements, items) && IsJoined(text, items, s);
      SeparatorIsValue(env, separator, s);
      ItemsText(env, [], elements, items);
      JoinedIff(text, items, s);
      assert [] + items == items;
  }

  lemma {:induction false} SeparatorIsValue(env: Env, separator: Option<Expr>, s: string)
    requires IsSeparator(env, separator, s)
    ensures separator.Some? ==> Eval(env, separator.value) == Value(s)
    ensures separator.None? ==> s == ","
    decreases separator, 0
  {
    if separator.Some? { TextIsValue(env, separator.value, s); }
  }

  lemma {:induction false} SpansText(env: Env, out: string, spans: seq<Span>, parts: seq<string>)
    requires AreParts(env, spans, parts)
    ensures EvalSpans(env, out, spans) == Value(JoinWith([out] + Between(parts, spans), ""))
    decreases spans, 0
  {
    if spans == [] {
      assert [out] + Between(parts, spans) == [out];
    } else {
      TextIsValue(env, spans[0].expr, parts[0]);
      SpansText(env, out + parts[0] + spans[0].literal, spans[1..], parts[1..]);
      JoinFuses(out, parts[0], spans[0].literal, Between(parts[1..], spans[1..]));
    }
  }

  lemma {:induction false} ItemsText(env: Env, before: seq<string>, elements: seq<Element>, items: seq<string>)
    requires AreItems(env, elements, items)
    ensures EvalItems(env, before, elements) == Items(before + items)
    decreases elements, 0
  {
    if elements != [] {
      assert elements[0].Item? && elements[0].expr < elements[0];
      TextIsValue(env, elements[0].expr, items[0]);
      ItemsText(env, before + [items[0]], elements[1..], items[1..]);
      assert before + [items[0]] + items[1..] == before + items;
    } else {
      assert before + items == before;
    }
  }

  lemma {:induction false} ValueHasText(env: Env, e: Expr)
    requires Eval(env, e).Value?
    ensures HasText(env, e, Eval(env, e).text)
    decreases e, 1
  {
    var text := Eval(env, e).text;
    match e
    case Literal(_) =>
    case Wrapped(inner) => ValueHasText(env, inner);
    case Name(_) =>
    case Template(head, spans) =>
      var parts := PartsOf(env, head, spans);
      SpansText(env, head, spans, parts);
      JoinedIff(text, [head] + Between(parts, spans), "");
    case Plus(left, right) =>
      var l, r := Eval(env, left).text, Eval(env, right).text;
      ValueHasText(env, left);
      ValueHasText(env, right);
      JoinPair(l, r);
      JoinedIff(text, [l, r], "");
    case Join(elements, separator) =>
      var s := if separator.Some? then Eval(env, separator.value).text else ",";
      if separator.Some? { ValueHasText(env, separator.value); }
      var items := ItemsOf(env, [], elements);
      ItemsText(env, [], elements, items);
      JoinedIff(text, items, s);
      assert [] + items == items;
      assert IsSeparator(env, separator, s);
  }

  lemma {:induction false} PartsOf(env: Env, out: string, spans: seq<Span>) returns (parts: seq<string>)
    requires EvalSpans(env, out, spans).Value?
    ensures AreParts(env, spans, parts)
    decreases spans, 0
  {
    parts := [];
    if spans != [] {
      var part := Eval(env, spans[0].expr).text;
      ValueHasText(env, spans[0].expr);
      var rest := PartsOf(env, out + part + spans[0].literal, spans[1..]);
      parts := [part] + rest;
    }
  }

  lemma {:induction false} ItemsOf(env: Env, before: seq<string>, elements: seq<Element>) returns (items: seq<string>)
    requires EvalItems(env, before, elements).Items?
    ensures AreItems(env, elements, items)
    decreases elements, 0
  {
    items := [];
    if elements != [] {
      assert elements[0].Item? && elements[0].expr < elements[0];
      var item := Eval(env, elements[0].expr).text;
      ValueHasText(env, elements[0].expr);
      var rest := ItemsOf(env, before + [item], elements[1..]);
      items := [item] + rest;
    }
  }

  /** What evaluation gives is the text of that shape. */
  lemma {:induction false} ValueIff(env: Env, e: Expr, text: string)
    ensures Eval(env, e) == Value(text) <==> HasText(env, e, text)
  {
    if Eval(env, e) == Value(text) { ValueHasText(env, e); }
    if HasText(env, e, text) { TextIsValue(env, e, text); }
  }

  /** Why an expression has no value: the first thing, from left to right, that stands in its way. */
  ghost predicate FailsBy(env: Env, e: Expr, why: string)
    decreases e, 1
  {
    match e
    case Literal(_) => false
    case Wrapped(inner) => FailsBy(env, inner, why)
    case Name(name) => name !in env && why == NotAConst(name)
    case Template(_, spans) => SpansFail(env, spans, why)
    case Plus(left, right) => FailsBy(env, left, why) || (HasSome(env, left) && FailsBy(env, right, why))
    case Join(elements, separator) =>
      || (separator.Some? && FailsBy(env, separator.value, why))
      || ((separator.Some? ==> HasSome(env, separator.value)) && ElementsFail(env, elements, why))
    case Other(kind) => why == NotAString(kind)
  }

  ghost predicate SpansFail(env: Env, spans: seq<Span>, why: string)
    decreases spans, 0
  {
    exists i :: 0 <= i < |spans| && FailsBy(env, spans[i].expr, why) && HaveTexts(env, spans[..i])
  }

  ghost predicate ElementsFail(env: Env, elements: seq<Element>, why: string)
    decreases elements, 0
  {
    exists i :: 0 <= i < |elements| && ElementFails(env, elements[i], why) && AreTexts(env, elements[..i])
  }

  ghost predicate HasSome(env: Env, e: Expr) {
    exists text :: HasText(env, e, text)
  }

  ghost predicate HaveTexts(env: Env, spans: seq<Span>) {
    forall i :: 0 <= i < |spans| ==> HasSome(env, spans[i].expr)
  }

  ghost predicate AreTexts(env: Env, elements: seq<Element>) {
    forall i :: 0 <= i < |elements| ==> elements[i].Item? && HasSome(env, elements[i].expr)
  }

  ghost predicate ElementFails(env: Env, element: Element, why: string)
    decreases element, 0
  {
    match element
    case Spread => why == SPREAD
    case Item(expr) => FailsBy(env, expr, why)
  }

  lemma {:induction false} SomeIff(env: Env, e: Expr)
    ensures HasSome(env, e) <==> Eval(env, e).Value?
  {
    if Eval(env, e).Value? { ValueHasText(env, e); }
    forall text | HasText(env, e, text) ensures Eval(env, e).Value? { TextIsValue(env, e, text); }
  }

  /** The reason evaluation gives is the first. */
  lemma {:induction false} FailureIff(env: Env, e: Expr, why: string)
    ensures Eval(env, e) == Failed(why) <==> FailsBy(env, e, why)
    decreases e, 1
  {
    match e
    case Literal(_) =>
    case Wrapped(inner) => FailureIff(env, inner, why);
    case Name(_) =>
    case Template(head, spans) => SpansFailure(env, head, spans, why);
    case Plus(left, right) =>
      SomeIff(env, left);
      FailureIff(env, left, why);
      FailureIff(env, right, why);
    case Join(elements, separator) =>
      if separator.Some? { SomeIff(env, separator.value); FailureIff(env, separator.value, why); }
      ItemsFailure(env, [], elements, why);
    case Other(_) =>
  }

  lemma {:induction false} FirstSpan(env: Env, spans: seq<Span>, why: string)
    requires spans != []
    ensures SpansFail(env, spans, why) <==>
      FailsBy(env, spans[0].expr, why) || (HasSome(env, spans[0].expr) && SpansFail(env, spans[1..], why))
  {
    if SpansFail(env, spans, why) {
      var i :| 0 <= i < |spans| && FailsBy(env, spans[i].expr, why) && HaveTexts(env, spans[..i]);
      if i > 0 { FewerSpans(env, spans, i); }
    }
    if FailsBy(env, spans[0].expr, why) { assert HaveTexts(env, spans[..0]); }
    if HasSome(env, spans[0].expr) && SpansFail(env, spans[1..], why) {
      var i :| 0 <= i < |spans| - 1 && FailsBy(env, spans[1..][i].expr, why) && HaveTexts(env, spans[1..][..i]);
      FewerSpans(env, spans, i + 1);
    }
  }

  lemma {:induction false} FewerSpans(env: Env, spans: seq<Span>, i: nat)
    requires 0 < i < |spans|
    ensures HaveTexts(env, spans[..i]) <==> HasSome(env, spans[0].expr) && HaveTexts(env, spans[1..][..i - 1])
    ensures spans[1..][i - 1] == spans[i]
  {
    assert spans[..i] == [spans[0]] + spans[1..][..i - 1];
    assert spans[1..][..i - 1] == spans[..i][1..];
  }

  lemma {:induction false} FewerElements(env: Env, elements: seq<Element>, i: nat)
    requires 0 < i < |elements|
    ensures AreTexts(env, elements[..i]) <==>
      elements[0].Item? && HasSome(env, elements[0].expr) && AreTexts(env, elements[1..][..i - 1])
    ensures elements[1..][i - 1] == elements[i]
  {
    assert elements[..i] == [elements[0]] + elements[1..][..i - 1];
    assert elements[1..][..i - 1] == elements[..i][1..];
  }

  lemma {:induction false} FirstElement(env: Env, elements: seq<Element>, why: string)
    requires elements != []
    ensures ElementsFail(env, elements, why) <==>
      || ElementFails(env, elements[0], why)
      || (elements[0].Item? && HasSome(env, elements[0].expr) && ElementsFail(env, elements[1..], why))
  {
    if ElementsFail(env, elements, why) {
      var i :| 0 <= i < |elements| && ElementFails(env, elements[i], why) && AreTexts(env, elements[..i]);
      if i > 0 { FewerElements(env, elements, i); }
    }
    if ElementFails(env, elements[0], why) { assert AreTexts(env, elements[..0]); }
    if elements[0].Item? && HasSome(env, elements[0].expr) && ElementsFail(env, elements[1..], why) {
      var rest := elements[1..];
      var i :| 0 <= i < |rest| && ElementFails(env, rest[i], why) && AreTexts(env, rest[..i]);
      FewerElements(env, elements, i + 1);
    }
  }

  lemma {:induction false} SpansFailure(env: Env, out: string, spans: seq<Span>, why: string)
    ensures EvalSpans(env, out, spans) == Failed(why) <==> SpansFail(env, spans, why)
    decreases spans, 0
  {
    if spans != [] {
      FirstSpan(env, spans, why);
      FailureIff(env, spans[0].expr, why);
      SomeIff(env, spans[0].expr);
      match Eval(env, spans[0].expr)
      case Failed(_) =>
      case Value(part) => SpansFailure(env, out + part + spans[0].literal, spans[1..], why);
    }
  }

  lemma {:induction false} ItemsFailure(env: Env, items: seq<string>, elements: seq<Element>, why: string)
    ensures EvalItems(env, items, elements) == NoItems(why) <==> ElementsFail(env, elements, why)
    decreases elements, 0
  {
    if elements != [] {
      FirstElement(env, elements, why);
      if elements[0].Item? {
        assert elements[0].expr < elements[0];
        FailureIff(env, elements[0].expr, why);
        SomeIff(env, elements[0].expr);
        match Eval(env, elements[0].expr)
        case Failed(_) =>
        case Value(item) => ItemsFailure(env, items + [item], elements[1..], why);
      }
    }
  }


  // ---------------------------------------------------------------- the least fixed point

  /** The declarations of a page in source order; a later one replaces an earlier one of its name. */
  function Declared(declarations: seq<(string, Expr)>): Consts {
    if declarations == [] then map[]
    else
      var last := declarations[|declarations| - 1];
      Declared(declarations[..|declarations| - 1])[last.0 := last.1]
  }

  /** Consts have one declaration each, so reordering them declares the same. */
  lemma {:induction false} DeclarationOrderIrrelevant(a: seq<(string, Expr)>, b: seq<(string, Expr)>)
    requires forall i, j :: 0 <= i < j < |a| ==> a[i].0 != a[j].0
    requires forall i, j :: 0 <= i < j < |b| ==> b[i].0 != b[j].0
    requires forall d :: d in a <==> d in b
    ensures Declared(a) == Declared(b)
  {
    DeclaredIsLookup(a);
    DeclaredIsLookup(b);
    forall n ensures n in Declared(a) <==> n in Declared(b) {
      if n in Declared(a) { var d :| d in a && d.0 == n; assert d in b; }
      if n in Declared(b) { var d :| d in b && d.0 == n; assert d in a; }
    }
    forall n | n in Declared(a) ensures Declared(a)[n] == Declared(b)[n] {
      var d :| d in a && d.0 == n;
      assert d in b;
    }
  }

  lemma {:induction false} DeclaredIsLookup(declarations: seq<(string, Expr)>)
    requires forall i, j :: 0 <= i < j < |declarations| ==> declarations[i].0 != declarations[j].0
    ensures forall n :: n in Declared(declarations) ==> exists d :: d in declarations && d.0 == n
    ensures forall d :: d in declarations ==> d.0 in Declared(declarations) && Declared(declarations)[d.0] == d.1
  {
    if declarations != [] {
      var front := declarations[..|declarations| - 1];
      DeclaredIsLookup(front);
      assert declarations == front + [declarations[|declarations| - 1]];
    }
  }

  /** One round of evaluating every const from the values of the round before. */
  function Step(consts: Consts, env: Env): Env {
    map n | n in consts && Eval(env, consts[n]).Value? :: Eval(env, consts[n]).text
  }

  function Stage(consts: Consts, n: nat): Env {
    if n == 0 then map[] else Step(consts, Stage(consts, n - 1))
  }

  /** The unmemoised meaning: every const whose value some finite number of rounds reaches. */
  function Meaning(consts: Consts): Env { Stage(consts, |consts|) }

  lemma {:induction false} StageGrows(consts: Consts, n: nat)
    ensures Extends(Stage(consts, n + 1), Stage(consts, n))
  {
    if n > 0 {
      StageGrows(consts, n - 1);
      forall name | name in Stage(consts, n)
        ensures name in Stage(consts, n + 1) && Stage(consts, n + 1)[name] == Stage(consts, n)[name]
      {
        EvalMonotone(Stage(consts, n - 1), Stage(consts, n), consts[name]);
      }
    }
  }

  lemma {:induction false} StageMonotone(consts: Consts, m: nat, n: nat)
    requires m <= n
    ensures Extends(Stage(consts, n), Stage(consts, m))
    decreases n
  {
    if m < n {
      StageMonotone(consts, m, n - 1);
      StageGrows(consts, n - 1);
    }
  }

  /** Each round adds a name or is the last to change anything. */
  lemma {:induction false} StageSettlesOrGrows(consts: Consts, n: nat)
    ensures Stage(consts, n + 1) == Stage(consts, n) || |Stage(consts, n + 1).Keys| > n
  {
    StageGrows(consts, n);
    if n > 0 { StageSettlesOrGrows(consts, n - 1); }
    if n == 0 || |Stage(consts, n).Keys| > n - 1 { SameOrMore(Stage(consts, n), Stage(consts, n + 1)); }
  }

  lemma {:induction false} SameOrMore(a: Env, b: Env)
    requires Extends(b, a)
    ensures a == b || |b.Keys| > |a.Keys|
  {
    if b.Keys == a.Keys {
      SameKeysSameEnv(a, b);
    } else {
      var more :| more in b.Keys && more !in a.Keys;
      assert a.Keys + {more} <= b.Keys;
      SubsetSize(a.Keys + {more}, b.Keys);
    }
  }

  lemma {:induction false} SameKeysSameEnv(a: Env, b: Env)
    requires Extends(b, a) && a.Keys == b.Keys
    ensures a == b
  {
  }

  /** Evaluating once more changes nothing. */
  lemma {:induction false} MeaningIsFixed(consts: Consts)
    ensures Step(consts, Meaning(consts)) == Meaning(consts)
  {
    var n := |consts|;
    StageSettlesOrGrows(consts, n);
    SubsetSize(Stage(consts, n + 1).Keys, consts.Keys);
    assert |consts.Keys| == |consts|;
  }

  /** The meaning holds whatever any number of rounds reaches, so it is the limit of the stages and not a cut-off. */
  lemma {:induction false} StageInMeaning(consts: Consts, n: nat)
    ensures Extends(Meaning(consts), Stage(consts, n))
  {
    if n <= |consts| {
      StageMonotone(consts, n, |consts|);
    } else {
      StageSettled(consts, n);
    }
  }

  lemma {:induction false} StageSettled(consts: Consts, n: nat)
    requires n >= |consts|
    ensures Stage(consts, n) == Meaning(consts)
    decreases n
  {
    if n > |consts| {
      StageSettled(consts, n - 1);
      MeaningIsFixed(consts);
    }
  }

  /** Any other assignment that is closed under evaluation contains it. */
  lemma {:induction false} MeaningIsLeast(consts: Consts, env: Env, n: nat)
    requires Extends(env, Step(consts, env))
    ensures Extends(env, Stage(consts, n))
    decreases n
  {
    if n > 0 {
      MeaningIsLeast(consts, env, n - 1);
      forall name | name in Stage(consts, n) ensures name in env && env[name] == Stage(consts, n)[name] {
        EvalMonotone(Stage(consts, n - 1), env, consts[name]);
        assert name in Step(consts, env);
      }
    }
  }

  // ---------------------------------------------------------------- values are exactly the acyclic consts

  /** A chain of consts, each mentioned by the one before. */
  ghost predicate Chain(consts: Consts, p: seq<string>) {
    p != [] && forall i :: 0 <= i < |p| - 1 ==> p[i] in consts && p[i + 1] in Reads(consts[p[i]])
  }

  /** Every chain from `name` meets only declared, showable consts, and none of them twice. */
  ghost predicate AcyclicAndShowable(consts: Consts, name: string) {
    forall p :: Chain(consts, p) && p[0] == name ==> Fine(consts, p)
  }

  ghost predicate Fine(consts: Consts, p: seq<string>) {
    p != [] && p[|p| - 1] in consts && Showable(consts[p[|p| - 1]]) && Distinct(p)
  }

  /** The first round that gives `name` a value. */
  ghost function Rank(consts: Consts, name: string, n: nat): (r: nat)
    requires name in Stage(consts, n)
    ensures 0 < r <= n && name in Stage(consts, r) && name !in Stage(consts, r - 1)
  {
    if name in Stage(consts, n - 1) then Rank(consts, name, n - 1) else n
  }

  lemma {:induction false} StageMember(consts: Consts, name: string, n: nat)
    requires name in Stage(consts, n)
    ensures name in consts && Showable(consts[name])
    ensures Reads(consts[name]) <= Stage(consts, Rank(consts, name, n) - 1).Keys
  {
    EvalSucceeds(Stage(consts, Rank(consts, name, n) - 1), consts[name]);
  }

  /** Along a chain from a const with a value ranks fall: what comes after it had a value before it did. */
  lemma {:induction false} ChainDescends(consts: Consts, p: seq<string>, i: nat, n: nat)
    requires Chain(consts, p) && p[0] in Stage(consts, n) && i < |p|
    ensures p[i] in Stage(consts, n)
    ensures i > 0 ==> p[i] in Stage(consts, Rank(consts, p[0], n) - 1)
    decreases i
  {
    if i > 0 {
      var r := Rank(consts, p[0], n);
      StageMember(consts, p[0], n);
      ChainSuffix(consts, p, 1);
      ChainDescends(consts, p[1..], i - 1, r - 1);
      StageMonotone(consts, r - 1, n);
    }
  }

  lemma {:induction false} ChainSuffix(consts: Consts, p: seq<string>, from: nat)
    requires Chain(consts, p) && from < |p|
    ensures Chain(consts, p[from..]) && p[from..][0] == p[from]
    ensures from > 0 ==> p[from - 1] in consts && p[from] in Reads(consts[p[from - 1]])
  {
    var rest := p[from..];
    forall i | 0 <= i < |rest| - 1 ensures rest[i] in consts && rest[i + 1] in Reads(consts[rest[i]]) {
      assert rest[i] == p[from + i] && rest[i + 1] == p[from + i + 1];
    }
    assert from > 0 ==> p[from - 1 + 1] in Reads(consts[p[from - 1]]);
  }

  lemma {:induction false} ChainIsFine(consts: Consts, p: seq<string>, n: nat)
    requires Chain(consts, p) && p[0] in Stage(consts, n)
    ensures Fine(consts, p)
  {
    ChainDescends(consts, p, |p| - 1, n);
    StageMember(consts, p[|p| - 1], n);
    forall i, j | 0 <= i < j < |p| ensures p[i] != p[j] {
      ChainDescends(consts, p, i, n);
      ChainSuffix(consts, p, i);
      ChainDescends(consts, p[i..], j - i, n);
    }
  }

  /** A const without a value, whose chains are all fine, leads to another: chains of every length. */
  lemma {:induction false} LongChain(consts: Consts, name: string, n: nat) returns (p: seq<string>)
    requires AcyclicAndShowable(consts, name) && name !in Meaning(consts)
    ensures Chain(consts, p) && p[0] == name && |p| == n + 1 && p[n] !in Meaning(consts)
  {
    if n == 0 {
      p := [name];
    } else {
      var q := LongChain(consts, name, n - 1);
      assert Fine(consts, q);
      var x := q[n - 1];
      MeaningIsFixed(consts);
      assert x in Step(consts, Meaning(consts)) <==> Eval(Meaning(consts), consts[x]).Value?;
      EvalSucceeds(Meaning(consts), consts[x]);
      var y :| y in Reads(consts[x]) && y !in Meaning(consts);
      p := q + [y];
    }
  }

  lemma {:induction false} ChainInConsts(consts: Consts, name: string, p: seq<string>)
    requires AcyclicAndShowable(consts, name) && Chain(consts, p) && p[0] == name
    ensures Distinct(p) && forall x :: x in p ==> x in consts
  {
    assert Fine(consts, p);
    forall i | 0 <= i < |p| ensures p[i] in consts {
      if i < |p| - 1 { assert p[i] in consts; }
    }
  }

  /** A const has a value exactly when what it depends on is acyclic and evaluable. */
  lemma {:induction false} ValueIffAcyclic(consts: Consts, name: string)
    ensures name in Meaning(consts) <==> AcyclicAndShowable(consts, name)
  {
    if name in Meaning(consts) {
      forall p | Chain(consts, p) && p[0] == name ensures Fine(consts, p) {
        ChainIsFine(consts, p, |consts|);
      }
    } else if AcyclicAndShowable(consts, name) {
      var p := LongChain(consts, name, |consts|);
      ChainInConsts(consts, name, p);
      DistinctSize(p);
      assert |consts.Keys| == |consts|;
      SubsetSize((set x | x in p), consts.Keys);
      assert false;
    }
  }

  // ---------------------------------------------------------------- the memoised evaluator

  /** A name may be evaluated while `visiting` is: it comes at an earlier round than any of them that has a value. */
  ghost predicate Safe(consts: Consts, visiting: set<string>, names: set<string>) {
    forall v, k: nat :: v in visiting && v in Stage(consts, k + 1) ==> names <= Stage(consts, k).Keys
  }

  lemma {:induction false} SafeAt(consts: Consts, visiting: set<string>, names: set<string>, v: string, k: nat)
    requires v in visiting && Safe(consts, visiting, names)
    ensures v in Stage(consts, k + 1) ==> names <= Stage(consts, k).Keys
  {
  }

  /** A name that may be evaluated while it is being visited is in a cycle, and has no value. */
  lemma {:induction false} VisitedHasNoValue(consts: Consts, visiting: set<string>, name: string, k: nat)
    requires name in visiting && Safe(consts, visiting, {name})
    ensures name !in Stage(consts, k)
  {
    if k > 0 {
      VisitedHasNoValue(consts, visiting, name, k - 1);
      SafeAt(consts, visiting, {name}, name, k - 1);
    }
  }

  /** The definition of a safe name may be evaluated while that name is visited too. */
  lemma {:induction false} DefinitionIsSafe(consts: Consts, visiting: set<string>, name: string)
    requires Safe(consts, visiting, {name}) && name in consts
    ensures Safe(consts, visiting + {name}, Reads(consts[name]))
  {
    forall v, k: nat | v in visiting + {name} && v in Stage(consts, k + 1)
      ensures Reads(consts[name]) <= Stage(consts, k).Keys
    {
      if v == name {
        EvalSucceeds(Stage(consts, k), consts[name]);
      } else {
        assert {name} <= Stage(consts, k).Keys;
        assert name in Stage(consts, k) && k > 0;
        EvalSucceeds(Stage(consts, k - 1), consts[name]);
        StageMonotone(consts, k - 1, k);
      }
    }
  }

  function Size(e: Expr): nat
    decreases e, 1
  {
    match e
    case Literal(_) => 1
    case Wrapped(inner) => 1 + Size(inner)
    case Name(_) => 1
    case Template(_, spans) => 1 + SizeOfSpans(spans)
    case Plus(left, right) => 1 + Size(left) + Size(right)
    case Join(elements, separator) =>
      1 + (if separator.Some? then Size(separator.value) else 0) + SizeOfElements(elements)
    case Other(_) => 1
  }

  function SizeOfSpans(spans: seq<Span>): nat
    decreases spans, 0
  {
    if spans == [] then 0 else Size(spans[0].expr) + SizeOfSpans(spans[1..])
  }

  function SizeOfElements(elements: seq<Element>): nat
    decreases elements, 0
  {
    if elements == [] then 0
    else
      assert elements[0].Item? ==> elements[0].expr < elements[0];
      (if elements[0].Item? then Size(elements[0].expr) else 0) + SizeOfElements(elements[1..])
  }

  function ValueOf(env: Env, name: string): Option<string> {
    if name in env then Some(env[name]) else None
  }

  class Evaluator {
    const declared: Consts
    var values: Env
    var unresolved: map<string, string>
    var visiting: set<string>

    constructor (declared: Consts)
      ensures this.declared == declared && values == map[] && unresolved == map[] && visiting == {}
    {
      this.declared, values, unresolved, visiting := declared, map[], map[], {};
    }

    /** Both memo tables tell the truth, and a name under evaluation is in neither. */
    ghost predicate Valid()
      reads this
    {
      && visiting <= declared.Keys
      && visiting !! values.Keys && visiting !! unresolved.Keys
      && Extends(Meaning(declared), values)
      && forall n :: n in unresolved ==> n in declared && Eval(Meaning(declared), declared[n]) == Failed(unresolved[n])
    }

    twostate predicate Remembers()
      reads this
    {
      visiting == old(visiting) && old(values.Keys) <= values.Keys && old(unresolved.Keys) <= unresolved.Keys
    }

    method ConstValue(name: string) returns (value: Option<string>)
      requires Valid() && Safe(declared, visiting, {name})
      modifies this
      ensures Valid() && Remembers()
      ensures value == ValueOf(Meaning(declared), name)
      ensures name in declared && name !in visiting ==> name in values || name in unresolved
      decreases declared.Keys - visiting, 0
    {
      MeaningIsFixed(declared);
      if name in values { return Some(values[name]); }
      if name in unresolved || name in visiting {
        if name in visiting { VisitedHasNoValue(declared, visiting, name, |declared|); }
        return None;
      }
      if name !in declared { return None; }
      DefinitionIsSafe(declared, visiting, name);
      visiting := visiting + {name};
      var why: seq<string>;
      value, why := Evaluate(declared[name], []);
      visiting := visiting - {name};
      if value.None? {
        unresolved := unresolved[name := if why == [] then "not a string expression" else why[0]];
      } else {
        values := values[name := value.value];
      }
    }

    /** The node's value under the final meaning; a failure pushes exactly one reason, so `why[0]` is never missing. */
    method Evaluate(node: Expr, why: seq<string>) returns (value: Option<string>, reasons: seq<string>)
      requires Valid() && Safe(declared, visiting, Reads(node))
      modifies this
      ensures Valid() && Remembers()
      ensures Told(Eval(Meaning(declared), node), value, why, reasons)
      decreases declared.Keys - visiting, Size(node), 0
    {
      match node {
        case Wrapped(inner) =>
          value, reasons := Evaluate(inner, why);
        case Literal(text) =>
          return Some(text), why;
        case Name(name) =>
          value := ConstValue(name);
          reasons := if value.None? then why + [NotAConst(name)] else why;
        case Template(head, spans) =>
          value, reasons := EvaluateSpans(head, spans, why);
        case Plus(left, right) =>
          value, reasons := Evaluate(left, why);
          if value.Some? {
            var l := value.value;
            value, reasons := Evaluate(right, why);
            if value.Some? { value := Some(l + value.value); }
          }
        case Join(elements, separator) =>
          var s := Some(",");
          reasons := why;
          if separator.Some? { s, reasons := Evaluate(separator.value, why); }
          if s.None? { return None, reasons; }
          value, reasons := EvaluateJoined(s.value, elements, why);
        case Other(kind) =>
          return None, why + [NotAString(kind)];
      }
    }

    /** The loop over a template's spans. */
    method EvaluateSpans(head: string, spans: seq<Span>, why: seq<string>)
      returns (value: Option<string>, reasons: seq<string>)
      requires Valid() && Safe(declared, visiting, ReadsOfSpans(spans))
      modifies this
      ensures Valid() && Remembers()
      ensures Told(EvalSpans(Meaning(declared), head, spans), value, why, reasons)
      decreases declared.Keys - visiting, SizeOfSpans(spans), 1
    {
      var out, i := head, 0;
      ghost var meaning := Meaning(declared);
      while i < |spans|
        invariant Valid() && Remembers() && SpansLeft(declared, visiting, head, spans, out, i)
      {
        SpansStep(declared, visiting, head, spans, out, i);
        var part, more := Evaluate(spans[i].expr, why);
        if part.None? { return None, more; }
        out := out + part.value + spans[i].literal;
        i := i + 1;
      }
      return Some(out), why;
    }

    /** The loop over a joined array's elements. */
    method EvaluateJoined(separator: string, elements: seq<Element>, why: seq<string>)
      returns (value: Option<string>, reasons: seq<string>)
      requires Valid() && Safe(declared, visiting, ReadsOfElements(elements))
      modifies this
      ensures Valid() && Remembers()
      ensures ToldItems(EvalItems(Meaning(declared), [], elements), separator, value, why, reasons)
      decreases declared.Keys - visiting, SizeOfElements(elements), 1
    {
      var items, i := [], 0;
      ghost var meaning := Meaning(declared);
      while i < |elements|
        invariant 0 <= i <= |elements| && Valid() && Remembers()
        invariant Safe(declared, visiting, ReadsOfElements(elements[i..]))
        invariant SizeOfElements(elements[i..]) <= SizeOfElements(elements)
        invariant EvalItems(meaning, [], elements) == EvalItems(meaning, items, elements[i..])
      {
        NextElement(meaning, items, elements, i);
        SafeElements(declared, visiting, elements, i);
        if elements[i].Spread? { return None, why + [SPREAD]; }
        var item, more := Evaluate(elements[i].expr, why);
        if item.None? { return None, more; }
        items := items + [item.value];
        i := i + 1;
      }
      return Some(JoinWith(items, separator)), why;
    }
  }

  ghost predicate ToldItems(found: Items, separator: string, value: Option<string>, why: seq<string>,
                            reasons: seq<string>) {
    match found
    case Items(items) => value == Some(JoinWith(items, separator)) && reasons == why
    case NoItems(reason) => value == None && reasons == why + [reason]
  }

  /** What the loop over a template's spans meets next. */
  lemma {:induction false} NextSpan(env: Env, out: string, spans: seq<Span>, i: nat)
    requires i < |spans|
    ensures Size(spans[i].expr) + SizeOfSpans(spans[i + 1..]) == SizeOfSpans(spans[i..])
    ensures Reads(spans[i].expr) + ReadsOfSpans(spans[i + 1..]) == ReadsOfSpans(spans[i..])
    ensures EvalSpans(env, out, spans[i..]) ==
      match Eval(env, spans[i].expr)
      case Failed(why) => Failed(why)
      case Value(part) => EvalSpans(env, out + part + spans[i].literal, spans[i + 1..])
  {
    assert spans[i..][0] == spans[i] && spans[i..][1..] == spans[i + 1..];
  }

  /** What the loop over a template's spans has left to do. */
  ghost predicate SpansLeft(consts: Consts, visiting: set<string>, head: string, spans: seq<Span>, out: string, i: nat) {
    && i <= |spans| && Safe(consts, visiting, ReadsOfSpans(spans[i..]))
    && SizeOfSpans(spans[i..]) <= SizeOfSpans(spans)
    && EvalSpans(Meaning(consts), head, spans) == EvalSpans(Meaning(consts), out, spans[i..])
  }

  lemma {:induction false} SpansStep(consts: Consts, visiting: set<string>, head: string, spans: seq<Span>,
                                     out: string, i: nat)
    requires i < |spans| && SpansLeft(consts, visiting, head, spans, out, i)
    ensures Safe(consts, visiting, Reads(spans[i].expr)) && Size(spans[i].expr) <= SizeOfSpans(spans)
    ensures
      match Eval(Meaning(consts), spans[i].expr)
      case Failed(why) => EvalSpans(Meaning(consts), head, spans) == Failed(why)
      case Value(part) => SpansLeft(consts, visiting, head, spans, out + part + spans[i].literal, i + 1)
  {
    NextSpan(Meaning(consts), out, spans, i);
    SafeSpans(consts, visiting, spans, i);
  }

  lemma {:induction false} SafeSpans(consts: Consts, visiting: set<string>, spans: seq<Span>, i: nat)
    requires i < |spans| && Safe(consts, visiting, ReadsOfSpans(spans[i..]))
    ensures Safe(consts, visiting, Reads(spans[i].expr)) && Safe(consts, visiting, ReadsOfSpans(spans[i + 1..]))
  {
    NextSpan(map[], "", spans, i);
    SafeFewer(consts, visiting, Reads(spans[i].expr), ReadsOfSpans(spans[i..]));
    SafeFewer(consts, visiting, ReadsOfSpans(spans[i + 1..]), ReadsOfSpans(spans[i..]));
  }

  lemma {:induction false} SafeElements(consts: Consts, visiting: set<string>, elements: seq<Element>, i: nat)
    requires i < |elements| && Safe(consts, visiting, ReadsOfElements(elements[i..]))
    ensures Safe(consts, visiting, ReadsOfElements(elements[i + 1..]))
    ensures elements[i].Item? ==> Safe(consts, visiting, Reads(elements[i].expr))
  {
    NextElement(map[], [], elements, i);
    SafeFewer(consts, visiting, ReadsOfElements(elements[i + 1..]), ReadsOfElements(elements[i..]));
    if elements[i].Item? {
      SafeFewer(consts, visiting, Reads(elements[i].expr), ReadsOfElements(elements[i..]));
    }
  }

  lemma {:induction false} SafeFewer(consts: Consts, visiting: set<string>, fewer: set<string>, names: set<string>)
    requires Safe(consts, visiting, names) && fewer <= names
    ensures Safe(consts, visiting, fewer)
  {
  }

  /** What the loop over the joined elements meets next. */
  lemma {:induction false} NextElement(env: Env, items: seq<string>, elements: seq<Element>, i: nat)
    requires i < |elements|
    ensures elements[i..] == [elements[i]] + elements[i + 1..]
    ensures SizeOfElements(elements[i + 1..]) <= SizeOfElements(elements[i..])
    ensures ReadsOfElements(elements[i + 1..]) <= ReadsOfElements(elements[i..])
    ensures elements[i].Spread? ==> EvalItems(env, items, elements[i..]) == NoItems(SPREAD)
    ensures elements[i].Item? ==>
      && Size(elements[i].expr) <= SizeOfElements(elements[i..])
      && Reads(elements[i].expr) <= ReadsOfElements(elements[i..])
      && EvalItems(env, items, elements[i..]) ==
         match Eval(env, elements[i].expr)
         case Failed(why) => NoItems(why)
         case Value(item) => EvalItems(env, items + [item], elements[i + 1..])
  {
    assert elements[i..][0] == elements[i] && elements[i..][1..] == elements[i + 1..];
  }

  ghost predicate Told(outcome: Outcome, value: Option<string>, why: seq<string>, reasons: seq<string>) {
    match outcome
    case Value(text) => value == Some(text) && reasons == why
    case Failed(reason) => value == None && reasons == why + [reason]
  }

  /** The reason recorded for each const without a value: the first failure of its definition. */
  function Reasons(consts: Consts): map<string, string> {
    map n | n in consts && Eval(Meaning(consts), consts[n]).Failed? :: Eval(Meaning(consts), consts[n]).why
  }

  /**
   * Both tables are functions of the declarations alone: whatever order the names are tried in, `values` is the least
   * fixed point and `unresolved` holds every other name with its first failure. Each value has the text of its
   * definition's shape, and each reason is the first thing in the way of its definition.
   */
  method EvaluateDocConsts(declared: Consts) returns (values: Env, unresolved: map<string, string>)
    ensures values == Meaning(declared) && unresolved == Reasons(declared)
    ensures values.Keys !! unresolved.Keys && values.Keys + unresolved.Keys == declared.Keys
    ensures forall n :: n in values ==> HasText(values, declared[n], values[n])
    ensures forall n :: n in unresolved ==> FailsBy(values, declared[n], unresolved[n])
  {
    var evaluator := new Evaluator(declared);
    var todo := declared.Keys;
    while todo != {}
      invariant evaluator.Valid() && evaluator.visiting == {} && evaluator.declared == declared && todo <= declared.Keys
      invariant forall n :: n in declared && n !in todo ==> n in evaluator.values || n in evaluator.unresolved
    {
      var name :| name in todo;
      var _ := evaluator.ConstValue(name);
      todo := todo - {name};
    }
    values, unresolved := evaluator.values, evaluator.unresolved;
    MeaningIsFixed(declared);
    SettledTables(declared, values, unresolved);
    forall n | n in values ensures HasText(values, declared[n], values[n]) {
      ValueIff(values, declared[n], values[n]);
    }
    forall n | n in unresolved ensures FailsBy(values, declared[n], unresolved[n]) {
      FailureIff(values, declared[n], unresolved[n]);
    }
  }

  lemma {:induction false} SettledTables(declared: Consts, values: Env, unresolved: map<string, string>)
    requires Extends(Meaning(declared), values)
    requires forall n :: n in unresolved ==>
      n in declared && Eval(Meaning(declared), declared[n]) == Failed(unresolved[n])
    requires forall n :: n in declared ==> n in values || n in unresolved
    ensures values == Meaning(declared) && unresolved == Reasons(declared)
    ensures values.Keys !! unresolved.Keys && values.Keys + unresolved.Keys == declared.Keys
  {
    var meaning := Meaning(declared);
    MeaningIsFixed(declared);
    assert forall n :: n in meaning <==> n in declared && Eval(meaning, declared[n]).Value?;
    assert values.Keys == meaning.Keys;
    assert unresolved.Keys == Reasons(declared).Keys;
  }
}
