/**
 * The router. A request is answered by the most specific registered pattern that matches its path: a trie of segments
 * is walked with backtracking, and the lookup of static paths and the caches of matches change no answer.
 */
module Routing {
  import opened Collections

  /** What a pattern's segment matches. A mixed segment is named by its key, which decides what it matches. */
  datatype Segment = Static(value: string) | Mixed(key: string) | Param | Wildcard

  type Pattern = seq<Segment>

  /** The mixed segments: what one captures, how many values, and which comes first. */
  datatype Shapes =
    Shapes(scan: (string, string) -> Option<seq<string>>, arity: string -> nat, le: (string, string) -> bool)

  ghost predicate ValidShapes(sh: Shapes) {
    && TotalOrder(sh.le) && (forall key :: sh.arity(key) > 0)
    && forall key, seg :: sh.scan(key, seg).Some? ==> |sh.scan(key, seg).value| == sh.arity(key)
  }

  // ---------------------------------------------------------------- paths

  /** The characters before the first slash. */
  function First(rest: string): (seg: string)
    ensures |seg| <= |rest| && seg == rest[..|seg|] && '/' !in seg
    ensures |seg| < |rest| ==> rest[|seg|] == '/'
  {
    if rest == "" || rest[0] == '/' then "" else [rest[0]] + First(rest[1..])
  }

  predicate IsLast(rest: string) { |First(rest)| == |rest| }

  /** What follows the first slash. */
  function Tail(rest: string): (tail: string)
    requires !IsLast(rest)
    ensures rest == First(rest) + "/" + tail
  {
    rest[|First(rest)| + 1..]
  }

  /** The values a pattern captures of a path without its leading slash, if it matches. */
  function Match(sh: Shapes, p: Pattern, rest: string): Option<seq<string>>
    decreases |rest|
  {
    if p == [] then None
    else if p[0] == Wildcard then if |p| == 1 then Some([rest]) else None
    else
      var own := Capture(sh, p[0], First(rest));
      if own.None? then None
      else if IsLast(rest) then if |p| == 1 then own else None
      else
        var more := Match(sh, p[1..], Tail(rest));
        if more.None? then None else Some(own.value + more.value)
  }

  /** What one segment captures of one segment of a path. */
  function Capture(sh: Shapes, s: Segment, seg: string): Option<seq<string>> {
    match s
    case Static(value) => if value == seg then Some([]) else None
    case Mixed(key) => if seg == "" then None else sh.scan(key, seg)
    case Param => if seg == "" then None else Some([seg])
    case Wildcard => None
  }

  /** Static before mixed, mixed in their order, then a parameter, then the wildcard. */
  predicate Earlier(sh: Shapes, a: Segment, b: Segment) {
    match (a, b)
    case (Static(_), Static(_)) => false
    case (Static(_), _) => true
    case (Mixed(k), Mixed(l)) => k != l && sh.le(k, l)
    case (Mixed(_), Static(_)) => false
    case (Mixed(_), _) => true
    case (Param, Wildcard) => true
    case _ => false
  }

  /** At the first segment that differs; the root pattern comes before all. */
  predicate MoreSpecific(sh: Shapes, p: Pattern, q: Pattern) {
    q != [] && (p == [] || if p[0] == q[0] then MoreSpecific(sh, p[1..], q[1..]) else Earlier(sh, p[0], q[0]))
  }

  // ---------------------------------------------------------------- matching, segment by segment

  /** The path cut at every slash. */
  function Segments(rest: string): seq<string>
    decreases |rest|
  {
    if IsLast(rest) then [First(rest)] else [First(rest)] + Segments(Tail(rest))
  }

  function Slashed(segs: seq<string>): string {
    if segs == [] then "" else if |segs| == 1 then segs[0] else segs[0] + "/" + Slashed(segs[1..])
  }

  ghost predicate CutAs(rest: string, segs: seq<string>) {
    segs != [] && (forall i :: 0 <= i < |segs| ==> '/' !in segs[i]) && Slashed(segs) == rest
  }

  /** They are the only segments without a slash that give the path. */
  lemma {:induction false} SegmentsIff(rest: string, segs: seq<string>)
    ensures segs == Segments(rest) <==> CutAs(rest, segs)
  {
    SegmentsCut(rest);
    if CutAs(rest, segs) { OneCut(rest, segs); }
  }

  lemma {:induction false} SegmentsCut(rest: string)
    ensures CutAs(rest, Segments(rest))
    decreases |rest|
  {
    if !IsLast(rest) {
      SegmentsCut(Tail(rest));
      assert Segments(rest)[1..] == Segments(Tail(rest));
    }
  }

  lemma {:induction false} OneCut(rest: string, segs: seq<string>)
    requires CutAs(rest, segs)
    ensures segs == Segments(rest)
    decreases |segs|
  {
    if |segs| > 1 {
      FirstOfSegment(segs[0], Slashed(segs[1..]));
      OneCut(Tail(rest), segs[1..]);
      assert segs == [segs[0]] + segs[1..];
    } else {
      FirstOfSegment(segs[0], "");
    }
  }

  /** What a pattern's segment takes of the segments from its own on; the wildcard takes them all. */
  predicate Takes(sh: Shapes, s: Segment, segs: seq<string>, own: seq<string>)
    requires segs != []
  {
    match s
    case Static(value) => segs[0] == value && own == []
    case Mixed(key) => segs[0] != "" && sh.scan(key, segs[0]) == Some(own)
    case Param => segs[0] != "" && own == [segs[0]]
    case Wildcard => own == [Slashed(segs)]
  }

  /** Each of the pattern's segments takes its own; a wildcard is last, and without one there are as many segments. */
  ghost predicate IsCapture(sh: Shapes, p: Pattern, segs: seq<string>, own: seq<seq<string>>) {
    && 0 < |p| <= |segs| && |own| == |p|
    && (p[|p| - 1] != Wildcard ==> |p| == |segs|)
    && forall i :: 0 <= i < |p| ==> (p[i] == Wildcard ==> i == |p| - 1) && Takes(sh, p[i], segs[i..], own[i])
  }

  function Flat(own: seq<seq<string>>): seq<string> { if own == [] then [] else own[0] + Flat(own[1..]) }

  lemma {:induction false} CaptureTail(sh: Shapes, p: Pattern, segs: seq<string>, own: seq<seq<string>>)
    requires |p| > 1 && |segs| > 1 && p[0] != Wildcard && |own| == |p|
    ensures IsCapture(sh, p, segs, own) <==> Takes(sh, p[0], segs, own[0]) && IsCapture(sh, p[1..], segs[1..], own[1..])
  {
    forall i | 0 < i < |p| && i < |segs| ensures segs[i..] == segs[1..][i - 1..] {}
    if IsCapture(sh, p[1..], segs[1..], own[1..]) && Takes(sh, p[0], segs, own[0]) {
      forall i | 0 <= i < |p|
        ensures (p[i] == Wildcard ==> i == |p| - 1) && Takes(sh, p[i], segs[i..], own[i])
      {
        if i > 0 { assert p[i] == p[1..][i - 1] && own[i] == own[1..][i - 1]; } else { assert segs[0..] == segs; }
      }
    }
    if IsCapture(sh, p, segs, own) {
      assert segs[0..] == segs;
      forall i | 0 <= i < |p| - 1
        ensures (p[1..][i] == Wildcard ==> i == |p| - 2) && Takes(sh, p[1..][i], segs[1..][i..], own[1..][i])
      {
        assert p[i + 1] == p[1..][i] && own[i + 1] == own[1..][i];
      }
    }
  }

  lemma {:induction false} CaptureOfOne(sh: Shapes, p: Pattern, segs: seq<string>, own: seq<seq<string>>)
    requires |p| == 1 && segs != [] && |own| == 1
    ensures IsCapture(sh, p, segs, own) <==> Takes(sh, p[0], segs, own[0]) && (p[0] == Wildcard || |segs| == 1)
  {
    assert segs[0..] == segs;
  }

  lemma {:induction false} FlatOfOne(own: seq<seq<string>>)
    requires |own| == 1
    ensures Flat(own) == own[0]
  {
    assert own[1..] == [] && own[0] + [] == own[0];
  }

  lemma {:induction false} CapturedAtOnce(sh: Shapes, p: Pattern, rest: string)
    requires Match(sh, p, rest).Some? && (p[0] == Wildcard || IsLast(rest))
    ensures IsCapture(sh, p, Segments(rest), [Match(sh, p, rest).value])
  {
    SegmentsIff(rest, Segments(rest));
    CaptureOfOne(sh, p, Segments(rest), [Match(sh, p, rest).value]);
  }

  lemma {:induction false} Captured(sh: Shapes, p: Pattern, rest: string) returns (own: seq<seq<string>>)
    requires Match(sh, p, rest).Some?
    ensures IsCapture(sh, p, Segments(rest), own) && Match(sh, p, rest) == Some(Flat(own))
    decreases |rest|
  {
    var segs := Segments(rest);
    if p[0] == Wildcard || IsLast(rest) {
      own := [Match(sh, p, rest).value];
      CapturedAtOnce(sh, p, rest);
      FlatOfOne(own);
    } else {
      var more := Captured(sh, p[1..], Tail(rest));
      own := [Capture(sh, p[0], First(rest)).value] + more;
      assert segs[1..] == Segments(Tail(rest)) && own[1..] == more;
      CaptureTail(sh, p, segs, own);
    }
  }

  lemma {:induction false} CaptureMatches(sh: Shapes, p: Pattern, rest: string, own: seq<seq<string>>)
    requires IsCapture(sh, p, Segments(rest), own)
    ensures Match(sh, p, rest) == Some(Flat(own))
    decreases |rest|
  {
    var segs := Segments(rest);
    SegmentsIff(rest, segs);
    if |p| == 1 {
      CaptureOfOne(sh, p, segs, own);
      FlatOfOne(own);
    } else {
      assert segs[1..] == Segments(Tail(rest)) && segs[0..] == segs;
      assert p[0] != Wildcard;
      CaptureTail(sh, p, segs, own);
      CaptureMatches(sh, p[1..], Tail(rest), own[1..]);
    }
  }

  /** A pattern matches exactly when its segments can take the path's, and its values are what they took, in order. */
  lemma {:induction false} MatchIff(sh: Shapes, p: Pattern, rest: string, values: seq<string>)
    ensures Match(sh, p, rest) == Some(values) <==>
      exists own :: IsCapture(sh, p, Segments(rest), own) && values == Flat(own)
  {
    if Match(sh, p, rest) == Some(values) { var own := Captured(sh, p, rest); }
    forall own | IsCapture(sh, p, Segments(rest), own) ensures Match(sh, p, rest) == Some(Flat(own)) {
      CaptureMatches(sh, p, rest, own);
    }
  }

  // ---------------------------------------------------------------- the trie

  /** A node; a terminal is named by its index. The wildcard's node is always a leaf. */
  datatype Node = Node(static_: map<string, Node>, mixed: seq<Branch>, param: Option<Node>, wildcard: Option<nat>,
                       terminal: Option<nat>)
  datatype Branch = Branch(key: string, node: Node)

  const EMPTY := Node(map[], [], None, None, None)

  /** Where a segment leads. */
  function Child(node: Node, s: Segment): Option<Node> {
    match s
    case Static(value) => if value in node.static_ then Some(node.static_[value]) else None
    case Mixed(key) =>
      var i := IndexOf(node.mixed, key);
      if i < |node.mixed| then Some(node.mixed[i].node) else None
    case Param => node.param
    case Wildcard => None
  }

  /** Is the pattern registered below the node, and where? */
  function Lookup(node: Node, p: Pattern): Option<nat> {
    if p == [] then node.terminal
    else if p[0] == Wildcard then if |p| == 1 then node.wildcard else None
    else
      var child := Child(node, p[0]);
      if child.None? then None else Lookup(child.value, p[1..])
  }

  function IndexOf(branches: seq<Branch>, key: string): (i: nat)
    ensures i <= |branches| && (i < |branches| ==> branches[i].key == key)
    ensures forall j :: 0 <= j < i ==> branches[j].key != key
  {
    if branches == [] || branches[0].key == key then 0 else 1 + IndexOf(branches[1..], key)
  }

  ghost predicate InOrder(sh: Shapes, branches: seq<Branch>) {
    forall i, j :: 0 <= i < j < |branches| ==> Earlier(sh, Mixed(branches[i].key), Mixed(branches[j].key))
  }

  /** Mixed branches are in strict order, here and below. */
  ghost predicate Ordered(sh: Shapes, node: Node)
    decreases node
  {
    && InOrder(sh, node.mixed)
    && (forall v :: v in node.static_ ==> Ordered(sh, node.static_[v]))
    && (forall i :: 0 <= i < |node.mixed| ==> Ordered(sh, node.mixed[i].node))
    && (node.param.Some? ==> Ordered(sh, node.param.value))
  }

  // ---------------------------------------------------------------- the walk

  datatype Hit = Hit(id: nat, values: seq<string>)

  /** Depth first: static, then mixed, then the parameter, then the wildcard, each only if the one before dead-ends. */
  function Walk(sh: Shapes, node: Node, rest: string): Option<Hit>
    decreases |rest|, 2, 0
  {
    var seg := First(rest);
    var exact := if seg in node.static_ then Below(sh, node.static_[seg], rest, []) else None;
    if exact.Some? then exact
    else
      var mixed := if seg == "" then None else WalkMixed(sh, node.mixed, rest);
      if mixed.Some? then mixed
      else
        var param := if node.param.Some? && seg != "" then Below(sh, node.param.value, rest, [seg]) else None;
        if param.Some? then param
        else if node.wildcard.Some? then Some(Hit(node.wildcard.value, [rest]))
        else None
  }

  /** The branches in turn. */
  function WalkMixed(sh: Shapes, branches: seq<Branch>, rest: string): Option<Hit>
    decreases |rest|, 1, |branches|
  {
    if branches == [] then None
    else
      var own := sh.scan(branches[0].key, First(rest));
      var hit := if own.Some? then Below(sh, branches[0].node, rest, own.value) else None;
      if hit.Some? then hit else WalkMixed(sh, branches[1..], rest)
  }

  /** A child's own terminal, at the last segment, or the walk from it. */
  function Below(sh: Shapes, child: Node, rest: string, own: seq<string>): Option<Hit>
    decreases |rest|, 0, 0
  {
    if IsLast(rest) then if child.terminal.Some? then Some(Hit(child.terminal.value, own)) else None
    else
      var hit := Walk(sh, child, Tail(rest));
      if hit.None? then None else Some(Hit(hit.value.id, own + hit.value.values))
  }

  // ---------------------------------------------------------------- the most specific pattern

  ghost predicate Registered(node: Node, p: Pattern) { Lookup(node, p).Some? }

  ghost predicate NoneMatches(sh: Shapes, node: Node, rest: string) {
    forall q :: Registered(node, q) ==> Match(sh, q, rest).None?
  }

  /** The pattern is registered, matches with these values, and comes before every other one that matches. */
  ghost predicate IsBest(sh: Shapes, node: Node, rest: string, p: Pattern, hit: Hit) {
    && Lookup(node, p) == Some(hit.id) && Match(sh, p, rest) == Some(hit.values)
    && forall q :: Registered(node, q) && Match(sh, q, rest).Some? ==> q == p || MoreSpecific(sh, p, q)
  }

  /** The same of the patterns that go on from a segment into a child. */
  ghost predicate NoneBelow(sh: Shapes, child: Node, rest: string, s: Segment) {
    forall q :: Registered(child, q) ==> Match(sh, [s] + q, rest).None?
  }

  ghost predicate BestBelow(sh: Shapes, child: Node, rest: string, s: Segment, p: Pattern, hit: Hit) {
    && Lookup(child, p) == Some(hit.id) && Match(sh, [s] + p, rest) == Some(hit.values)
    && forall q :: Registered(child, q) && Match(sh, [s] + q, rest).Some? ==> q == p || MoreSpecific(sh, p, q)
  }

  /** What a pattern that goes on from a captured segment matches. */
  lemma {:induction false} MatchBelow(sh: Shapes, s: Segment, q: Pattern, rest: string)
    requires s != Wildcard
    ensures
      var own, all := Capture(sh, s, First(rest)), Match(sh, [s] + q, rest);
      && (own.None? ==> all.None?)
      && (own.Some? && IsLast(rest) ==> all == if q == [] then own else None)
      && (own.Some? && !IsLast(rest) ==>
           var more := Match(sh, q, Tail(rest));
           all == if more.None? then None else Some(own.value + more.value))
  {
    assert ([s] + q)[1..] == q;
  }

  lemma {:induction false} BelowIsBest(sh: Shapes, child: Node, rest: string, s: Segment, own: seq<string>)
    returns (p: Pattern)
    requires ValidShapes(sh) && Ordered(sh, child) && s != Wildcard && Capture(sh, s, First(rest)) == Some(own)
    ensures Below(sh, child, rest, own).None? ==> NoneBelow(sh, child, rest, s)
    ensures Below(sh, child, rest, own).Some? ==> BestBelow(sh, child, rest, s, p, Below(sh, child, rest, own).value)
    decreases |rest|, 0, 0
  {
    p := [];
    if !IsLast(rest) { p := WalkIsBest(sh, child, Tail(rest)); }
    MatchBelow(sh, s, p, rest);
    forall q | Registered(child, q)
      ensures Below(sh, child, rest, own).None? ==> Match(sh, [s] + q, rest).None?
      ensures Below(sh, child, rest, own).Some? && Match(sh, [s] + q, rest).Some? ==> q == p || MoreSpecific(sh, p, q)
    {
      MatchBelow(sh, s, q, rest);
    }
  }

  /** No pattern of the node that starts with the segment matches. */
  ghost predicate NoneThrough(sh: Shapes, node: Node, rest: string, s: Segment) {
    forall q :: Registered(node, q) && q != [] && q[0] == s ==> Match(sh, q, rest).None?
  }

  lemma {:induction false} ThroughChild(sh: Shapes, node: Node, rest: string, s: Segment)
    requires s != Wildcard
    requires Capture(sh, s, First(rest)).None? || Child(node, s).None? || NoneBelow(sh, Child(node, s).value, rest, s)
    ensures NoneThrough(sh, node, rest, s)
  {
    forall q | Registered(node, q) && q != [] && q[0] == s ensures Match(sh, q, rest).None? {
      assert q == [s] + q[1..];
      MatchBelow(sh, s, q[1..], rest);
      assert Child(node, s).Some? ==> Registered(Child(node, s).value, q[1..]);
    }
  }

  /** The best pattern through one segment is the best of all, if no segment but a later one leads to a match. */
  lemma {:induction false} BestOfNode(sh: Shapes, node: Node, rest: string, s: Segment, p: Pattern, hit: Hit)
    requires s != Wildcard && Child(node, s).Some? && BestBelow(sh, Child(node, s).value, rest, s, p, hit)
    requires forall t :: t != s && !Earlier(sh, s, t) ==> NoneThrough(sh, node, rest, t)
    ensures IsBest(sh, node, rest, [s] + p, hit)
  {
    var best := [s] + p;
    assert best[1..] == p;
    forall q | Registered(node, q) && Match(sh, q, rest).Some? ensures q == best || MoreSpecific(sh, best, q) {
      assert q != [] && q == [q[0]] + q[1..];
      if q[0] == s {
        assert Registered(Child(node, s).value, q[1..]);
      } else {
        assert Earlier(sh, s, q[0]) || NoneThrough(sh, node, rest, q[0]);
      }
    }
  }

  /** The branches from i on: the first that leads to a match, and none before it. */
  lemma {:induction false} MixedIsBest(sh: Shapes, node: Node, rest: string, i: nat) returns (k: nat, p: Pattern)
    requires ValidShapes(sh) && Ordered(sh, node) && i <= |node.mixed| && First(rest) != ""
    ensures
      var hit := WalkMixed(sh, node.mixed[i..], rest);
      && i <= k <= |node.mixed| && (forall j :: i <= j < k ==> NoneThrough(sh, node, rest, Mixed(node.mixed[j].key)))
      && (hit.None? ==> k == |node.mixed|)
      && (hit.Some? ==>
           k < |node.mixed| && BestBelow(sh, node.mixed[k].node, rest, Mixed(node.mixed[k].key), p, hit.value))
    decreases |rest|, 1, |node.mixed| - i
  {
    k, p := i, [];
    if i < |node.mixed| {
      var branch := node.mixed[i];
      assert node.mixed[i..][0] == branch && node.mixed[i..][1..] == node.mixed[i + 1..];
      var s := Mixed(branch.key);
      var own := sh.scan(branch.key, First(rest));
      assert Child(node, s) == Some(branch.node) by { OwnBranch(sh, node, i); }
      if own.Some? { p := BelowIsBest(sh, branch.node, rest, s, own.value); }
      if own.None? || Below(sh, branch.node, rest, own.value).None? {
        ThroughChild(sh, node, rest, s);
        k, p := MixedIsBest(sh, node, rest, i + 1);
      }
    }
  }

  lemma {:induction false} OwnBranch(sh: Shapes, node: Node, i: nat)
    requires InOrder(sh, node.mixed) && i < |node.mixed|
    ensures IndexOf(node.mixed, node.mixed[i].key) == i
  {
    var j := IndexOf(node.mixed, node.mixed[i].key);
    assert j < i ==> Earlier(sh, Mixed(node.mixed[j].key), Mixed(node.mixed[i].key));
  }

  /** The walk answers with the best pattern's terminal and values, and with nothing only if no pattern matches. */
  lemma {:induction false} WalkIsBest(sh: Shapes, node: Node, rest: string) returns (p: Pattern)
    requires ValidShapes(sh) && Ordered(sh, node)
    ensures Walk(sh, node, rest).None? ==> NoneMatches(sh, node, rest)
    ensures Walk(sh, node, rest).Some? ==> IsBest(sh, node, rest, p, Walk(sh, node, rest).value)
    decreases |rest|, 2, 0
  {
    var seg, exact := First(rest), Static(First(rest));
    if seg in node.static_ {
      p := BelowIsBest(sh, node.static_[seg], rest, exact, []);
      if Below(sh, node.static_[seg], rest, []).Some? {
        OtherStatics(sh, node, rest);
        BestOfNode(sh, node, rest, exact, p, Walk(sh, node, rest).value);
        return [exact] + p;
      }
    }
    ThroughChild(sh, node, rest, exact);
    p := WalkPastStatic(sh, node, rest);
  }

  lemma {:induction false} OtherStatics(sh: Shapes, node: Node, rest: string)
    ensures forall value :: value != First(rest) ==> NoneThrough(sh, node, rest, Static(value))
  {
    forall value | value != First(rest) ensures NoneThrough(sh, node, rest, Static(value)) {
      ThroughChild(sh, node, rest, Static(value));
    }
  }

  /** A segment that a chosen branch does not come before leads nowhere. */
  lemma {:induction false} EarlierBranches(sh: Shapes, node: Node, rest: string, k: nat, t: Segment)
    requires InOrder(sh, node.mixed) && k <= |node.mixed|
    requires forall value :: NoneThrough(sh, node, rest, Static(value))
    requires forall j :: 0 <= j < k ==> NoneThrough(sh, node, rest, Mixed(node.mixed[j].key))
    requires t.Static? || t.Mixed?
    requires k < |node.mixed| ==> t != Mixed(node.mixed[k].key) && !Earlier(sh, Mixed(node.mixed[k].key), t)
    ensures NoneThrough(sh, node, rest, t)
  {
    if t.Mixed? {
      var j := IndexOf(node.mixed, t.key);
      if j >= |node.mixed| { ThroughChild(sh, node, rest, t); }
    }
  }

  lemma {:induction false} WalkPastStatic(sh: Shapes, node: Node, rest: string) returns (p: Pattern)
    requires ValidShapes(sh) && Ordered(sh, node) && NoneThrough(sh, node, rest, Static(First(rest)))
    requires First(rest) in node.static_ ==> Below(sh, node.static_[First(rest)], rest, []).None?
    ensures Walk(sh, node, rest).None? ==> NoneMatches(sh, node, rest)
    ensures Walk(sh, node, rest).Some? ==> IsBest(sh, node, rest, p, Walk(sh, node, rest).value)
    decreases |rest|, 1, |node.mixed| + 1
  {
    OtherStatics(sh, node, rest);
    if First(rest) == "" {
      forall t: Segment | t.Mixed? ensures NoneThrough(sh, node, rest, t) { ThroughChild(sh, node, rest, t); }
    } else {
      var k;
      k, p := MixedIsBest(sh, node, rest, 0);
      assert node.mixed[0..] == node.mixed;
      if WalkMixed(sh, node.mixed, rest).Some? {
        OwnBranch(sh, node, k);
        var s := Mixed(node.mixed[k].key);
        forall t | t != s && !Earlier(sh, s, t) ensures NoneThrough(sh, node, rest, t) {
          EarlierBranches(sh, node, rest, k, t);
        }
        BestOfNode(sh, node, rest, s, p, Walk(sh, node, rest).value);
        return [s] + p;
      }
      forall t: Segment | t.Mixed? ensures NoneThrough(sh, node, rest, t) {
        EarlierBranches(sh, node, rest, k, t);
      }
    }
    p := WalkPastMixed(sh, node, rest);
  }

  lemma {:induction false} WalkPastMixed(sh: Shapes, node: Node, rest: string) returns (p: Pattern)
    requires ValidShapes(sh) && Ordered(sh, node)
    requires forall t: Segment :: t.Static? || t.Mixed? ==> NoneThrough(sh, node, rest, t)
    requires First(rest) in node.static_ ==> Below(sh, node.static_[First(rest)], rest, []).None?
    requires First(rest) != "" ==> WalkMixed(sh, node.mixed, rest).None?
    ensures Walk(sh, node, rest).None? ==> NoneMatches(sh, node, rest)
    ensures Walk(sh, node, rest).Some? ==> IsBest(sh, node, rest, p, Walk(sh, node, rest).value)
    decreases |rest|, 1, 0
  {
    var seg := First(rest);
    if node.param.Some? && seg != "" {
      p := BelowIsBest(sh, node.param.value, rest, Param, [seg]);
      if Below(sh, node.param.value, rest, [seg]).Some? {
        BestOfNode(sh, node, rest, Param, p, Walk(sh, node, rest).value);
        return [Param] + p;
      }
    }
    ThroughChild(sh, node, rest, Param);
    p := [Wildcard];
    forall q | Registered(node, q) && Match(sh, q, rest).Some? ensures q == p {
      assert q != [] && (q[0] == Wildcard || NoneThrough(sh, node, rest, q[0]));
    }
    assert node.wildcard.Some? ==> Registered(node, p) && Match(sh, p, rest) == Some([rest]);
    assert Registered(node, p) ==> node.wildcard.Some?;
  }

  // ---------------------------------------------------------------- registration

  /** What `compileRoutePattern` gives: no slash in literal text, and a wildcard only at the end. */
  predicate WellFormed(p: Pattern) {
    && (forall i :: 0 <= i < |p| && p[i].Static? ==> '/' !in p[i].value)
    && WildcardLast(p) && p != [Static("")]
  }

  predicate WildcardLast(p: Pattern) { forall i :: 0 <= i < |p| - 1 ==> p[i] != Wildcard }

  /** How many values a pattern captures. */
  function Arity(sh: Shapes, p: Pattern): nat {
    if p == [] then 0
    else (match p[0] case Static(_) => 0 case Mixed(key) => sh.arity(key) case _ => 1) + Arity(sh, p[1..])
  }

  function InsertBranch(sh: Shapes, branches: seq<Branch>, b: Branch): seq<Branch> {
    if branches == [] || Earlier(sh, Mixed(b.key), Mixed(branches[0].key)) then [b] + branches
    else [branches[0]] + InsertBranch(sh, branches[1..], b)
  }

  /** The nodes of the pattern are made where they are missing, and the last one gets the terminal. */
  function Register(sh: Shapes, node: Node, p: Pattern, id: nat): Node
    decreases |p|
  {
    if p == [] then node.(terminal := Some(id))
    else
      match p[0]
      case Wildcard => node.(wildcard := Some(id))
      case Param => node.(param := Some(Register(sh, if node.param.Some? then node.param.value else EMPTY, p[1..], id)))
      case Static(value) =>
        node.(static_ := node.static_[value := Register(sh, GetOr(node.static_, value, EMPTY), p[1..], id)])
      case Mixed(key) =>
        var i := IndexOf(node.mixed, key);
        var child := Register(sh, if i < |node.mixed| then node.mixed[i].node else EMPTY, p[1..], id);
        if i < |node.mixed| then node.(mixed := node.mixed[i := Branch(key, child)])
        else node.(mixed := InsertBranch(sh, node.mixed, Branch(key, child)))
  }

  predicate HasKey(branches: seq<Branch>, key: string) { IndexOf(branches, key) < |branches| }

  function BranchNode(branches: seq<Branch>, key: string): Option<Node> {
    if HasKey(branches, key) then Some(branches[IndexOf(branches, key)].node) else None
  }

  lemma {:induction false} BranchInserted(sh: Shapes, branches: seq<Branch>, b: Branch, key: string)
    requires !HasKey(branches, b.key)
    ensures BranchNode(InsertBranch(sh, branches, b), key) ==
      if key == b.key then Some(b.node) else BranchNode(branches, key)
  {
    if branches == [] || Earlier(sh, Mixed(b.key), Mixed(branches[0].key)) {
      assert ([b] + branches)[1..] == branches;
    } else {
      BranchInserted(sh, branches[1..], b, key);
      var more := InsertBranch(sh, branches[1..], b);
      assert ([branches[0]] + more)[1..] == more;
    }
  }

  lemma {:induction false} BranchUpdated(branches: seq<Branch>, key: string, node: Node, other: string)
    requires HasKey(branches, key)
    ensures BranchNode(branches[IndexOf(branches, key) := Branch(key, node)], other) ==
      if other == key then Some(node) else BranchNode(branches, other)
  {
    if branches[0].key == key {
      assert branches[0 := Branch(key, node)][1..] == branches[1..];
    } else {
      var i := IndexOf(branches, key);
      BranchUpdated(branches[1..], key, node, other);
      assert branches[i := Branch(key, node)][1..] == branches[1..][i - 1 := Branch(key, node)];
    }
  }

  /** Registration changes one child: that of the pattern's first segment. */
  lemma {:induction false} ChildInserted(sh: Shapes, node: Node, p: Pattern, id: nat, s: Segment)
    requires p != [] && p[0] != Wildcard
    ensures
      var was := Child(node, p[0]);
      Child(Register(sh, node, p, id), s) ==
      if s == p[0] then Some(Register(sh, if was.Some? then was.value else EMPTY, p[1..], id)) else Child(node, s)
  {
    if p[0].Mixed? && s.Mixed? {
      var i, key := IndexOf(node.mixed, p[0].key), p[0].key;
      var child := Register(sh, if i < |node.mixed| then node.mixed[i].node else EMPTY, p[1..], id);
      if i < |node.mixed| {
        BranchUpdated(node.mixed, key, child, s.key);
      } else {
        BranchInserted(sh, node.mixed, Branch(key, child), s.key);
      }
    }
  }

  lemma {:induction false} NothingInEmpty(p: Pattern)
    ensures Lookup(EMPTY, p) == None
  {
  }

  /** Registration adds the pattern, or renames its terminal, and changes no other. */
  lemma {:induction false} LookupInserted(sh: Shapes, node: Node, p: Pattern, id: nat, q: Pattern)
    requires WildcardLast(p)
    ensures Lookup(Register(sh, node, p, id), q) == if q == p then Some(id) else Lookup(node, q)
    decreases |p|
  {
    if p != [] && p[0] != Wildcard && q != [] && q[0] != Wildcard {
      ChildInserted(sh, node, p, id, q[0]);
      if q[0] == p[0] {
        var was := Child(node, p[0]);
        LookupInserted(sh, if was.Some? then was.value else EMPTY, p[1..], id, q[1..]);
        NothingInEmpty(q[1..]);
        assert p == [p[0]] + p[1..] && q == [q[0]] + q[1..];
      }
    }
  }

  lemma {:induction false} EarlierTransitive(sh: Shapes, a: Segment, b: Segment, c: Segment)
    requires ValidShapes(sh) && Earlier(sh, a, b) && Earlier(sh, b, c)
    ensures Earlier(sh, a, c)
  {
    if a.Mixed? && b.Mixed? && c.Mixed? {
      assert Le(sh.le, a.key, b.key) && Le(sh.le, b.key, c.key);
      assert Le(sh.le, a.key, c.key);
    }
  }

  lemma {:induction false} KeysDiffer(sh: Shapes, a: string, b: string)
    requires ValidShapes(sh) && a != b
    ensures Earlier(sh, Mixed(a), Mixed(b)) || Earlier(sh, Mixed(b), Mixed(a))
  {
    assert Le(sh.le, a, b) || Le(sh.le, b, a);
  }

  lemma {:induction false} InsertBranchHas(sh: Shapes, branches: seq<Branch>, b: Branch)
    ensures forall x :: x in InsertBranch(sh, branches, b) <==> x == b || x in branches
  {
    if branches != [] && !Earlier(sh, Mixed(b.key), Mixed(branches[0].key)) {
      InsertBranchHas(sh, branches[1..], b);
      assert branches == [branches[0]] + branches[1..];
    }
  }

  lemma {:induction false} InsertBranchOrdered(sh: Shapes, branches: seq<Branch>, b: Branch)
    requires ValidShapes(sh) && InOrder(sh, branches) && !HasKey(branches, b.key)
    ensures InOrder(sh, InsertBranch(sh, branches, b))
  {
    if branches == [] {
    } else if Earlier(sh, Mixed(b.key), Mixed(branches[0].key)) {
      forall j | 0 <= j < |branches| ensures Earlier(sh, Mixed(b.key), Mixed(branches[j].key)) {
        if j > 0 { EarlierTransitive(sh, Mixed(b.key), Mixed(branches[0].key), Mixed(branches[j].key)); }
      }
    } else {
      KeysDiffer(sh, branches[0].key, b.key);
      InsertBranchOrdered(sh, branches[1..], b);
      InsertBranchHas(sh, branches[1..], b);
      var more := InsertBranch(sh, branches[1..], b);
      forall j | 0 <= j < |more| ensures Earlier(sh, Mixed(branches[0].key), Mixed(more[j].key)) {
        assert more[j] in more;
        assert more[j] != b ==> more[j] in branches[1..];
      }
    }
  }

  lemma {:induction false} InsertOrdered(sh: Shapes, node: Node, p: Pattern, id: nat)
    requires ValidShapes(sh) && Ordered(sh, node) && WildcardLast(p)
    ensures Ordered(sh, Register(sh, node, p, id))
    decreases |p|
  {
    if p != [] && p[0] != Wildcard {
      var was := Child(node, p[0]);
      var child := if was.Some? then was.value else EMPTY;
      InsertOrdered(sh, child, p[1..], id);
      if p[0].Mixed? { MixedOrdered(sh, node, p[0].key, Register(sh, child, p[1..], id)); }
    }
  }

  /** Putting a child at a mixed segment keeps the order of the branches. */
  lemma {:induction false} MixedOrdered(sh: Shapes, node: Node, key: string, child: Node)
    requires ValidShapes(sh) && Ordered(sh, node) && Ordered(sh, child)
    ensures
      var i, b := IndexOf(node.mixed, key), Branch(key, child);
      Ordered(sh, node.(mixed := if i < |node.mixed| then node.mixed[i := b] else InsertBranch(sh, node.mixed, b)))
  {
    var i, b := IndexOf(node.mixed, key), Branch(key, child);
    if i >= |node.mixed| {
      InsertBranchOrdered(sh, node.mixed, b);
      InsertBranchHas(sh, node.mixed, b);
      var more := InsertBranch(sh, node.mixed, b);
      forall j | 0 <= j < |more| ensures Ordered(sh, more[j].node) {
        assert more[j] in more;
        assert more[j] == b || more[j] in node.mixed;
      }
    }
  }

  // ---------------------------------------------------------------- static patterns

  predicate IsStatic(p: Pattern) { forall i :: 0 <= i < |p| ==> p[i].Static? }

  lemma {:induction false} StaticHasNoValues(sh: Shapes, p: Pattern)
    requires ValidShapes(sh)
    ensures Arity(sh, p) == 0 <==> IsStatic(p)
  {
    if p != [] { StaticHasNoValues(sh, p[1..]); }
  }

  lemma {:induction false} ValuesAlign(sh: Shapes, p: Pattern, rest: string)
    requires ValidShapes(sh) && Match(sh, p, rest).Some?
    ensures |Match(sh, p, rest).value| == Arity(sh, p)
    decreases |rest|
  {
    if p[0] == Wildcard {
      assert p == [Wildcard];
      assert Arity(sh, p[1..]) == 0;
    } else if IsLast(rest) {
      assert Arity(sh, p[1..]) == 0;
    } else {
      ValuesAlign(sh, p[1..], Tail(rest));
    }
  }

  /** The path a static pattern is, without its leading slash. */
  function Spell(p: Pattern): string
    requires IsStatic(p)
  {
    if p == [] then "" else if |p| == 1 then p[0].value else p[0].value + "/" + Spell(p[1..])
  }

  lemma {:induction false} FirstOfSegment(value: string, tail: string)
    requires '/' !in value
    ensures First(value) == value && First(value + "/" + tail) == value
    ensures !IsLast(value + "/" + tail) && Tail(value + "/" + tail) == tail
  {
    if value != "" {
      FirstOfSegment(value[1..], tail);
      assert (value + "/" + tail)[1..] == value[1..] + "/" + tail;
    } else {
      assert (value + "/" + tail)[0] == '/';
    }
  }

  lemma {:induction false} SpellMatches(sh: Shapes, p: Pattern)
    requires IsStatic(p) && p != [] && forall i :: 0 <= i < |p| ==> '/' !in p[i].value
    ensures Match(sh, p, Spell(p)) == Some([])
  {
    if |p| > 1 {
      SpellMatches(sh, p[1..]);
      FirstOfSegment(p[0].value, Spell(p[1..]));
      var own := Capture(sh, p[0], First(Spell(p)));
      assert own == Some([]) && own.value + [] == [];
    } else {
      FirstOfSegment(p[0].value, "");
    }
  }

  /** Whatever else matches, a static pattern that does comes first. */
  lemma {:induction false} StaticIsFirst(sh: Shapes, p: Pattern, q: Pattern, rest: string)
    requires IsStatic(p) && Match(sh, p, rest).Some? && Match(sh, q, rest).Some?
    ensures (q == p || MoreSpecific(sh, p, q)) && (IsStatic(q) ==> q == p)
    decreases |rest|
  {
    assert p == [p[0]] + p[1..] && q == [q[0]] + q[1..];
    if q[0] == p[0] && !IsLast(rest) { StaticIsFirst(sh, p[1..], q[1..], Tail(rest)); }
  }

  // ---------------------------------------------------------------- answers

  /** What is registered at one path shape: the handlers, their methods in order, and the parameters' names. */
  datatype Terminal<T> = Terminal(methods: seq<string>, handlers: map<string, T>, names: seq<string>)

  datatype Answer<T> =
    | Found(payload: T, params: map<string, string>)
    | NotFound
    | NotAllowed(allowed: seq<string>)

  /** `resolveDirect`: the method's own handler, or GET's for HEAD, or the methods there are. */
  function ResolveDirect<T>(t: Terminal<T>, verb: string, params: map<string, string>): Answer<T> {
    if verb in t.handlers then Found(t.handlers[verb], params)
    else if verb == "HEAD" && "GET" in t.handlers then Found(t.handlers["GET"], params)
    else NotAllowed(Allowed(t))
  }

  function Allowed<T>(t: Terminal<T>): seq<string> {
    t.methods + if "GET" in t.handlers && "HEAD" !in t.handlers then ["HEAD"] else []
  }

  /** Each name with its value. */
  function Params(names: seq<string>, values: seq<string>): map<string, string>
    requires |names| == |values|
  {
    if names == [] then map[]
    else
      var n := |names| - 1;
      Params(names[..n], values[..n])[names[n] := values[n]]
  }

  /** The keys are the names, and each name has the value at its place, at the last one if it is repeated. */
  ghost predicate HasParams(params: map<string, string>, names: seq<string>, values: seq<string>) {
    && |names| == |values| && (forall n :: n in params <==> n in names)
    && forall i :: 0 <= i < |names| && LastOfName(names, i) ==> names[i] in params && params[names[i]] == values[i]
  }

  predicate LastOfName(names: seq<string>, i: nat)
    requires i < |names|
  {
    forall j :: i < j < |names| ==> names[j] != names[i]
  }

  /** The parameters built are the only ones so named. */
  lemma {:induction false} ParamsIff(params: map<string, string>, names: seq<string>, values: seq<string>)
    requires |names| == |values|
    ensures params == Params(names, values) <==> HasParams(params, names, values)
  {
    BuiltParams(names, values);
    if HasParams(params, names, values) {
      var built := Params(names, values);
      forall n | n in names ensures params[n] == built[n] {
        var i := LastPlace(names, n);
        assert params[names[i]] == values[i] && built[names[i]] == values[i];
      }
      assert params.Keys == built.Keys;
    }
  }

  lemma {:induction false} BuiltParams(names: seq<string>, values: seq<string>)
    requires |names| == |values|
    ensures HasParams(Params(names, values), names, values)
  {
    forall n ensures n in Params(names, values) <==> n in names { BuiltKeys(names, values, n); }
    forall i | 0 <= i < |names| && LastOfName(names, i)
      ensures names[i] in Params(names, values) && Params(names, values)[names[i]] == values[i]
    {
      BuiltAt(names, values, i);
    }
  }

  lemma {:induction false} BuiltKeys(names: seq<string>, values: seq<string>, name: string)
    requires |names| == |values|
    ensures name in Params(names, values) <==> name in names
  {
    if names != [] {
      var n := |names| - 1;
      BuiltKeys(names[..n], values[..n], name);
      assert names == names[..n] + [names[n]];
    }
  }

  lemma {:induction false} BuiltAt(names: seq<string>, values: seq<string>, i: nat)
    requires |names| == |values| && i < |names| && LastOfName(names, i)
    ensures names[i] in Params(names, values) && Params(names, values)[names[i]] == values[i]
    decreases |names|
  {
    var n := |names| - 1;
    if i < n {
      assert names[n] != names[i];
      BuiltAt(names[..n], values[..n], i);
    }
  }

  lemma {:induction false} LastPlace(names: seq<string>, name: string) returns (i: nat)
    requires name in names
    ensures i < |names| && names[i] == name && LastOfName(names, i)
  {
    var n := |names| - 1;
    if names[n] == name {
      i := n;
    } else {
      assert names == names[..n] + [names[n]];
      i := LastPlace(names[..n], name);
    }
  }

  /** Each registered method is listed once. */
  ghost predicate Listed<T>(t: Terminal<T>) {
    Distinct(t.methods) && forall m :: m in t.methods <==> m in t.handlers
  }

  ghost predicate AllListed<T>(terminals: seq<Terminal<T>>) {
    forall i :: 0 <= i < |terminals| ==> Listed(terminals[i])
  }

  /** The method's own handler; without one, HEAD has GET's. */
  ghost predicate IsHandler<T>(t: Terminal<T>, verb: string, payload: T) {
    if verb in t.handlers then payload == t.handlers[verb]
    else verb == "HEAD" && "GET" in t.handlers && payload == t.handlers["GET"]
  }

  /** Nothing serves the method. */
  predicate Unserved<T>(t: Terminal<T>, verb: string) {
    verb !in t.handlers && !(verb == "HEAD" && "GET" in t.handlers)
  }

  /** A request is served, with its values by name, or told the methods there are. */
  ghost predicate Resolves<T>(t: Terminal<T>, verb: string, values: seq<string>, a: Answer<T>) {
    match a
    case Found(payload, params) => IsHandler(t, verb, payload) && HasParams(params, t.names, values)
    case NotFound => false
    case NotAllowed(allowed) => Unserved(t, verb) && IsAllowed(t, allowed)
  }

  /** Each registered method once, in their order, and HEAD exactly when GET or HEAD is. */
  ghost predicate IsAllowed<T>(t: Terminal<T>, allowed: seq<string>) {
    && Distinct(allowed) && t.methods <= allowed
    && forall m :: m in allowed <==> m in t.handlers || (m == "HEAD" && "GET" in t.handlers)
  }

  lemma {:induction false} ResolvesIff<T>(t: Terminal<T>, verb: string, values: seq<string>, a: Answer<T>)
    requires Listed(t) && |t.names| == |values|
    ensures a == ResolveDirect(t, verb, Params(t.names, values)) <==> Resolves(t, verb, values, a)
  {
    ParamsIff(if a.Found? then a.params else map[], t.names, values);
    BuiltParams(t.names, values);
    if a.NotAllowed? { AllowedIff(t, a.allowed); }
  }

  lemma {:induction false} AllowedIff<T>(t: Terminal<T>, allowed: seq<string>)
    requires Listed(t)
    ensures allowed == Allowed(t) <==> IsAllowed(t, allowed)
  {
    if IsAllowed(t, allowed) { OneAllowed(t, allowed); }
    assert Distinct(Allowed(t));
  }

  lemma {:induction false} OneAllowed<T>(t: Terminal<T>, allowed: seq<string>)
    requires Listed(t) && IsAllowed(t, allowed)
    ensures allowed == Allowed(t)
  {
    var n := |t.methods|;
    var more := allowed[n..];
    assert allowed == t.methods + more;
    forall k | 0 <= k < |more| ensures more[k] == "HEAD" && "HEAD" !in t.handlers && "GET" in t.handlers {
      assert allowed[n + k] == more[k] && more[k] in allowed;
      assert forall j :: 0 <= j < n ==> t.methods[j] == allowed[j] != more[k];
    }
    DistinctSize(more);
    SubsetSize((set x | x in more), {"HEAD"});
    if more != [] { assert more == [more[0]]; }
    if "GET" in t.handlers && "HEAD" !in t.handlers { assert "HEAD" in allowed && "HEAD" !in t.methods; }
  }

  predicate Leading(path: string) { path != "" && path[0] == '/' }

  /** A path without its leading slash, if it has one. */
  function Rest(path: string): string { if Leading(path) then path[1..] else path }

  /** The root pattern is the path "/" and no other. */
  function PathMatch(sh: Shapes, p: Pattern, path: string): Option<seq<string>> {
    if p == [] then if path == "/" then Some([]) else None else Match(sh, p, Rest(path))
  }

  type Routes = map<Pattern, nat>

  /** The registered pattern that comes before every other one that matches. */
  ghost predicate Answers(sh: Shapes, routes: Routes, path: string, p: Pattern) {
    && p in routes && PathMatch(sh, p, path).Some?
    && forall q :: q in routes && PathMatch(sh, q, path).Some? ==> q == p || MoreSpecific(sh, p, q)
  }

  /** What the routes alone say: the best pattern's terminal, with its own values by name. */
  ghost predicate IsAnswer<T>(sh: Shapes, routes: Routes, terminals: seq<Terminal<T>>, verb: string, path: string,
                              a: Answer<T>) {
    if exists p :: Answers(sh, routes, path, p) then
      exists p :: Answers(sh, routes, path, p) && IsTerminalAnswer(sh, routes, terminals, verb, path, p, a)
    else
      a == NotFound && forall q :: q in routes ==> PathMatch(sh, q, path).None?
  }

  ghost predicate IsTerminalAnswer<T>(sh: Shapes, routes: Routes, terminals: seq<Terminal<T>>, verb: string,
                                      path: string, p: Pattern, a: Answer<T>)
    requires Answers(sh, routes, path, p)
  {
    var values := PathMatch(sh, p, path).value;
    && routes[p] < |terminals| && |terminals[routes[p]].names| == |values|
    && a == ResolveDirect(terminals[routes[p]], verb, Params(terminals[routes[p]].names, values))
  }

  /** The path's segments that each of the pattern's takes; the root pattern takes the path "/". */
  ghost predicate TakesPath(sh: Shapes, p: Pattern, path: string, own: seq<seq<string>>) {
    if p == [] then path == "/" && own == [] else IsCapture(sh, p, Segments(Rest(path)), own)
  }

  ghost predicate Fits(sh: Shapes, p: Pattern, path: string) {
    exists own :: TakesPath(sh, p, path, own)
  }

  lemma {:induction false} FitsIff(sh: Shapes, p: Pattern, path: string)
    ensures Fits(sh, p, path) <==> PathMatch(sh, p, path).Some?
    ensures forall own :: TakesPath(sh, p, path, own) ==> PathMatch(sh, p, path) == Some(Flat(own))
  {
    if p == [] {
      assert path == "/" ==> TakesPath(sh, p, path, []);
    } else {
      if Match(sh, p, Rest(path)).Some? {
        var own := Captured(sh, p, Rest(path));
        assert TakesPath(sh, p, path, own);
      }
      forall own | TakesPath(sh, p, path, own) ensures Match(sh, p, Rest(path)) == Some(Flat(own)) {
        CaptureMatches(sh, p, Rest(path), own);
      }
    }
  }

  ghost predicate BestFit(sh: Shapes, routes: Routes, path: string, p: Pattern) {
    && p in routes && Fits(sh, p, path)
    && forall q :: q in routes && Fits(sh, q, path) ==> q == p || MoreSpecific(sh, p, q)
  }

  /**
   * The best pattern's handler for the method, each of its names with what its own segment took; or that pattern's
   * methods; or that no pattern fits.
   */
  ghost predicate Explained<T>(sh: Shapes, routes: Routes, terminals: seq<Terminal<T>>, verb: string, path: string,
                               a: Answer<T>) {
    if a.NotFound? then forall q :: q in routes ==> !Fits(sh, q, path)
    else exists p, own :: BestFit(sh, routes, path, p) && TakesPath(sh, p, path, own)
                          && ResolvedAt(routes, terminals, verb, p, own, a)
  }

  ghost predicate ResolvedAt<T>(routes: Routes, terminals: seq<Terminal<T>>, verb: string, p: Pattern,
                                own: seq<seq<string>>, a: Answer<T>) {
    p in routes && routes[p] < |terminals| && Resolves(terminals[routes[p]], verb, Flat(own), a)
  }

  lemma {:induction false} AnswerExplained<T>(sh: Shapes, routes: Routes, terminals: seq<Terminal<T>>, verb: string,
                                              path: string, a: Answer<T>)
    requires IsAnswer(sh, routes, terminals, verb, path, a) && AllListed(terminals)
    ensures Explained(sh, routes, terminals, verb, path, a)
  {
    forall q ensures Fits(sh, q, path) <==> PathMatch(sh, q, path).Some? { FitsIff(sh, q, path); }
    if p :| Answers(sh, routes, path, p) && IsTerminalAnswer(sh, routes, terminals, verb, path, p, a) {
      FitsIff(sh, p, path);
      var own :| TakesPath(sh, p, path, own);
      var t := terminals[routes[p]];
      ResolvesIff(t, verb, Flat(own), a);
      assert BestFit(sh, routes, path, p) && ResolvedAt(routes, terminals, verb, p, own, a);
    }
  }

  lemma {:induction false} SpecificOneWay(sh: Shapes, p: Pattern, q: Pattern)
    requires ValidShapes(sh) && MoreSpecific(sh, p, q) && p != []
    requires MoreSpecific(sh, q, p)
    ensures false
    decreases |p|
  {
    if p[0] == q[0] {
      if p[1..] != [] { SpecificOneWay(sh, p[1..], q[1..]); }
    } else if p[0].Mixed? && q[0].Mixed? {
      assert Le(sh.le, p[0].key, q[0].key) && Le(sh.le, q[0].key, p[0].key);
    }
  }

  /** The walk from the root, and the lookup of static paths, in terms of the routes. */
  ghost predicate Represents(sh: Shapes, root: Node, statics: map<string, nat>, routes: Routes) {
    && Ordered(sh, root)
    && (forall p :: Lookup(root, p) == if p in routes then Some(routes[p]) else None)
    && (forall p :: p in routes ==> WellFormed(p))
    && (forall p :: p in routes && IsStatic(p) ==> "/" + Spell(p) in statics && statics["/" + Spell(p)] == routes[p])
    && (forall path :: path in statics ==> exists p :: SpelledAs(routes, p, path))
  }

  ghost predicate SpelledAs(routes: Routes, p: Pattern, path: string) {
    p in routes && IsStatic(p) && path == "/" + Spell(p)
  }

  /** A path of a static pattern is answered by that pattern. */
  lemma {:induction false} StaticAnswers(sh: Shapes, root: Node, statics: map<string, nat>, routes: Routes,
                                         path: string)
    returns (p: Pattern)
    requires ValidShapes(sh) && Represents(sh, root, statics, routes) && path in statics
    ensures Answers(sh, routes, path, p) && statics[path] == routes[p] && PathMatch(sh, p, path) == Some([])
  {
    p :| SpelledAs(routes, p, path);
    assert Rest(path) == Spell(p);
    if p != [] {
      SpellMatches(sh, p);
      forall q | q in routes && PathMatch(sh, q, path).Some? ensures q == p || MoreSpecific(sh, p, q) {
        if q == [] { RootSpells(p); } else { StaticIsFirst(sh, p, q, Spell(p)); }
      }
    }
  }

  lemma {:induction false} RootSpells(p: Pattern)
    requires IsStatic(p) && WellFormed(p) && "/" + Spell(p) == "/"
    ensures p == []
  {
    assert ("/" + Spell(p))[1..] == Spell(p);
    if |p| == 1 { SpellOfOne(p); }
  }

  lemma {:induction false} SpellOfOne(p: Pattern)
    requires |p| == 1 && IsStatic(p) && Spell(p) == ""
    ensures p == [Static("")]
  {
    assert p == [p[0]];
  }

  /** Any other path is answered by the walk. */
  lemma {:induction false} WalkAnswers(sh: Shapes, root: Node, statics: map<string, nat>, routes: Routes, path: string)
    returns (p: Pattern)
    requires ValidShapes(sh) && Represents(sh, root, statics, routes) && !(Leading(path) && path in statics)
    ensures Walk(sh, root, Rest(path)).None? ==> forall q :: q in routes ==> PathMatch(sh, q, path).None?
    ensures Walk(sh, root, Rest(path)).Some? ==>
      var hit := Walk(sh, root, Rest(path)).value;
      Answers(sh, routes, path, p) && routes[p] == hit.id && PathMatch(sh, p, path) == Some(hit.values)
  {
    p := WalkIsBest(sh, root, Rest(path));
    assert "/" + Spell([]) == "/";
    assert [] in routes ==> "/" in statics;
    forall q | q in routes && PathMatch(sh, q, path).Some?
      ensures Registered(root, q) && Match(sh, q, Rest(path)) == PathMatch(sh, q, path)
    {
    }
  }

  /** One answer for each request. */
  lemma {:induction false} OneAnswer<T>(sh: Shapes, routes: Routes, terminals: seq<Terminal<T>>, verb: string,
                                        path: string, a: Answer<T>, b: Answer<T>)
    requires ValidShapes(sh)
    requires IsAnswer(sh, routes, terminals, verb, path, a) && IsAnswer(sh, routes, terminals, verb, path, b)
    ensures a == b
  {
    if p :| Answers(sh, routes, path, p) && IsTerminalAnswer(sh, routes, terminals, verb, path, p, a) {
      var q :| Answers(sh, routes, path, q) && IsTerminalAnswer(sh, routes, terminals, verb, path, q, b);
      if q != p { SpecificOneWay(sh, p, q); }
    }
  }

  // ---------------------------------------------------------------- the caches

  const CACHE_MAX := 2048
  const CACHE_CHARS := 262144

  /** The dynamic matches kept, in the order they came, and the path seen last. */
  datatype Cache = Cache(entries: map<string, Hit>, order: seq<string>, chars: nat, pending: Option<string>)

  const NO_CACHE := Cache(map[], [], 0, None)

  function Chars(paths: seq<string>): nat {
    if paths == [] then 0 else |paths[0]| + Chars(paths[1..])
  }

  lemma {:induction false} CharsAppend(paths: seq<string>, path: string)
    ensures Chars(paths + [path]) == Chars(paths) + |path|
  {
    if paths != [] {
      assert (paths + [path])[1..] == paths[1..] + [path];
      CharsAppend(paths[1..], path);
    } else {
      assert [path][1..] == [];
    }
  }

  /** No more paths than the limit, and no more characters unless one path alone has more. */
  ghost predicate Bounded(c: Cache) {
    && Distinct(c.order) && (forall path :: path in c.order <==> path in c.entries)
    && c.chars == Chars(c.order) && |c.order| <= CACHE_MAX && (c.chars <= CACHE_CHARS || |c.order| == 1)
  }

  /** What is kept is what the walk would find. */
  ghost predicate Fresh(sh: Shapes, root: Node, statics: map<string, nat>, entries: map<string, Hit>) {
    forall path :: path in entries ==>
      Leading(path) && path !in statics && Walk(sh, root, Rest(path)) == Some(entries[path])
  }

  /** A path is kept the second time in a row, and the oldest go until it fits. */
  method Keep(before: Cache, path: string, hit: Hit) returns (c: Cache)
    requires Bounded(before) && path !in before.entries
    ensures Bounded(c) && forall p :: p in c.entries ==>
      (p == path && c.entries[p] == hit) || (p in before.entries && c.entries[p] == before.entries[p])
  {
    c := before;
    if c.pending != Some(path) { return c.(pending := Some(path)); }
    while c.order != [] && !(|c.order| < CACHE_MAX && c.chars + |path| <= CACHE_CHARS)
      invariant Trimmed(before, c)
      decreases |c.order|
    {
      DropOldest(before, c);
      c := c.(entries := c.entries - {c.order[0]}, order := c.order[1..], chars := c.chars - |c.order[0]|);
    }
    CharsAppend(c.order, path);
    c := c.(entries := c.entries[path := hit], order := c.order + [path], chars := c.chars + |path|);
  }

  /** Part of a cache. */
  ghost predicate Trimmed(before: Cache, c: Cache) {
    && Distinct(c.order) && (forall path :: path in c.order <==> path in c.entries)
    && c.chars == Chars(c.order) && |c.order| <= CACHE_MAX
    && forall p :: p in c.entries ==> p in before.entries && c.entries[p] == before.entries[p]
  }

  lemma {:induction false} DropOldest(before: Cache, c: Cache)
    requires Trimmed(before, c) && c.order != []
    ensures c.chars >= |c.order[0]|
    ensures Trimmed(before, c.(entries := c.entries - {c.order[0]}, order := c.order[1..],
                               chars := c.chars - |c.order[0]|))
  {
    assert c.order == [c.order[0]] + c.order[1..];
  }

  // ---------------------------------------------------------------- the router

  /** Each route's terminal is its own and has a name for every value. */
  ghost predicate Named<T>(sh: Shapes, routes: Routes, terminals: seq<Terminal<T>>) {
    && (forall p :: p in routes ==> routes[p] < |terminals| && |terminals[routes[p]].names| == Arity(sh, p))
    && forall p, q :: p in routes && q in routes && routes[p] == routes[q] ==> p == q
  }

  /** Static paths have no parameters. */
  ghost predicate Unnamed<T>(statics: map<string, nat>, terminals: seq<Terminal<T>>) {
    forall path :: path in statics ==> statics[path] < |terminals| && terminals[statics[path]].names == []
  }

  ghost predicate Complete<T>(sh: Shapes, statics: map<string, nat>, routes: Routes, terminals: seq<Terminal<T>>) {
    Named(sh, routes, terminals) && Unnamed(statics, terminals) && AllListed(terminals)
  }

  /** What is kept of static answers is what would be resolved. */
  ghost predicate Resolved<T>(terminals: seq<Terminal<T>>, kept: map<(nat, string), Answer<T>>) {
    forall k :: k in kept ==> k.0 < |terminals| && kept[k] == ResolveDirect(terminals[k.0], k.1, map[])
  }

  /** A hit of the walk has a terminal, its values are as many as the terminal's names, and it gives the answer. */
  lemma {:induction false} HitAnswers<T>(sh: Shapes, root: Node, statics: map<string, nat>, routes: Routes,
                                         terminals: seq<Terminal<T>>, verb: string, path: string, hit: Hit)
    requires ValidShapes(sh) && Represents(sh, root, statics, routes) && Named(sh, routes, terminals)
    requires !(Leading(path) && path in statics) && Walk(sh, root, Rest(path)) == Some(hit)
    ensures hit.id < |terminals| && |terminals[hit.id].names| == |hit.values|
    ensures IsAnswer(sh, routes, terminals, verb, path,
                     ResolveDirect(terminals[hit.id], verb, Params(terminals[hit.id].names, hit.values)))
  {
    var p := WalkAnswers(sh, root, statics, routes, path);
    if p != [] { ValuesAlign(sh, p, Rest(path)); }
    assert IsTerminalAnswer(sh, routes, terminals, verb, path, p,
                            ResolveDirect(terminals[hit.id], verb, Params(terminals[hit.id].names, hit.values)));
  }

  lemma {:induction false} NothingAnswers<T>(sh: Shapes, root: Node, statics: map<string, nat>, routes: Routes,
                                             terminals: seq<Terminal<T>>, verb: string, path: string)
    requires ValidShapes(sh) && Represents(sh, root, statics, routes)
    requires !(Leading(path) && path in statics) && Walk(sh, root, Rest(path)).None?
    ensures IsAnswer(sh, routes, terminals, verb, path, NotFound)
  {
    var p := WalkAnswers(sh, root, statics, routes, path);
  }

  datatype Outcome = Added | InvalidMethod | NameConflict | DuplicateRoute

  class Router<T> {
    const sh: Shapes
    var root: Node
    var terminals: seq<Terminal<T>>
    var statics: map<string, nat>
    var staticMatches: map<(nat, string), Answer<T>>
    var cache: Cache
    var scratch: seq<string>
    ghost var routes: Routes

    ghost predicate Valid()
      reads this
    {
      && ValidShapes(sh) && Represents(sh, root, statics, routes) && Complete(sh, statics, routes, terminals)
      && Resolved(terminals, staticMatches) && Fresh(sh, root, statics, cache.entries) && Bounded(cache)
    }

    constructor (sh: Shapes)
      requires ValidShapes(sh)
      ensures Valid() && this.sh == sh && routes == map[] && terminals == []
    {
      this.sh := sh;
      root, terminals, statics, staticMatches, cache, scratch, routes := EMPTY, [], map[], map[], NO_CACHE, [], map[];
      new;
      forall p ensures Lookup(root, p) == None { NothingInEmpty(p); }
    }

    /**
     * The walk with its values pushed and popped on one shared array: what is left is the hit's values, and what a
     * branch that dead-ends pushed is gone.
     */
    method MatchNode(node: Node, rest: string) returns (id: Option<nat>)
      requires ValidShapes(sh)
      modifies this`scratch
      ensures Walked(Walk(sh, node, rest), old(scratch), id, scratch)
      decreases |rest|, 2
    {
      var seg := First(rest);
      if seg in node.static_ {
        id := MatchBelow(node.static_[seg], rest, []);
        if id.Some? { return; }
      }
      if seg != "" {
        id := MatchMixed(node.mixed, rest);
        if id.Some? { return; }
      }
      if node.param.Some? && seg != "" {
        id := MatchBelow(node.param.value, rest, [seg]);
        if id.Some? { return; }
      }
      id := node.wildcard;
      if id.Some? { scratch := scratch + [rest]; }
    }

    /** The branches in turn. */
    method MatchMixed(branches: seq<Branch>, rest: string) returns (id: Option<nat>)
      requires ValidShapes(sh)
      modifies this`scratch
      ensures Walked(WalkMixed(sh, branches, rest), old(scratch), id, scratch)
      decreases |rest|, 1
    {
      id := None;
      for i := 0 to |branches|
        invariant id == None && scratch == old(scratch)
        invariant WalkMixed(sh, branches, rest) == WalkMixed(sh, branches[i..], rest)
      {
        assert branches[i..][0] == branches[i] && branches[i..][1..] == branches[i + 1..];
        var own := sh.scan(branches[i].key, First(rest));
        if own.None? { continue; }
        id := MatchBelow(branches[i].node, rest, own.value);
        if id.Some? { return; }
      }
      assert branches[|branches|..] == [];
    }

    /** A child, with the segment's own values pushed, and popped again if it dead-ends. */
    method MatchBelow(child: Node, rest: string, own: seq<string>) returns (id: Option<nat>)
      requires ValidShapes(sh)
      modifies this`scratch
      ensures Walked(Below(sh, child, rest, own), old(scratch), id, scratch)
      decreases |rest|, 0
    {
      scratch := scratch + own;
      if IsLast(rest) {
        id := child.terminal;
      } else {
        id := MatchNode(child, Tail(rest));
      }
      if id.None? { scratch := scratch[..|scratch| - |own|]; }
    }

    /** One terminal's answer, kept under a method that it serves when it has no parameters. */
    method Resolve(id: nat, verb: string, params: map<string, string>) returns (a: Answer<T>)
      requires id < |terminals| && Resolved(terminals, staticMatches) && (terminals[id].names == [] ==> params == map[])
      modifies this`staticMatches
      ensures a == ResolveDirect(terminals[id], verb, params) && Resolved(terminals, staticMatches)
    {
      var t := terminals[id];
      if t.names == [] && (id, verb) in staticMatches { return staticMatches[(id, verb)]; }
      a := ResolveDirect(t, verb, params);
      if t.names == [] && (verb in t.handlers || (verb == "HEAD" && "GET" in t.handlers)) {
        staticMatches := staticMatches[(id, verb) := a];
      }
    }

    /**
     * Whatever was asked before, and whatever the caches hold, a request is answered by the most specific registered
     * pattern that matches, with its own values by name.
     */
    method Find(verb: string, path: string) returns (a: Answer<T>)
      requires Valid()
      modifies this`staticMatches, this`cache, this`scratch
      ensures Valid() && IsAnswer(sh, routes, terminals, verb, path, a)
      ensures Explained(sh, routes, terminals, verb, path, a)
    {
      if Leading(path) && path in statics {
        ghost var p := StaticAnswers(sh, root, statics, routes, path);
        a := Resolve(statics[path], verb, map[]);
        assert IsTerminalAnswer(sh, routes, terminals, verb, path, p, a);
      } else {
        a := FindDynamic(verb, path);
      }
      AnswerExplained(sh, routes, terminals, verb, path, a);
    }

    method FindDynamic(verb: string, path: string) returns (a: Answer<T>)
      requires Valid() && !(Leading(path) && path in statics)
      modifies this`staticMatches, this`cache, this`scratch
      ensures Valid() && IsAnswer(sh, routes, terminals, verb, path, a)
    {
      if Leading(path) && path in cache.entries {
        a := FromHit(verb, path, cache.entries[path]);
        return;
      }
      var hit := WalkPath(path);
      if hit.None? {
        NothingAnswers(sh, root, statics, routes, terminals, verb, path);
        return NotFound;
      }
      KeepMatch(verb, path, hit.value);
      a := FromHit(verb, path, hit.value);
    }

    /** The walk from the root, on an empty array, which is emptied again. */
    method WalkPath(path: string) returns (hit: Option<Hit>)
      requires ValidShapes(sh)
      modifies this`scratch
      ensures hit == Walk(sh, root, Rest(path))
    {
      scratch := [];
      var id := MatchNode(root, Rest(path));
      FromNothing(Walk(sh, root, Rest(path)), id, scratch);
      hit := if id.None? then None else Some(Hit(id.value, scratch));
      scratch := [];
    }

    /** A new match is kept if it has parameters. */
    method KeepMatch(verb: string, path: string, hit: Hit)
      requires Valid() && !(Leading(path) && (path in statics || path in cache.entries))
      requires Walk(sh, root, Rest(path)) == Some(hit)
      modifies this`cache
      ensures Valid()
    {
      HitAnswers(sh, root, statics, routes, terminals, verb, path, hit);
      if Leading(path) && terminals[hit.id].names != [] { cache := Keep(cache, path, hit); }
    }

    method FromHit(verb: string, path: string, hit: Hit) returns (a: Answer<T>)
      requires Valid() && !(Leading(path) && path in statics) && Walk(sh, root, Rest(path)) == Some(hit)
      modifies this`staticMatches
      ensures Valid() && IsAnswer(sh, routes, terminals, verb, path, a)
    {
      HitAnswers(sh, root, statics, routes, terminals, verb, path, hit);
      a := Resolve(hit.id, verb, Params(terminals[hit.id].names, hit.values));
    }

    /**
     * A route is added, or refused with everything as it was: for its method, for other names at the same shape, or
     * because its method is taken. `verb` is upper case and `registrable` says whether it is a method token.
     */
    method Add(verb: string, registrable: bool, p: Pattern, names: seq<string>, payload: T) returns (o: Outcome)
      requires Valid() && WellFormed(p) && |names| == Arity(sh, p)
      modifies this
      ensures Valid() && o == Refusal(old(routes), old(terminals), verb, registrable, p, names)
      ensures routes == if o == Added && p !in old(routes) then old(routes)[p := |old(terminals)|] else old(routes)
      ensures terminals ==
        if o == Added then WithRoute(old(routes), old(terminals), verb, p, names, payload) else old(terminals)
      ensures o == Added ==> Gains(old(terminals), terminals, routes[p], verb, names, payload)
    {
      o := Place(verb, registrable, p, names, payload);
      RouteGains(old(routes), old(terminals), verb, p, names, payload);
    }

    /** The checks, then the handler at its terminal. */
    method Place(verb: string, registrable: bool, p: Pattern, names: seq<string>, payload: T) returns (o: Outcome)
      requires Valid() && WellFormed(p) && |names| == Arity(sh, p)
      modifies this
      ensures Valid() && o == Refusal(old(routes), old(terminals), verb, registrable, p, names)
      ensures routes == if o == Added && p !in old(routes) then old(routes)[p := |old(terminals)|] else old(routes)
      ensures terminals ==
        if o == Added then WithRoute(old(routes), old(terminals), verb, p, names, payload) else old(terminals)
    {
      cache := NO_CACHE;
      if !registrable { return InvalidMethod; }
      var existing := Lookup(root, p);
      if existing.Some? {
        var t := terminals[existing.value];
        if t.names != names { return NameConflict; }
        if verb in t.handlers { return DuplicateRoute; }
        AddHandler(existing.value, verb, p, payload);
      } else {
        AddTerminal(verb, p, names, payload);
      }
      o := Added;
    }

    method AddHandler(id: nat, verb: string, p: Pattern, payload: T)
      requires Valid() && p in routes && routes[p] == id && verb !in terminals[id].handlers
      modifies this`terminals, this`staticMatches
      ensures Valid() && terminals == old(terminals)[id := Served(old(terminals)[id], verb, payload)]
    {
      HandlerGrows(sh, statics, routes, terminals, id, verb, payload);
      terminals := terminals[id := Served(terminals[id], verb, payload)];
      staticMatches := map k | k in staticMatches && k.0 != id :: staticMatches[k];
    }

    method AddTerminal(verb: string, p: Pattern, names: seq<string>, payload: T)
      requires Valid() && p !in routes && WellFormed(p) && |names| == Arity(sh, p) && cache == NO_CACHE
      modifies this`root, this`terminals, this`statics, this`routes
      ensures Valid() && routes == old(routes)[p := |old(terminals)|]
      ensures terminals == old(terminals) + [Terminal([verb], map[verb := payload], names)]
    {
      var id := |terminals|;
      RegisterRepresents(sh, root, statics, routes, p, id);
      TerminalGrows(sh, statics, routes, terminals, staticMatches, p, Terminal([verb], map[verb := payload], names));
      root := Register(sh, root, p, id);
      terminals := terminals + [Terminal([verb], map[verb := payload], names)];
      if names == [] { statics := statics["/" + Spell(p) := id]; }
      routes := routes[p := id];
    }
  }

  /** A new terminal, for a new pattern, keeps what is said of the others. */
  lemma {:induction false} TerminalGrows<T>(sh: Shapes, statics: map<string, nat>, routes: Routes,
                                            terminals: seq<Terminal<T>>, kept: map<(nat, string), Answer<T>>,
                                            p: Pattern, t: Terminal<T>)
    requires ValidShapes(sh) && Named(sh, routes, terminals) && Unnamed(statics, terminals) && Resolved(terminals, kept)
    requires p !in routes && |t.names| == Arity(sh, p) && AllListed(terminals) && Listed(t)
    ensures AllListed(terminals + [t])
    ensures t.names == [] <==> IsStatic(p)
    ensures Named(sh, routes[p := |terminals|], terminals + [t]) && Resolved(terminals + [t], kept)
    ensures Unnamed(statics, terminals + [t])
    ensures IsStatic(p) ==> Unnamed(statics["/" + Spell(p) := |terminals|], terminals + [t])
  {
    StaticHasNoValues(sh, p);
  }

  /** One more handler keeps what is said of the terminals. */
  lemma {:induction false} HandlerGrows<T>(sh: Shapes, statics: map<string, nat>, routes: Routes,
                                           terminals: seq<Terminal<T>>, id: nat, verb: string, payload: T)
    requires Named(sh, routes, terminals) && Unnamed(statics, terminals) && AllListed(terminals)
    requires id < |terminals| && verb !in terminals[id].handlers
    ensures
      var more := terminals[id := Served(terminals[id], verb, payload)];
      Named(sh, routes, more) && Unnamed(statics, more) && AllListed(more)
  {
  }

  function Served<T>(t: Terminal<T>, verb: string, payload: T): Terminal<T> {
    t.(methods := t.methods + [verb], handlers := t.handlers[verb := payload])
  }

  function Refusal<T>(routes: Routes, terminals: seq<Terminal<T>>, verb: string, registrable: bool, p: Pattern,
                      names: seq<string>): Outcome
    requires p in routes ==> routes[p] < |terminals|
  {
    if !registrable then InvalidMethod
    else if p in routes && terminals[routes[p]].names != names then NameConflict
    else if p in routes && verb in terminals[routes[p]].handlers then DuplicateRoute
    else Added
  }

  /** The terminals with one more handler, at the pattern's own or at a new one. */
  function WithRoute<T>(routes: Routes, terminals: seq<Terminal<T>>, verb: string, p: Pattern, names: seq<string>,
                        payload: T): seq<Terminal<T>>
    requires p in routes ==> routes[p] < |terminals|
  {
    if p in routes then terminals[routes[p] := Served(terminals[routes[p]], verb, payload)]
    else terminals + [Terminal([verb], map[verb := payload], names)]
  }

  /** The terminal has the handler and the names, and every handler it had; the other terminals are as they were. */
  ghost predicate Gains<T>(before: seq<Terminal<T>>, after: seq<Terminal<T>>, id: nat, verb: string,
                           names: seq<string>, payload: T) {
    var had := if id < |before| then before[id].handlers else map[];
    && id < |after| && |after| == (if id < |before| then |before| else |before| + 1)
    && after[id].names == names && after[id].handlers.Keys == had.Keys + {verb}
    && (forall m :: m in after[id].handlers ==> after[id].handlers[m] == if m == verb then payload else had[m])
    && forall i :: 0 <= i < |before| && i != id ==> after[i] == before[i]
  }

  lemma {:induction false} RouteGains<T>(routes: Routes, terminals: seq<Terminal<T>>, verb: string, p: Pattern,
                                         names: seq<string>, payload: T)
    requires p in routes ==> routes[p] < |terminals|
    ensures Refusal(routes, terminals, verb, true, p, names) == Added ==>
      var id := if p in routes then routes[p] else |terminals|;
      Gains(terminals, WithRoute(routes, terminals, verb, p, names, payload), id, verb, names, payload)
  {
  }

  /** A new pattern is represented by inserting it, and by its path if it is static. */
  lemma {:induction false} RegisterRepresents(sh: Shapes, root: Node, statics: map<string, nat>, routes: Routes,
                                              p: Pattern, id: nat)
    requires ValidShapes(sh) && Represents(sh, root, statics, routes) && p !in routes && WellFormed(p)
    ensures Represents(sh, Register(sh, root, p, id), if IsStatic(p) then statics["/" + Spell(p) := id] else statics,
                       routes[p := id])
  {
    InsertOrdered(sh, root, p, id);
    TrieGrows(sh, root, routes, p, id);
    StaticsGrow(sh, statics, routes, p, id);
  }

  /** The paths of the static patterns, with the new one's. */
  lemma {:induction false} StaticsGrow(sh: Shapes, statics: map<string, nat>, routes: Routes, p: Pattern, id: nat)
    requires ValidShapes(sh) && p !in routes && WellFormed(p) && forall q :: q in routes ==> WellFormed(q)
    requires forall q :: q in routes && IsStatic(q) ==>
      "/" + Spell(q) in statics && statics["/" + Spell(q)] == routes[q]
    requires forall path :: path in statics ==> exists q :: SpelledAs(routes, q, path)
    ensures
      var after, more := if IsStatic(p) then statics["/" + Spell(p) := id] else statics, routes[p := id];
      && (forall q :: q in more && IsStatic(q) ==> "/" + Spell(q) in after && after["/" + Spell(q)] == more[q])
      && (forall path :: path in after ==> exists q :: SpelledAs(more, q, path))
  {
    var more := routes[p := id];
    if IsStatic(p) {
      forall q | q in routes && IsStatic(q) ensures "/" + Spell(q) != "/" + Spell(p) { SpelledApart(sh, p, q); }
      assert SpelledAs(more, p, "/" + Spell(p));
    }
    forall path | path in statics ensures exists q :: SpelledAs(more, q, path) {
      var q :| SpelledAs(routes, q, path);
      assert SpelledAs(more, q, path);
    }
  }

  lemma {:induction false} TrieGrows(sh: Shapes, root: Node, routes: Routes, p: Pattern, id: nat)
    requires WellFormed(p) && forall q :: Lookup(root, q) == if q in routes then Some(routes[q]) else None
    ensures
      var after, more := Register(sh, root, p, id), routes[p := id];
      forall q :: Lookup(after, q) == if q in more then Some(more[q]) else None
  {
    var after, more := Register(sh, root, p, id), routes[p := id];
    forall q ensures Lookup(after, q) == if q in more then Some(more[q]) else None {
      LookupInserted(sh, root, p, id, q);
    }
  }

  /** Static patterns are as different as their paths. */
  lemma {:induction false} SpelledApart(sh: Shapes, p: Pattern, q: Pattern)
    requires ValidShapes(sh) && IsStatic(p) && IsStatic(q) && WellFormed(p) && WellFormed(q) && p != q
    ensures "/" + Spell(p) != "/" + Spell(q)
  {
    if "/" + Spell(p) == "/" + Spell(q) {
      assert ("/" + Spell(p))[1..] == Spell(p) && ("/" + Spell(q))[1..] == Spell(q);
      if p == [] {
        RootSpells(q);
      } else if q == [] {
        RootSpells(p);
      } else {
        SpellMatches(sh, p);
        SpellMatches(sh, q);
        StaticIsFirst(sh, p, q, Spell(p));
      }
    }
  }

  lemma {:induction false} FromNothing(hit: Option<Hit>, id: Option<nat>, after: seq<string>)
    requires Walked(hit, [], id, after)
    ensures hit == if id.None? then None else Some(Hit(id.value, after))
  {
    assert hit.Some? ==> [] + hit.value.values == hit.value.values;
  }

  /** The id and the array after a walk from an array. */
  ghost predicate Walked(hit: Option<Hit>, before: seq<string>, id: Option<nat>, after: seq<string>) {
    match hit
    case None => id == None && after == before
    case Some(h) => id == Some(h.id) && after == before + h.values
  }
}
