/**
 * Signatures as Markdown code spans: `codeSpan`, and the code-span rule of section 6.1 of CommonMark 0.31.2 that
 * reads it back. A fence of n backticks is closed by the next string of exactly n; strings are sequences of
 * characters.
 */
module CodeSpan {
  import opened Collections
  import opened Text

  const TICK := '`'
  const SIGNATURE_CAP := 220

  // ---------------------------------------------------------------- the reader

  /** The length of the backtick string that `s` begins with. */
  function Ticks(s: string): (n: nat)
    ensures n <= |s| && forall i :: 0 <= i < n ==> s[i] == TICK
    ensures n < |s| ==> s[n] != TICK
  {
    if s != "" && s[0] == TICK then 1 + Ticks(s[1..]) else 0
  }

  /** How much of `s` comes before the first backtick string of length exactly `n`; `s` starts outside of one. */
  function Closer(s: string, n: nat): (at: Option<nat>)
    requires n > 0
    ensures at.Some? ==> at.value + n <= |s|
  {
    if s == "" then None
    else
      var k := Ticks(s);
      if k == n then Some(0)
      else
        var skip := if k == 0 then 1 else k;
        var rest := Closer(s[skip..], n);
        if rest.None? then None else Some(skip + rest.value)
  }

  predicate IsLineEnding(c: char) { c == '\n' || c == '\r' }

  /** Line endings become spaces, a carriage return and its line feed one of them. */
  function Unfolded(s: string): string {
    if s == "" then ""
    else if s[0] == '\r' && |s| > 1 && s[1] == '\n' then " " + Unfolded(s[2..])
    else (if IsLineEnding(s[0]) then " " else [s[0]]) + Unfolded(s[1..])
  }

  predicate AllSpaces(s: string) { forall c :: c in s ==> c == ' ' }

  /** One space goes from each end when both have one and something else stands between. */
  function Stripped(s: string): string {
    if s != "" && s[0] == ' ' && s[|s| - 1] == ' ' && !AllSpaces(s) then s[1..|s| - 1] else s
  }

  datatype Span = Span(text: string, length: nat)

  /** The code span that `s` begins with, and how many characters it takes. */
  function ParseSpan(s: string): Option<Span> {
    var n := Ticks(s);
    if n == 0 then None
    else
      match Closer(s[n..], n)
      case None => None
      case Some(length) => Some(Span(Stripped(Unfolded(s[n..n + length])), n + length + n))
  }

  // ---------------------------------------------------------------- the writer

  function Max(a: nat, b: nat): nat { if a < b then b else a }

  /** The longest backtick string in `s`. */
  function Longest(s: string): nat {
    if s == "" then 0 else Max(Ticks(s), Longest(s[1..]))
  }

  function Fence(n: nat): (f: string)
    ensures |f| == n && forall i :: 0 <= i < n ==> f[i] == TICK
  {
    if n == 0 then "" else [TICK] + Fence(n - 1)
  }

  predicate NeedsPad(text: string) {
    text != "" && (text[0] == TICK || text[|text| - 1] == TICK)
  }

  function Padded(text: string): string {
    if NeedsPad(text) then " " + text + " " else text
  }

  /** Longer than any backtick string of the text, wherever it is. */
  function AsCodeSpan(text: string): string {
    var fence := Fence(Longest(text) + 1);
    fence + (Padded(text) + fence)
  }

  lemma {:induction false} LongestSkipsRun(s: string, k: nat)
    requires k <= Ticks(s)
    ensures Longest(s) == Max(if k == 0 then 0 else Ticks(s), Longest(s[k..]))
    decreases k
  {
    if k > 0 {
      assert Ticks(s) == 1 + Ticks(s[1..]);
      LongestSkipsRun(s[1..], k - 1);
      assert s[1..][k - 1..] == s[k..];
      TicksBelowLongest(s[k..]);
      if k == 1 { assert s[1..] == s[k..]; }
    } else {
      assert s[0..] == s;
    }
  }

  lemma {:induction false} TicksBelowLongest(s: string)
    ensures Ticks(s) <= Longest(s)
  {
  }

  method CodeSpan(text: string) returns (span: string)
    ensures span == AsCodeSpan(text)
  {
    var longest := LongestRun(text);
    var fence := Fence(longest + 1);
    var pad := if NeedsPad(text) then " " else "";
    span := fence + (pad + text + pad + fence);
  }

  method LongestRun(text: string) returns (longest: nat)
    ensures longest == Longest(text)
  {
    var i := 0;
    longest := 0;
    while i < |text|
      invariant i <= |text| && Longest(text) == Max(longest, Longest(text[i..]))
    {
      var run := Ticks(text[i..]);
      if run == 0 {
        assert text[i..][1..] == text[i + 1..];
        i := i + 1;
      } else {
        LongestSkipsRun(text[i..], run);
        assert text[i..][run..] == text[i + run..];
        longest := Max(longest, run);
        i := i + run;
      }
    }
  }

  // ---------------------------------------------------------------- reading back

  lemma {:induction false} TicksOfFence(n: nat, rest: string)
    requires rest == "" || rest[0] != TICK
    ensures Ticks(Fence(n) + rest) == n
  {
    if n > 0 {
      assert (Fence(n) + rest)[1..] == Fence(n - 1) + rest;
      TicksOfFence(n - 1, rest);
    } else {
      assert Fence(0) + rest == rest;
    }
  }

  /** Text that does not end in a backtick ends its own backtick strings. */
  lemma {:induction false} TicksStayInside(body: string, rest: string)
    requires body != "" && body[|body| - 1] != TICK
    ensures Ticks(body + rest) == Ticks(body) < |body|
  {
    if body[0] == TICK {
      assert (body + rest)[1..] == body[1..] + rest;
      TicksStayInside(body[1..], rest);
    }
  }

  lemma {:induction false} LongestOfSuffix(s: string, k: nat)
    requires k <= |s|
    ensures Longest(s[k..]) <= Longest(s)
    decreases k
  {
    if k > 0 {
      LongestOfSuffix(s[1..], k - 1);
      assert s[1..][k - 1..] == s[k..];
    } else {
      assert s[0..] == s;
    }
  }

  /** No backtick string of the body is long enough to close it early. */
  lemma {:induction false} FenceCloses(body: string, n: nat)
    requires n > Longest(body) && (body != "" ==> body[|body| - 1] != TICK)
    ensures Closer(body + Fence(n), n) == Some(|body|)
    decreases |body|
  {
    var s := body + Fence(n);
    if body == "" {
      TicksOfFence(n, "");
      assert s == Fence(n) + "";
    } else {
      var skip := if Ticks(body) == 0 then 1 else Ticks(body);
      BeforeFence(body, n, skip);
      FenceCloses(body[skip..], n);
      CloserSkips(s, n, skip);
    }
  }

  /** The first backtick string of the body, or its first character, is passed over. */
  lemma {:induction false} BeforeFence(body: string, n: nat, skip: nat)
    requires n > Longest(body) && body != "" && body[|body| - 1] != TICK
    requires skip == if Ticks(body) == 0 then 1 else Ticks(body)
    ensures Ticks(body + Fence(n)) == Ticks(body) != n && skip <= |body| && Longest(body[skip..]) < n
    ensures (body + Fence(n))[skip..] == body[skip..] + Fence(n)
    ensures body[skip..] != "" ==> body[skip..][|body[skip..]| - 1] != TICK
  {
    TicksStayInside(body, Fence(n));
    TicksBelowLongest(body);
    LongestOfSuffix(body, skip);
  }

  lemma {:induction false} CloserSkips(s: string, n: nat, skip: nat)
    requires n > 0 && s != "" && Ticks(s) != n && skip == if Ticks(s) == 0 then 1 else Ticks(s)
    requires Closer(s[skip..], n).Some?
    ensures Closer(s, n) == Some(skip + Closer(s[skip..], n).value)
  {
  }

  lemma {:induction false} PaddedLongest(text: string)
    ensures Longest(Padded(text)) == Longest(text)
    ensures Padded(text) != "" ==> Padded(text)[0] != TICK && Padded(text)[|Padded(text)| - 1] != TICK
  {
    if NeedsPad(text) {
      assert (" " + text + " ")[1..] == text + " ";
      LongestBeforeSpace(text);
    }
  }

  lemma {:induction false} LongestBeforeSpace(s: string)
    ensures Longest(s + " ") == Longest(s) && Ticks(s + " ") == Ticks(s)
  {
    if s == "" {
      assert s + " " == " " && " "[1..] == "";
    } else {
      assert (s + " ")[1..] == s[1..] + " ";
      LongestBeforeSpace(s[1..]);
    }
  }

  /**
   * Whatever backtick strings a text holds, its span is one code span from end to end around the padded text; only the
   * empty text gives none, since its two fences are one backtick string.
   */
  lemma {:induction false} SpanIsWhole(text: string)
    ensures text != "" ==>
      ParseSpan(AsCodeSpan(text)) == Some(Span(Stripped(Unfolded(Padded(text))), |AsCodeSpan(text)|))
    ensures text == "" ==> ParseSpan(AsCodeSpan(text)) == None
  {
    if text == "" {
      EmptySpan();
    } else {
      SpanOfText(text);
    }
  }

  lemma {:induction false} SpanOfText(text: string)
    requires text != ""
    ensures ParseSpan(AsCodeSpan(text)) == Some(Span(Stripped(Unfolded(Padded(text))), |AsCodeSpan(text)|))
  {
    var n, body := Longest(text) + 1, Padded(text);
    BodyCloses(text);
    FencedIsRead(body, n);
  }

  lemma {:induction false} BodyCloses(text: string)
    requires text != ""
    ensures Padded(text) != "" && Padded(text)[0] != TICK
    ensures
      var n, body := Longest(text) + 1, Padded(text);
      Closer(body + Fence(n), n) == Some(|body|)
  {
    PaddedLongest(text);
    FenceCloses(Padded(text), Longest(text) + 1);
  }

  lemma {:induction false} Pieces(a: string, b: string, c: string)
    ensures a + b + c == a + (b + c) && |a + b + c| == |a| + |b| + |c|
    ensures (a + (b + c))[|a|..] == b + c && (a + (b + c))[|a|..|a| + |b|] == b
  {
  }

  lemma {:induction false} FencedIsRead(body: string, n: nat)
    requires n > 0 && body != "" && body[0] != TICK && Closer(body + Fence(n), n) == Some(|body|)
    ensures ParseSpan(Fence(n) + (body + Fence(n))) == Some(Span(Stripped(Unfolded(body)), n + |body| + n))
  {
    TicksOfFence(n, body + Fence(n));
    Pieces(Fence(n), body, Fence(n));
  }

  predicate HasLineEnding(s: string) { exists c :: c in s && IsLineEnding(c) }

  lemma {:induction false} UnfoldedIsSame(s: string)
    ensures !HasLineEnding(s) ==> Unfolded(s) == s
    ensures forall c :: c in Unfolded(s) ==> !IsLineEnding(c)
  {
    if s != "" {
      assert s[0] in s && s == [s[0]] + s[1..];
      if s[0] == '\r' && |s| > 1 && s[1] == '\n' {
        UnfoldedIsSame(s[2..]);
      } else {
        UnfoldedIsSame(s[1..]);
        assert forall c :: c in s[1..] ==> c in s;
      }
    }
  }

  predicate SpacedBothEnds(s: string) {
    s != "" && s[0] == ' ' && s[|s| - 1] == ' ' && !AllSpaces(s)
  }

  /**
   * The text a span gives back is the text written exactly when it is not empty, on one line, and not spaced at both
   * ends.
   */
  lemma {:induction false} SpanRoundTrip(text: string)
    ensures ParseSpan(AsCodeSpan(text)) == Some(Span(text, |AsCodeSpan(text)|)) <==>
      text != "" && !HasLineEnding(text) && !SpacedBothEnds(text)
  {
    if text == "" {
      EmptySpan();
    } else {
      SpanIsWhole(text);
      if HasLineEnding(text) { LineEndingLost(text); } else { PaddingGoes(text); }
    }
  }

  lemma {:induction false} LineEndingLost(text: string)
    requires HasLineEnding(text)
    ensures Stripped(Unfolded(Padded(text))) != text
  {
    UnfoldedIsSame(Padded(text));
    assert !HasLineEnding(Stripped(Unfolded(Padded(text))));
  }

  lemma {:induction false} PaddingGoes(text: string)
    requires text != "" && !HasLineEnding(text)
    ensures Stripped(Unfolded(Padded(text))) == if SpacedBothEnds(text) then text[1..|text| - 1] else text
  {
    var body := Padded(text);
    assert forall c :: c in body ==> c in text || c == ' ';
    UnfoldedIsSame(body);
    if NeedsPad(text) {
      assert (" " + text + " ")[1..|text| + 1] == text;
      assert TICK in body;
    }
  }

  lemma {:induction false} EmptySpan()
    ensures ParseSpan(AsCodeSpan("")) == None
  {
    assert AsCodeSpan("") == [TICK, TICK];
    assert [TICK, TICK][1..] == [TICK] && [TICK][1..] == "";
    assert Ticks([TICK, TICK]) == 2;
  }

  // ---------------------------------------------------------------- capped signatures

  /** Each run of white space becomes one space; `inRun` says whether one is being read. */
  function Collapsed(s: string, inRun: bool): string {
    if s == "" then ""
    else if IsSpace(s[0]) then (if inRun then "" else " ") + Collapsed(s[1..], true)
    else [s[0]] + Collapsed(s[1..], false)
  }

  function Cap(s: string): string {
    var flat := Trim(Collapsed(s, false));
    if |flat| > SIGNATURE_CAP then flat[..SIGNATURE_CAP - 1] + ['\U{2026}'] else flat
  }

  lemma {:induction false} CollapsedIsFlat(s: string, inRun: bool)
    ensures forall c :: c in Collapsed(s, inRun) && IsSpace(c) ==> c == ' '
  {
    if s != "" { CollapsedIsFlat(s[1..], IsSpace(s[0])); }
  }

  /** Every capped signature that is not empty survives its code span, and the span is never cut short. */
  lemma {:induction false} CappedSurvives(signature: string)
    requires Cap(signature) != ""
    ensures |Cap(signature)| <= SIGNATURE_CAP
    ensures ParseSpan(AsCodeSpan(Cap(signature))) == Some(Span(Cap(signature), |AsCodeSpan(Cap(signature))|))
  {
    var collapsed := Collapsed(signature, false);
    CollapsedIsFlat(signature, false);
    TrimStartKeeps(collapsed);
    TrimEndKeeps(TrimStart(collapsed));
    var text := Cap(signature);
    assert forall c :: c in text ==> c in collapsed || c == '\U{2026}';
    assert !IsSpace(text[0]);
    SpanRoundTrip(text);
  }
}
