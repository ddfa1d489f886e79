/** The two decoders of HTML character references. Every pattern is "&", a body without "&" or ";", and ";". */
module Entities {
  import opened Collections
  import opened Text

  /** What a body stands for, in one pass. */
  type Table = string -> Option<string>

  /** The text before the first ";", unless an "&" or the end comes first. */
  function UpToSemicolon(s: string): (b: Option<string>)
    ensures b.Some? ==> |b.value| < |s| && s == b.value + ";" + s[|b.value| + 1..]
    ensures b.Some? ==> '&' !in b.value && ';' !in b.value
  {
    if s == "" || s[0] == '&' then None
    else if s[0] == ';' then Some("")
    else
      var rest := UpToSemicolon(s[1..]);
      if rest.None? then None else Some([s[0]] + rest.value)
  }

  /** The body of the reference a text starts with. */
  function Body(s: string): (b: Option<string>)
    ensures b.Some? ==> |b.value| + 2 <= |s| && s == "&" + b.value + ";" + s[|b.value| + 2..]
  {
    if s == "" || s[0] != '&' then None else UpToSemicolon(s[1..])
  }

  /** What a table puts in place of the reference a text starts with. */
  function Replacement(s: string, t: Table): Option<string> {
    var b := Body(s);
    if b.None? then None else t(b.value)
  }

  /** One global `replace`. */
  function Pass(s: string, t: Table): string {
    if s == "" then ""
    else
      var r := Replacement(s, t);
      if r.Some? then r.value + Pass(s[|Body(s).value| + 2..], t) else [s[0]] + Pass(s[1..], t)
  }

  // ---------------------------------------------------------------- the tables

  function Named(names: seq<string>, text: string): Table {
    (b: string) => if b in names then Some(text) else None
  }

  /** The number of a body `#` and digits. */
  function Code(b: string): Option<nat> {
    if |b| >= 2 && b[0] == '#' && AllDigits(b[1..]) then Some(Decimal(b[1..])) else None
  }

  function Numeric(charOf: nat -> char): Table {
    (b: string) => if Code(b).Some? then Some([charOf(Code(b).value)]) else None
  }

  const AMP: Table := Named(["amp"], "&")

  function Then(first: Table, second: Table): Table {
    (b: string) => if first(b).Some? then first(b) else second(b)
  }

  // ---------------------------------------------------------------- the decoders

  const LAST_CODE_POINT := 0x10FFFF

  predicate StartsOutOfRange(s: string) {
    Body(s).Some? && Code(Body(s).value).Some? && Code(Body(s).value).value > LAST_CODE_POINT
  }

  /** Does a text hold a number `String.fromCodePoint` refuses? */
  predicate OutOfRange(s: string) {
    s != "" && (StartsOutOfRange(s) || OutOfRange(s[1..]))
  }

  datatype Step = Step(names: seq<string>, text: string)

  /** The passes before the numbers, in order. */
  const STEPS: seq<Step> := [
    Step(["lt"], "<"), Step(["gt"], ">"), Step(["quot"], "\""), Step(["#39", "apos", "lsquo", "rsquo"], "'"),
    Step(["ldquo", "rdquo"], "\""), Step(["rarr"], "->"), Step(["nbsp"], " ")]

  function Passes(s: string, steps: seq<Step>): string {
    if steps == [] then s
    else
      var last := steps[|steps| - 1];
      Pass(Passes(s, steps[..|steps| - 1]), Named(last.names, last.text))
  }

  /** `decodeEntities`, where `fromCodePoint` gives a number's character; None is the RangeError. */
  function DecodeEntities(s: string, fromCodePoint: nat -> char): Option<string> {
    var named := Passes(s, STEPS);
    if OutOfRange(named) then None else Some(Pass(Pass(named, Numeric(fromCodePoint)), AMP))
  }

  const FIVE: Table :=
    (b: string) =>
      if b == "amp" then Some("&")
      else if b == "apos" then Some("'")
      else if b == "quot" then Some("\"")
      else if b == "lt" then Some("<")
      else if b == "gt" then Some(">")
      else None

  /** `decode`, where `fromCharCode` gives a number's character. */
  function Decode(s: string, fromCharCode: nat -> char): string {
    Pass(s, Then(FIVE, Numeric(fromCharCode)))
  }

  // ---------------------------------------------------------------- passes that are one pass

  /** No character of a text can take part in a reference. */
  ghost predicate Inert(text: string, t: Table) {
    && text != "" && '&' !in text && ';' !in text
    && forall b, c :: t(b).Some? && c in text ==> c !in b
  }

  lemma {:induction false} PassKeeps(a: string, rest: string, t: Table)
    requires '&' !in a
    ensures Pass(a + rest, t) == a + Pass(rest, t)
  {
    if a == "" {
      assert a + rest == rest;
    } else {
      assert (a + rest)[0] == a[0] && a[0] in a;
      assert (a + rest)[1..] == a[1..] + rest;
      PassKeeps(a[1..], rest, t);
    }
  }

  lemma {:induction false} UpToPrefix(a: string, rest: string)
    requires '&' !in a && ';' !in a
    ensures UpToSemicolon(a + rest) ==
      (if UpToSemicolon(rest).None? then None else Some(a + UpToSemicolon(rest).value))
  {
    if a == "" {
      assert a + rest == rest;
      assert UpToSemicolon(rest).Some? ==> a + UpToSemicolon(rest).value == UpToSemicolon(rest).value;
    } else {
      assert (a + rest)[0] == a[0] && a[0] in a;
      assert (a + rest)[1..] == a[1..] + rest;
      UpToPrefix(a[1..], rest);
      var b := UpToSemicolon(rest);
      assert b.Some? ==> [a[0]] + (a[1..] + b.value) == a + b.value;
    }
  }

  /** The replacements of a table are nonempty text no reference of the other can hold. */
  ghost predicate Apart(first: Table, second: Table) { forall b :: first(b).Some? ==> Inert(first(b).value, second) }

  /** A pass leaves a body as it is, or puts into it what the next pass has no reference for. */
  lemma {:induction false} BodyAfterPass(s: string, first: Table, second: Table)
    requires Apart(first, second)
    ensures UpToSemicolon(s).Some? ==> UpToSemicolon(Pass(s, first)) == UpToSemicolon(s)
    ensures UpToSemicolon(s).None? && UpToSemicolon(Pass(s, first)).Some? ==>
      second(UpToSemicolon(Pass(s, first)).value).None?
    decreases |s|
  {
    BodyAfter(s, first, second, "");
    var b := UpToSemicolon(Pass(s, first));
    assert b.Some? ==> "" + b.value == b.value;
  }

  lemma {:induction false} InertInBody(before: string, text: string, rest: string, t: Table)
    requires Inert(text, t)
    ensures UpToSemicolon(text + rest).Some? ==> t(before + UpToSemicolon(text + rest).value).None?
  {
    UpToPrefix(text, rest);
    var b, c := UpToSemicolon(rest), text[0];
    assert c in text;
    assert b.Some? ==> c in before + (text + b.value) by {
      assert (before + (text + (if b.Some? then b.value else "")))[|before|] == c;
    }
  }

  /** What `BodyAfterPass` says of a text, where more of the body may have gone before. */
  ghost predicate BodyStays(s: string, passed: string, before: string, second: Table) {
    && (UpToSemicolon(s).Some? ==> UpToSemicolon(passed) == UpToSemicolon(s))
    && (UpToSemicolon(s).None? && UpToSemicolon(passed).Some? ==> second(before + UpToSemicolon(passed).value).None?)
  }

  lemma {:induction false} BodyGrows(c: char, s: string, passed: string, before: string, second: Table)
    requires BodyStays(s, passed, before + [c], second)
    ensures BodyStays([c] + s, [c] + passed, before, second)
  {
    if c != '&' && c != ';' {
      UpToPrefix([c], s);
      UpToPrefix([c], passed);
      var b := UpToSemicolon(passed);
      assert b.Some? ==> before + ([c] + b.value) == before + [c] + b.value;
    } else {
      assert ([c] + s)[0] == c && ([c] + passed)[0] == c;
    }
  }

  lemma {:induction false} BodyAfter(s: string, first: Table, second: Table, before: string)
    requires Apart(first, second)
    ensures BodyStays(s, Pass(s, first), before, second)
    decreases |s|
  {
    if s != "" {
      var r := Replacement(s, first);
      if r.Some? {
        InertInBody(before, r.value, Pass(s[|Body(s).value| + 2..], first), second);
      } else {
        BodyAfter(s[1..], first, second, before + [s[0]]);
        BodyGrows(s[0], s[1..], Pass(s[1..], first), before, second);
        assert [s[0]] + s[1..] == s;
      }
    }
  }

  /** Two passes are the one pass that looks a body up in both tables. */
  lemma {:induction false} PassesFuse(s: string, first: Table, second: Table)
    requires Apart(first, second)
    ensures Pass(Pass(s, first), second) == Pass(s, Then(first, second))
    decreases |s|
  {
    if s == "" {
    } else if Replacement(s, first).Some? {
      var text, rest := Replacement(s, first).value, s[|Body(s).value| + 2..];
      PassKeeps(text, Pass(rest, first), second);
      PassesFuse(rest, first, second);
    } else {
      NextAfterPass(s, first, second);
      PassesFuse(s[1..], first, second);
      var r := Replacement(s, second);
      if r.Some? { PassesFuse(s[|Body(s).value| + 2..], first, second); }
    }
  }

  /**
   * Where the first pass replaces nothing, the second finds what the text has, and what follows it has been passed
   * over.
   */
  lemma {:induction false} NextAfterPass(s: string, first: Table, second: Table)
    requires Apart(first, second) && s != "" && Replacement(s, first).None?
    ensures Pass(s, first) == [s[0]] + Pass(s[1..], first) && Pass(s, first)[1..] == Pass(s[1..], first)
    ensures Replacement(Pass(s, first), second) == Replacement(s, second)
    ensures Replacement(s, second).Some? ==>
      && Body(Pass(s, first)) == Body(s)
      && Pass(s, first)[|Body(s).value| + 2..] == Pass(s[|Body(s).value| + 2..], first)
  {
    var t := Pass(s[1..], first);
    assert ([s[0]] + t)[1..] == t;
    if s[0] == '&' {
      BodyAfterPass(s[1..], first, second);
      if Body(s).Some? { PassOverBody(s, first); }
    }
  }

  lemma {:induction false} PassOverBody(s: string, t: Table)
    requires s != "" && Body(s).Some? && Replacement(s, t).None?
    ensures Pass(s, t)[1..] == Pass(s[1..], t) && |Pass(s, t)| >= |Body(s).value| + 2
    ensures Pass(s, t)[|Body(s).value| + 2..] == Pass(s[|Body(s).value| + 2..], t)
  {
    var b := Body(s).value;
    var head, rest := b + ";", s[|b| + 2..];
    assert s[1..] == head + rest;
    PassKeeps(head, rest, t);
    Sliced(s[0], head, Pass(rest, t));
  }

  lemma {:induction false} Sliced(c: char, head: string, rest: string)
    ensures ([c] + (head + rest))[|head| + 1..] == rest && ([c] + (head + rest))[1..] == head + rest
  {
  }

  // ---------------------------------------------------------------- the ampersand last

  function TableOf(steps: seq<Step>): Table {
    if steps == [] then (b: string) => None
    else
      var last := steps[|steps| - 1];
      Then(TableOf(steps[..|steps| - 1]), Named(last.names, last.text))
  }

  /** The table of the passes before the last, and of all of them. */
  function Early(charOf: nat -> char): Table { Then(TableOf(STEPS), Numeric(charOf)) }

  function Whole(charOf: nat -> char): Table { Then(Early(charOf), AMP) }

  predicate BodyChar(c: char) { c == '#' || IsDigit(c) || 'a' <= c <= 'z' }

  predicate InBodies(s: string) { forall i :: 0 <= i < |s| ==> BodyChar(s[i]) }

  predicate OutsideBodies(s: string) {
    s != "" && forall i :: 0 <= i < |s| ==> !BodyChar(s[i]) && s[i] != '&' && s[i] != ';'
  }

  /** The bodies of a table are letters, digits and "#"; what it puts in place of them is anything else. */
  ghost predicate Bodies(t: Table) { forall b :: t(b).Some? ==> InBodies(b) }

  ghost predicate Texts(t: Table) { forall b :: t(b).Some? ==> OutsideBodies(t(b).value) }

  predicate Usable(p: Step) {
    OutsideBodies(p.text) && forall i :: 0 <= i < |p.names| ==> InBodies(p.names[i]) && p.names[i] != "amp"
  }

  lemma {:induction false} StepsAreNamed()
    ensures forall i :: 0 <= i < |STEPS| ==> Usable(STEPS[i])
  {
  }

  /** One named pass after another is one pass. */
  lemma {:induction false} StepsFuse(s: string, steps: seq<Step>)
    requires forall i :: 0 <= i < |steps| ==> Usable(steps[i])
    ensures Passes(s, steps) == Pass(s, TableOf(steps)) && Texts(TableOf(steps)) && TableOf(steps)("amp").None?
  {
    if steps == [] {
      NothingReplaced(s);
    } else {
      var front, last := steps[..|steps| - 1], steps[|steps| - 1];
      StepsFuse(s, front);
      assert Usable(last);
      TextsAreApart(TableOf(front), Named(last.names, last.text));
      PassesFuse(s, TableOf(front), Named(last.names, last.text));
    }
  }

  lemma {:induction false} NothingReplaced(s: string)
    ensures Pass(s, TableOf([])) == s
  {
    if s != "" {
      NothingReplaced(s[1..]);
      assert [s[0]] + s[1..] == s;
    }
  }

  lemma {:induction false} NumbersHaveBodies(charOf: nat -> char)
    ensures Bodies(Numeric(charOf))
  {
    forall b | Numeric(charOf)(b).Some? ensures InBodies(b) {
      assert Code(b).Some?;
      forall i | 0 <= i < |b| ensures BodyChar(b[i]) {
        assert i > 0 ==> b[i] == b[1..][i - 1];
      }
    }
  }

  /** Everything but the ampersand is one pass, whatever the text. */
  lemma {:induction false} EarlyPassesFuse(s: string, charOf: nat -> char)
    ensures Pass(Passes(s, STEPS), Numeric(charOf)) == Pass(s, Early(charOf)) && BeforeAmp(Early(charOf))
  {
    StepsAreNamed();
    StepsFuse(s, STEPS);
    NumbersHaveBodies(charOf);
    TextsAreApart(TableOf(STEPS), Numeric(charOf));
    PassesFuse(s, TableOf(STEPS), Numeric(charOf));
    NumbersBeforeAmp(TableOf(STEPS), charOf);
  }

  lemma {:induction false} TextsAreApart(first: Table, second: Table)
    requires Texts(first) && Bodies(second)
    ensures Apart(first, second)
  {
    forall b | first(b).Some? ensures Inert(first(b).value, second) {
      var text := first(b).value;
      assert OutsideBodies(text);
      forall u, c | second(u).Some? && c in text ensures c !in u {
        assert InBodies(u);
      }
    }
  }

  lemma {:induction false} NumbersBeforeAmp(t: Table, charOf: nat -> char)
    requires Texts(t) && t("amp").None?
    ensures BeforeAmp(Then(t, Numeric(charOf)))
  {
    NamesAreNoNumbers('&');
    forall b | Then(t, Numeric(charOf))(b).Some? ensures Then(t, Numeric(charOf))(b).value != "" {
      assert t(b).Some? ==> OutsideBodies(t(b).value);
    }
  }

  /** A decoded character, and whether the text had it as it stands. */
  datatype Glyph = Glyph(c: char, written: bool)

  function Glyphs(s: string, t: Table): seq<Glyph> {
    if s == "" then []
    else
      var r := Replacement(s, t);
      if r.Some? then Marked(r.value, false) + Glyphs(s[|Body(s).value| + 2..], t)
      else [Glyph(s[0], true)] + Glyphs(s[1..], t)
  }

  function Marked(s: string, written: bool): (g: seq<Glyph>)
    ensures |g| == |s| && forall i :: 0 <= i < |s| ==> g[i] == Glyph(s[i], written)
  {
    if s == "" then [] else [Glyph(s[0], written)] + Marked(s[1..], written)
  }

  function TextOf(g: seq<Glyph>): (s: string)
    ensures |s| == |g| && forall i :: 0 <= i < |s| ==> s[i] == g[i].c
  {
    if g == [] then "" else [g[0].c] + TextOf(g[1..])
  }

  /** Do the characters spell an ampersand's reference? */
  predicate SpellsAmp(g: seq<Glyph>) {
    |g| >= 5 && g[0].c == '&' && g[1].c == 'a' && g[2].c == 'm' && g[3].c == 'p' && g[4].c == ';'
  }

  predicate AsWritten(g: seq<Glyph>)
    requires |g| >= 5
  {
    g[0].written && g[1].written && g[2].written && g[3].written && g[4].written
  }

  /** How many references to the ampersand are spelled in part by other references. */
  function Smuggled(g: seq<Glyph>): nat {
    if g == [] then 0 else (if SpellsAmp(g) && !AsWritten(g) then 1 else 0) + Smuggled(g[1..])
  }

  /** The ampersand's pass over glyphs: over every reference, or over those the text had as they stand. */
  function AmpPass(g: seq<Glyph>, all: bool): string {
    if g == [] then ""
    else if SpellsAmp(g) && (all || AsWritten(g)) then "&" + AmpPass(g[5..], all)
    else [g[0].c] + AmpPass(g[1..], all)
  }

  lemma {:induction false} NoAmpersand(g: seq<Glyph>, n: nat, all: bool)
    requires n <= |g| && forall i :: 0 <= i < n ==> g[i].c != '&'
    ensures AmpPass(g, all) == TextOf(g[..n]) + AmpPass(g[n..], all) && Smuggled(g) == Smuggled(g[n..])
  {
    if n == 0 {
      assert g[0..] == g;
    } else {
      NoAmpersand(g[1..], n - 1, all);
      assert g[1..][n - 1..] == g[n..] && g[1..][..n - 1] == g[..n][1..];
    }
  }

  /** The pass over every reference shortens the text once more for each smuggled one, and differs only then. */
  lemma {:induction false} SmuggledShorten(g: seq<Glyph>)
    ensures |AmpPass(g, false)| == |AmpPass(g, true)| + 4 * Smuggled(g)
    ensures Smuggled(g) == 0 ==> AmpPass(g, false) == AmpPass(g, true)
    decreases |g|
  {
    if g != [] {
      if SpellsAmp(g) {
        SmuggledShorten(g[5..]);
        NoAmpersand(g[1..], 4, true);
        NoAmpersand(g[1..], 4, false);
        assert g[1..][4..] == g[5..];
      } else {
        SmuggledShorten(g[1..]);
      }
    }
  }

  lemma {:induction false} TextOfGlyphs(s: string, t: Table)
    ensures TextOf(Glyphs(s, t)) == Pass(s, t)
    decreases |s|
  {
    if s != "" {
      if Replacement(s, t).Some? {
        TextOfGlyphs(s[|Body(s).value| + 2..], t);
      } else {
        TextOfGlyphs(s[1..], t);
      }
    }
  }

  predicate StartsAmp(s: string) { |s| >= 5 && s[0] == '&' && s[1] == 'a' && s[2] == 'm' && s[3] == 'p' && s[4] == ';' }

  lemma {:induction false} AmpIsABody(s: string)
    ensures StartsAmp(s) <==> Body(s) == Some("amp")
  {
    if StartsAmp(s) {
      assert s[1..] == "amp" + s[4..];
      UpToPrefix("amp", s[4..]);
      assert s[4..][0] == ';';
      assert "amp" + "" == "amp";
    }
  }

  /** The last pass over the decoded text. */
  lemma {:induction false} LastPass(g: seq<Glyph>)
    ensures Pass(TextOf(g), AMP) == AmpPass(g, true)
    decreases |g|
  {
    if g != [] {
      AmpIsABody(TextOf(g));
      assert TextOf(g)[1..] == TextOf(g[1..]);
      LastPass(g[1..]);
      if SpellsAmp(g) {
        assert TextOf(g)[5..] == TextOf(g[5..]);
        LastPass(g[5..]);
      }
    }
  }

  /** Nothing a table puts in is empty. */
  ghost predicate Productive(t: Table) { forall b :: t(b).Some? ==> t(b).value != "" }

  /** Characters as written, without an ampersand, stood in the text one after another. */
  lemma {:induction false} WrittenStood(s: string, t: Table, n: nat)
    requires Productive(t)
    requires n <= |Glyphs(s, t)| && forall i :: 0 <= i < n ==> Glyphs(s, t)[i].written && Glyphs(s, t)[i].c != '&'
    ensures n <= |s| && forall i :: 0 <= i < n ==> s[i] == Glyphs(s, t)[i].c
  {
    if n > 0 {
      MarkedFirst(s, t);
      assert Glyphs(s, t)[1..] == Glyphs(s[1..], t);
      WrittenStood(s[1..], t, n - 1);
    }
  }

  lemma {:induction false} MarkedFirst(s: string, t: Table)
    requires Productive(t) && s != ""
    ensures Replacement(s, t).Some? ==> Glyphs(s, t) != [] && !Glyphs(s, t)[0].written
  {
    if Replacement(s, t).Some? {
      assert Replacement(s, t).value != "";
    }
  }

  lemma {:induction false} GlyphsKeep(a: string, rest: string, t: Table)
    requires '&' !in a
    ensures Glyphs(a + rest, t) == Marked(a, true) + Glyphs(rest, t)
  {
    if a == "" {
      assert a + rest == rest;
    } else {
      assert (a + rest)[0] == a[0] && a[0] in a;
      assert (a + rest)[1..] == a[1..] + rest;
      GlyphsKeep(a[1..], rest, t);
    }
  }

  /** A table the ampersand's pass can follow: it has no "amp", and puts in nonempty text without an ampersand. */
  ghost predicate BeforeAmp(t: Table) { t("amp").None? && forall b :: t(b).Some? ==> t(b).value != "" }

  /**
   * The next reference is an ampersand's, as written, exactly when the text starts with it and the table does not
   * take it.
   */
  lemma {:induction false} AmpIsWritten(s: string, t: Table)
    requires BeforeAmp(t) && s != "" && Replacement(s, t).None?
    ensures StartsAmp(s) <==> SpellsAmp(Glyphs(s, t)) && AsWritten(Glyphs(s, t))
    ensures StartsAmp(s) ==> Glyphs(s, t)[5..] == Glyphs(s[5..], t)
  {
    var g := Glyphs(s, t);
    assert g[1..] == Glyphs(s[1..], t);
    if StartsAmp(s) {
      assert s[1..] == "amp;" + s[5..];
      GlyphsKeep("amp;", s[5..], t);
    }
    if SpellsAmp(g) && AsWritten(g) {
      forall i | 0 <= i < 4 ensures g[1..][i].written && g[1..][i].c != '&' {
        assert g[1..][i] == g[i + 1];
      }
      WrittenStood(s[1..], t, 4);
    }
  }

  /** What a table puts in is copied by the ampersand's pass over what is as written. */
  lemma {:induction false} MarkedPasses(text: string, rest: seq<Glyph>)
    ensures AmpPass(Marked(text, false) + rest, false) == text + AmpPass(rest, false)
  {
    var m := Marked(text, false);
    if text == "" {
      assert m + rest == rest;
    } else {
      assert !(m + rest)[0].written && (m + rest)[0].c == text[0];
      assert (m + rest)[1..] == Marked(text[1..], false) + rest;
      MarkedPasses(text[1..], rest);
    }
  }

  /** The one pass over all tables takes the ampersands that are as written. */
  lemma {:induction false} OnePassTakesWritten(s: string, t: Table)
    requires BeforeAmp(t)
    ensures Pass(s, Then(t, AMP)) == AmpPass(Glyphs(s, t), false)
    decreases |s|
  {
    if s == "" {
    } else if Replacement(s, t).Some? {
      var text, rest := Replacement(s, t).value, s[|Body(s).value| + 2..];
      OnePassTakesWritten(rest, t);
      MarkedPasses(text, Glyphs(rest, t));
    } else {
      AmpIsABody(s);
      AmpIsWritten(s, t);
      if StartsAmp(s) {
        OnePassTakesWritten(s[5..], t);
      } else {
        OnePassTakesWritten(s[1..], t);
        assert Glyphs(s, t)[1..] == Glyphs(s[1..], t);
      }
    }
  }

  /**
   * Decoding the ampersand last is decoding every reference once exactly when no reference to it is spelled in part by
   * another: each of those shortens the text by four characters more.
   */
  lemma {:induction false} DecodesOnceIff(s: string, fromCodePoint: nat -> char)
    ensures DecodeEntities(s, fromCodePoint).Some? <==> !OutOfRange(Passes(s, STEPS))
    ensures DecodeEntities(s, fromCodePoint).Some? ==>
      var decoded, once := DecodeEntities(s, fromCodePoint).value, Pass(s, Whole(fromCodePoint));
      var smuggled := Smuggled(Glyphs(s, Early(fromCodePoint)));
      && |once| == |decoded| + 4 * smuggled
      && (decoded == once <==> smuggled == 0)
  {
    var t := Early(fromCodePoint);
    EarlyPassesFuse(s, fromCodePoint);
    TextOfGlyphs(s, t);
    LastPass(Glyphs(s, t));
    OnePassTakesWritten(s, t);
    SmuggledShorten(Glyphs(s, t));
  }

  // ---------------------------------------------------------------- texts without numbers

  predicate NoNumbers(s: string) {
    s == "" || ((Body(s).None? || Code(Body(s).value).None?) && NoNumbers(s[1..]))
  }

  lemma {:induction false} NoNumbersAfter(a: string, rest: string)
    ensures NoNumbers(a + rest) ==> NoNumbers(rest)
    ensures '&' !in a && NoNumbers(rest) ==> NoNumbers(a + rest)
  {
    if a == "" {
      assert a + rest == rest;
    } else {
      assert (a + rest)[1..] == a[1..] + rest;
      NoNumbersAfter(a[1..], rest);
    }
  }

  /** A pass that puts in nothing a number could hold adds no number. */
  lemma {:induction false} PassAddsNoNumber(s: string, t: Table)
    requires Texts(t) && NoNumbers(s)
    ensures NoNumbers(Pass(s, t))
    decreases |s|
  {
    if s == "" {
    } else if Replacement(s, t).Some? {
      var text, n := Replacement(s, t).value, |Body(s).value| + 2;
      assert s == s[..n] + s[n..];
      NoNumbersAfter(s[..n], s[n..]);
      PassAddsNoNumber(s[n..], t);
      NoNumbersAfter(text, Pass(s[n..], t));
    } else {
      var numbers := Numeric(n => '0');
      NumbersHaveBodies(n => '0');
      TextsAreApart(t, numbers);
      BodyAfterPass(s[1..], t, numbers);
      PassAddsNoNumber(s[1..], t);
      var u := Pass(s[1..], t);
      assert ([s[0]] + u)[1..] == u;
    }
  }

  lemma {:induction false} InRange(s: string)
    requires NoNumbers(s)
    ensures !OutOfRange(s)
  {
    if s != "" { InRange(s[1..]); }
  }

  /** No glyph that a named reference stands for can spell another. */
  lemma {:induction false} NamedGlyphs(s: string, t: Table, charOf: nat -> char)
    requires Texts(t) && NoNumbers(s)
    ensures Aside(Glyphs(s, Then(t, Numeric(charOf))))
    decreases |s|
  {
    var all := Then(t, Numeric(charOf));
    if s == "" {
    } else if Replacement(s, all).Some? {
      var text, n := Replacement(s, all).value, |Body(s).value| + 2;
      assert s == s[..n] + s[n..];
      NoNumbersAfter(s[..n], s[n..]);
      NamedGlyphs(s[n..], t, charOf);
      AsideMarked(text, Glyphs(s[n..], all));
    } else {
      NamedGlyphs(s[1..], t, charOf);
    }
  }

  lemma {:induction false} AsideMarked(text: string, rest: seq<Glyph>)
    requires OutsideBodies(text) && Aside(rest)
    ensures Aside(Marked(text, false) + rest)
  {
  }

  predicate Aside(g: seq<Glyph>) {
    forall i :: 0 <= i < |g| && !g[i].written ==> !BodyChar(g[i].c) && g[i].c != '&' && g[i].c != ';'
  }

  lemma {:induction false} AsideSmugglesNothing(g: seq<Glyph>)
    requires Aside(g)
    ensures Smuggled(g) == 0
  {
    if g != [] { AsideSmugglesNothing(g[1..]); }
  }

  /** A text without numbers is decoded once: for it, that the ampersand comes last is enough. */
  lemma {:induction false} NamedDecodeOnce(s: string, fromCodePoint: nat -> char)
    requires NoNumbers(s)
    ensures DecodeEntities(s, fromCodePoint) == Some(Pass(s, Whole(fromCodePoint)))
  {
    StepsAreNamed();
    StepsFuse(s, STEPS);
    PassAddsNoNumber(s, TableOf(STEPS));
    InRange(Passes(s, STEPS));
    NamedGlyphs(s, TableOf(STEPS), fromCodePoint);
    AsideSmugglesNothing(Glyphs(s, Early(fromCodePoint)));
    DecodesOnceIff(s, fromCodePoint);
  }

  // ---------------------------------------------------------------- escaping

  /** The five characters by name. */
  function Name(c: char): Option<string> {
    if c == '&' then Some("amp")
    else if c == '<' then Some("lt")
    else if c == '>' then Some("gt")
    else if c == '"' then Some("quot")
    else if c == '\'' then Some("apos")
    else None
  }

  function EscapeChar(c: char): string { if Name(c).Some? then "&" + Name(c).value + ";" else [c] }

  function Escape(s: string): string { if s == "" then "" else EscapeChar(s[0]) + Escape(s[1..]) }

  /** A table that has the five names. */
  ghost predicate Unnames(t: Table) { forall c :: Name(c).Some? ==> t(Name(c).value) == Some([c]) }

  lemma {:induction false} EscapedBody(c: char, rest: string)
    requires Name(c).Some?
    ensures Body(EscapeChar(c) + rest) == Some(Name(c).value) && EscapeChar(c) + rest != ""
    ensures (EscapeChar(c) + rest)[|Name(c).value| + 2..] == rest
    ensures (EscapeChar(c) + rest)[1..] == Name(c).value + (";" + rest)
  {
    var n := Name(c).value;
    assert (EscapeChar(c) + rest)[1..] == n + (";" + rest);
    UpToPrefix(n, ";" + rest);
    assert UpToSemicolon(";" + rest) == Some("") && n + "" == n;
  }

  /** One pass over the five names undoes escaping. */
  lemma {:induction false} PassUnescapes(s: string, t: Table)
    requires Unnames(t)
    ensures Pass(Escape(s), t) == s
  {
    if s != "" {
      var rest := Escape(s[1..]);
      PassUnescapes(s[1..], t);
      if Name(s[0]).Some? {
        EscapedBody(s[0], rest);
      } else {
        assert Escape(s)[0] == s[0] && Escape(s)[1..] == rest;
      }
      assert [s[0]] + s[1..] == s;
    }
  }

  lemma {:induction false} NamesAreNoNumbers(c: char)
    requires Name(c).Some?
    ensures Code(Name(c).value).None?
  {
  }

  lemma {:induction false} EscapedHasNoNumber(s: string)
    ensures NoNumbers(Escape(s))
  {
    if s != "" {
      var rest := Escape(s[1..]);
      EscapedHasNoNumber(s[1..]);
      if Name(s[0]).Some? {
        EscapedBody(s[0], rest);
        NoNumbersAfter(Name(s[0]).value + ";", rest);
        assert Name(s[0]).value + (";" + rest) == (Name(s[0]).value + ";") + rest;
        NamesAreNoNumbers(s[0]);
      } else {
        assert Escape(s)[0] == s[0] && Escape(s)[1..] == rest;
      }
    }
  }

  /** A body is looked up in the first pass that names it. */
  lemma {:induction false} LookedUp(steps: seq<Step>, b: string, i: nat)
    requires i < |steps| ==> b in steps[i].names
    requires i <= |steps| && forall j :: 0 <= j < i ==> b !in steps[j].names
    ensures TableOf(steps)(b) == if i < |steps| then Some(steps[i].text) else None
  {
    if steps != [] {
      var n := |steps| - 1;
      LookedUp(steps[..n], b, if i <= n then i else n);
    }
  }

  function NamedIn(c: char): (i: nat)
    requires Name(c).Some?
    ensures i <= 7
  {
    if c == '<' then 0 else if c == '>' then 1 else if c == '"' then 2 else if c == '\'' then 3 else 7
  }

  lemma {:induction false} WholeUnnames(charOf: nat -> char)
    ensures Unnames(Whole(charOf))
  {
    forall c | Name(c).Some? ensures Whole(charOf)(Name(c).value) == Some([c]) {
      NamesAreNoNumbers(c);
      LookedUp(STEPS, Name(c).value, NamedIn(c));
    }
  }

  lemma {:induction false} FiveUnname(charOf: nat -> char)
    ensures Unnames(Then(FIVE, Numeric(charOf)))
  {
  }

  /** Both decoders undo the escaping of every text, whatever they do with numbers. */
  lemma {:induction false} DecodersUnescape(s: string, fromCodePoint: nat -> char, fromCharCode: nat -> char)
    ensures DecodeEntities(Escape(s), fromCodePoint) == Some(s)
    ensures Decode(Escape(s), fromCharCode) == s
  {
    EscapedHasNoNumber(s);
    NamedDecodeOnce(Escape(s), fromCodePoint);
    WholeUnnames(fromCodePoint);
    PassUnescapes(s, Whole(fromCodePoint));
    FiveUnname(fromCharCode);
    PassUnescapes(s, Then(FIVE, Numeric(fromCharCode)));
  }

  lemma {:induction false} ThirtyEight()
    ensures Code("#38") == Some(38)
  {
    assert "#38"[1..] == "38" && "38"[..1] == "3" && "3"[..0] == "";
    assert Decimal("3") == 3;
    assert AllDigits("38");
  }

  function Reference(body: string, rest: string): string { "&" + (body + (";" + rest)) }

  lemma {:induction false} OneReference(b: string, rest: string, t: Table)
    requires '&' !in b && ';' !in b && '&' !in rest
    ensures Body(Reference(b, rest)) == Some(b)
    ensures Pass(Reference(b, rest), t) == if t(b).Some? then t(b).value + rest else Reference(b, rest)
  {
    var s, tail := Reference(b, rest), b + (";" + rest);
    assert s[1..] == tail;
    UpToPrefix(b, ";" + rest);
    assert UpToSemicolon(";" + rest) == Some("") && b + "" == b;
    assert s[|b| + 2..] == rest && rest + "" == rest && tail + "" == tail;
    PassKeeps(rest, "", t);
    PassKeeps(tail, "", t);
  }

  lemma {:induction false} OneReferenceInRange(b: string, rest: string)
    requires '&' !in b && ';' !in b && '&' !in rest && Code(b).Some? && Code(b).value <= LAST_CODE_POINT
    ensures !OutOfRange(Reference(b, rest))
  {
    var tail := b + (";" + rest);
    assert Reference(b, rest)[1..] == tail && tail + "" == tail;
    OneReference(b, rest, AMP);
    NoNumbersAfter(tail, "");
    InRange(tail);
  }

  /** A number decoded to an ampersand, and what follows it. */
  lemma {:induction false} NumberThen(b: string, rest: string, charOf: nat -> char)
    requires '&' !in b && ';' !in b && '&' !in rest && Code(b) == Some(38) && TableOf(STEPS)(b).None? && FIVE(b).None?
    requires charOf(38) == '&'
    ensures DecodeEntities(Reference(b, rest), charOf) == Some(Pass("&" + rest, AMP))
    ensures Decode(Reference(b, rest), charOf) == "&" + rest
  {
    StepsAreNamed();
    StepsFuse(Reference(b, rest), STEPS);
    OneReference(b, rest, TableOf(STEPS));
    OneReferenceInRange(b, rest);
    OneReference(b, rest, Numeric(charOf));
    OneReference(b, rest, Then(FIVE, Numeric(charOf)));
  }

  lemma {:induction false} NotNamed(b: string)
    requires b == "#38"
    ensures TableOf(STEPS)(b).None? && FIVE(b).None?
  {
    assert b[2] == '8' && "#39"[2] == '9';
    LookedUp(STEPS, b, 7);
  }

  lemma {:induction false} Spelled(s: string, b: string, rest: string)
    requires b == "#38" && rest == "amp;" && s == "&#38;amp;"
    ensures Reference(b, rest) == s && '&' !in b && ';' !in b && '&' !in rest
  {
    assert b + (";" + rest) == "#38;amp;";
  }

  /** A number that spells an ampersand: the converter decodes what follows again, the runner does not. */
  lemma {:induction false} NumbersDecodeTwice(s: string, charOf: nat -> char)
    requires s == "&#38;amp;" && charOf(38) == '&'
    ensures DecodeEntities(s, charOf) == Some("&") && Decode(s, charOf) == "&amp;"
  {
    var b, rest := TwiceParts(s);
    NumberThen(b, rest, charOf);
  }

  lemma {:induction false} TwiceParts(s: string) returns (b: string, rest: string)
    requires s == "&#38;amp;"
    ensures Reference(b, rest) == s && '&' !in b && ';' !in b && '&' !in rest
    ensures Code(b) == Some(38) && TableOf(STEPS)(b).None? && FIVE(b).None?
    ensures "&" + rest == "&amp;" && Pass("&" + rest, AMP) == "&"
  {
    b, rest := "#38", "amp;";
    ThirtyEight();
    NotNamed(b);
    Spelled(s, b, rest);
    assert "&" + rest == "&amp;";
    AmpAlone("&" + rest);
  }

  lemma {:induction false} AmpAlone(s: string)
    requires s == "&amp;"
    ensures Pass(s, AMP) == "&"
  {
    var b, rest := "amp", "";
    OneReference(b, rest, AMP);
    assert Reference(b, rest) == s && "&" + rest == "&";
  }
}
