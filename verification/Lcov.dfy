/**
 * The two readers of an LCOV report: the ratchet's, which keeps percentages, and the test runner's, which keeps
 * counts and refuses malformed input. Each is a loop over the lines, proved to be a fold over what the lines are.
 * On a rendered report, one record for each file with its function counts and its line counts, they are proved to
 * say the same.
 */
module Lcov {
  import opened Collections
  import opened Text

  // ---------------------------------------------------------------- text

  function Split(s: string): (lines: seq<string>)
    ensures lines != []
  {
    if s == "" then [""]
    else
      var rest := Split(s[1..]);
      if s[0] == '\n' then [""] + rest else [[s[0]] + rest[0]] + rest[1..]
  }

  /** Every line with its line feed. */
  function Join(lines: seq<string>): string {
    if lines == [] then "" else lines[0] + "\n" + Join(lines[1..])
  }

  predicate OneLine(s: string) { '\n' !in s }

  lemma {:induction false} SplitLine(line: string, rest: string)
    requires OneLine(line)
    ensures Split(line + "\n" + rest) == [line] + Split(rest)
  {
    var s := line + "\n" + rest;
    if line == "" {
      assert s[1..] == rest;
    } else {
      assert s[1..] == line[1..] + "\n" + rest && s[0] == line[0] && line[0] in line;
      SplitLine(line[1..], rest);
      assert Split(s[1..])[1..] == Split(rest);
      assert [line[0]] + line[1..] == line;
    }
  }

  lemma {:induction false} SplitJoined(lines: seq<string>)
    requires forall l :: l in lines ==> OneLine(l)
    ensures Split(Join(lines)) == lines + [""]
  {
    if lines != [] {
      SplitLine(lines[0], Join(lines[1..]));
      SplitJoined(lines[1..]);
    }
  }

  function Slashed(s: string): (r: string)
    ensures |r| == |s|
  {
    if s == "" then "" else [if s[0] == '\\' then '/' else s[0]] + Slashed(s[1..])
  }

  /** Every backslash is a slash, and nothing else changes. */
  lemma {:induction false} SlashedAt(s: string, i: nat)
    requires i < |s|
    ensures Slashed(s)[i] == if s[i] == '\\' then '/' else s[i]
  {
    if i > 0 { SlashedAt(s[1..], i - 1); }
  }

  // ---------------------------------------------------------------- fields

  /** `counter`. */
  function Counter(s: string): Option<nat> { Count(Number(s)) }

  /** `value.split(",")[1]`. */
  function SecondField(s: string): Option<string> {
    if s == "" then None else if s[0] == ',' then Some(UpToComma(s[1..])) else SecondField(s[1..])
  }

  function UpToComma(s: string): string {
    if s == "" || s[0] == ',' then "" else [s[0]] + UpToComma(s[1..])
  }

  /** What stands between the first comma and the second, or the end. */
  lemma {:induction false} SecondIsBetween(first: string, second: string, rest: string)
    requires ',' !in first && ',' !in second
    ensures SecondField(first) == None
    ensures SecondField(first + "," + second) == Some(second)
    ensures SecondField(first + "," + second + "," + rest) == Some(second)
  {
    SecondAfter(first, second);
    NoSecond(first);
    if first == "" {
      var s := "," + second + "," + rest;
      assert first + "," + second + "," + rest == s && s[1..] == second + ("," + rest);
      UpToFirstComma(second, rest);
    } else {
      SecondIsBetween(first[1..], second, rest);
      assert first == [first[0]] + first[1..];
      assert (first + "," + second + "," + rest)[1..] == first[1..] + "," + second + "," + rest;
    }
  }

  lemma {:induction false} NoSecond(first: string)
    requires ',' !in first
    ensures SecondField(first) == None
  {
    if first != "" { NoSecond(first[1..]); }
  }

  lemma {:induction false} UpToFirstComma(second: string, rest: string)
    requires ',' !in second
    ensures UpToComma(second + ("," + rest)) == second
  {
    var s := second + ("," + rest);
    if second != "" {
      assert second == [second[0]] + second[1..];
      assert s[1..] == second[1..] + ("," + rest);
      UpToFirstComma(second[1..], rest);
    }
  }

  lemma {:induction false} SecondOfDigits(line: nat, count: nat)
    ensures SecondField(Digits(line) + "," + Digits(count)) == Some(Digits(count))
  {
    SecondAfter(Digits(line), Digits(count));
  }

  lemma {:induction false} SecondAfter(a: string, b: string)
    requires ',' !in a && ',' !in b
    ensures SecondField(a + "," + b) == Some(b)
  {
    var s := a + "," + b;
    if a == "" {
      assert s[1..] == b;
      NoComma(b);
    } else {
      assert s[1..] == a[1..] + "," + b;
      SecondAfter(a[1..], b);
    }
  }

  lemma {:induction false} NoComma(b: string)
    requires ',' !in b
    ensures UpToComma(b) == b
  {
    if b != "" { NoComma(b[1..]); }
  }

  // ---------------------------------------------------------------- lines

  /** What a trimmed line is to a reader, with the text after its tag. */
  datatype Event =
    | File(name: string)
    | FunctionsFound(text: string)
    | FunctionsHit(text: string)
    | LineData(text: string)
    | End
    | Other

  function Classify(line: string): Event {
    if "SF:" <= line then File(line[3..])
    else if "FNF:" <= line then FunctionsFound(line[4..])
    else if "FNH:" <= line then FunctionsHit(line[4..])
    else if "DA:" <= line then LineData(line[3..])
    else if line == "end_of_record" then End
    else Other
  }

  function Events(lines: seq<string>): (e: seq<Event>)
    ensures |e| == |lines|
  {
    if lines == [] then [] else Events(lines[..|lines| - 1]) + [Classify(Trim(lines[|lines| - 1]))]
  }

  lemma {:induction false} EventsConcat(a: seq<string>, b: seq<string>)
    ensures Events(a + b) == Events(a) + Events(b)
    decreases |b|
  {
    if b == [] {
      assert a + b == a;
    } else {
      var n := |b| - 1;
      assert (a + b)[..|a + b| - 1] == a + b[..n];
      EventsConcat(a, b[..n]);
    }
  }

  // ---------------------------------------------------------------- the ratchet's reader

  /** `hit / found`, where `found` is not 0. */
  function Quotient(hit: Num, found: Num): Num
    requires found != Finite(0.0)
  {
    match (hit, found)
    case (Finite(h), Finite(f)) => Finite(h / f)
    case (Finite(_), Infinite(_)) => Finite(0.0)
    case (Infinite(positive), Finite(f)) => Infinite(positive == (f > 0.0))
    case (_, _) => NaN
  }

  /** A percentage of counts that may be any numbers, or none; nothing found is fully covered. */
  function Percent(hit: Num, found: Num): Num {
    if found == Finite(0.0) then Finite(100.0)
    else
      var q := Quotient(hit, found);
      if q.Finite? then Finite(q.value * 100.0) else q
  }

  function LinePercent(hit: nat, found: nat): real {
    if found == 0 then 100.0 else hit as real / found as real * 100.0
  }

  datatype Percents = Percents(functions: Num, lines: real)

  const ZERO := Finite(0.0)

  datatype Reading = Reading(out: map<string, Percents>, file: Option<string>, fnFound: Num, fnHit: Num,
                             lineFound: nat, lineHit: nat)

  function Idle(out: map<string, Percents>): Reading { Reading(out, None, ZERO, ZERO, 0, 0) }

  function Flush(r: Reading): Reading {
    if r.file.None? then r
    else Idle(r.out[r.file.value := Percents(Percent(r.fnHit, r.fnFound), LinePercent(r.lineHit, r.lineFound))])
  }

  function ReadEvent(r: Reading, e: Event): Reading {
    match e
    case File(name) => Flush(r).(file := Some(Slashed(name)))
    case FunctionsFound(text) => r.(fnFound := Number(text))
    case FunctionsHit(text) => r.(fnHit := Number(text))
    case LineData(text) =>
      var field := SecondField(text);
      var count := Number(if field.Some? then field.value else "0");
      r.(lineFound := r.lineFound + 1, lineHit := r.lineHit + if IsPositive(count) then 1 else 0)
    case End => Flush(r)
    case Other => r
  }

  function Read(r: Reading, events: seq<Event>): Reading {
    if events == [] then r else ReadEvent(Read(r, events[..|events| - 1]), events[|events| - 1])
  }

  function PercentsIn(source: string): map<string, Percents> {
    Flush(Read(Idle(map[]), Events(Split(source)))).out
  }

  method ParseLcov(source: string) returns (out: map<string, Percents>)
    ensures out == PercentsIn(source)
    ensures IsReport(Events(Split(source)), out)
  {
    ReportRead(source);
    var lines := Split(source);
    out := map[];
    var file, fnFound, fnHit, lineFound, lineHit := None, ZERO, ZERO, 0, 0;
    for i := 0 to |lines|
      invariant Reading(out, file, fnFound, fnHit, lineFound, lineHit) == Read(Idle(map[]), Events(lines[..i]))
    {
      OneMoreLine(Idle(map[]), Malformed, lines, i);
      out, file, fnFound, fnHit, lineFound, lineHit :=
        TakeEvent(out, file, fnFound, fnHit, lineFound, lineHit, Classify(Trim(lines[i])));
    }
    assert lines[..|lines|] == lines;
    out, fnFound, fnHit, lineFound, lineHit := FlushInto(out, file, fnFound, fnHit, lineFound, lineHit);
  }

  /** One turn of the line loop. */
  method TakeEvent(before: map<string, Percents>, file: Option<string>, fnFound: Num, fnHit: Num, lineFound: nat,
                   lineHit: nat, event: Event)
    returns (out: map<string, Percents>, name: Option<string>, f: Num, h: Num, lf: nat, lh: nat)
    ensures Reading(out, name, f, h, lf, lh) ==
      ReadEvent(Reading(before, file, fnFound, fnHit, lineFound, lineHit), event)
  {
    out, name, f, h, lf, lh := before, file, fnFound, fnHit, lineFound, lineHit;
    match event {
      case File(path) =>
        out, f, h, lf, lh := FlushInto(out, name, f, h, lf, lh);
        name := Some(Slashed(path));
      case FunctionsFound(text) =>
        f := Number(text);
      case FunctionsHit(text) =>
        h := Number(text);
      case LineData(text) =>
        var field := SecondField(text);
        var count := Number(if field.Some? then field.value else "0");
        lf := lf + 1;
        if IsPositive(count) { lh := lh + 1; }
      case End =>
        out, f, h, lf, lh := FlushInto(out, name, f, h, lf, lh);
        name := None;
      case Other =>
    }
  }

  /** `flush`, but for the file name, which its callers set. */
  method FlushInto(before: map<string, Percents>, file: Option<string>, fnFound: Num, fnHit: Num, lineFound: nat,
                   lineHit: nat)
    returns (out: map<string, Percents>, f: Num, h: Num, lf: nat, lh: nat)
    ensures Reading(out, None, f, h, lf, lh) == Flush(Reading(before, file, fnFound, fnHit, lineFound, lineHit))
  {
    if file.None? { return before, fnFound, fnHit, lineFound, lineHit; }
    out := before[file.value := Percents(Percent(fnHit, fnFound), LinePercent(lineHit, lineFound))];
    f, h, lf, lh := ZERO, ZERO, 0, 0;
  }

  // ---------------------------------------------------------------- the test runner's reader

  datatype Record = Record(file: string, functionsFound: nat, functionsHit: nat, linesFound: nat, linesHit: nat)

  datatype Parsing = Malformed | Parsing(records: seq<Record>, sawFunctions: bool, sawLines: bool)

  function ParseEvent(p: Parsing, e: Event): Parsing {
    if p.Malformed? then p
    else
      match e
      case File(name) =>
        if name == "" then Malformed else p.(records := p.records + [Record(Slashed(name), 0, 0, 0, 0)])
      case FunctionsFound(text) => Counted(p, Counter(text), true)
      case FunctionsHit(text) => Counted(p, Counter(text), false)
      case LineData(text) =>
        var field := SecondField(text);
        var hits := Counter(if field.Some? then field.value else "");
        if hits.None? || p.records == [] then Malformed
        else p.(records := Raised(p.records, 0, 0, 1, if hits.value > 0 then 1 else 0), sawLines := true)
      case End => p
      case Other => p
  }

  function Counted(p: Parsing, value: Option<nat>, found: bool): Parsing
    requires p.Parsing?
  {
    if value.None? || p.records == [] then Malformed
    else if found then p.(records := Raised(p.records, value.value, 0, 0, 0), sawFunctions := true)
    else p.(records := Raised(p.records, 0, value.value, 0, 0), sawFunctions := true)
  }

  /** The records with the last one's counts raised. */
  function Raised(records: seq<Record>, functionsFound: nat, functionsHit: nat, linesFound: nat, linesHit: nat)
    : (r: seq<Record>)
    requires records != []
    ensures r != []
  {
    var n := |records| - 1;
    var last := records[n];
    records[..n] + [Record(last.file, last.functionsFound + functionsFound, last.functionsHit + functionsHit,
                           last.linesFound + linesFound, last.linesHit + linesHit)]
  }

  function ParseEvents(p: Parsing, events: seq<Event>): Parsing {
    if events == [] then p else ParseEvent(ParseEvents(p, events[..|events| - 1]), events[|events| - 1])
  }

  predicate Sound(r: Record) { r.functionsHit <= r.functionsFound && r.linesHit <= r.linesFound }

  function Accepted(p: Parsing): Option<seq<Record>> {
    if p.Malformed? || p.records == [] || !p.sawFunctions || !p.sawLines then None
    else if exists i :: 0 <= i < |p.records| && !Sound(p.records[i]) then None
    else Some(p.records)
  }

  function RecordsIn(source: string): Option<seq<Record>> {
    Accepted(ParseEvents(Parsing([], false, false), Events(Split(source))))
  }

  method ParseLcovRecords(source: string) returns (records: Option<seq<Record>>)
    ensures records == RecordsIn(source)
    ensures IsParsed(Events(Split(source)), records)
  {
    AcceptedIs(source);
    var lines := Split(source);
    var p := Parsing([], false, false);
    for i := 0 to |lines|
      invariant p == ParseEvents(Parsing([], false, false), Events(lines[..i]))
    {
      OneMoreLine(Idle(map[]), Parsing([], false, false), lines, i);
      p := ParseEvent(p, Classify(Trim(lines[i])));
      if p.Malformed? {
        StaysMalformed(lines, i + 1);
        return None;
      }
    }
    assert lines[..|lines|] == lines;
    records := Accepted(p);
  }

  lemma {:induction false} OneMoreLine(r: Reading, p: Parsing, lines: seq<string>, i: nat)
    requires i < |lines|
    ensures Read(r, Events(lines[..i + 1])) == ReadEvent(Read(r, Events(lines[..i])), Classify(Trim(lines[i])))
    ensures ParseEvents(p, Events(lines[..i + 1])) ==
      ParseEvent(ParseEvents(p, Events(lines[..i])), Classify(Trim(lines[i])))
  {
    assert lines[..i + 1][..i] == lines[..i];
    OneMoreEvent(r, p, Events(lines[..i]), Classify(Trim(lines[i])));
  }

  lemma {:induction false} StaysMalformed(lines: seq<string>, i: nat)
    requires i <= |lines| && ParseEvents(Parsing([], false, false), Events(lines[..i])).Malformed?
    ensures ParseEvents(Parsing([], false, false), Events(lines)).Malformed?
    decreases |lines| - i
  {
    if i < |lines| {
      OneMoreLine(Idle(map[]), Parsing([], false, false), lines, i);
      StaysMalformed(lines, i + 1);
    } else {
      assert lines[..i] == lines;
    }
  }

  // ---------------------------------------------------------------- what the test runner reads

  /** The count an event gives, if it is one. */
  function CountIn(e: Event): Option<nat> {
    match e
    case FunctionsFound(text) => Counter(text)
    case FunctionsHit(text) => Counter(text)
    case LineData(text) => Counter(if SecondField(text).Some? then SecondField(text).value else "")
    case _ => None
  }

  predicate OfFunctions(e: Event) { e.FunctionsFound? || e.FunctionsHit? }

  function Files(events: seq<Event>): nat {
    if events == [] then 0 else Files(events[..|events| - 1]) + if events[|events| - 1].File? then 1 else 0
  }

  /** A file has a name, and a count is a number and comes after some file. */
  predicate ReadableAt(events: seq<Event>, i: nat)
    requires i < |events|
  {
    && (events[i].File? ==> events[i].name != "")
    && (OfFunctions(events[i]) || events[i].LineData? ==> CountIn(events[i]).Some? && Files(events[..i]) > 0)
  }

  ghost predicate Readable(events: seq<Event>) { forall i :: 0 <= i < |events| ==> ReadableAt(events, i) }

  const FOUND: Event -> nat := (e: Event) => if e.FunctionsFound? && CountIn(e).Some? then CountIn(e).value else 0
  const HIT: Event -> nat := (e: Event) => if e.FunctionsHit? && CountIn(e).Some? then CountIn(e).value else 0
  const LINE: Event -> nat := (e: Event) => if e.LineData? then 1 else 0
  const LINE_HIT: Event -> nat := (e: Event) => if e.LineData? && CountIn(e).Some? && CountIn(e).value > 0 then 1 else 0

  /** The sum over the events of the k-th file, from 0. */
  function Total(events: seq<Event>, k: nat, of: Event -> nat): nat {
    if events == [] then 0
    else
      var n := |events| - 1;
      Total(events[..n], k, of) + if Files(events[..n]) == k + 1 then of(events[n]) else 0
  }

  ghost predicate IsRecord(events: seq<Event>, k: nat, r: Record) {
    && (exists i :: 0 <= i < |events| && NamesFile(events, i, k, r.file))
    && r.functionsFound == Total(events, k, FOUND) && r.functionsHit == Total(events, k, HIT)
    && r.linesFound == Total(events, k, LINE) && r.linesHit == Total(events, k, LINE_HIT)
  }

  predicate NamesFile(events: seq<Event>, i: nat, k: nat, name: string)
    requires i < |events|
  {
    events[i].File? && Files(events[..i]) == k && name == Slashed(events[i].name)
  }

  /** Some functions and some lines are counted, and no file has more hits than it has functions. */
  ghost predicate Acceptable(events: seq<Event>) {
    && Readable(events)
    && (exists i :: 0 <= i < |events| && OfFunctions(events[i]))
    && (exists i :: 0 <= i < |events| && events[i].LineData?)
    && HitsAreFound(events)
  }

  ghost predicate AreRecords(events: seq<Event>, records: seq<Record>) {
    |records| == Files(events) && forall k :: 0 <= k < |records| ==> IsRecord(events, k, records[k])
  }

  /** The records are those of the files, in order, or there are none because the events are not acceptable. */
  ghost predicate IsParsed(events: seq<Event>, records: Option<seq<Record>>) {
    (records.Some? <==> Acceptable(events)) && (records.Some? ==> AreRecords(events, records.value))
  }

  ghost predicate ParsedSoFar(events: seq<Event>, p: Parsing) {
    && (p.Malformed? <==> !Readable(events))
    && (p.Parsing? ==>
         && AreRecords(events, p.records)
         && (p.sawFunctions <==> exists i :: 0 <= i < |events| && OfFunctions(events[i]))
         && (p.sawLines <==> exists i :: 0 <= i < |events| && events[i].LineData?))
  }

  lemma {:induction false} ParsedEvents(events: seq<Event>)
    ensures ParsedSoFar(events, ParseEvents(Parsing([], false, false), events))
  {
    if events != [] {
      var front, last := events[..|events| - 1], events[|events| - 1];
      var p := ParseEvents(Parsing([], false, false), front);
      assert events == front + [last] && ParseEvents(Parsing([], false, false), events) == ParseEvent(p, last);
      ParsedEvents(front);
      ParsedOneMore(front, last, p);
    }
  }

  lemma {:induction false} ReadableOneMore(events: seq<Event>, e: Event)
    ensures Readable(events + [e]) <==> Readable(events) && ReadableAt(events + [e], |events|)
    ensures (events + [e])[..|events|] == events
  {
    var more := events + [e];
    forall i | 0 <= i < |events| ensures ReadableAt(more, i) <==> ReadableAt(events, i) {
      assert more[..i] == events[..i];
    }
  }

  /** A file not yet met has no events. */
  lemma {:induction false} NoneOfLaterFile(events: seq<Event>, k: nat, of: Event -> nat)
    requires Files(events) <= k
    ensures Total(events, k, of) == 0
  {
    if events != [] { NoneOfLaterFile(events[..|events| - 1], k, of); }
  }

  lemma {:induction false} TotalOneMore(events: seq<Event>, e: Event, k: nat, of: Event -> nat)
    ensures Total(events + [e], k, of) == Total(events, k, of) + if Files(events) == k + 1 then of(e) else 0
    ensures Files(events + [e]) == Files(events) + if e.File? then 1 else 0
  {
    assert (events + [e])[..|events|] == events;
  }

  lemma {:induction false} NamesOneMore(events: seq<Event>, e: Event, k: nat, r: Record)
    requires IsRecord(events, k, r)
    ensures exists i :: 0 <= i < |events + [e]| && NamesFile(events + [e], i, k, r.file)
  {
    var i :| 0 <= i < |events| && NamesFile(events, i, k, r.file);
    assert (events + [e])[..i] == events[..i];
    assert NamesFile(events + [e], i, k, r.file);
  }

  /** A record with what one more event adds to its counts. */
  function WithEvent(r: Record, e: Event): Record {
    Record(r.file, r.functionsFound + FOUND(e), r.functionsHit + HIT(e), r.linesFound + LINE(e),
           r.linesHit + LINE_HIT(e))
  }

  lemma {:induction false} RecordOneMore(events: seq<Event>, e: Event, k: nat, r: Record)
    requires IsRecord(events, k, r)
    ensures IsRecord(events + [e], k, if Files(events) == k + 1 then WithEvent(r, e) else r)
  {
    NamesOneMore(events, e, k, r);
    TotalOneMore(events, e, k, FOUND);
    TotalOneMore(events, e, k, HIT);
    TotalOneMore(events, e, k, LINE);
    TotalOneMore(events, e, k, LINE_HIT);
  }

  lemma {:induction false} NewRecord(events: seq<Event>, name: string)
    ensures IsRecord(events + [File(name)], Files(events), Record(Slashed(name), 0, 0, 0, 0))
  {
    var e, k := File(name), Files(events);
    NoneOfLaterFile(events, k, FOUND);
    NoneOfLaterFile(events, k, HIT);
    NoneOfLaterFile(events, k, LINE);
    NoneOfLaterFile(events, k, LINE_HIT);
    TotalOneMore(events, e, k, FOUND);
    TotalOneMore(events, e, k, HIT);
    TotalOneMore(events, e, k, LINE);
    TotalOneMore(events, e, k, LINE_HIT);
    assert (events + [e])[..|events|] == events;
    assert NamesFile(events + [e], |events|, k, Slashed(name));
  }

  lemma {:induction false} ParsedOneMore(events: seq<Event>, e: Event, p: Parsing)
    requires ParsedSoFar(events, p)
    ensures ParsedSoFar(events + [e], ParseEvent(p, e))
  {
    ReadableOneMore(events, e);
    if p.Parsing? && !ParseEvent(p, e).Malformed? {
      SeenOneMore(events, e);
      if e.File? { FileParsed(events, e.name, p.records); } else { CountParsed(events, e, p); }
    }
  }

  lemma {:induction false} SeenOneMore(events: seq<Event>, e: Event)
    ensures (exists i :: 0 <= i < |events + [e]| && OfFunctions((events + [e])[i])) <==>
      OfFunctions(e) || exists i :: 0 <= i < |events| && OfFunctions(events[i])
    ensures (exists i :: 0 <= i < |events + [e]| && (events + [e])[i].LineData?) <==>
      e.LineData? || exists i :: 0 <= i < |events| && events[i].LineData?
  {
    var more := events + [e];
    assert more[|events|] == e && forall i :: 0 <= i < |events| ==> more[i] == events[i];
  }

  lemma {:induction false} FileParsed(events: seq<Event>, name: string, records: seq<Record>)
    requires AreRecords(events, records)
    ensures AreRecords(events + [File(name)], records + [Record(Slashed(name), 0, 0, 0, 0)])
  {
    TotalOneMore(events, File(name), 0, FOUND);
    NewRecord(events, name);
    forall k | 0 <= k < |records| ensures IsRecord(events + [File(name)], k, records[k]) {
      RecordOneMore(events, File(name), k, records[k]);
    }
  }

  /** The last record takes the event, if it counts anything. */
  function LastWith(records: seq<Record>, e: Event): seq<Record> {
    if records == [] then [] else records[..|records| - 1] + [WithEvent(records[|records| - 1], e)]
  }

  lemma {:induction false} LastParsed(events: seq<Event>, e: Event, records: seq<Record>)
    requires AreRecords(events, records) && !e.File?
    ensures AreRecords(events + [e], LastWith(records, e))
  {
    TotalOneMore(events, e, 0, FOUND);
    var after := LastWith(records, e);
    forall k | 0 <= k < |records| ensures IsRecord(events + [e], k, after[k]) {
      LastWithAt(records, e, k);
      RecordOneMore(events, e, k, records[k]);
    }
  }

  lemma {:induction false} LastWithAt(records: seq<Record>, e: Event, k: nat)
    requires k < |records|
    ensures LastWith(records, e)[k] == if k == |records| - 1 then WithEvent(records[k], e) else records[k]
  {
  }

  lemma {:induction false} CountParsed(events: seq<Event>, e: Event, p: Parsing)
    requires p.Parsing? && AreRecords(events, p.records) && !e.File? && ParseEvent(p, e).Parsing?
    ensures AreRecords(events + [e], ParseEvent(p, e).records)
  {
    LastParsed(events, e, p.records);
    EventRaises(p, e);
  }

  lemma {:induction false} EventRaises(p: Parsing, e: Event)
    requires p.Parsing? && !e.File? && ParseEvent(p, e).Parsing?
    ensures ParseEvent(p, e).records == LastWith(p.records, e)
  {
    match e
    case FunctionsFound(text) => assert CountIn(e) == Counter(text);
    case FunctionsHit(text) => assert CountIn(e) == Counter(text);
    case LineData(text) =>
    case End => NothingRaised(p.records, e);
    case Other => NothingRaised(p.records, e);
  }

  lemma {:induction false} NothingRaised(records: seq<Record>, e: Event)
    requires e.End? || e.Other?
    ensures LastWith(records, e) == records
  {
    if records != [] {
      var n := |records| - 1;
      assert records == records[..n] + [records[n]];
    }
  }

  lemma {:induction false} LinesAreSound(events: seq<Event>, k: nat)
    ensures Total(events, k, LINE_HIT) <= Total(events, k, LINE)
  {
    if events != [] { LinesAreSound(events[..|events| - 1], k); }
  }

  ghost predicate AllSound(records: seq<Record>) { forall k :: 0 <= k < |records| ==> Sound(records[k]) }

  ghost predicate HitsAreFound(events: seq<Event>) {
    forall k :: 0 <= k < Files(events) ==> Total(events, k, HIT) <= Total(events, k, FOUND)
  }

  /** What is accepted is what is acceptable, and it gives the records. */
  lemma {:induction false} AcceptedIs(source: string)
    ensures IsParsed(Events(Split(source)), RecordsIn(source))
  {
    ParsedEvents(Events(Split(source)));
    AcceptedIff(Events(Split(source)), ParseEvents(Parsing([], false, false), Events(Split(source))));
  }

  lemma {:induction false} AcceptedIff(events: seq<Event>, p: Parsing)
    requires ParsedSoFar(events, p)
    ensures IsParsed(events, Accepted(p))
  {
    if p.Parsing? {
      SoundIff(events, p.records);
      if p.records == [] { NothingCounted(events); }
      assert Accepted(p).Some? <==> p.records != [] && p.sawFunctions && p.sawLines && AllSound(p.records);
    }
  }

  lemma {:induction false} SoundIff(events: seq<Event>, records: seq<Record>)
    requires AreRecords(events, records)
    ensures AllSound(records) <==> HitsAreFound(events)
  {
    forall k | 0 <= k < |records| ensures Sound(records[k]) <==> Total(events, k, HIT) <= Total(events, k, FOUND) {
      assert IsRecord(events, k, records[k]);
      LinesAreSound(events, k);
    }
    if AllSound(records) {
      forall k | 0 <= k < Files(events) ensures Total(events, k, HIT) <= Total(events, k, FOUND) {
        assert Sound(records[k]);
      }
    }
  }

  /** Without a file nothing readable is a count. */
  lemma {:induction false} NothingCounted(events: seq<Event>)
    requires Readable(events) && Files(events) == 0
    ensures forall i :: 0 <= i < |events| ==> !events[i].LineData?
  {
    forall i | 0 <= i < |events| ensures !events[i].LineData? {
      assert ReadableAt(events, i);
      FilesGrow(events, i);
    }
  }

  lemma {:induction false} FilesGrow(events: seq<Event>, i: nat)
    requires i <= |events|
    ensures Files(events[..i]) <= Files(events)
    decreases |events| - i
  {
    if i < |events| {
      FilesGrow(events, i + 1);
      assert events[..i + 1][..i] == events[..i];
    } else {
      assert events[..i] == events;
    }
  }

  // ---------------------------------------------------------------- what the ratchet reads

  /** The file whose record is open after the events. */
  function Current(events: seq<Event>): Option<string> {
    if events == [] then None
    else
      match events[|events| - 1]
      case File(name) => Some(Slashed(name))
      case End => None
      case _ => Current(events[..|events| - 1])
  }

  /** The last event, a file or an end, closes the record that is open before it. */
  predicate Closes(events: seq<Event>)
    requires events != []
  {
    (events[|events| - 1].File? || events[|events| - 1].End?) && Current(events[..|events| - 1]).Some?
  }

  /** The events since the last close: those that count for the record that is open, or for the next. */
  function Block(events: seq<Event>): seq<Event> {
    if events == [] || Closes(events) then [] else Block(events[..|events| - 1]) + [events[|events| - 1]]
  }

  /** The last number of a kind, 0 without one. */
  function LastFound(block: seq<Event>): Num {
    if block == [] then ZERO
    else
      match block[|block| - 1]
      case FunctionsFound(text) => Number(text)
      case _ => LastFound(block[..|block| - 1])
  }

  function LastHit(block: seq<Event>): Num {
    if block == [] then ZERO
    else
      match block[|block| - 1]
      case FunctionsHit(text) => Number(text)
      case _ => LastHit(block[..|block| - 1])
  }

  /** A line is hit when its second field is a number above 0. */
  predicate IsHit(e: Event) {
    e.LineData? && SecondField(e.text).Some? && IsPositive(Number(SecondField(e.text).value))
  }

  function CountOf(block: seq<Event>, which: Event -> bool): nat {
    if block == [] then 0 else CountOf(block[..|block| - 1], which) + if which(block[|block| - 1]) then 1 else 0
  }

  const LINES: Event -> bool := (e: Event) => e.LineData?
  const HITS: Event -> bool := (e: Event) => IsHit(e)

  predicate IsShareOf(share: real, hit: nat, found: nat) {
    if found == 0 then share == 100.0 else share * found as real == 100.0 * hit as real
  }

  /** The shares of a record, by the events that count for it; nothing found is fully covered. */
  ghost predicate AreShares(block: seq<Event>, p: Percents) {
    && IsShareOf(p.lines, CountOf(block, HITS), CountOf(block, LINES))
    && p.functions == Percent(LastHit(block), LastFound(block))
  }

  /** A file's shares are those of the last of its records that was closed. */
  ghost predicate IsClosed(events: seq<Event>, file: string, p: Option<Percents>)
    decreases |events|
  {
    if events == [] then p.None?
    else
      var front := events[..|events| - 1];
      if Closes(events) && Current(front) == Some(file) then p.Some? && AreShares(Block(front), p.value)
      else IsClosed(front, file, p)
  }

  function At(out: map<string, Percents>, file: string): Option<Percents> {
    if file in out then Some(out[file]) else None
  }

  /** The end of the text closes the record that is open. */
  ghost predicate IsReport(events: seq<Event>, out: map<string, Percents>) {
    forall file :: IsClosed(events + [End], file, At(out, file))
  }

  ghost predicate ReadSoFar(events: seq<Event>, r: Reading) {
    var block := Block(events);
    && r.file == Current(events) && r.fnFound == LastFound(block) && r.fnHit == LastHit(block)
    && r.lineFound == CountOf(block, LINES) && r.lineHit == CountOf(block, HITS)
    && forall file :: IsClosed(events, file, At(r.out, file))
  }

  lemma {:induction false} ReadEvents(events: seq<Event>)
    ensures ReadSoFar(events, Read(Idle(map[]), events))
  {
    if events != [] {
      var front, last := events[..|events| - 1], events[|events| - 1];
      var r := Read(Idle(map[]), front);
      assert events == front + [last] && Read(Idle(map[]), events) == ReadEvent(r, last);
      ReadEvents(front);
      ReadOneMore(front, last, r);
    }
  }

  lemma {:induction false} ReadOneMore(events: seq<Event>, e: Event, r: Reading)
    requires ReadSoFar(events, r)
    ensures ReadSoFar(events + [e], ReadEvent(r, e))
  {
    var more := events + [e];
    assert more[..|events|] == events && more[|events|] == e;
    if e.File? || e.End? {
      if r.file.Some? { ClosedRead(events, e, r); } else { OpenRead(events, e, r); }
    } else {
      OpenRead(events, e, r);
    }
  }

  lemma {:induction false} SharesOf(block: seq<Event>, r: Reading)
    requires r.fnFound == LastFound(block) && r.fnHit == LastHit(block)
    requires r.lineFound == CountOf(block, LINES) && r.lineHit == CountOf(block, HITS)
    ensures AreShares(block, Percents(Percent(r.fnHit, r.fnFound), LinePercent(r.lineHit, r.lineFound)))
  {
    LineShareIs(r.lineHit, r.lineFound);
  }

  lemma {:induction false} LineShareIs(hit: nat, found: nat)
    ensures IsShareOf(LinePercent(hit, found), hit, found)
  {
    if found > 0 {
      var q := hit as real / found as real;
      assert q * found as real == hit as real;
      assert q * 100.0 * found as real == 100.0 * (q * found as real);
    }
  }

  lemma {:induction false} ClosedRead(events: seq<Event>, e: Event, r: Reading)
    requires ReadSoFar(events, r) && (e.File? || e.End?) && r.file.Some?
    ensures ReadSoFar(events + [e], ReadEvent(r, e))
  {
    var more := events + [e];
    assert more[..|events|] == events && more[|events|] == e;
    SharesOf(Block(events), r);
    forall file ensures IsClosed(more, file, At(ReadEvent(r, e).out, file)) {
      assert IsClosed(events, file, At(r.out, file));
    }
  }

  lemma {:induction false} OpenRead(events: seq<Event>, e: Event, r: Reading)
    requires ReadSoFar(events, r) && (e.File? || e.End? ==> r.file.None?)
    ensures ReadSoFar(events + [e], ReadEvent(r, e))
  {
    var more := events + [e];
    assert more[..|events|] == events && more[|events|] == e;
    var block := Block(events);
    assert Block(more) == block + [e];
    BlockOneMore(block, e);
    NumberOfDigits(0);
    assert Digits(0) == "0";
    forall file ensures IsClosed(more, file, At(ReadEvent(r, e).out, file)) {
      assert IsClosed(events, file, At(r.out, file));
    }
  }

  lemma {:induction false} BlockOneMore(block: seq<Event>, e: Event)
    ensures LastFound(block + [e]) == if e.FunctionsFound? then Number(e.text) else LastFound(block)
    ensures LastHit(block + [e]) == if e.FunctionsHit? then Number(e.text) else LastHit(block)
    ensures CountOf(block + [e], LINES) == CountOf(block, LINES) + if e.LineData? then 1 else 0
    ensures CountOf(block + [e], HITS) == CountOf(block, HITS) + if IsHit(e) then 1 else 0
  {
    assert (block + [e])[..|block|] == block;
  }

  lemma {:induction false} ReportRead(source: string)
    ensures IsReport(Events(Split(source)), PercentsIn(source))
  {
    var events := Events(Split(source));
    ReadEvents(events);
    ReadOneMore(events, End, Read(Idle(map[]), events));
  }

  // ---------------------------------------------------------------- rendering

  datatype Line = Line(number: nat, hits: nat)

  /** What a coverage run knows about one file. */
  datatype Covered = Covered(file: string, functionsFound: nat, functionsHit: nat, lines: seq<Line>)

  function DaLine(l: Line): string { "DA:" + (Digits(l.number) + "," + Digits(l.hits)) }

  function DaLines(lines: seq<Line>): (r: seq<string>)
    ensures |r| == |lines|
  {
    if lines == [] then [] else DaLines(lines[..|lines| - 1]) + [DaLine(lines[|lines| - 1])]
  }

  function Hit(lines: seq<Line>): nat {
    if lines == [] then 0 else Hit(lines[..|lines| - 1]) + if lines[|lines| - 1].hits > 0 then 1 else 0
  }

  function Header(c: Covered): seq<string> {
    ["SF:" + c.file, "FNF:" + Digits(c.functionsFound), "FNH:" + Digits(c.functionsHit)]
  }

  function Footer(c: Covered): seq<string> {
    ["LF:" + Digits(|c.lines|), "LH:" + Digits(Hit(c.lines)), "end_of_record"]
  }

  function RenderOne(c: Covered): seq<string> { Header(c) + DaLines(c.lines) + Footer(c) }

  function Render(covered: seq<Covered>): seq<string> {
    if covered == [] then [] else Render(covered[..|covered| - 1]) + RenderOne(covered[|covered| - 1])
  }

  function RecordOf(c: Covered): Record {
    Record(Slashed(c.file), c.functionsFound, c.functionsHit, |c.lines|, Hit(c.lines))
  }

  function RecordsOf(covered: seq<Covered>): (r: seq<Record>)
    ensures |r| == |covered|
  {
    if covered == [] then [] else RecordsOf(covered[..|covered| - 1]) + [RecordOf(covered[|covered| - 1])]
  }

  function PercentsOf(r: Record): Percents {
    Percents(Percent(Finite(r.functionsHit as real), Finite(r.functionsFound as real)),
      LinePercent(r.linesHit, r.linesFound))
  }

  /** A path that survives a line of text. */
  predicate IsName(name: string) { name != "" && OneLine(name) && !IsSpace(name[|name| - 1]) }

  /** Counts a reader can hold, of a file with such a path. */
  predicate Renderable(c: Covered) {
    && IsName(c.file) && c.functionsHit <= c.functionsFound <= MAX_SAFE
    && forall l :: l in c.lines ==> l.hits <= MAX_SAFE
  }

  lemma {:induction false} HitAtMost(lines: seq<Line>)
    ensures Hit(lines) <= |lines|
  {
    if lines != [] { HitAtMost(lines[..|lines| - 1]); }
  }

  lemma {:induction false} TrimTagged(tag: string, rest: string)
    requires tag != "" && rest != "" && !IsSpace(tag[0]) && !IsSpace(rest[|rest| - 1])
    ensures Trim(tag + rest) == tag + rest && (tag + rest)[|tag|..] == rest
  {
    TrimKeeps(tag + rest);
  }

  lemma {:induction false} TrimDigits(tag: string, n: nat)
    requires tag != "" && !IsSpace(tag[0])
    ensures Trim(tag + Digits(n)) == tag + Digits(n) && (tag + Digits(n))[|tag|..] == Digits(n)
  {
    var d := Digits(n);
    assert d[|d| - 1] in d;
    TrimTagged(tag, d);
  }

  // ---------------------------------------------------------------- one rendered record

  lemma {:induction false} ReadConcat(r: Reading, p: Parsing, a: seq<Event>, b: seq<Event>)
    ensures Read(r, a + b) == Read(Read(r, a), b)
    ensures ParseEvents(p, a + b) == ParseEvents(ParseEvents(p, a), b)
    decreases |b|
  {
    if b == [] {
      assert a + b == a;
    } else {
      var n := |b| - 1;
      assert (a + b)[..|a + b| - 1] == a + b[..n];
      ReadConcat(r, p, a, b[..n]);
    }
  }

  function DaEvents(lines: seq<Line>): (e: seq<Event>)
    ensures |e| == |lines|
  {
    if lines == [] then []
    else
      DaEvents(lines[..|lines| - 1]) + [DaEvent(lines[|lines| - 1])]
  }

  function HeadEvents(c: Covered): seq<Event> {
    [File(c.file), FunctionsFound(Digits(c.functionsFound)), FunctionsHit(Digits(c.functionsHit))]
  }

  function EventsOf(c: Covered): seq<Event> {
    HeadEvents(c) + DaEvents(c.lines) + [Other, Other, End]
  }

  lemma {:induction false} ThreeEvents(a: string, b: string, c: string)
    ensures Events([a, b, c]) == [Classify(Trim(a)), Classify(Trim(b)), Classify(Trim(c))]
  {
    assert [a, b, c][..2] == [a, b];
    assert [a, b][..1] == [a];
    assert [a][..0] == [] && Events([]) == [];
    assert Events([a]) == [Classify(Trim(a))];
    assert Events([a, b]) == [Classify(Trim(a)), Classify(Trim(b))];
  }

  lemma {:induction false} DaLinesAreEvents(lines: seq<Line>)
    ensures Events(DaLines(lines)) == DaEvents(lines)
  {
    if lines != [] {
      var n := |lines| - 1;
      DaLinesAreEvents(lines[..n]);
      assert DaLines(lines)[..n] == DaLines(lines[..n]);
      var fields := Digits(lines[n].number) + "," + Digits(lines[n].hits);
      var d := Digits(lines[n].hits);
      assert d[|d| - 1] in d;
      TrimTagged("DA:", fields);
      assert DaLine(lines[n])[0] == 'D';
    }
  }

  lemma {:induction false} HeaderEvents(c: Covered)
    requires Renderable(c)
    ensures Events(Header(c)) == HeadEvents(c)
  {
    var sf, fnf, fnh := Header(c)[0], Header(c)[1], Header(c)[2];
    ThreeEvents(sf, fnf, fnh);
    TrimTagged("SF:", c.file);
    TrimDigits("FNF:", c.functionsFound);
    TrimDigits("FNH:", c.functionsHit);
    assert sf[0] == 'S' && fnf[0] == 'F' && fnf[2] == 'F' && fnh[0] == 'F' && fnh[2] == 'H';
  }

  lemma {:induction false} FooterEvents(c: Covered)
    ensures Events(Footer(c)) == [Other, Other, End]
  {
    var lf, lh := Footer(c)[0], Footer(c)[1];
    ThreeEvents(lf, lh, "end_of_record");
    TrimDigits("LF:", |c.lines|);
    TrimDigits("LH:", Hit(c.lines));
    TrimKeeps("end_of_record");
    assert lf[0] == 'L' && lh[0] == 'L' && "end_of_record"[0] == 'e';
  }

  lemma {:induction false} RenderedEvents(c: Covered)
    requires Renderable(c)
    ensures Events(RenderOne(c)) == EventsOf(c)
  {
    HeaderEvents(c);
    FooterEvents(c);
    DaLinesAreEvents(c.lines);
    EventsConcat(Header(c), DaLines(c.lines));
    EventsConcat(Header(c) + DaLines(c.lines), Footer(c));
  }

  lemma {:induction false} OneMoreEvent(r: Reading, p: Parsing, events: seq<Event>, e: Event)
    ensures Read(r, events + [e]) == ReadEvent(Read(r, events), e)
    ensures ParseEvents(p, events + [e]) == ParseEvent(ParseEvents(p, events), e)
  {
    assert (events + [e])[..|events|] == events;
  }

  lemma {:induction false} RaisedLast(before: seq<Record>, last: Record, a: nat, b: nat, x: nat, y: nat)
    ensures Raised(before + [last], a, b, x, y) ==
      before + [Record(last.file, last.functionsFound + a, last.functionsHit + b,
                       last.linesFound + x, last.linesHit + y)]
  {
    assert (before + [last])[..|before|] == before;
  }

  function DaEvent(l: Line): Event { LineData(Digits(l.number) + "," + Digits(l.hits)) }

  lemma {:induction false} DaEventRead(l: Line, r: Reading)
    requires l.hits <= MAX_SAFE
    ensures ReadEvent(r, DaEvent(l)) == r.(lineFound := r.lineFound + 1, lineHit := r.lineHit + HitBy(l))
  {
    SecondOfDigits(l.number, l.hits);
    NumberOfDigits(l.hits);
  }

  /** A record with more lines. */
  function Plus(r: Record, found: nat, hit: nat): Record {
    Record(r.file, r.functionsFound, r.functionsHit, r.linesFound + found, r.linesHit + hit)
  }

  function HitBy(l: Line): nat { if l.hits > 0 then 1 else 0 }

  lemma {:induction false} DaEventParsed(l: Line, before: seq<Record>, last: Record, saw: bool, sawLines: bool)
    requires l.hits <= MAX_SAFE
    ensures ParseEvent(Parsing(before + [last], saw, sawLines), DaEvent(l)) ==
      Parsing(before + [Plus(last, 1, HitBy(l))], saw, true)
  {
    SecondOfDigits(l.number, l.hits);
    CountOfDigits(l.hits);
    assert Counter(Digits(l.hits)) == Some(l.hits);
    RaisedLast(before, last, 0, 0, 1, HitBy(l));
  }

  lemma {:induction false} DaRead(lines: seq<Line>, r: Reading)
    requires forall l :: l in lines ==> l.hits <= MAX_SAFE
    ensures Read(r, DaEvents(lines)) == r.(lineFound := r.lineFound + |lines|, lineHit := r.lineHit + Hit(lines))
  {
    if lines != [] {
      var front, last := lines[..|lines| - 1], lines[|lines| - 1];
      DaRead(front, r);
      DaEventRead(last, Read(r, DaEvents(front)));
      OneMoreEvent(r, Malformed, DaEvents(front), DaEvent(last));
    }
  }

  lemma {:induction false} DaParsed(lines: seq<Line>, before: seq<Record>, last: Record, sawLines: bool)
    requires forall l :: l in lines ==> l.hits <= MAX_SAFE
    ensures ParseEvents(Parsing(before + [last], true, sawLines), DaEvents(lines)) ==
      AfterLines(before, last, lines, sawLines)
  {
    if lines == [] {
      PlusNothing(last);
    } else {
      var front, l := lines[..|lines| - 1], lines[|lines| - 1];
      assert lines == front + [l];
      DaParsed(front, before, last, sawLines);
      DaParsedMore(front, l, before, last, sawLines);
    }
  }

  /** The records and the flags after the DA lines of the last one. */
  function AfterLines(before: seq<Record>, last: Record, lines: seq<Line>, sawLines: bool): Parsing {
    Parsing(before + [Plus(last, |lines|, Hit(lines))], true, sawLines || lines != [])
  }

  lemma {:induction false} DaParsedMore(front: seq<Line>, l: Line, before: seq<Record>, last: Record, sawLines: bool)
    requires l.hits <= MAX_SAFE
    requires ParseEvents(Parsing(before + [last], true, sawLines), DaEvents(front)) ==
      AfterLines(before, last, front, sawLines)
    ensures ParseEvents(Parsing(before + [last], true, sawLines), DaEvents(front + [l])) ==
      AfterLines(before, last, front + [l], sawLines)
  {
    OneMoreEvent(Idle(map[]), Parsing(before + [last], true, sawLines), DaEvents(front), DaEvent(l));
    DaEventParsed(l, before, Plus(last, |front|, Hit(front)), true, sawLines || front != []);
    PlusOneLine(last, front, l);
  }

  lemma {:induction false} PlusOneLine(r: Record, front: seq<Line>, l: Line)
    ensures Plus(Plus(r, |front|, Hit(front)), 1, HitBy(l)) == Plus(r, |front + [l]|, Hit(front + [l]))
    ensures DaEvents(front + [l]) == DaEvents(front) + [DaEvent(l)]
  {
    assert (front + [l])[..|front|] == front;
  }

  lemma {:induction false} PlusNothing(r: Record)
    ensures Plus(r, 0, 0) == r
  {
  }

  /** One rendered record, read by both from between two records. */
  lemma {:induction false} OneRead(c: Covered, out: map<string, Percents>, p: Parsing)
    requires p.Parsing? && Renderable(c)
    ensures Read(Idle(out), Events(RenderOne(c))) == Idle(out[Slashed(c.file) := PercentsOf(RecordOf(c))])
    ensures ParseEvents(p, Events(RenderOne(c))) ==
      Parsing(p.records + [RecordOf(c)], true, p.sawLines || c.lines != [])
  {
    RenderedEvents(c);
    BodyRead(c, out, p);
    var body := HeadEvents(c) + DaEvents(c.lines);
    ThreeRead(Read(Idle(out), body), ParseEvents(p, body), Other, Other, End);
    ReadConcat(Idle(out), p, body, [Other, Other, End]);
  }

  lemma {:induction false} BodyRead(c: Covered, out: map<string, Percents>, p: Parsing)
    requires p.Parsing? && Renderable(c)
    ensures Read(Idle(out), HeadEvents(c) + DaEvents(c.lines)) ==
      Reading(out, Some(Slashed(c.file)), Finite(c.functionsFound as real), Finite(c.functionsHit as real),
        |c.lines|, Hit(c.lines))
    ensures ParseEvents(p, HeadEvents(c) + DaEvents(c.lines)) ==
      Parsing(p.records + [RecordOf(c)], true, p.sawLines || c.lines != [])
  {
    HeadRead(c, out, p);
    DaRead(c.lines, Read(Idle(out), HeadEvents(c)));
    DaParsed(c.lines, p.records, Record(Slashed(c.file), c.functionsFound, c.functionsHit, 0, 0), p.sawLines);
    ReadConcat(Idle(out), p, HeadEvents(c), DaEvents(c.lines));
  }

  lemma {:induction false} ThreeRead(r: Reading, p: Parsing, a: Event, b: Event, c: Event)
    ensures Read(r, [a, b, c]) == ReadEvent(ReadEvent(ReadEvent(r, a), b), c)
    ensures ParseEvents(p, [a, b, c]) == ParseEvent(ParseEvent(ParseEvent(p, a), b), c)
  {
    assert [] + [a] == [a] && [a] + [b] == [a, b] && [a, b] + [c] == [a, b, c];
    OneMoreEvent(r, p, [], a);
    OneMoreEvent(r, p, [a], b);
    OneMoreEvent(r, p, [a, b], c);
  }

  lemma {:induction false} HeadRead(c: Covered, out: map<string, Percents>, p: Parsing)
    requires p.Parsing? && Renderable(c)
    ensures Read(Idle(out), HeadEvents(c)) ==
      Reading(out, Some(Slashed(c.file)), Finite(c.functionsFound as real), Finite(c.functionsHit as real), 0, 0)
    ensures ParseEvents(p, HeadEvents(c)) ==
      Parsing(p.records + [Record(Slashed(c.file), c.functionsFound, c.functionsHit, 0, 0)], true, p.sawLines)
  {
    var found, hit := FunctionsFound(Digits(c.functionsFound)), FunctionsHit(Digits(c.functionsHit));
    ThreeRead(Idle(out), p, File(c.file), found, hit);
    NumberOfDigits(c.functionsFound);
    NumberOfDigits(c.functionsHit);
    var q := ParseEvent(p, File(c.file));
    assert q == Parsing(p.records + [Record(Slashed(c.file), 0, 0, 0, 0)], p.sawFunctions, p.sawLines);
    HeadCounted(c, p.records, p.sawFunctions, p.sawLines);
  }

  lemma {:induction false} HeadCounted(c: Covered, before: seq<Record>, saw: bool, sawLines: bool)
    requires Renderable(c)
    ensures
      var q := Parsing(before + [Record(Slashed(c.file), 0, 0, 0, 0)], saw, sawLines);
      var found, hit := FunctionsFound(Digits(c.functionsFound)), FunctionsHit(Digits(c.functionsHit));
      ParseEvent(ParseEvent(q, found), hit) ==
      Parsing(before + [Record(Slashed(c.file), c.functionsFound, c.functionsHit, 0, 0)], true, sawLines)
  {
    CountOfDigits(c.functionsFound);
    CountOfDigits(c.functionsHit);
    RaisedLast(before, Record(Slashed(c.file), 0, 0, 0, 0), c.functionsFound, 0, 0, 0);
    RaisedLast(before, Record(Slashed(c.file), c.functionsFound, 0, 0, 0), 0, c.functionsHit, 0, 0);
  }

  // ---------------------------------------------------------------- agreement

  function PercentsBy(records: seq<Record>): map<string, Percents> {
    if records == [] then map[]
    else
      var last := records[|records| - 1];
      PercentsBy(records[..|records| - 1])[last.file := PercentsOf(last)]
  }

  predicate SomeLine(covered: seq<Covered>) { exists c :: c in covered && c.lines != [] }

  lemma {:induction false} AllRead(covered: seq<Covered>)
    requires forall c :: c in covered ==> Renderable(c)
    ensures Read(Idle(map[]), Events(Render(covered))) == Idle(PercentsBy(RecordsOf(covered)))
    ensures ParseEvents(Parsing([], false, false), Events(Render(covered))) ==
      Parsing(RecordsOf(covered), covered != [], SomeLine(covered))
  {
    if covered != [] {
      var n := |covered| - 1;
      var start, lines, one := Parsing([], false, false), Render(covered[..n]), RenderOne(covered[n]);
      AllRead(covered[..n]);
      EventsConcat(lines, one);
      ReadConcat(Idle(map[]), start, Events(lines), Events(one));
      OneRead(covered[n], PercentsBy(RecordsOf(covered[..n])), ParseEvents(start, Events(lines)));
      assert RecordsOf(covered)[..n] == RecordsOf(covered[..n]);
      SomeLineMore(covered);
    }
  }

  lemma {:induction false} SomeLineMore(covered: seq<Covered>)
    requires covered != []
    ensures SomeLine(covered) <==> SomeLine(covered[..|covered| - 1]) || covered[|covered| - 1].lines != []
  {
    assert covered == covered[..|covered| - 1] + [covered[|covered| - 1]];
  }

  lemma {:induction false} RecordsAreSound(covered: seq<Covered>)
    requires forall c :: c in covered ==> Renderable(c)
    ensures forall r :: r in RecordsOf(covered) ==> Sound(r)
  {
    if covered != [] {
      var n := |covered| - 1;
      RecordsAreSound(covered[..n]);
      HitAtMost(covered[n].lines);
      assert Renderable(covered[n]);
    }
  }

  /** With distinct names, each file's percentages are those of its own record. */
  lemma {:induction false} PercentsByIsLookup(records: seq<Record>)
    requires forall i, j :: 0 <= i < j < |records| ==> records[i].file != records[j].file
    ensures forall r :: r in records ==> r.file in PercentsBy(records) && PercentsBy(records)[r.file] == PercentsOf(r)
    ensures forall file :: file in PercentsBy(records) ==> exists r :: r in records && r.file == file
  {
    if records != [] {
      var front, last := records[..|records| - 1], records[|records| - 1];
      PercentsByIsLookup(front);
      assert records == front + [last];
    }
  }

  lemma {:induction false} RenderedLines(covered: seq<Covered>)
    requires forall c :: c in covered ==> Renderable(c)
    ensures forall l :: l in Render(covered) ==> OneLine(l)
  {
    if covered != [] {
      var n := |covered| - 1;
      RenderedLines(covered[..n]);
      RenderedOneLines(covered[n]);
    }
  }

  lemma {:induction false} RenderedOneLines(c: Covered)
    requires Renderable(c)
    ensures forall l :: l in RenderOne(c) ==> OneLine(l)
  {
    DaIsOneLine(c.lines);
  }

  lemma {:induction false} DaIsOneLine(lines: seq<Line>)
    ensures forall l :: l in DaLines(lines) ==> OneLine(l)
  {
    if lines != [] {
      DaIsOneLine(lines[..|lines| - 1]);
      assert OneLine(DaLine(lines[|lines| - 1]));
    }
  }

  /**
   * The two readers agree on every rendered report with one record for each file: the test runner's gives the records
   * back, unless no file has a line, and the ratchet's gives their percentages, 100 where nothing was found.
   */
  lemma {:induction false} ReadersAgree(covered: seq<Covered>)
    requires forall c :: c in covered ==> Renderable(c)
    requires forall i, j :: 0 <= i < j < |covered| ==> Slashed(covered[i].file) != Slashed(covered[j].file)
    ensures
      var text := Join(Render(covered));
      var records, percents := RecordsIn(text), PercentsIn(text);
      && records == (if SomeLine(covered) then Some(RecordsOf(covered)) else None)
      && (forall file :: file in percents <==> exists r :: r in RecordsOf(covered) && r.file == file)
      && (forall r :: r in RecordsOf(covered) ==> percents[r.file] == PercentsOf(r))
  {
    TextRead(covered);
    SoundAreAccepted(covered);
    RecordNames(covered);
    PercentsByIsLookup(RecordsOf(covered));
  }

  lemma {:induction false} SoundAreAccepted(covered: seq<Covered>)
    requires forall c :: c in covered ==> Renderable(c)
    ensures Accepted(Parsing(RecordsOf(covered), covered != [], SomeLine(covered))) ==
      if SomeLine(covered) then Some(RecordsOf(covered)) else None
  {
    RecordsAreSound(covered);
  }

  lemma {:induction false} TextRead(covered: seq<Covered>)
    requires forall c :: c in covered ==> Renderable(c)
    ensures PercentsIn(Join(Render(covered))) == PercentsBy(RecordsOf(covered))
    ensures RecordsIn(Join(Render(covered))) ==
      Accepted(Parsing(RecordsOf(covered), covered != [], SomeLine(covered)))
  {
    RenderedLines(covered);
    SplitJoined(Render(covered));
    AllRead(covered);
    LastLine(Render(covered));
  }

  /** The empty text after the last line feed is nothing to either reader. */
  lemma {:induction false} LastLine(lines: seq<string>)
    ensures Events(lines + [""]) == Events(lines) + [Other]
    ensures Read(Idle(map[]), Events(lines) + [Other]) == Read(Idle(map[]), Events(lines))
    ensures ParseEvents(Parsing([], false, false), Events(lines) + [Other]) ==
      ParseEvents(Parsing([], false, false), Events(lines))
  {
    assert (lines + [""])[..|lines|] == lines;
    assert (Events(lines) + [Other])[..|lines|] == Events(lines);
  }

  lemma {:induction false} RecordNames(covered: seq<Covered>)
    ensures forall i :: 0 <= i < |covered| ==> RecordsOf(covered)[i] == RecordOf(covered[i])
  {
    if covered != [] { RecordNames(covered[..|covered| - 1]); }
  }

  // ---------------------------------------------------------------- what percentages can be

  /** A percentage of lines some report gives. */
  ghost predicate LineShare(p: real) { exists hit: nat, found: nat :: hit <= found && p == LinePercent(hit, found) }

  lemma {:induction false} ShareIsPercentage(hit: nat, found: nat)
    requires hit <= found
    ensures 0.0 <= LinePercent(hit, found) <= 100.0
  {
    if found > 0 {
      var h, f := hit as real, found as real;
      assert h / f * f == h && 0.0 <= h <= f;
      assert 0.0 <= h / f <= 1.0;
    }
  }

  ghost predicate SharesOnly(r: Reading) {
    r.lineHit <= r.lineFound && forall f :: f in r.out ==> LineShare(r.out[f].lines)
  }

  lemma {:induction false} EventKeepsShares(r: Reading, e: Event)
    requires SharesOnly(r)
    ensures SharesOnly(Flush(r)) && SharesOnly(ReadEvent(r, e))
  {
    assert LineShare(LinePercent(r.lineHit, r.lineFound));
  }

  lemma {:induction false} EventsKeepShares(events: seq<Event>)
    ensures SharesOnly(Read(Idle(map[]), events))
  {
    if events != [] {
      EventsKeepShares(events[..|events| - 1]);
      EventKeepsShares(Read(Idle(map[]), events[..|events| - 1]), events[|events| - 1]);
    }
  }

  /** Whatever the text, a file's line percentage is a share of its lines, between 0 and 100. */
  lemma {:induction false} LinesAreShares(source: string, file: string)
    requires file in PercentsIn(source)
    ensures LineShare(PercentsIn(source)[file].lines) && 0.0 <= PercentsIn(source)[file].lines <= 100.0
  {
    var r := Read(Idle(map[]), Events(Split(source)));
    EventsKeepShares(Events(Split(source)));
    EventKeepsShares(r, Other);
    var hit: nat, found: nat :| hit <= found && PercentsIn(source)[file].lines == LinePercent(hit, found);
    ShareIsPercentage(hit, found);
  }

  /** A file with so many lines, so many of them hit. */
  function LinesWith(hit: nat, found: nat): (lines: seq<Line>)
    requires hit <= found
    ensures |lines| == found && Hit(lines) == hit && forall l :: l in lines ==> l.hits <= 1
  {
    if found == 0 then []
    else
      var front := LinesWith(if hit == found then hit - 1 else hit, found - 1);
      var last := Line(found, if hit == found then 1 else 0);
      assert (front + [last])[..found - 1] == front;
      front + [last]
  }

  /** Any share of lines, and any percentage of functions, stands in some report of one file. */
  lemma {:induction false} OneFileText(c: Covered) returns (text: string)
    requires Renderable(c)
    ensures PercentsIn(text) == map[Slashed(c.file) := PercentsOf(RecordOf(c))]
  {
    text := Join(Render([c]));
    ReadersAgree([c]);
    RecordNames([c]);
    var r := RecordOf(c);
    assert RecordsOf([c]) == [r];
    assert r in RecordsOf([c]);
  }

  /** A function count that is not a number makes the percentage none, and the report is still read. */
  lemma {:induction false} NoNumberText(name: string) returns (text: string)
    requires IsName(name)
    ensures text == "SF:" + name + "\nFNF:x\n"
    ensures PercentsIn(text) == map[Slashed(name) := Percents(NaN, 100.0)]
  {
    var fnf := "FNF:x";
    text := NoNumberLines(name, fnf);
    NoNumberRead(name, "x");
  }

  lemma {:induction false} NoNumberLines(name: string, fnf: string) returns (text: string)
    requires IsName(name) && fnf == "FNF:x"
    ensures text == "SF:" + name + "\nFNF:x\n"
    ensures Events(Split(text)) == [File(name), FunctionsFound("x"), Other]
  {
    var sf, empty := "SF:" + name, "";
    text := sf + "\n" + (fnf + "\n");
    TwoLines(sf, fnf);
    SplitJoined([sf, fnf]);
    assert [sf, fnf] + [empty] == [sf, fnf, empty];
    NoNumberEvents(name, sf, fnf);
  }

  lemma {:induction false} NoNumberRead(name: string, x: string)
    requires x == "x"
    ensures Flush(Read(Idle(map[]), [File(name), FunctionsFound(x), Other])).out ==
      map[Slashed(name) := Percents(NaN, 100.0)]
  {
    NumberOfX();
    ThreeRead(Idle(map[]), Malformed, File(name), FunctionsFound(x), Other);
  }

  lemma {:induction false} TwoLines(a: string, b: string)
    ensures Join([a, b]) == a + "\n" + (b + "\n")
  {
    assert Join([b]) == b + "\n" + Join([]);
    assert [a, b][1..] == [b];
  }

  lemma {:induction false} NoNumberEvents(name: string, sf: string, fnf: string)
    requires IsName(name) && sf == "SF:" + name && fnf == "FNF:x"
    ensures Events([sf, fnf, ""]) == [File(name), FunctionsFound("x"), Other]
  {
    ThreeEvents(sf, fnf, "");
    TrimTagged("SF:", name);
    TrimKeeps(fnf);
    assert sf[0] == 'S' && fnf[0] == 'F' && fnf[2] == 'F' && fnf[4..] == "x";
  }
}
