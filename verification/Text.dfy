/**
 * Text as the JavaScript library reads it: white space and trimming, decimal digits, and the numbers that `Number`
 * makes of text. A finite number is its exact value; a text may also spell an infinity, or no number at all, and
 * arithmetic goes on with those as the language says.
 */
module Text {
  import opened Collections

  /** The characters `\s` stands for, which are also those `trim` removes. */
  predicate IsSpace(c: char) {
    || c == ' ' || '\t' <= c <= '\r' || c == '\U{A0}' || c == '\U{FEFF}' || c == '\U{1680}'
    || '\U{2000}' <= c <= '\U{200A}' || c == '\U{2028}' || c == '\U{2029}' || c == '\U{202F}' || c == '\U{205F}'
    || c == '\U{3000}'
  }

  function TrimStart(s: string): string {
    if s != "" && IsSpace(s[0]) then TrimStart(s[1..]) else s
  }

  function TrimEnd(s: string): string {
    if s != "" && IsSpace(s[|s| - 1]) then TrimEnd(s[..|s| - 1]) else s
  }

  function Trim(s: string): string { TrimEnd(TrimStart(s)) }

  lemma {:induction false} TrimStartKeeps(s: string)
    ensures forall c :: c in TrimStart(s) ==> c in s
    ensures TrimStart(s) != "" ==> !IsSpace(TrimStart(s)[0])
  {
    if s != "" && IsSpace(s[0]) { TrimStartKeeps(s[1..]); }
  }

  lemma {:induction false} TrimEndKeeps(s: string)
    ensures TrimEnd(s) <= s
    ensures TrimEnd(s) != "" ==> !IsSpace(TrimEnd(s)[|TrimEnd(s)| - 1])
  {
    if s != "" && IsSpace(s[|s| - 1]) { TrimEndKeeps(s[..|s| - 1]); }
  }

  // ---------------------------------------------------------------- decimal digits

  predicate IsDigit(c: char) { '0' <= c <= '9' }

  predicate AllDigits(s: string) { forall i :: 0 <= i < |s| ==> IsDigit(s[i]) }

  function Decimal(s: string): nat
    requires AllDigits(s)
  {
    if s == "" then 0 else 10 * Decimal(s[..|s| - 1]) + (s[|s| - 1] - '0') as nat
  }

  function Digits(n: nat): (d: string)
    ensures d != "" && AllDigits(d)
  {
    if n < 10 then ['0' + n as char] else Digits(n / 10) + ['0' + (n % 10) as char]
  }

  lemma {:induction false} DecimalOfDigits(n: nat)
    ensures Decimal(Digits(n)) == n
  {
    if n < 10 {
      assert Digits(n)[..0] == "";
    } else {
      DecimalOfDigits(n / 10);
      assert Digits(n)[..|Digits(n)| - 1] == Digits(n / 10);
    }
  }

  // ---------------------------------------------------------------- numbers

  datatype Num = Finite(value: real) | Infinite(positive: bool) | NaN

  predicate IsPositive(n: Num) { (n.Finite? && n.value > 0.0) || n == Infinite(true) }

  function Negated(n: Num): Num {
    match n
    case Finite(value) => Finite(-value)
    case Infinite(positive) => Infinite(!positive)
    case NaN => NaN
  }

  function PowerOfTen(e: int): real
    decreases if e < 0 then -e else e
  {
    if e == 0 then 1.0 else if e > 0 then 10.0 * PowerOfTen(e - 1) else PowerOfTen(e + 1) / 10.0
  }

  /** A number times a power of ten. */
  function Shifted(n: nat, e: int): real { n as real * PowerOfTen(e) }

  /** Where the first of two characters is, or the length. */
  function FirstOf(s: string, a: char, b: char): (i: nat)
    ensures i <= |s|
  {
    if s == "" || s[0] == a || s[0] == b then 0 else 1 + FirstOf(s[1..], a, b)
  }

  function Exponent(s: string): Option<int> {
    var digits := if s != "" && (s[0] == '+' || s[0] == '-') then s[1..] else s;
    if digits == "" || !AllDigits(digits) then None
    else
      var n: int := Decimal(digits);
      Some(if s[0] == '-' then -n else n)
  }

  /** A decimal literal without its sign: digits with at most one point, and an exponent. */
  function Unsigned(t: string): Num {
    if t == "Infinity" then Infinite(true)
    else
      var e := FirstOf(t, 'e', 'E');
      var exponent := if e == |t| then Some(0) else Exponent(t[e + 1..]);
      var point := FirstOf(t[..e], '.', '.');
      var fraction := if point == e then "" else t[point + 1..e];
      var digits := t[..point] + fraction;
      if exponent.None? || digits == "" || !AllDigits(digits) then NaN
      else Finite(Shifted(Decimal(digits), exponent.value - |fraction|))
  }

  function Radix(c: char): Option<nat> {
    if c == 'x' || c == 'X' then Some(16)
    else if c == 'o' || c == 'O' then Some(8)
    else if c == 'b' || c == 'B' then Some(2)
    else None
  }

  function DigitValue(c: char): nat {
    if IsDigit(c) then (c - '0') as nat
    else if 'a' <= c <= 'f' then (c - 'a') as nat + 10
    else if 'A' <= c <= 'F' then (c - 'A') as nat + 10
    else 16
  }

  function InRadix(s: string, radix: nat): Option<nat> {
    if s == "" then Some(0)
    else
      var n := |s| - 1;
      var front := InRadix(s[..n], radix);
      if front.None? || DigitValue(s[n]) >= radix then None else Some(radix * front.value + DigitValue(s[n]))
  }

  /** `Number(s)`: the empty text is 0, and what is no numeric literal is not a number. */
  function Number(s: string): Num {
    var t := Trim(s);
    if t == "" then Finite(0.0)
    else if |t| > 2 && t[0] == '0' && Radix(t[1]).Some? then
      var n := InRadix(t[2..], Radix(t[1]).value);
      if n.None? then NaN else Finite(n.value as real)
    else if t[0] == '-' then Negated(Unsigned(t[1..]))
    else if t[0] == '+' then Unsigned(t[1..])
    else Unsigned(t)
  }

  lemma {:induction false} TrimKeeps(s: string)
    requires s != "" && !IsSpace(s[0]) && !IsSpace(s[|s| - 1])
    ensures Trim(s) == s
  {
  }

  lemma {:induction false} NoneOf(s: string, a: char, b: char)
    requires a !in s && b !in s
    ensures FirstOf(s, a, b) == |s|
  {
    if s != "" { NoneOf(s[1..], a, b); }
  }

  lemma {:induction false} NumberOfDigits(n: nat)
    ensures Number(Digits(n)) == Finite(n as real)
  {
    var d := Digits(n);
    TrimKeeps(d);
    NoneOf(d, 'e', 'E');
    assert d[..|d|] == d;
    NoneOf(d, '.', '.');
    DecimalOfDigits(n);
    assert d + "" == d;
    assert IsDigit(d[0]) && (|d| > 1 ==> IsDigit(d[1]));
  }

  /** What `trim` leaves is what stands between the white space at the ends. */
  lemma {:induction false} TrimIsBetween(before: string, s: string, after: string)
    requires s != "" && !IsSpace(s[0]) && !IsSpace(s[|s| - 1])
    requires (forall c :: c in before ==> IsSpace(c)) && forall c :: c in after ==> IsSpace(c)
    ensures Trim(before + s + after) == s
  {
    StartTrimmed(before, s + after);
    assert before + s + after == before + (s + after);
    EndTrimmed(s, after);
  }

  lemma {:induction false} StartTrimmed(before: string, s: string)
    requires s != "" && !IsSpace(s[0]) && forall c :: c in before ==> IsSpace(c)
    ensures TrimStart(before + s) == s
  {
    if before != "" {
      assert before[0] in before && (before + s)[1..] == before[1..] + s;
      StartTrimmed(before[1..], s);
    } else {
      assert before + s == s;
    }
  }

  lemma {:induction false} EndTrimmed(s: string, after: string)
    requires s != "" && !IsSpace(s[|s| - 1]) && forall c :: c in after ==> IsSpace(c)
    ensures TrimEnd(s + after) == s
  {
    if after != "" {
      var n := |after| - 1;
      assert after[n] in after && (s + after)[..|s + after| - 1] == s + after[..n];
      EndTrimmed(s, after[..n]);
    } else {
      assert s + after == s;
    }
  }

  lemma {:induction false} PowersCancel(e: nat)
    ensures PowerOfTen(0 - e) * PowerOfTen(e) == 1.0
    decreases e
  {
    if e > 0 {
      PowersCancel(e - 1);
      assert PowerOfTen(0 - e) == PowerOfTen(1 - e) / 10.0 && PowerOfTen(e) == 10.0 * PowerOfTen(e - 1);
      assert PowerOfTen(0 - e) * PowerOfTen(e) == PowerOfTen(1 - e) * PowerOfTen(e - 1);
    }
  }

  lemma {:induction false} FirstAfter(before: string, c: char, after: string, d: char)
    requires c !in before && d !in before
    ensures FirstOf(before + [c] + after, c, d) == |before|
  {
    if before != "" {
      assert before[0] in before && (before + [c] + after)[1..] == before[1..] + [c] + after;
      FirstAfter(before[1..], c, after, d);
    }
  }

  /** The parts of digits with a point. */
  lemma {:induction false} PointSplits(whole: string, fraction: string)
    requires AllDigits(whole) && AllDigits(fraction)
    ensures
      var t := whole + "." + fraction;
      && FirstOf(t, 'e', 'E') == |t| && t[..|t|] == t
      && FirstOf(t, '.', '.') == |whole| && t[..|whole|] == whole && t[|whole| + 1..] == fraction
  {
    NoneOf(whole + "." + fraction, 'e', 'E');
    FirstAfter(whole, '.', fraction, '.');
  }

  lemma {:induction false} UnsignedDecimal(whole: string, fraction: string)
    requires AllDigits(whole) && AllDigits(fraction) && whole + fraction != ""
    ensures Unsigned(whole + "." + fraction) ==
      Finite(Shifted(Decimal(whole + fraction), 0 - |fraction|))
  {
    var t := whole + "." + fraction;
    PointSplits(whole, fraction);
    assert t[|whole|] == '.' && "Infinity"[0] == 'I' && t != "Infinity" by { assert t[0] == '.' || IsDigit(t[0]); }
    assert t[|whole| + 1..|t|] == fraction;
  }

  lemma {:induction false} NumberIsUnsigned(t: string)
    requires t != "" && (t[0] == '.' || IsDigit(t[0])) && !IsSpace(t[|t| - 1])
    requires |t| > 1 ==> Radix(t[1]).None?
    ensures Number(t) == Unsigned(t) && Number("-" + t) == Negated(Unsigned(t))
  {
    TrimKeeps(t);
    TrimKeeps("-" + t);
    assert ("-" + t)[1..] == t;
  }

  lemma {:induction false} DecimalValue(whole: string, fraction: string) returns (x: real)
    requires AllDigits(whole) && AllDigits(fraction) && whole + fraction != ""
    ensures Unsigned(whole + "." + fraction) == Finite(x) && IsOver(x, Decimal(whole + fraction), |fraction|)
  {
    x := Shifted(Decimal(whole + fraction), 0 - |fraction|);
    UnsignedDecimal(whole, fraction);
    ShiftedBack(Decimal(whole + fraction), |fraction|);
  }

  /** A decimal with a point is its digits over the power of ten, and a minus negates it. */
  lemma {:induction false} NumberOfDecimal(whole: string, fraction: string) returns (x: real)
    requires AllDigits(whole) && AllDigits(fraction) && whole + fraction != ""
    ensures IsOver(x, Decimal(whole + fraction), |fraction|)
    ensures Number(whole + "." + fraction) == Finite(x) && Number("-" + (whole + "." + fraction)) == Finite(-x)
  {
    PointStarts(whole, fraction);
    NumberIsUnsigned(whole + "." + fraction);
    x := DecimalValue(whole, fraction);
  }

  lemma {:induction false} PointStarts(whole: string, fraction: string)
    requires AllDigits(whole) && AllDigits(fraction)
    ensures
      var t := whole + "." + fraction;
      && t != "" && (t[0] == '.' || IsDigit(t[0])) && !IsSpace(t[|t| - 1])
      && (|t| > 1 ==> Radix(t[1]).None?)
  {
    var t := whole + "." + fraction;
    assert t[|t| - 1] == '.' || IsDigit(t[|t| - 1]);
    assert |t| > 1 ==> t[1] == '.' || IsDigit(t[1]);
  }

  /** The number over a power of ten. */
  predicate IsOver(x: real, n: nat, e: nat) { x * PowerOfTen(e) == n as real }

  lemma {:induction false} ShiftedBack(n: nat, e: nat)
    ensures IsOver(Shifted(n, 0 - e), n, e)
  {
    PowersCancel(e);
    assert n as real * PowerOfTen(0 - e) * PowerOfTen(e) == n as real * (PowerOfTen(0 - e) * PowerOfTen(e));
  }

  lemma {:induction false} NumberOfX()
    ensures Number("x") == NaN
  {
    var t := "x";
    TrimKeeps(t);
    assert t[1..] == "" && FirstOf("", 'e', 'E') == 0 && FirstOf("", '.', '.') == 0;
    assert t[..1] == t && t + "" == t;
    assert !IsDigit(t[0]);
  }

  const MAX_SAFE := 0x1F_FFFF_FFFF_FFFF

  /** A number that is a count: a safe integer, and not negative. */
  function Count(n: Num): Option<nat> {
    if n.Finite? && 0.0 <= n.value <= MAX_SAFE as real && n.value == n.value.Floor as real then Some(n.value.Floor)
    else None
  }

  lemma {:induction false} CountOfDigits(n: nat)
    ensures Count(Number(Digits(n))) == if n <= MAX_SAFE then Some(n) else None
  {
    NumberOfDigits(n);
    assert (n as real).Floor == n;
  }
}
