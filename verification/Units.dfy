/**
  Sizes (util/util.go) and durations (util/time.go) as text, and back. Machine integers are 64 bits
  wide: a number that does not fit is an error, a product that does not fit wraps.
 */
module Units {
  import opened Text

  const TWO_63 := 0x8000_0000_0000_0000
  const TWO_64 := 0x1_0000_0000_0000_0000

  function Wrap64(x: int): int { (x + TWO_63) % TWO_64 - TWO_63 }

  // ---------- decimal numbers ----------

  function Digit(n: nat): char
    requires n < 10
  {
    '0' + n as char
  }

  predicate IsDigit(c: char) { '0' <= c <= '9' }

  /** strconv.Itoa and %d */
  function Decimal(n: nat): (s: string)
    ensures s != [] && forall i | 0 <= i < |s| :: IsDigit(s[i])
  {
    if n < 10 then [Digit(n)] else Decimal(n / 10) + [Digit(n % 10)]
  }

  function FormatInt(n: int): string
  {
    if n < 0 then "-" + Decimal(-n) else Decimal(n)
  }

  function Number(s: string): nat
    requires forall i | 0 <= i < |s| :: IsDigit(s[i])
  {
    if s == [] then 0
    else
      assert IsDigit(s[|s| - 1]);
      Number(s[..|s| - 1]) * 10 + (s[|s| - 1] as int - '0' as int)
  }

  lemma {:induction false} NumberDecimal(n: nat)
    ensures Number(Decimal(n)) == n
  {
    var s := Decimal(n);
    if n < 10 {
      assert s[..0] == [];
    } else {
      NumberDecimal(n / 10);
      assert s[..|s| - 1] == Decimal(n / 10);
    }
  }

  /** strconv.Atoi on digits */
  function Atoi(s: string): Option<int>
    requires forall i | 0 <= i < |s| :: IsDigit(s[i])
  {
    if Number(s) < TWO_63 then Some(Number(s)) else None
  }

  /** The length of the run of digits at the start. */
  function LeadingDigits(s: string): (k: nat)
    ensures k <= |s| && forall i | 0 <= i < k :: IsDigit(s[i])
    ensures k < |s| ==> !IsDigit(s[k])
  {
    if s != [] && IsDigit(s[0]) then
      var k := LeadingDigits(s[1..]);
      assert forall i | 1 <= i < k + 1 :: s[i] == s[1..][i - 1];
      assert k + 1 < |s| ==> s[k + 1] == s[1..][k];
      k + 1
    else 0
  }

  lemma {:induction false} LeadingDigitsThen(digits: string, rest: string)
    requires forall i | 0 <= i < |digits| :: IsDigit(digits[i])
    requires rest == [] || !IsDigit(rest[0])
    ensures LeadingDigits(digits + rest) == |digits|
  {
    if digits == [] {
      assert digits + rest == rest;
    } else {
      assert (digits + rest)[1..] == digits[1..] + rest;
      LeadingDigitsThen(digits[1..], rest);
    }
  }

  // ---------- sizes ----------

  const KIB := 1024
  const MIB := 1024 * 1024
  const GIB := 1024 * 1024 * 1024
  const TIB := 1024 * 1024 * 1024 * 1024
  const PIB := 1024 * 1024 * 1024 * 1024 * 1024
  const EIB := 1024 * 1024 * 1024 * 1024 * 1024 * 1024

  /** The unit a size is written in. */
  function SizeUnit(b: int): int
  {
    if b < KIB then 1 else if b < MIB then KIB else if b < GIB then MIB else if b < TIB then GIB else TIB
  }

  function SizeSuffix(b: int): string
  {
    if b < KIB then "" else if b < MIB then "K" else if b < GIB then "M" else if b < TIB then "G" else "T"
  }

  function UnitAt(exp: nat): int
  {
    if exp == 0 then KIB else if exp == 1 then MIB else if exp == 2 then GIB else if exp == 3 then TIB
    else if exp == 4 then PIB else EIB
  }

  /** One turn of the loop moves on to the next unit. */
  lemma NextUnit(b: int, exp: nat)
    requires exp <= 5 && b < TWO_63 && b / UnitAt(exp) >= 1024
    ensures exp < 5 && b / UnitAt(exp) / 1024 == b / UnitAt(exp + 1) >= 1 && UnitAt(exp) * 1024 == UnitAt(exp + 1)
  {
  }

  /** The loop stops at the unit the size is written in. */
  lemma UnitReached(b: int, exp: nat)
    requires exp <= 5 && 1 <= b / UnitAt(exp) < 1024
    ensures if exp <= 3 then KIB <= b < PIB && SizeUnit(b) == UnitAt(exp) && SizeSuffix(b) == ["KMGT"[exp]] else b >= PIB
  {
  }

  /** FormatSize on a 64-bit number. None is the panic of an index past the suffixes. */
  method FormatSize(b: int) returns (s: Option<string>)
    requires b < TWO_63
    ensures s == SizeText(b)
  {
    var unit := 1024;
    if b < unit {
      return Some(FormatInt(b));
    }
    var div, exp := unit, 0;
    var n := b / unit;
    while n >= unit
      invariant exp <= 5 && div == UnitAt(exp) && n == b / div >= 1
      decreases n
    {
      NextUnit(b, exp);
      n := n / unit;
      div := div * unit;
      exp := exp + 1;
    }
    UnitReached(b, exp);
    if exp >= |"KMGT"| {
      return None;
    }
    s := Some(Decimal(b / div) + ["KMGT"[exp]]);
  }

  /** The largest unit that fits, rounded down to it; there is no suffix from one pebibyte on. */
  function SizeText(b: int): Option<string>
  {
    if b < KIB then Some(FormatInt(b))
    else if b < PIB then Some(Decimal(b / SizeUnit(b)) + SizeSuffix(b))
    else None
  }

  /** The suffixes of `(?i)([gmkb])?`; case folding also lets the Kelvin sign pass for a K. */
  predicate SizeLetter(c: char)
  {
    c in "gmkbGMKB" || c == '\U{212A}'
  }

  /** Upper case of the Kelvin sign is itself, so it counts as bytes. */
  function Multiplier(suffix: string): int
  {
    if suffix == "g" || suffix == "G" then GIB
    else if suffix == "m" || suffix == "M" then MIB
    else if suffix == "k" || suffix == "K" then KIB
    else 1
  }

  function ParseSize(s: string): Option<int>
  {
    var k := LeadingDigits(s);
    var suffix := s[k..];
    if k == 0 || |suffix| > 1 || (|suffix| == 1 && !SizeLetter(suffix[0])) then None
    else
      var value := Atoi(s[..k]);
      if value.None? then None else Some(Wrap64(value.value * Multiplier(suffix)))
  }

  lemma ParseSizeText(n: nat, suffix: string)
    requires n < TWO_63 && |suffix| <= 1 && (|suffix| == 1 ==> !IsDigit(suffix[0]))
    ensures ParseSize(Decimal(n) + suffix)
         == if |suffix| == 1 && !SizeLetter(suffix[0]) then None else Some(Wrap64(n * Multiplier(suffix)))
  {
    var s := Decimal(n) + suffix;
    LeadingDigitsThen(Decimal(n), suffix);
    NumberDecimal(n);
    assert s[..|Decimal(n)|] == Decimal(n) && s[|Decimal(n)|..] == suffix;
  }

  /** What a letter stands for, in upper or lower case; any other accepted letter stands for bytes. */
  lemma SizeLetters(n: nat, c: char)
    requires n < TWO_63 && SizeLetter(c)
    ensures ParseSize(Decimal(n) + [c])
         == Some(Wrap64(n * (if Fold(c) == 'k' then KIB else if Fold(c) == 'm' then MIB else if Fold(c) == 'g' then GIB else 1)))
    ensures ParseSize(Decimal(n)) == Some(n)
  {
    assert !IsDigit(c);
    ParseSizeText(n, [c]);
    ParseSizeText(n, "");
    assert Decimal(n) + "" == Decimal(n);
    WrapSmall(n);
    LetterMultiplier(c);
  }

  lemma LetterMultiplier(c: char)
    ensures Multiplier([c]) == if Fold(c) == 'k' then KIB else if Fold(c) == 'm' then MIB else if Fold(c) == 'g' then GIB else 1
  {
  }

  /** A size text is accepted exactly if it is a run of digits that fits into 64 bits and at most one
      letter. */
  lemma ParseSizeExact(s: string, k: nat)
    requires k <= |s| && (forall i | 0 <= i < k :: IsDigit(s[i])) && (k < |s| ==> !IsDigit(s[k]))
    ensures ParseSize(s).Some? <==> k >= 1 && Number(s[..k]) < TWO_63 && (|s| == k || (|s| == k + 1 && SizeLetter(s[k])))
  {
    assert s == s[..k] + s[k..];
    LeadingDigitsThen(s[..k], s[k..]);
  }

  lemma WrapSmall(x: int)
    requires 0 <= x < TWO_63
    ensures Wrap64(x) == x
  {
  }

  function RoundDown(b: int, unit: int): int
    requires unit > 0
  {
    b / unit * unit
  }

  lemma MulAtLeast(u: int, k: int)
    requires u > 0 && k >= 1
    ensures u * k >= u
  {
  }

  lemma MulDiv(q: int, u: int)
    requires u > 0
    ensures q * u / u == q
  {
    var x := q * u;
    var k := x / u;
    assert x == u * k + x % u;
    assert u * (q - k) == x % u && u * (q - k) == -(u * (k - q));
    if q - k >= 1 {
      MulAtLeast(u, q - k);
    } else if k - q >= 1 {
      MulAtLeast(u, k - q);
    }
  }

  lemma RoundDownBounds(b: int, unit: int)
    requires unit > 0
    ensures RoundDown(b, unit) <= b < RoundDown(b, unit) + unit
    ensures RoundDown(b, unit) / unit == b / unit
    ensures RoundDown(b, unit) == b - b % unit
  {
    assert b == unit * (b / unit) + b % unit;
    MulDiv(b / unit, unit);
  }

  lemma SameUnit(b: int)
    requires 0 <= b < PIB
    ensures SizeUnit(RoundDown(b, SizeUnit(b))) == SizeUnit(b)
    ensures SizeSuffix(RoundDown(b, SizeUnit(b))) == SizeSuffix(b)
  {
    var u := SizeUnit(b);
    RoundDownBounds(b, u);
    if b >= KIB { RoundDownReaches(b, u); }
  }

  lemma ParseKnownSize(b: int)
    requires 0 <= b < TIB
    ensures SizeText(b).Some? && ParseSize(SizeText(b).value) == Some(RoundDown(b, SizeUnit(b)))
  {
    var n := b / SizeUnit(b);
    if b < KIB { assert Decimal(b) + "" == Decimal(b); }
    ParseSizeText(n, SizeSuffix(b));
    RoundDownBounds(b, SizeUnit(b));
    WrapSmall(RoundDown(b, SizeUnit(b)));
  }

  lemma ParseUnknownSize(b: int)
    requires b < 0 || TIB <= b < PIB
    ensures SizeText(b).Some? && ParseSize(SizeText(b).value).None?
  {
  }

  /** Formatting gives a text exactly below one pebibyte, and the text is readable exactly between
      zero and one tebibyte; what is read is the size rounded down to its unit, and it is formatted
      the same way. */
  lemma SizeRoundTrip(b: int)
    ensures SizeText(b).Some? <==> b < PIB
    ensures SizeText(b).Some? && ParseSize(SizeText(b).value).Some? <==> 0 <= b < TIB
    ensures 0 <= b < TIB ==>
      var v := ParseSize(SizeText(b).value).value;
      v <= b < v + SizeUnit(b) && SizeText(v) == SizeText(b)
  {
    if 0 <= b < TIB {
      ParseKnownSize(b);
      RoundDownBounds(b, SizeUnit(b));
      SameSizeText(b);
    } else if b < PIB {
      ParseUnknownSize(b);
    }
  }

  lemma SameSizeText(b: int)
    requires 0 <= b < TIB
    ensures SizeText(RoundDown(b, SizeUnit(b))) == SizeText(b)
  {
    RoundDownBounds(b, SizeUnit(b));
    SameUnit(b);
  }

  // ---------- durations, in nanoseconds ----------

  const SECOND := 1_000_000_000
  const MINUTE := 60 * SECOND
  const HOUR := 60 * MINUTE
  const DAY := 24 * HOUR

  function DurationUnit(d: int): int
  {
    if d >= DAY then DAY else if d >= HOUR then HOUR else if d >= MINUTE then MINUTE else SECOND
  }

  function FormatDuration(d: int): string
  {
    if d >= DAY then Decimal(d / DAY) + "d"
    else if d >= HOUR then Decimal(d / HOUR) + "h"
    else if d >= MINUTE then Decimal(d / MINUTE) + "m"
    else if d >= SECOND then Decimal(d / SECOND) + "s"
    else "0s"
  }

  /** Case folding of the expression: the long s folds to s. */
  function FoldLetter(c: char): char
  {
    if 'A' <= c <= 'Z' then c - 'A' + 'a' else if c == '\U{017F}' then 's' else c
  }

  function Folded(w: string): string
  {
    seq(|w|, i requires 0 <= i < |w| => FoldLetter(w[i]))
  }

  predicate DurationWord(w: string)
  {
    w in {"d", "day", "days", "h", "hour", "hours", "m", "min", "mins", "minute", "minutes",
          "s", "sec", "secs", "second", "seconds"}
  }

  function SkipSpaces(s: string): string
  {
    if s != [] && s[0] in " \t\n\r\U{000C}" then SkipSpaces(s[1..]) else s
  }

  // ---------- time.ParseDuration of the Go library ----------

  function UnitNanos(u: string): (r: Option<nat>)
    ensures r.Some? ==> r.value >= 1
  {
    if u == "ns" then Some(1)
    else if u == "us" || u == "\U{00B5}s" || u == "\U{03BC}s" then Some(1000)
    else if u == "ms" then Some(1000000)
    else if u == "s" then Some(SECOND)
    else if u == "m" then Some(MINUTE)
    else if u == "h" then Some(HOUR)
    else None
  }

  predicate InUnit(c: char) { c != '.' && !IsDigit(c) }

  /** The length of the unit at the start: everything up to a period or a digit. */
  function UnitLength(s: string): (k: nat)
    ensures k <= |s|
  {
    if s != [] && InUnit(s[0]) then 1 + UnitLength(s[1..]) else 0
  }

  /** leadingFraction: digits that no longer fit are skipped. */
  function Fraction(digits: string, x: nat, scale: nat): (r: (nat, nat))
    requires scale >= 1 && forall i | 0 <= i < |digits| :: IsDigit(digits[i])
    ensures r.1 >= 1
  {
    if digits == [] || x > (TWO_63 - 1) / 10 then (x, scale)
    else
      assert IsDigit(digits[0]);
      var y := x * 10 + (digits[0] as int - '0' as int);
      if y > TWO_63 then (x, scale) else Fraction(digits[1..], y, scale * 10)
  }

  /** One term such as 1.5h: the number before the point, the digits after it, the unit, the rest. */
  datatype Term = Term(whole: nat, decimals: string, unit: string, rest: string) | NoTerm

  function ScanTerm(s: string): (r: Term)
    ensures r.Term? ==> |r.rest| < |s| && forall i | 0 <= i < |r.decimals| :: IsDigit(r.decimals[i])
  {
    var k := LeadingDigits(s);
    var point := k < |s| && s[k] == '.';
    var m := if point then LeadingDigits(s[k + 1..]) else 0;
    var decimals := if point then s[k + 1..][..m] else [];
    var rest := if point then s[k + 1..][m..] else s[k..];
    var u := UnitLength(rest);
    if (k == 0 && m == 0) || u == 0 then NoTerm
    else Term(Number(s[..k]), decimals, rest[..u], rest[u..])
  }

  lemma MulNonNegative(a: nat, b: nat)
    ensures a * b >= 0
  {
  }

  /** A whole number of units and a fraction `f` over `scale` of one, rounded down. */
  function TermValue(whole: nat, unit: nat, f: nat, scale: nat): (r: nat)
    requires unit >= 1 && scale >= 1
    ensures r >= whole * unit && (f == 0 ==> r == whole * unit)
  {
    MulNonNegative(whole, unit);
    MulNonNegative(f, unit);
    DivNonNegative(f * unit, scale);
    whole * unit + f * unit / scale
  }

  lemma DivNonNegative(a: nat, b: nat)
    requires b >= 1
    ensures a / b >= 0 && 0 / b == 0
  {
  }

  /** The nanoseconds of a term; the product of a whole number and its unit is at most 1 << 63. */
  function TermNanos(t: Term): (r: Option<nat>)
    requires Scanned(t)
    ensures r.Some? ==> r.value <= TWO_63
  {
    var unit := UnitNanos(t.unit);
    if unit.None? || t.whole > TWO_63 / unit.value then None
    else
      var (f, scale) := Fraction(t.decimals, 0, 1);
      var w := TermValue(t.whole, unit.value, f, scale);
      if w > TWO_63 then None else Some(w)
  }

  predicate Scanned(t: Term)
  {
    t.Term? && forall i | 0 <= i < |t.decimals| :: IsDigit(t.decimals[i])
  }

  predicate AllScanned(ts: seq<Term>) { forall i | 0 <= i < |ts| :: Scanned(ts[i]) }

  function ScanAll(s: string): (r: Option<seq<Term>>)
    ensures r.Some? ==> AllScanned(r.value)
    decreases |s|
  {
    if s == [] then Some([])
    else
      var t := ScanTerm(s);
      if t.NoTerm? then None
      else
        var rest := ScanAll(t.rest);
        if rest.None? then None else Some([t] + rest.value)
  }

  /** The terms added up, an unsigned 64-bit number. */
  function AddTerms(ts: seq<Term>, d: nat): Option<nat>
    requires AllScanned(ts)
    decreases |ts|
  {
    if ts == [] then Some(d)
    else
      var w := TermNanos(ts[0]);
      if w.None? || Add64(d, w.value) > TWO_63 then None else AddTerms(ts[1..], Add64(d, w.value))
  }

  function Add64(a: nat, b: nat): nat { (a + b) % TWO_64 }

  /** The terms are scanned one after the other and added up; any error among them is an error. */
  function StandardTerms(s: string): Option<nat>
  {
    var ts := ScanAll(s);
    if ts.None? then None else AddTerms(ts.value, 0)
  }

  /** Whether there is a minus sign in front, and the text after the sign. */
  function SplitSign(s: string): (bool, string)
  {
    if s != [] && s[0] == '-' then (true, s[1..]) else if s != [] && s[0] == '+' then (false, s[1..]) else (false, s)
  }

  function StandardDuration(s: string): Option<int>
  {
    var (negative, t) := SplitSign(s);
    if t == "0" then Some(0) else if t == [] then None else WithSign(negative, StandardTerms(t))
  }

  function WithSign(negative: bool, d: Option<nat>): Option<int>
  {
    if d.None? then None
    else
      var value: int := d.value;
      if negative then Some(-value) else if value < TWO_63 then Some(value) else None
  }

  // ---------- util.ParseDuration ----------

  /** A whole number and a word, if time.ParseDuration fails. The letter is compared as written. */
  function ReadWord(s: string): Option<int>
  {
    var k := LeadingDigits(s);
    var word := SkipSpaces(s[k..]);
    if k == 0 || !DurationWord(Folded(word)) then None
    else
      var number := Atoi(s[..k]);
      if number.None? || word == [] then None
      else if word[0] == 'd' then Some(Wrap64(number.value * DAY))
      else if word[0] == 'h' then Some(Wrap64(number.value * HOUR))
      else if word[0] == 'm' then Some(Wrap64(number.value * MINUTE))
      else if word[0] == 's' then Some(Wrap64(number.value * SECOND))
      else None
  }

  function ParseDuration(s: string): Option<int>
  {
    if StandardDuration(s).Some? then StandardDuration(s) else ReadWord(s)
  }

  lemma {:induction false} WholeUnit(u: string)
    requires forall i | 0 <= i < |u| :: InUnit(u[i])
    ensures UnitLength(u) == |u|
  {
    if u != [] { WholeUnit(u[1..]); }
  }

  lemma DivBound(n: nat, unit: nat)
    requires unit >= 1
    ensures n <= TWO_63 / unit <==> n * unit <= TWO_63
  {
    var q := TWO_63 / unit;
    assert TWO_63 == unit * q + TWO_63 % unit;
    if n <= q {
      MulMonotone(n, q, unit);
    } else {
      MulMonotone(q + 1, n, unit);
    }
  }

  lemma MulMonotone(a: nat, b: nat, u: nat)
    requires a <= b
    ensures a * u <= b * u
  {
  }

  lemma ScanOne(n: nat, u: string)
    requires u != [] && forall i | 0 <= i < |u| :: InUnit(u[i])
    ensures ScanTerm(Decimal(n) + u) == Term(n, "", u, "")
  {
    var s, k := Decimal(n) + u, |Decimal(n)|;
    LeadingDigitsThen(Decimal(n), u);
    NumberDecimal(n);
    assert s[..k] == Decimal(n) && s[k..] == u && s[k] == u[0];
    WholeUnit(u);
    assert u[..|u|] == u && u[|u|..] == [];
  }

  lemma OneNanos(n: nat, u: string)
    ensures TermNanos(Term(n, "", u, ""))
         == if UnitNanos(u).Some? && n * UnitNanos(u).value <= TWO_63 then Some(n * UnitNanos(u).value) else None
  {
    if UnitNanos(u).Some? {
      DivBound(n, UnitNanos(u).value);
      assert Fraction("", 0, 1) == (0, 1);
    }
  }

  /** A whole number of one unit is read as that many units; an unknown unit or too large a product is
      rejected. */
  lemma OneTerm(n: nat, u: string)
    requires u != [] && forall i | 0 <= i < |u| :: InUnit(u[i])
    ensures StandardTerms(Decimal(n) + u)
         == if UnitNanos(u).Some? && n * UnitNanos(u).value <= TWO_63 then Some(n * UnitNanos(u).value) else None
  {
    ScanOne(n, u);
    OneNanos(n, u);
    LastTerm(Decimal(n) + u, Term(n, "", u, ""));
  }

  lemma SmallSum(a: nat, b: nat)
    requires a + b <= TWO_63
    ensures Add64(a, b) == a + b
  {
  }

  lemma LastTerm(s: string, t: Term)
    requires s != [] && Scanned(t) && t.rest == "" && ScanTerm(s) == t
    ensures StandardTerms(s) == TermNanos(t)
  {
    assert ScanAll("") == Some([]) && [t] + [] == [t];
    assert ScanAll(s) == Some([t]);
    if TermNanos(t).Some? {
      SmallSum(0, TermNanos(t).value);
      assert AddTerms([t], 0) == AddTerms([], TermNanos(t).value);
    }
  }

  lemma MulAtLeastOne(n: nat, u: nat)
    requires u >= 1
    ensures n <= n * u
  {
  }

  lemma OneTermStandard(n: nat, u: string)
    requires u != [] && forall i | 0 <= i < |u| :: InUnit(u[i])
    ensures StandardDuration(Decimal(n) + u)
         == if UnitNanos(u).Some? && n * UnitNanos(u).value < TWO_63 then Some(n * UnitNanos(u).value) else None
  {
    var s := Decimal(n) + u;
    assert IsDigit(s[0]) && |s| >= 2 && s != "0";
    OneTerm(n, u);
  }

  /** One of the sixteen words, in upper or lower case. */
  predicate AnyCaseWord(w: string)
  {
    DurationWord(seq(|w|, i requires 0 <= i < |w| => Fold(w[i])))
  }

  /** The first letter is compared as written, so only a lower-case one names a unit. */
  predicate UnitLetter(c: char) { c == 'd' || c == 'h' || c == 'm' || c == 's' }

  function LetterUnit(c: char): (r: nat)
    ensures r >= 1
  {
    if c == 'd' then DAY else if c == 'h' then HOUR else if c == 'm' then MINUTE else SECOND
  }

  predicate WordRune(c: char) { 'a' <= c <= 'z' || 'A' <= c <= 'Z' }

  lemma WordLetters(w: string)
    requires DurationWord(w)
    ensures 1 <= |w| <= 7 && forall i | 0 <= i < |w| :: 'a' <= w[i] <= 'z'
  {
  }

  lemma AnyCaseLetters(w: string)
    requires AnyCaseWord(w)
    ensures 1 <= |w| <= 7 && (forall i | 0 <= i < |w| :: WordRune(w[i])) && DurationWord(Folded(w))
  {
    var lower := seq(|w|, i requires 0 <= i < |w| => Fold(w[i]));
    WordLetters(lower);
    forall i | 0 <= i < |w| ensures WordRune(w[i]) && FoldLetter(w[i]) == lower[i] {
      assert lower[i] == Fold(w[i]);
    }
    assert Folded(w) == lower;
  }

  predicate Spaces(sp: string) { forall i | 0 <= i < |sp| :: sp[i] in " \t\n\r\U{000C}" }

  lemma {:induction false} SpacesSkipped(sp: string, w: string)
    requires Spaces(sp) && w != [] && w[0] !in " \t\n\r\U{000C}"
    ensures SkipSpaces(sp + w) == w
  {
    if sp == [] {
      assert sp + w == w;
    } else {
      assert (sp + w)[1..] == sp[1..] + w && (sp + w)[0] == sp[0];
      SpacesSkipped(sp[1..], w);
    }
  }

  /** The Go library knows one word each for hours, minutes and seconds, without a space. */
  lemma WordNanos(sp: string, w: string)
    requires Spaces(sp) && AnyCaseWord(w)
    ensures UnitNanos(sp + w) == if sp == [] && (w == "h" || w == "m" || w == "s") then Some(LetterUnit(w[0])) else None
  {
    AnyCaseLetters(w);
    if sp == [] {
      assert sp + w == w;
      OtherUnits(w);
    } else {
      assert (sp + w)[0] == sp[0];
    }
  }

  /** The units below a second are none of the words. */
  lemma OtherUnits(w: string)
    requires AnyCaseWord(w)
    ensures w != "ns" && w != "us" && w != "ms" && w != "\U{00B5}s" && w != "\U{03BC}s"
  {
    AnyCaseLetters(w);
    assert Folded("ns") == "ns" && Folded("us") == "us" && Folded("ms") == "ms";
    assert !WordRune("\U{00B5}s"[0]) && !WordRune("\U{03BC}s"[0]);
  }

  lemma ScanWord(n: nat, sp: string, w: string)
    requires Spaces(sp) && w != [] && !IsDigit(w[0]) && w[0] !in " \t\n\r\U{000C}"
    ensures var s := Decimal(n) + (sp + w);
      LeadingDigits(s) == |Decimal(n)| && s[..|Decimal(n)|] == Decimal(n) && SkipSpaces(s[|Decimal(n)|..]) == w
  {
    var s := Decimal(n) + (sp + w);
    assert (sp + w)[0] == if sp == [] then w[0] else sp[0];
    LeadingDigitsThen(Decimal(n), sp + w);
    SpacesSkipped(sp, w);
    assert s[..|Decimal(n)|] == Decimal(n) && s[|Decimal(n)|..] == sp + w;
  }

  lemma ReadByWord(n: nat, sp: string, w: string)
    requires Spaces(sp) && AnyCaseWord(w) && w != []
    ensures ReadWord(Decimal(n) + (sp + w))
         == if n < TWO_63 && UnitLetter(w[0]) then Some(Wrap64(n * LetterUnit(w[0]))) else None
  {
    AnyCaseLetters(w);
    ScanWord(n, sp, w);
    NumberDecimal(n);
  }

  lemma WordIsUnit(sp: string, w: string)
    requires Spaces(sp) && AnyCaseWord(w)
    ensures sp + w != [] && forall i | 0 <= i < |sp + w| :: InUnit((sp + w)[i])
  {
    AnyCaseLetters(w);
    forall i | 0 <= i < |sp + w| ensures InUnit((sp + w)[i]) {
      if i < |sp| { assert (sp + w)[i] == sp[i]; } else { assert (sp + w)[i] == w[i - |sp|]; }
    }
  }

  /** A whole number, spaces and any of the words for days, hours, minutes and seconds are read as
      that many units, whichever of the two parsers takes the text, if the word starts with a
      lower-case letter; its other letters may be in any case. A product that does not fit wraps. */
  lemma WordDurations(n: nat, sp: string, w: string)
    requires Spaces(sp) && AnyCaseWord(w) && w != []
    ensures ParseDuration(Decimal(n) + (sp + w))
         == if n < TWO_63 && UnitLetter(w[0]) then Some(Wrap64(n * LetterUnit(w[0]))) else None
    ensures n * LetterUnit(w[0]) < TWO_63 <==> Wrap64(n * LetterUnit(w[0])) == n * LetterUnit(w[0])
  {
    WordNanos(sp, w);
    WordIsUnit(sp, w);
    OneTermStandard(n, sp + w);
    ReadByWord(n, sp, w);
    MulAtLeastOne(n, LetterUnit(w[0]));
    WrapExact(n * LetterUnit(w[0]));
  }

  lemma WrapExact(x: nat)
    ensures Wrap64(x) == x <==> x < TWO_63
  {
  }

  /** A number with a word that neither parser knows is no duration. */
  lemma UnknownWord(n: nat, sp: string, w: string)
    requires Spaces(sp) && w != [] && w[0] !in " \t\n\r\U{000C}" && forall i | 0 <= i < |w| :: InUnit(w[i])
    requires UnitNanos(sp + w).None? && !DurationWord(Folded(w))
    ensures ParseDuration(Decimal(n) + (sp + w)).None?
  {
    forall i | 0 <= i < |sp + w| ensures InUnit((sp + w)[i]) {
      if i < |sp| { assert (sp + w)[i] == sp[i]; } else { assert (sp + w)[i] == w[i - |sp|]; }
    }
    OneTermStandard(n, sp + w);
    ScanWord(n, sp, w);
  }

  /** A number without a word is no duration, except zero. */
  lemma BareNumber(n: nat)
    ensures ParseDuration(Decimal(n)) == if n == 0 then Some(0) else None
  {
    var s := Decimal(n);
    assert s + "" == s;
    LeadingDigitsThen(s, "");
    NumberDecimal(n);
    assert s[|s|..] == "" && (s == "0" <==> n == 0) by { NumberDecimal(0); }
    assert ScanTerm(s) == NoTerm;
  }

  /** A text that starts with no number, after a sign if there is one, is no duration. */
  lemma NoNumber(s: string)
    requires var t := if s != [] && (s[0] == '+' || s[0] == '-') then s[1..] else s; t == [] || InUnit(t[0])
    ensures ParseDuration(s).None?
  {
    var t := if s != [] && (s[0] == '+' || s[0] == '-') then s[1..] else s;
    assert t == [] || ScanTerm(t) == NoTerm;
  }

  lemma LetterDurations(n: nat, c: char)
    requires UnitLetter(c) && n * LetterUnit(c) < TWO_63
    ensures ParseDuration(Decimal(n) + [c]) == Some(n * LetterUnit(c))
  {
    var w := [c];
    assert seq(|w|, i requires 0 <= i < |w| => Fold(w[i])) == w;
    WordDurations(n, "", w);
    assert "" + w == w;
    MulAtLeastOne(n, LetterUnit(c));
  }

  lemma RoundedDurations(d: nat, c: char)
    requires d < TWO_63 && UnitLetter(c)
    ensures ParseDuration(Decimal(d / LetterUnit(c)) + [c]) == Some(RoundDown(d, LetterUnit(c)))
  {
    RoundDownBounds(d, LetterUnit(c));
    LetterDurations(d / LetterUnit(c), c);
  }

  function DurationLetter(d: int): char
  {
    if d >= DAY then 'd' else if d >= HOUR then 'h' else if d >= MINUTE then 'm' else 's'
  }

  lemma FormattedText(d: nat)
    ensures FormatDuration(d) == Decimal(d / LetterUnit(DurationLetter(d))) + [DurationLetter(d)]
    ensures DurationUnit(d) == LetterUnit(DurationLetter(d)) && UnitLetter(DurationLetter(d))
  {
  }

  lemma ParseFormatted(d: int)
    requires 0 <= d < TWO_63
    ensures ParseDuration(FormatDuration(d)) == Some(RoundDown(d, DurationUnit(d)))
  {
    FormattedText(d);
    RoundedDurations(d, DurationLetter(d));
  }

  lemma RoundDownReaches(d: int, unit: int)
    requires 0 < unit <= d
    ensures unit <= RoundDown(d, unit) <= d && RoundDown(d, unit) / unit == d / unit
  {
    RoundDownBounds(d, unit);
    assert d / unit >= 1;
    MulAtLeast(unit, d / unit);
  }

  lemma FormatRounded(d: int)
    requires d >= 0
    ensures FormatDuration(RoundDown(d, DurationUnit(d))) == FormatDuration(d)
  {
    if d >= SECOND {
      RoundDownReaches(d, DurationUnit(d));
    } else {
      RoundDownBounds(d, SECOND);
    }
  }

  /** Every duration is formatted so that it is read back: rounded down to its unit, or zero if it is
      negative, exactly if it is a non-negative multiple of the unit, and formatting what was read
      gives the same text. */
  lemma DurationRoundTrip(d: int)
    requires -TWO_63 <= d < TWO_63
    ensures ParseDuration(FormatDuration(d)).Some?
    ensures var v := ParseDuration(FormatDuration(d)).value;
      && (if d < 0 then v == 0 else v <= d < v + DurationUnit(d))
      && (v == d <==> d >= 0 && d % DurationUnit(d) == 0)
      && FormatDuration(v) == FormatDuration(d)
  {
    if d < 0 {
      ParseFormatted(0);
      assert FormatDuration(d) == FormatDuration(0) && RoundDown(0, SECOND) == 0;
    } else {
      ParseFormatted(d);
      RoundDownBounds(d, DurationUnit(d));
      FormatRounded(d);
    }
  }
}
