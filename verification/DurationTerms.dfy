/**
  Durations of several terms, such as 1h30m or -1.5h, as time.ParseDuration and with it
  util.ParseDuration read them.
 */
module DurationTerms {
  import opened Text
  import opened Units

  function Pow10(k: nat): (r: nat)
    ensures r >= 1
  {
    if k == 0 then 1 else 10 * Pow10(k - 1)
  }

  predicate Digits(s: string) { forall i | 0 <= i < |s| :: IsDigit(s[i]) }

  /** A whole number, up to eighteen decimals and a known unit. */
  datatype Part = Part(whole: nat, decimals: string, unit: string)

  const UNITS: map<string, nat> :=
    map["ns" := 1, "us" := 1000, "\U{00B5}s" := 1000, "\U{03BC}s" := 1000, "ms" := 1000000,
        "s" := 1000000000, "m" := 60000000000, "h" := 3600000000000]

  lemma UnitsKnown(u: string)
    ensures UnitNanos(u) == if u in UNITS then Some(UNITS[u]) else None
  {
  }

  predicate ValidPart(p: Part)
  {
    Digits(p.decimals) && |p.decimals| <= 18 && p.unit in UNITS && UNITS[p.unit] >= 1
  }

  function PrintPart(p: Part): string
  {
    Decimal(p.whole) + ((if p.decimals == [] then [] else ['.'] + p.decimals) + p.unit)
  }

  function PrintParts(ps: seq<Part>): string
  {
    if ps == [] then [] else PrintPart(ps[0]) + PrintParts(ps[1..])
  }

  /** Nanoseconds, rounded down. */
  function PartNanos(p: Part): nat
    requires ValidPart(p)
  {
    TermValue(p.whole, UNITS[p.unit], Number(p.decimals), Pow10(|p.decimals|))
  }

  predicate ValidParts(ps: seq<Part>) { forall i | 0 <= i < |ps| :: ValidPart(ps[i]) }

  function Sum(values: seq<nat>): nat
  {
    if values == [] then 0 else values[0] + Sum(values[1..])
  }

  function PartsNanos(ps: seq<Part>): seq<nat>
    requires ValidParts(ps)
  {
    seq(|ps|, i requires 0 <= i < |ps| => PartNanos(ps[i]))
  }

  // ---------- decimals ----------

  /** A number with digits appended, one by one from the first. */
  function Appended(x: nat, d: string): nat
    requires Digits(d)
    decreases |d|
  {
    if d == [] then x
    else
      assert IsDigit(d[0]);
      Appended(x * 10 + DigitValue(d[0]), d[1..])
  }

  function Scaled(scale: nat, k: nat): (r: nat)
    requires scale >= 1
    ensures r >= 1
    decreases k
  {
    if k == 0 then scale else Scaled(scale * 10, k - 1)
  }

  lemma {:induction false} AppendedSnoc(x: nat, d: string, c: char)
    requires Digits(d) && IsDigit(c)
    ensures Digits(d + [c]) && Appended(x, d + [c]) == Appended(x, d) * 10 + DigitValue(c)
    decreases |d|
  {
    if d == [] {
      assert d + [c] == [c] && [c][1..] == [];
    } else {
      assert IsDigit(d[0]) && (d + [c])[1..] == d[1..] + [c] && (d + [c])[0] == d[0];
      AppendedSnoc(x * 10 + DigitValue(d[0]), d[1..], c);
    }
  }

  /** Reading digits from the first to the last gives their number. */
  lemma {:induction false} AppendedIsNumber(d: string)
    requires Digits(d)
    ensures Appended(0, d) == Number(d)
  {
    if d != [] {
      var n := |d| - 1;
      assert d == d[..n] + [d[n]] && IsDigit(d[n]);
      AppendedIsNumber(d[..n]);
      AppendedSnoc(0, d[..n], d[n]);
    }
  }

  lemma {:induction false} ScaledTen(scale: nat, k: nat)
    requires scale >= 1
    ensures Scaled(scale * 10, k) == Scaled(scale, k) * 10
    decreases k
  {
    if k > 0 { ScaledTen(scale * 10, k - 1); }
  }

  lemma {:induction false} ScaledIsPower(k: nat)
    ensures Scaled(1, k) == Pow10(k)
  {
    if k > 0 {
      ScaledIsPower(k - 1);
      ScaledTen(1, k - 1);
    }
  }

  lemma {:induction false} Pow10Monotone(a: nat, b: nat)
    requires a <= b
    ensures Pow10(a) <= Pow10(b)
  {
    if a < b { Pow10Monotone(a, b - 1); }
  }

  lemma Pow10Of17()
    ensures Pow10(17) == 100000000000000000
  {
    assert Pow10(5) == 100000;
    assert Pow10(10) == 10000000000 by { assert Pow10(7) == 10000000; }
    assert Pow10(14) == 100000000000000 by { assert Pow10(12) == 1000000000000; }
  }

  lemma FractionUnfold(d: string, x: nat, scale: nat)
    requires Digits(d) && d != [] && IsDigit(d[0]) && scale >= 1
    requires x <= (TWO_63 - 1) / 10 && x * 10 + DigitValue(d[0]) <= TWO_63
    ensures Digits(d[1..]) && Fraction(d, x, scale) == Fraction(d[1..], x * 10 + DigitValue(d[0]), scale * 10)
  {
  }

  /** Decimals within eighteen digits are all taken into account. */
  lemma {:induction false} FractionReads(d: string, x: nat, scale: nat)
    requires Digits(d) && |d| <= 18 && x < Pow10(18 - |d|) && scale >= 1
    ensures Fraction(d, x, scale) == (Appended(x, d), Scaled(scale, |d|))
    decreases |d|
  {
    if d != [] {
      assert IsDigit(d[0]);
      NextDigit(x, DigitValue(d[0]), 18 - |d|);
      FractionUnfold(d, x, scale);
      FractionReads(d[1..], x * 10 + DigitValue(d[0]), scale * 10);
    }
  }

  function DigitValue(c: char): (r: nat)
    requires IsDigit(c)
    ensures r <= 9
  {
    c as int - '0' as int
  }

  /** Another digit fits. */
  lemma NextDigit(x: nat, c: nat, k: nat)
    requires k <= 17 && x < Pow10(k) && c <= 9
    ensures x <= (TWO_63 - 1) / 10 && x * 10 + c < Pow10(k + 1) && x * 10 + c <= TWO_63
  {
    Pow10Monotone(k, 17);
    Pow10Of17();
  }

  // ---------- one term ----------

  lemma KnownUnit(u: string)
    requires UnitNanos(u).Some?
    ensures u != [] && forall i | 0 <= i < |u| :: InUnit(u[i])
  {
  }

  lemma {:induction false} UnitThen(u: string, rest: string)
    requires (forall i | 0 <= i < |u| :: InUnit(u[i])) && (rest == [] || !InUnit(rest[0]))
    ensures UnitLength(u + rest) == |u|
  {
    if u == [] {
      assert u + rest == rest;
    } else {
      assert (u + rest)[1..] == u[1..] + rest && (u + rest)[0] == u[0];
      UnitThen(u[1..], rest);
    }
  }

  /** The text after the number and the decimals: the unit and what follows it. */
  lemma UnitSplit(u: string, rest: string)
    requires u != [] && (forall i | 0 <= i < |u| :: InUnit(u[i])) && (rest == [] || !InUnit(rest[0]))
    ensures UnitLength(u + rest) == |u| && (u + rest)[..|u|] == u && (u + rest)[|u|..] == rest
    ensures (u + rest)[0] == u[0]
  {
    UnitThen(u, rest);
  }

  lemma ScanWhole(n: nat, u: string, rest: string)
    requires u != [] && (forall i | 0 <= i < |u| :: InUnit(u[i])) && (rest == [] || !InUnit(rest[0]))
    ensures ScanTerm(Decimal(n) + (u + rest)) == Term(n, "", u, rest)
  {
    var s, k := Decimal(n) + (u + rest), |Decimal(n)|;
    UnitSplit(u, rest);
    LeadingDigitsThen(Decimal(n), u + rest);
    NumberDecimal(n);
    assert s[..k] == Decimal(n) && s[k..] == u + rest && s[k] == u[0];
  }

  lemma ScanDecimals(n: nat, d: string, u: string, rest: string)
    requires Digits(d) && u != [] && (forall i | 0 <= i < |u| :: InUnit(u[i])) && (rest == [] || !InUnit(rest[0]))
    ensures ScanTerm(Decimal(n) + (['.'] + (d + (u + rest)))) == Term(n, d, u, rest)
  {
    var tail := d + (u + rest);
    var s, k := Decimal(n) + (['.'] + tail), |Decimal(n)|;
    UnitSplit(u, rest);
    assert (['.'] + tail)[0] == '.';
    LeadingDigitsThen(Decimal(n), ['.'] + tail);
    LeadingDigitsThen(d, u + rest);
    NumberDecimal(n);
    assert s[..k] == Decimal(n) && s[k] == '.' && s[k + 1..] == tail;
    assert tail[..|d|] == d && tail[|d|..] == u + rest;
  }

  lemma ScanPart(p: Part, rest: string)
    requires ValidPart(p) && (rest == [] || !InUnit(rest[0]))
    ensures PrintPart(p) + rest != [] && ScanTerm(PrintPart(p) + rest) == Term(p.whole, p.decimals, p.unit, rest)
  {
    UnitsKnown(p.unit);
    KnownUnit(p.unit);
    if p.decimals == [] {
      assert PrintPart(p) + rest == Decimal(p.whole) + (p.unit + rest);
      ScanWhole(p.whole, p.unit, rest);
    } else {
      assert PrintPart(p) + rest == Decimal(p.whole) + (['.'] + (p.decimals + (p.unit + rest)));
      ScanDecimals(p.whole, p.decimals, p.unit, rest);
    }
  }

  lemma DecimalsRead(d: string)
    requires Digits(d) && |d| <= 18
    ensures Fraction(d, 0, 1) == (Number(d), Pow10(|d|))
  {
    Pow10Monotone(0, 18 - |d|);
    FractionReads(d, 0, 1);
    AppendedIsNumber(d);
    ScaledIsPower(|d|);
  }

  lemma TermReads(p: Part, rest: string)
    requires ValidPart(p) && PartNanos(p) < TWO_63
    ensures TermNanos(Term(p.whole, p.decimals, p.unit, rest)) == Some(PartNanos(p))
  {
    UnitsKnown(p.unit);
    DecimalsRead(p.decimals);
    DivBound(p.whole, UNITS[p.unit]);
  }

  // ---------- several terms ----------

  lemma PartsStart(ps: seq<Part>)
    ensures PrintParts(ps) == [] || IsDigit(PrintParts(ps)[0])
  {
    if ps != [] { assert PrintPart(ps[0])[0] == Decimal(ps[0].whole)[0]; }
  }

  /** What a part is scanned as. */
  function TermOf(p: Part, rest: string): Term { Term(p.whole, p.decimals, p.unit, rest) }

  function TermsOf(ps: seq<Part>): seq<Term>
  {
    if ps == [] then [] else [TermOf(ps[0], PrintParts(ps[1..]))] + TermsOf(ps[1..])
  }

  lemma {:induction false} PartsScan(ps: seq<Part>)
    requires ValidParts(ps)
    ensures ScanAll(PrintParts(ps)) == Some(TermsOf(ps))
  {
    if ps != [] {
      PartsStart(ps[1..]);
      ScanPart(ps[0], PrintParts(ps[1..]));
      PartsScan(ps[1..]);
    }
  }

  lemma AddStep(t: Term, rest: seq<Term>, w: nat, d: nat)
    requires Scanned(t) && AllScanned(rest) && TermNanos(t) == Some(w) && d + w <= TWO_63
    ensures AllScanned([t] + rest) && AddTerms([t] + rest, d) == AddTerms(rest, d + w)
  {
    SmallSum(d, w);
    assert ([t] + rest)[1..] == rest;
  }

  /** Terms one after the other add up. */
  lemma {:induction false} TermsAddUp(ts: seq<Term>, values: seq<nat>, d: nat)
    requires AllScanned(ts) && |ts| == |values| && forall i | 0 <= i < |ts| :: TermNanos(ts[i]) == Some(values[i])
    requires d + Sum(values) < TWO_63
    ensures AddTerms(ts, d) == Some(d + Sum(values))
    decreases |ts|
  {
    if ts != [] {
      TermsAddUp(ts[1..], values[1..], d + values[0]);
      AddStep(ts[0], ts[1..], values[0], d);
      assert ts == [ts[0]] + ts[1..];
    }
  }

  lemma {:induction false} TermsOfMembers(ps: seq<Part>, i: nat)
    requires i < |ps|
    ensures |TermsOf(ps)| == |ps| && TermsOf(ps)[i] == TermOf(ps[i], PrintParts(ps[i + 1..]))
  {
    if i > 0 {
      TermsOfMembers(ps[1..], i - 1);
      assert ps[1..][i..] == ps[i + 1..];
    } else {
      TermsOfLength(ps);
    }
  }

  lemma {:induction false} TermsOfLength(ps: seq<Part>)
    ensures |TermsOf(ps)| == |ps|
  {
    if ps != [] { TermsOfLength(ps[1..]); }
  }

  lemma {:induction false} SumBounds(values: seq<nat>, i: nat)
    requires i < |values|
    ensures values[i] <= Sum(values)
  {
    if i > 0 { SumBounds(values[1..], i - 1); }
  }

  lemma PartsRead(ps: seq<Part>)
    requires ValidParts(ps) && Sum(PartsNanos(ps)) < TWO_63
    ensures |TermsOf(ps)| == |ps| && AllScanned(TermsOf(ps))
    ensures forall i | 0 <= i < |ps| :: TermNanos(TermsOf(ps)[i]) == Some(PartsNanos(ps)[i])
  {
    TermsOfLength(ps);
    forall i | 0 <= i < |ps| ensures Scanned(TermsOf(ps)[i]) && TermNanos(TermsOf(ps)[i]) == Some(PartsNanos(ps)[i]) {
      TermsOfMembers(ps, i);
      SumBounds(PartsNanos(ps), i);
      TermReads(ps[i], PrintParts(ps[i + 1..]));
    }
  }

  lemma ScannedTotal(s: string, ts: seq<Term>)
    requires ScanAll(s) == Some(ts)
    ensures AllScanned(ts) && StandardTerms(s) == AddTerms(ts, 0)
  {
  }

  lemma PartsAddUp(ps: seq<Part>)
    requires ValidParts(ps) && Sum(PartsNanos(ps)) < TWO_63
    ensures AllScanned(TermsOf(ps)) && AddTerms(TermsOf(ps), 0) == Some(Sum(PartsNanos(ps)))
  {
    PartsRead(ps);
    TermsAddUp(TermsOf(ps), PartsNanos(ps), 0);
  }

  lemma TermsTotal(ps: seq<Part>)
    requires ValidParts(ps) && Sum(PartsNanos(ps)) < TWO_63
    ensures StandardTerms(PrintParts(ps)) == Some(Sum(PartsNanos(ps)))
  {
    PartsScan(ps);
    ScannedTotal(PrintParts(ps), TermsOf(ps));
    PartsAddUp(ps);
  }

  /** The duration of a sum, with the sign in front of it. */
  function Signed(sign: string, sum: int): int
  {
    if sign == "-" then -sum else sum
  }

  lemma SignSplits(t: string, sign: string)
    requires t != [] && IsDigit(t[0]) && (sign == "" || sign == "+" || sign == "-")
    ensures SplitSign(sign + t) == (sign == "-", t)
  {
    if sign == "" {
      assert sign + t == t;
    } else {
      assert (sign + t)[1..] == t && (sign + t)[0] == sign[0];
    }
  }

  /** A duration of any number of terms, with an optional sign, is read as the sum of its terms. */
  lemma DurationOfTerms(ps: seq<Part>, sign: string)
    requires ps != [] && ValidParts(ps) && Sum(PartsNanos(ps)) < TWO_63 && (sign == "" || sign == "+" || sign == "-")
    ensures ParseDuration(sign + PrintParts(ps)) == Some(Signed(sign, Sum(PartsNanos(ps))))
  {
    TermsTotal(ps);
    PartsStart(ps);
    PartsLength(ps);
    TermsWithSign(PrintParts(ps), sign, Sum(PartsNanos(ps)));
  }

  lemma TermsWithSign(t: string, sign: string, sum: nat)
    requires |t| >= 2 && IsDigit(t[0]) && StandardTerms(t) == Some(sum) && sum < TWO_63
    requires sign == "" || sign == "+" || sign == "-"
    ensures ParseDuration(sign + t) == Some(Signed(sign, sum))
  {
    SignSplits(t, sign);
    assert WithSign(sign == "-", Some(sum)) == Some(Signed(sign, sum));
    assert StandardDuration(sign + t) == Some(Signed(sign, sum));
  }

  lemma PartsLength(ps: seq<Part>)
    requires ps != [] && ValidParts(ps)
    ensures |PrintParts(ps)| >= 2
  {
    UnitsKnown(ps[0].unit);
    KnownUnit(ps[0].unit);
  }
}
