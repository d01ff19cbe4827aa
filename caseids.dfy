/** The case-id test of usvisa.go:105-106: a text string is a case id when
    Go's `strconv.ParseInt(s, 10, 64)` accepts it and its value lies in
    [20000000000, 29000000000). */
module CaseIds {
  import opened ByteStrings

  const LowerBound: int := 20000000000
  const UpperBound: int := 29000000000

  const MinInt64: int := -0x8000_0000_0000_0000
  const MaxInt64: int := 0x7FFF_FFFF_FFFF_FFFF

  const Plus: byte := 0x2B
  const Minus: byte := 0x2D
  const Zero: byte := 0x30

  predicate IsDigit(b: byte) {
    0x30 <= b <= 0x39
  }

  predicate AllDigits(d: ByteString) {
    forall i | 0 <= i < |d| :: IsDigit(d[i])
  }

  /** The value of decimal digits, most significant first, without bound. */
  function DigitsValue(d: ByteString): nat
    requires AllDigits(d)
  {
    if d == [] then 0 else 10 * DigitsValue(d[..|d| - 1]) + (d[|d| - 1] - Zero) as int
  }

  /** What `ParseInt` reads as digits: the string without one leading sign. */
  function Magnitude(s: ByteString): ByteString {
    if |s| > 0 && (s[0] == Plus || s[0] == Minus) then s[1..] else s
  }

  /** `strconv.ParseInt(s, 10, 64)`: an optional sign, then one or more
      decimal digits, whose value must fit in an int64. `Some(v)` stands for a
      nil error; the two errors Go distinguishes (syntax, range) are `None`. */
  function ParseInt(s: ByteString): (r: Option<int>)
    ensures r.Some? ==> MinInt64 <= r.value <= MaxInt64
    ensures r.Some? ==> |Magnitude(s)| > 0 && AllDigits(Magnitude(s))
  {
    if s == [] then None
    else
      var digits := Magnitude(s);
      if digits == [] || !AllDigits(digits) then None
      else
        var v: int := if s[0] == Minus then -(DigitsValue(digits) as int) else DigitsValue(digits);
        if v < MinInt64 || MaxInt64 < v then None else Some(v)
  }

  /** The case-id heuristic that re-synchronises record assembly. */
  predicate IsCaseId(token: ByteString) {
    match ParseInt(token)
    case Some(v) => LowerBound <= v < UpperBound
    case None => false
  }

  /** `strconv.FormatInt(n, 10)` for n >= 0: the canonical spelling. */
  function Decimal(n: nat): (d: ByteString)
    ensures |d| > 0 && AllDigits(d)
    ensures DigitsValue(d) == n
    ensures n > 0 ==> d[0] != Zero
  {
    if n < 10 then [(Zero as int + n) as byte]
    else Decimal(n / 10) + [(Zero as int + n % 10) as byte]
  }

  /** A leading zero does not change the value of a digit string. */
  lemma {:induction false} LeadingZero(d: ByteString)
    requires AllDigits(d)
    ensures AllDigits([Zero] + d)
    ensures DigitsValue([Zero] + d) == DigitsValue(d)
  {
    if d != [] {
      assert ([Zero] + d)[..|d|] == [Zero] + d[..|d| - 1];
      LeadingZero(d[..|d| - 1]);
    }
  }

  /** `ParseInt` reads back every int64 value written by `Decimal`, with an
      optional sign or a leading zero. */
  lemma ParseDecimal(n: nat)
    requires n <= MaxInt64
    ensures ParseInt(Decimal(n)) == Some(n)
    ensures ParseInt([Plus] + Decimal(n)) == Some(n)
    ensures ParseInt([Minus] + Decimal(n)) == Some(-(n as int))
    ensures ParseInt([Zero] + Decimal(n)) == Some(n)
  {
    var d := Decimal(n);
    assert Magnitude([Plus] + d) == d;
    assert Magnitude([Minus] + d) == d;
    LeadingZero(d);
  }

  /** On canonical spellings the test is exactly the numeric range. */
  lemma CaseIdOfDecimal(n: nat)
    ensures IsCaseId(Decimal(n)) <==> LowerBound <= n < UpperBound
  {
    if n <= MaxInt64 {
      ParseDecimal(n);
    }
  }

  /** The bounds: the lower one is inclusive, the upper one exclusive. */
  lemma CaseIdBoundaries()
    ensures !IsCaseId(Decimal(19999999999))
    ensures IsCaseId(Decimal(20000000000))
    ensures IsCaseId(Decimal(28999999999))
    ensures !IsCaseId(Decimal(29000000000))
  {
    CaseIdOfDecimal(19999999999);
    CaseIdOfDecimal(20000000000);
    CaseIdOfDecimal(28999999999);
    CaseIdOfDecimal(29000000000);
  }

  /** Non-canonical spellings of an in-range value also qualify, and the
      table keeps them as they are spelled; a negative sign never qualifies. */
  lemma CaseIdSpellings(n: nat)
    requires LowerBound <= n < UpperBound
    ensures IsCaseId([Zero] + Decimal(n)) && [Zero] + Decimal(n) != Decimal(n)
    ensures IsCaseId([Plus] + Decimal(n)) && [Plus] + Decimal(n) != Decimal(n)
    ensures !IsCaseId([Minus] + Decimal(n))
  {
    ParseDecimal(n);
    assert |[Zero] + Decimal(n)| != |Decimal(n)|;
    assert |[Plus] + Decimal(n)| != |Decimal(n)|;
  }

  /** The int64 range check of `ParseInt` never decides the outcome: a token
      is a case id exactly when it is an optional '+' and decimal digits whose
      unbounded value lies in the range. */
  lemma CaseIdSyntax(t: ByteString)
    ensures IsCaseId(t) <==>
      && |t| > 0 && t[0] != Minus
      && |Magnitude(t)| > 0 && AllDigits(Magnitude(t))
      && LowerBound <= DigitsValue(Magnitude(t)) < UpperBound
  {
  }
}
