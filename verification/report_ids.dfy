/** Report identifiers: `String.format("%s%03d", codePrefix, n)` as used by
    `DisasterManager.createId`, and the parse that recovers `n` from one. */
module ReportIds {
  import opened Results
  import opened Text

  predicate IsDigit(c: char) {
    '0' <= c <= '9'
  }

  predicate AllDigits(s: string) {
    forall i :: 0 <= i < |s| ==> IsDigit(s[i])
  }

  function DigitChar(d: nat): char
    requires d < 10
  {
    ('0' as int + d) as char
  }

  /** The decimal numeral of `n`, without leading zeros. */
  function Decimal(n: nat): (r: string)
    ensures |r| >= 1 && AllDigits(r)
    ensures n < 10 <==> |r| == 1
    decreases n
  {
    if n < 10 then [DigitChar(n)] else Decimal(n / 10) + [DigitChar(n % 10)]
  }

  /** The number a string of decimal digits denotes. */
  function ValueOf(s: string): nat
    requires AllDigits(s)
  {
    if |s| == 0 then 0 else ValueOf(s[..|s| - 1]) * 10 + (s[|s| - 1] as int - '0' as int)
  }

  /** Reading back a numeral gives the number it was written from. */
  lemma {:induction false} ValueOfDecimal(n: nat)
    ensures ValueOf(Decimal(n)) == n
    decreases n
  {
    if n >= 10 {
      var d := Decimal(n);
      assert d[..|d| - 1] == Decimal(n / 10);
      ValueOfDecimal(n / 10);
    }
  }

  function Zeros(k: nat): (r: string)
    ensures |r| == k && forall i :: 0 <= i < k ==> r[i] == '0'
  {
    if k == 0 then [] else Zeros(k - 1) + ['0']
  }

  /** Leading zeros do not change the value of a numeral. */
  lemma {:induction false} ValueOfLeadingZeros(k: nat, s: string)
    requires AllDigits(s)
    ensures AllDigits(Zeros(k) + s)
    ensures ValueOf(Zeros(k) + s) == ValueOf(s)
    decreases |s|, k
  {
    var z := Zeros(k) + s;
    if |s| == 0 {
      assert z == Zeros(k);
      if k > 0 {
        assert z[..|z| - 1] == Zeros(k - 1);
        ValueOfLeadingZeros(k - 1, s);
        assert Zeros(k - 1) + s == Zeros(k - 1);
      }
    } else {
      assert z[..|z| - 1] == Zeros(k) + s[..|s| - 1];
      ValueOfLeadingZeros(k, s[..|s| - 1]);
    }
  }

  /** Numbers below 100 have at most two digits, the others at least three. */
  lemma DecimalShortIffBelow100(n: nat)
    ensures |Decimal(n)| < 3 <==> n < 100
  {
    if n >= 10 {
      assert |Decimal(n)| == |Decimal(n / 10)| + 1;
      if n >= 100 {
        assert |Decimal(n / 10)| >= 2;
      }
    }
  }

  /** `%03d` for a non-negative number: the numeral left-padded with zeros to
      at least three digits. */
  function Pad3(n: nat): (r: string)
    ensures AllDigits(r)
    ensures |r| == if n < 100 then 3 else |Decimal(n)|
    ensures ValueOf(r) == n
  {
    var d := Decimal(n);
    ValueOfDecimal(n);
    DecimalShortIffBelow100(n);
    if |d| < 3 then
      ValueOfLeadingZeros(3 - |d|, d);
      Zeros(3 - |d|) + d
    else
      d
  }

  /** `String.format("%s%03d", prefix, n)`: the prefix followed by the padded
      sequence number. */
  function FormatId(prefix: string, n: nat): (id: string)
    ensures prefix <= id && |id| == |prefix| + (if n < 100 then 3 else |Decimal(n)|)
    ensures AllDigits(id[|prefix|..]) && ValueOf(id[|prefix|..]) == n
  {
    var r := prefix + Pad3(n);
    assert r[|prefix|..] == Pad3(n);
    r
  }

  /** The sequence number an identifier carries under `prefix`, read ignoring
      case (as every identifier comparison of the report store is), or `None`
      when `id` is not the prefix followed by at least one digit. */
  function ParseId(prefix: string, id: string): (r: Option<nat>)
    ensures r.Some? ==> |id| > |prefix| && EqualsIgnoreCase(id[..|prefix|], prefix)
  {
    var low := Lower(id);
    if |low| > |prefix| && low[..|prefix|] == Lower(prefix) && AllDigits(low[|prefix|..]) then
      assert Lower(id[..|prefix|]) == low[..|prefix|];
      Some(ValueOf(low[|prefix|..]))
    else
      None
  }

  /** Digits are unchanged by case mapping. */
  lemma LowerOfDigits(s: string)
    requires AllDigits(s)
    ensures Lower(s) == s
  {
  }

  /** Parsing a formatted identifier gives back its sequence number: formatting
      loses nothing. */
  lemma FormatIdRoundTrip(prefix: string, n: nat)
    ensures ParseId(prefix, FormatId(prefix, n)) == Some(n)
  {
    var id := FormatId(prefix, n);
    var digits := id[|prefix|..];
    assert id == prefix + digits;
    LowerAppend(prefix, digits);
    LowerOfDigits(digits);
    var low := Lower(prefix) + digits;
    assert low[..|prefix|] == Lower(prefix);
    assert low[|prefix|..] == digits;
  }

  /** Identifiers equal ignoring case carry the same sequence number. */
  lemma ParseIdIgnoresCase(prefix: string, a: string, b: string)
    requires EqualsIgnoreCase(a, b)
    ensures ParseId(prefix, a) == ParseId(prefix, b)
  {
  }

  /** Different sequence numbers give identifiers that differ even ignoring case. */
  lemma FormatIdInjective(prefix: string, n: nat, m: nat)
    requires n != m
    ensures !EqualsIgnoreCase(FormatId(prefix, n), FormatId(prefix, m))
  {
    FormatIdRoundTrip(prefix, n);
    FormatIdRoundTrip(prefix, m);
    if EqualsIgnoreCase(FormatId(prefix, n), FormatId(prefix, m)) {
      ParseIdIgnoresCase(prefix, FormatId(prefix, n), FormatId(prefix, m));
    }
  }

  /** A one-digit number is padded with two zeros. */
  lemma Pad3OneDigit(n: nat)
    requires n < 10
    ensures Pad3(n) == ['0', '0', DigitChar(n)]
  {
    assert Decimal(n) == [DigitChar(n)];
    assert Zeros(2) == "00";
  }

  /** The first and second identifiers of the Flood store. */
  lemma FloodIdExamples()
    ensures FormatId("FLD", 1) == "FLD001"
    ensures FormatId("FLD", 2) == "FLD002"
  {
    Pad3OneDigit(1);
    Pad3OneDigit(2);
  }

  /** A four-digit sequence number is written in full, not cut to three digits. */
  lemma FourDigitIdExample()
    ensures FormatId("EQ", 1000) == "EQ1000"
  {
    assert Decimal(1) == "1";
    assert Decimal(10) == "10";
    assert Decimal(100) == "100";
    assert Decimal(1000) == "1000";
  }

  /** Identifiers whose prefixes of capital letters differ in one of their
      first two letters differ even ignoring case. */
  lemma DifferentPrefixesDiffer(p: string, q: string, n: nat, k: nat)
    requires |p| >= 2 && |q| >= 2
    requires 'A' <= p[0] <= 'Z' && 'A' <= p[1] <= 'Z' && 'A' <= q[0] <= 'Z' && 'A' <= q[1] <= 'Z'
    requires p[0] != q[0] || p[1] != q[1]
    ensures !EqualsIgnoreCase(FormatId(p, n), FormatId(q, k))
  {
    var a := FormatId(p, n);
    var b := FormatId(q, k);
    assert a[0] == p[0] && a[1] == p[1];
    assert b[0] == q[0] && b[1] == q[1];
    assert Lower(a)[0] != Lower(b)[0] || Lower(a)[1] != Lower(b)[1];
  }
}
