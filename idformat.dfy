/**
 * The text of a new identity number: a three-letter prefix for the identity
 * type, the current year in decimal, and the per-type sequence number (the
 * count of existing identities of that type plus one) zero-padded to at
 * least five digits. The clock and the count come in as parameters.
 */
module IdFormat {
  import opened Wrappers
  import Text

  /** The type prefix; an unknown or missing type is temporary. */
  function Prefix(userType: Option<string>): (p: string)
    ensures |p| == 3
    ensures p == "TMP" <==> userType !in KnownTypes
  {
    if userType == Some("Student") then "STU"
    else if userType == Some("PhD") then "PHD"
    else if userType == Some("Faculty") then "FAC"
    else if userType == Some("Staff") then "STF"
    else "TMP"
  }

  function DigitChar(d: nat): char
    requires d < 10
  {
    ('0' as int + d) as char
  }

  function DigitValue(c: char): nat
    requires Text.IsAsciiDigit(c)
  {
    c as int - '0' as int
  }

  /** Every character of `s` is an ASCII digit (the empty string included). */
  predicate Decimal(s: string) {
    forall i | 0 <= i < |s| :: Text.IsAsciiDigit(s[i])
  }

  /** The number a string of decimal digits denotes, most significant digit first. */
  function Value(s: string): nat
    requires Decimal(s)
  {
    if s == [] then 0 else Value(s[..|s| - 1]) * 10 + DigitValue(s[|s| - 1])
  }

  /** `str(n)`: the decimal digits of `n`, with no leading zero. */
  function Digits(n: nat): (s: string)
    ensures |s| >= 1 && Decimal(s)
    ensures s[0] == '0' ==> n == 0
  {
    if n < 10 then [DigitChar(n)] else Digits(n / 10) + [DigitChar(n % 10)]
  }

  function Zeros(k: nat): (z: string)
    ensures |z| == k && Decimal(z)
    ensures forall i | 0 <= i < k :: z[i] == '0'
  {
    seq(k, _ => '0')
  }

  /** `f"{n:05d}"`: the digits of `n` with zeros in front up to five characters. */
  function ZeroPad5(n: nat): (s: string)
    ensures |s| == if |Digits(n)| < 5 then 5 else |Digits(n)|
    ensures Decimal(s)
  {
    var d := Digits(n);
    Zeros(if |d| < 5 then 5 - |d| else 0) + d
  }

  /** The identity number for the `count + 1`-th identity of a type, issued in `year`. */
  function GenerateId(userType: Option<string>, year: nat, count: nat): (id: string)
    ensures |id| >= 3 + 1 + 5 && id[..3] == Prefix(userType)
    ensures Decimal(id[3..])
  {
    var id := Prefix(userType) + Digits(year) + ZeroPad5(count + 1);
    assert id[3..] == Digits(year) + ZeroPad5(count + 1);
    id
  }

  /** Reads an identity number back, for a four-digit year. */
  function ParseId(id: string): Option<(string, nat, nat)> {
    if |id| < 3 + 4 + 5 || !Decimal(id[3..]) then None
    else
      assert Decimal(id[3..7]) by { assert forall i | 0 <= i < 4 :: id[3..7][i] == id[3..][i]; }
      assert Decimal(id[7..]) by { assert forall i | 0 <= i < |id| - 7 :: id[7..][i] == id[3..][i + 4]; }
      Some((id[..3], Value(id[3..7]), Value(id[7..])))
  }

  // ---------------------------------------------------------------------
  // Decimal digits read back.

  lemma {:induction false} ValueOfDigits(n: nat)
    ensures Value(Digits(n)) == n
  {
    if n >= 10 {
      ValueOfDigits(n / 10);
      var s := Digits(n);
      assert s[..|s| - 1] == Digits(n / 10);
    }
  }

  lemma {:induction false} ValueWithLeadingZeros(k: nat, s: string)
    requires Decimal(s)
    ensures Value(Zeros(k) + s) == Value(s)
  {
    if s == [] {
      assert Zeros(k) + s == Zeros(k);
      ZerosValue(k);
    } else {
      var init := s[..|s| - 1];
      ValueWithLeadingZeros(k, init);
      assert (Zeros(k) + s)[..|Zeros(k) + s| - 1] == Zeros(k) + init;
    }
  }

  lemma {:induction false} ZerosValue(k: nat)
    ensures Value(Zeros(k)) == 0
  {
    if k > 0 {
      assert Zeros(k)[..k - 1] == Zeros(k - 1);
      ZerosValue(k - 1);
    }
  }

  /** The padded number reads back as the number. */
  lemma ZeroPad5Value(n: nat)
    ensures Value(ZeroPad5(n)) == n
  {
    var d := Digits(n);
    ValueWithLeadingZeros(if |d| < 5 then 5 - |d| else 0, d);
    ValueOfDigits(n);
  }

  /** A year from 1000 to 9999 has four digits. */
  lemma FourDigitYear(year: nat)
    requires 1000 <= year <= 9999
    ensures |Digits(year)| == 4
  {
    assert |Digits(year / 1000)| == 1;
    assert |Digits(year / 100)| == 2;
    assert |Digits(year / 10)| == 3;
  }

  /**
   * For a four-digit year the identity number determines its prefix, its
   * year and its sequence number `count + 1`.
   */
  lemma ParseGenerateId(userType: Option<string>, year: nat, count: nat)
    requires 1000 <= year <= 9999
    ensures ParseId(GenerateId(userType, year, count)) == Some((Prefix(userType), year, count + 1))
  {
    var id := GenerateId(userType, year, count);
    FourDigitYear(year);
    assert id[3..7] == Digits(year);
    assert id[7..] == ZeroPad5(count + 1);
    ValueOfDigits(year);
    ZeroPad5Value(count + 1);
  }

  /** Within one type and one four-digit year, distinct counts give distinct identity numbers. */
  lemma GenerateIdInjective(userType: Option<string>, year: nat, count1: nat, count2: nat)
    requires 1000 <= year <= 9999
    ensures GenerateId(userType, year, count1) == GenerateId(userType, year, count2) ==> count1 == count2
  {
    ParseGenerateId(userType, year, count1);
    ParseGenerateId(userType, year, count2);
  }

  /** The identity types that have a prefix of their own. */
  const KnownTypes: set<Option<string>> := {Some("Student"), Some("PhD"), Some("Faculty"), Some("Staff")}

  /** Identity numbers of different known types never coincide, whatever the years and counts. */
  lemma PrefixSeparatesTypes(t1: Option<string>, t2: Option<string>, y1: nat, y2: nat, c1: nat, c2: nat)
    requires t1 in KnownTypes && t2 in KnownTypes && t1 != t2
    ensures GenerateId(t1, y1, c1) != GenerateId(t2, y2, c2)
  {
    assert Prefix(t1) != Prefix(t2);
  }
}
