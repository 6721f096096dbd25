/** Decimal text as the standard library prints and parses it: printing is
    canonical, parsing also takes a sign and leading zeros. */
module Decimal {
  import opened Bytes

  const ZERO: Byte := 48
  const NINE: Byte := 57
  const PLUS: Byte := 43
  const MINUS: Byte := 45
  const INT64_MAX: int := 0x7FFF_FFFF_FFFF_FFFF
  const INT64_MIN: int := -0x8000_0000_0000_0000

  predicate IsDigit(b: Byte) {
    ZERO <= b <= NINE
  }

  predicate AllDigits(s: ByteString) {
    forall i :: 0 <= i < |s| ==> IsDigit(s[i])
  }

  predicate IsInt64(n: int) {
    INT64_MIN <= n <= INT64_MAX
  }

  function Digits(n: nat): (s: ByteString)
    ensures s != [] && AllDigits(s)
  {
    if n < 10 then [ZERO + n] else Digits(n / 10) + [ZERO + n % 10]
  }

  function FromDigits(s: ByteString): nat
    requires AllDigits(s)
  {
    if s == [] then 0 else FromDigits(s[..|s| - 1]) * 10 + (s[|s| - 1] - ZERO)
  }

  /** `strconv.AppendInt` and `strconv.Itoa`. */
  function FormatInt(n: int): (s: ByteString)
    ensures s != []
  {
    if n < 0 then [MINUS] + Digits(-n) else Digits(n)
  }

  /** `strconv.ParseInt(s, 10, 64)` and `strconv.Atoi`. */
  function ParseInt(s: ByteString): (r: Option<int>)
    ensures r.Some? ==> IsInt64(r.value) && s != []
  {
    if s == [] then None
    else
      var signed := s[0] == PLUS || s[0] == MINUS;
      var digits := if signed then s[1..] else s;
      if digits == [] || !AllDigits(digits) then None
      else
        var m: int := FromDigits(digits);
        var n := if s[0] == MINUS then -m else m;
        if IsInt64(n) then Some(n) else None
  }

  lemma {:induction false} DigitsParse(n: nat)
    ensures FromDigits(Digits(n)) == n
  {
    if n >= 10 {
      DigitsParse(n / 10);
      assert Digits(n)[..|Digits(n)| - 1] == Digits(n / 10);
    }
  }

  lemma {:induction false} NoLeadingZero(n: nat)
    ensures n > 0 ==> Digits(n)[0] != ZERO
    ensures n == 0 ==> Digits(n) == [ZERO]
  {
    if n >= 10 {
      NoLeadingZero(n / 10);
    }
  }

  /** Printing then parsing gives the number back. */
  lemma FormatParses(n: int)
    requires IsInt64(n)
    ensures ParseInt(FormatInt(n)) == Some(n)
  {
    if n < 0 {
      DigitsParse(-n);
      assert FormatInt(n)[1..] == Digits(-n);
    } else {
      DigitsParse(n);
      assert IsDigit(Digits(n)[0]);
    }
  }

  /** The printed form of a number is its only shortest digit string. */
  lemma {:induction false} DigitsShortest(s: ByteString)
    requires s != [] && AllDigits(s)
    ensures |Digits(FromDigits(s))| <= |s|
    ensures |Digits(FromDigits(s))| == |s| ==> Digits(FromDigits(s)) == s
  {
    var n := |s| - 1;
    var init := s[..n];
    assert s == init + [s[n]];
    if init == [] {
      assert FromDigits(s) == s[0] - ZERO;
    } else {
      DigitsShortest(init);
      var q := FromDigits(init);
      assert FromDigits(s) == q * 10 + (s[n] - ZERO);
      assert (q * 10 + (s[n] - ZERO)) / 10 == q && (q * 10 + (s[n] - ZERO)) % 10 == s[n] - ZERO;
    }
  }

  /** Re-printing a parsed number never lengthens it, and keeps the length only
      when the text was already canonical. */
  lemma FormatShortest(s: ByteString)
    requires ParseInt(s).Some?
    ensures |FormatInt(ParseInt(s).value)| <= |s|
    ensures |FormatInt(ParseInt(s).value)| == |s| ==> FormatInt(ParseInt(s).value) == s
  {
    var signed := s[0] == PLUS || s[0] == MINUS;
    var digits := if signed then s[1..] else s;
    DigitsShortest(digits);
    if signed {
      assert s == [s[0]] + digits;
    }
  }

  /** Index of the first byte at or after `i` that is not a digit. */
  function DigitRun(s: ByteString, i: nat): (r: nat)
    requires i <= |s|
    ensures i <= r <= |s|
    ensures AllDigits(s[i..r])
    ensures r < |s| ==> !IsDigit(s[r])
    decreases |s| - i
  {
    if i < |s| && IsDigit(s[i]) then
      var r := DigitRun(s, i + 1);
      assert s[i..r] == [s[i]] + s[i + 1..r];
      r
    else i
  }

  lemma DigitRunIs(s: ByteString, r: nat)
    requires r < |s| && AllDigits(s[..r]) && !IsDigit(s[r])
    ensures DigitRun(s, 0) == r
  {
  }

  // ---- Numbers as texts, without the parser ----

  ghost predicate Numeral(s: ByteString) {
    s != [] && forall i :: 0 <= i < |s| ==> 48 <= s[i] <= 57
  }

  function Power10(k: nat): nat {
    if k == 0 then 1 else 10 * Power10(k - 1)
  }

  /** The number a numeral stands for, most significant digit first. */
  ghost function Worth(s: ByteString): int {
    if s == [] then 0 else (s[0] - 48) * Power10(|s| - 1) + Worth(s[1..])
  }

  lemma {:induction false} WorthSnoc(s: ByteString, d: Byte)
    ensures Worth(s + [d]) == Worth(s) * 10 + (d - 48)
  {
    if s == [] {
      assert s + [d] == [d] && [d][1..] == [];
    } else {
      assert (s + [d])[1..] == s[1..] + [d];
      WorthSnoc(s[1..], d);
      assert (s[0] - 48) * Power10(|s|) == (s[0] - 48) * Power10(|s| - 1) * 10;
    }
  }

  lemma {:induction false} WorthIsParsed(s: ByteString)
    requires AllDigits(s)
    ensures Worth(s) == FromDigits(s)
  {
    if s != [] {
      var n := |s| - 1;
      assert s == s[..n] + [s[n]];
      WorthIsParsed(s[..n]);
      WorthSnoc(s[..n], s[n]);
    }
  }

  /** The texts of a 64-bit number: digits, with an optional sign. */
  ghost predicate SpellsNumber(s: ByteString, n: int) {
    && -0x8000_0000_0000_0000 <= n <= 0x7FFF_FFFF_FFFF_FFFF
    && ( || (Numeral(s) && n == Worth(s))
         || (s != [] && s[0] == 43 && Numeral(s[1..]) && n == Worth(s[1..]))
         || (s != [] && s[0] == 45 && Numeral(s[1..]) && n == -Worth(s[1..])))
  }

  lemma NumeralIsDigits(s: ByteString)
    ensures Numeral(s) <==> s != [] && AllDigits(s)
  {
  }

  /** The parser accepts exactly those texts. */
  lemma ParsedIffSpelled(s: ByteString, n: int)
    ensures ParseInt(s) == Some(n) <==> SpellsNumber(s, n)
  {
    NumeralIsDigits(s);
    if AllDigits(s) {
      WorthIsParsed(s);
    }
    if s != [] {
      NumeralIsDigits(s[1..]);
      if AllDigits(s[1..]) {
        WorthIsParsed(s[1..]);
      }
    }
  }
}
