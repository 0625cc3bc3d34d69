/**
 The comparison do_updatedb makes between an expiry date and the clock, both strings, and the
 order of the dates they stand for.
 */
module Expiry {
  import opened CStrings

  predicate IsDigit(c: char) {
    '0' <= c <= '9'
  }

  predicate AllDigits(s: string) {
    forall i | 0 <= i < |s| :: IsDigit(s[i])
  }

  /** UTCTime as section 4.1.2.5.1 of RFC 5280 requires it: YYMMDDHHMMSSZ. */
  predicate IsUtcTime(s: string) {
    |s| == 13 && AllDigits(s[..12]) && s[12] == 'Z'
  }

  /** GeneralizedTime as section 4.1.2.5.2 of RFC 5280 requires it: YYYYMMDDHHMMSSZ, from 2050 to 9999. */
  predicate IsGeneralTime(s: string) {
    && |s| == 15 && AllDigits(s[..14]) && s[14] == 'Z'
    && (s[0] > '2' || (s[0] == '2' && (s[1] > '0' || s[2] >= '5')))
  }

  /** Section 4.1.2.5 of RFC 5280: UTCTime through 2049, GeneralizedTime from 2050. */
  predicate IsRfcTime(s: string) {
    IsUtcTime(s) || IsGeneralTime(s)
  }

  // ----- Dates -----

  function Digit(c: char): (d: nat)
    requires IsDigit(c)
    ensures d <= 9
  {
    c as int - '0' as int
  }

  function Pow10(n: nat): (p: nat)
    ensures p > 0
  {
    if n == 0 then 1 else 10 * Pow10(n - 1)
  }

  function Number(s: string): nat
    requires AllDigits(s)
  {
    if s == "" then 0 else Digit(s[0]) * Pow10(|s| - 1) + Number(s[1..])
  }

  /** The date as YYYYMMDDHHMMSS; a two-digit year of 50 or more belongs to the last century. */
  function FullDate(s: string): (d: string)
    requires IsRfcTime(s)
    ensures |d| == 14 && AllDigits(d)
  {
    if |s| == 15 then s[..14] else (if s[0] >= '5' then "19" else "20") + s[..12]
  }

  predicate NotAfter(a: string, b: string)
    requires IsRfcTime(a) && IsRfcTime(b)
  {
    Number(FullDate(a)) <= Number(FullDate(b))
  }

  // ----- The code -----

  /** strncmp(s, "49", 2) <= 0 */
  predicate Y2k(s: string) {
    Compare(if |s| < 2 then s else s[..2], "49") <= 0
  }

  predicate MarkedExpired(expiry: string, now: string) {
    if Y2k(expiry) == Y2k(now) then Compare(expiry, now) <= 0 else !Y2k(expiry)
  }

  // ----- Comparing strings compares numbers -----

  lemma {:induction false} NumberBound(s: string)
    requires AllDigits(s)
    ensures Number(s) < Pow10(|s|)
  {
    if s != "" {
      NumberBound(s[1..]);
      Times(Digit(s[0]), 9, Pow10(|s| - 1));
    }
  }

  lemma {:induction false} Times(a: nat, b: nat, p: nat)
    requires a <= b
    ensures a * p <= b * p
    ensures a < b ==> a * p + p <= b * p
    decreases b
  {
    if a < b {
      Times(a, b - 1, p);
      assert b * p == (b - 1) * p + p;
    }
  }

  /** Equally long digits decide as numbers; what follows them decides when they are equal. */
  lemma {:induction false} CompareHeads(a: string, b: string, x: string, y: string)
    requires |a| == |b| && AllDigits(a) && AllDigits(b)
    ensures Compare(a + x, b + y) <= 0 <==>
            Number(a) < Number(b) || (Number(a) == Number(b) && Compare(x, y) <= 0)
  {
    if a == "" {
      assert a + x == x && b + y == y;
    } else {
      assert (a + x)[1..] == a[1..] + x && (b + y)[1..] == b[1..] + y;
      var p := Pow10(|a| - 1);
      NumberBound(a[1..]);
      NumberBound(b[1..]);
      if a[0] < b[0] {
        Times(Digit(a[0]), Digit(b[0]), p);
      } else if b[0] < a[0] {
        Times(Digit(b[0]), Digit(a[0]), p);
      } else {
        CompareHeads(a[1..], b[1..], x, y);
      }
    }
  }

  lemma CompareNumbers(a: string, b: string, end: string)
    requires |a| == |b| && AllDigits(a) && AllDigits(b)
    ensures Compare(a + end, b + end) <= 0 <==> Number(a) <= Number(b)
  {
    CompareHeads(a, b, end, end);
    CompareZero(end, end);
  }

  lemma {:induction false} CompareBehind(front: string, a: string, b: string)
    ensures Compare(front + a, front + b) == Compare(a, b)
  {
    if front == "" {
      assert front + a == a && front + b == b;
    } else {
      assert (front + a)[1..] == front[1..] + a && (front + b)[1..] == front[1..] + b;
      CompareBehind(front[1..], a, b);
    }
  }

  /** On dates, Number orders as the strings do. */
  lemma DatesCompare(a: string, b: string)
    requires IsRfcTime(a) && IsRfcTime(b)
    ensures NotAfter(a, b) <==> Compare(FullDate(a), FullDate(b)) <= 0
  {
    var x, y := FullDate(a), FullDate(b);
    assert x + "" == x && y + "" == y;
    CompareNumbers(x, y, "");
  }

  /** strcmp decided by the first two characters. */
  lemma CompareTwo(s: string, t: string)
    requires |s| >= 2 && |t| >= 2
    ensures s[0] < t[0] || (s[0] == t[0] && s[1] < t[1]) ==> Compare(s, t) == -1
    ensures s[0] > t[0] || (s[0] == t[0] && s[1] > t[1]) ==> Compare(s, t) == 1
    ensures s[0] == t[0] && s[1] == t[1] ==> Compare(s, t) == Compare(s[2..], t[2..])
  {
    assert s[1..][0] == s[1] && t[1..][0] == t[1];
    assert s[1..][1..] == s[2..] && t[1..][1..] == t[2..];
  }

  lemma UtcDigits(s: string)
    requires IsUtcTime(s)
    ensures IsDigit(s[0]) && IsDigit(s[1]) && IsDigit(s[2])
  {
    assert forall i | 0 <= i < 12 :: s[..12][i] == s[i];
  }

  lemma TwoDigitYear(s: string)
    requires |s| >= 2 && IsDigit(s[0]) && IsDigit(s[1])
    ensures Y2k(s) <==> s[0] <= '4'
  {
    CompareTwo(s[..2], "49");
    assert s[..2][2..] == "" && "49"[2..] == "";
  }

  /** A two-digit year with the pivot at 49 orders the dates of section 4.1.2.5.1 of RFC 5280. */
  lemma UtcTimesAreCompared(expiry: string, now: string)
    requires IsUtcTime(expiry) && IsUtcTime(now)
    ensures MarkedExpired(expiry, now) <==> NotAfter(expiry, now)
  {
    UtcDigits(expiry);
    UtcDigits(now);
    TwoDigitYear(expiry);
    TwoDigitYear(now);
    DatesCompare(expiry, now);
    var x, y := expiry[..12], now[..12];
    if Y2k(expiry) == Y2k(now) {
      var century := if Y2k(now) then "20" else "19";
      assert IsDigit(x[0]) && IsDigit(y[0]);
      assert FullDate(expiry) == century + x && FullDate(now) == century + y;
      CompareBehind(century, x, y);
      assert expiry == x + "Z" && now == y + "Z";
      assert x + "" == x && y + "" == y;
      CompareNumbers(x, y, "Z");
      CompareNumbers(x, y, "");
    } else {
      assert IsDigit(x[0]) && IsDigit(y[0]);
      Compare19And20(x, y);
      Compare19And20(y, x);
    }
  }

  lemma Compare19And20(x: string, y: string)
    ensures Compare("19" + x, "20" + y) == -1 && Compare("20" + x, "19" + y) == 1
  {
    assert ("19" + x)[0] == '1' && ("20" + y)[0] == '2';
    assert ("20" + x)[0] == '2' && ("19" + y)[0] == '1';
  }

  // ----- Both forms of section 4.1.2.5 of RFC 5280, on either side -----

  lemma RfcDigits(s: string)
    requires IsRfcTime(s)
    ensures forall i | 0 <= i < 12 :: IsDigit(s[i])
    ensures |s| == 15 ==> IsDigit(s[12]) && IsDigit(s[13])
    ensures AllDigits(s[..12])
  {
    var digits := s[..|s| - 1];
    assert AllDigits(digits);
    assert forall i | 0 <= i < |digits| :: digits[i] == s[i];
  }

  /**
   The digits of a are not after those of b, as far as both have them; b's next digit counts as
   after a's Z, and a's next digit as before b's.
   */
  predicate DigitsNotAfter(a: string, b: string)
    requires IsRfcTime(a) && IsRfcTime(b)
  {
    if |a| == |b| then Number(a[..|a| - 1]) <= Number(b[..|b| - 1])
    else
      assert AllDigits(a[..12]) by { RfcDigits(a); }
      assert AllDigits(b[..12]) by { RfcDigits(b); }
      if |a| > |b| then Number(a[..12]) <= Number(b[..12])
      else Number(a[..12]) < Number(b[..12])
  }

  lemma DigitsAreCompared(a: string, b: string)
    requires IsRfcTime(a) && IsRfcTime(b)
    ensures Compare(a, b) <= 0 <==> DigitsNotAfter(a, b)
  {
    if |a| == |b| {
      var x, y := a[..|a| - 1], b[..|b| - 1];
      assert a == x + "Z" && b == y + "Z";
      CompareNumbers(x, y, "Z");
    } else {
      RfcDigits(a);
      RfcDigits(b);
      assert a == a[..12] + a[12..] && b == b[..12] + b[12..];
      CompareHeads(a[..12], b[..12], a[12..], b[12..]);
      assert a[12..][0] == a[12] && b[12..][0] == b[12];
    }
  }

  /** What the marking looks at: whether the first digit is a 5 or more, and then the digits. */
  predicate LooksExpired(expiry: string, now: string)
    requires IsRfcTime(expiry) && IsRfcTime(now)
  {
    || (expiry[0] >= '5' && now[0] <= '4')
    || ((expiry[0] >= '5') == (now[0] >= '5') && DigitsNotAfter(expiry, now))
  }

  lemma MarkedExactlyWhen(expiry: string, now: string)
    requires IsRfcTime(expiry) && IsRfcTime(now)
    ensures MarkedExpired(expiry, now) <==> LooksExpired(expiry, now)
  {
    RfcDigits(expiry);
    RfcDigits(now);
    TwoDigitYear(expiry);
    TwoDigitYear(now);
    DigitsAreCompared(expiry, now);
  }

  /** Every GeneralizedTime is after every UTCTime. */
  lemma FormsAreOrdered(general: string, utc: string)
    requires IsGeneralTime(general) && IsUtcTime(utc)
    ensures !NotAfter(general, utc) && NotAfter(utc, general)
  {
    DatesCompare(general, utc);
    DatesCompare(utc, general);
    UtcDigits(utc);
    RfcDigits(general);
    var late, full := FullDate(general), FullDate(utc);
    CompareTwo(late, full);
    CompareTwo(full, late);
    CompareTwo(late[2..], full[2..]);
    CompareTwo(full[2..], late[2..]);
    assert late[2] == general[2] && full[2] == utc[0];
  }

  /**
   For any two dates of section 4.1.2.5 of RFC 5280, the row is marked as it should be exactly when:
   both are UTCTimes; or the expiry date alone is a GeneralizedTime and does not look expired; or the
   clock alone is one and the expiry date looks expired; or both are and agree on the first digit.
   */
  lemma MarkedCorrectlyExactlyWhen(expiry: string, now: string)
    requires IsRfcTime(expiry) && IsRfcTime(now)
    ensures (MarkedExpired(expiry, now) <==> NotAfter(expiry, now)) <==>
            if |now| == 13 then |expiry| == 13 || !LooksExpired(expiry, now)
            else if |expiry| == 13 then LooksExpired(expiry, now)
            else (expiry[0] >= '5') == (now[0] >= '5')
  {
    MarkedExactlyWhen(expiry, now);
    if |now| == 13 && |expiry| == 13 {
      UtcTimesAreCompared(expiry, now);
    } else if |now| == 13 {
      FormsAreOrdered(expiry, now);
    } else if |expiry| == 13 {
      FormsAreOrdered(now, expiry);
    } else if (expiry[0] >= '5') != (now[0] >= '5') {
      RfcDigits(expiry);
      RfcDigits(now);
      DatesCompare(expiry, now);
      var a, b := expiry[..14], now[..14];
      assert a[0] == expiry[0] && b[0] == now[0];
      CompareTwo(a, b);
    }
  }

  // ----- The dates in use -----

  /** What a month can be, as its two digits are printed. */
  predicate PlausibleMonth(s: string)
    requires IsUtcTime(s)
  {
    s[2] <= '1'
  }

  /** The clock shows 2021 to 2049. */
  predicate From2021(now: string)
    requires IsUtcTime(now)
  {
    (now[0] == '2' && now[1] >= '1') || now[0] == '3' || now[0] == '4'
  }

  /** For an expiry date from 2050 to 2099, that is when the clock shows 2021 to 2049. */
  lemma LateTimesAreMarked(expiry: string, now: string)
    requires IsGeneralTime(expiry) && expiry[0] == '2' && expiry[1] == '0'
    requires IsUtcTime(now) && PlausibleMonth(now)
    ensures MarkedExpired(expiry, now) <==> From2021(now)
  {
    UtcDigits(now);
    TwoDigitYear(now);
    TwoDigitYear(expiry);
    CompareTwo(expiry, now);
    CompareTwo(expiry[2..], now[2..]);
  }

  /** In June 2025 a certificate that runs until 2050 is marked expired. */
  lemma MarkedTooEarly(expiry: string, now: string)
    requires expiry == "20500101000000Z" && now == "250601120000Z"
    ensures IsGeneralTime(expiry) && IsUtcTime(now)
    ensures MarkedExpired(expiry, now) && !NotAfter(expiry, now)
  {
    assert expiry[..14] == "20500101000000" && now[..12] == "250601120000";
    FormsAreOrdered(expiry, now);
    LateTimesAreMarked(expiry, now);
  }

  /**
   The value section 4.1.2.5 of RFC 5280 gives a certificate without an expiration date is marked
   expired by every clock from 2000 to 2049.
   */
  lemma NeverExpiringIsMarked(expiry: string, now: string)
    requires expiry == "99991231235959Z" && IsUtcTime(now) && now[0] <= '4'
    ensures IsGeneralTime(expiry)
    ensures MarkedExpired(expiry, now) && !NotAfter(expiry, now)
  {
    assert expiry[..14] == "99991231235959";
    FormsAreOrdered(expiry, now);
    MarkedExactlyWhen(expiry, now);
  }

  /** With a clock from 2050 to 2999, UTCTimes from 2030 to 2049 are not marked any more. */
  lemma LateClockMissesDates(expiry: string, now: string)
    requires IsUtcTime(expiry) && '3' <= expiry[0] <= '4' && IsGeneralTime(now) && now[0] == '2'
    ensures !MarkedExpired(expiry, now) && NotAfter(expiry, now)
  {
    FormsAreOrdered(now, expiry);
    UtcDigits(expiry);
    RfcDigits(now);
    TwoDigitYear(expiry);
    TwoDigitYear(now);
  }

  /** In June 2050 a certificate that ran until 2049 is not marked. */
  lemma MarkedTooLate(expiry: string, now: string)
    requires expiry == "490101000000Z" && now == "20500601120000Z"
    ensures IsUtcTime(expiry) && IsGeneralTime(now)
    ensures !MarkedExpired(expiry, now) && NotAfter(expiry, now)
  {
    assert expiry[..12] == "490101000000" && now[..14] == "20500601120000";
    LateClockMissesDates(expiry, now);
  }
}
