/**
 Serial numbers as the certificate table stores them: BN_bn2hex prints them, the load-time check
 looks at their shape, and index_serial_cmp compares them without their leading zeros.
 */
module Serials {

  predicate IsHexDigit(c: char) {
    '0' <= c <= '9' || 'A' <= c <= 'F' || 'a' <= c <= 'f'
  }

  predicate IsLowerHex(c: char) {
    'a' <= c <= 'f'
  }

  predicate AllHex(s: string) {
    forall i | 0 <= i < |s| :: IsHexDigit(s[i])
  }

  predicate Capitals(s: string) {
    forall i | 0 <= i < |s| :: !IsLowerHex(s[i])
  }

  function HexDigit(d: nat): (c: char)
    requires d < 16
    ensures IsHexDigit(c) && !IsLowerHex(c) && DigitValue(c) == d && (c == '0' <==> d == 0)
  {
    if d < 10 then '0' + d as char else 'A' + (d - 10) as char
  }

  function DigitValue(c: char): (d: nat)
    requires IsHexDigit(c)
    ensures d < 16
  {
    if c <= '9' then c as int - '0' as int
    else if c <= 'F' then c as int - 'A' as int + 10
    else c as int - 'a' as int + 10
  }

  /** The bytes of a number, most significant first, two digits each. */
  function Bytes(n: nat): (s: string)
    ensures AllHex(s) && |s| % 2 == 0 && (n > 0 ==> |s| >= 2)
  {
    if n == 0 then "" else Bytes(n / 256) + [HexDigit(n / 16 % 16), HexDigit(n % 16)]
  }

  /** The serial column for a number: "00" for zero, otherwise BN_bn2hex. */
  function Hex(n: int): (s: string)
    ensures WellFormed(s)
  {
    if n == 0 then "00" else if n > 0 then Bytes(n)
    else
      assert (['-'] + Bytes(-n))[1..] == Bytes(-n);
      ['-'] + Bytes(-n)
  }

  function Unsigned(s: string): string {
    if s != "" && s[0] == '-' then s[1..] else s
  }

  /** The load-time check of a serial: an even number of hex digits, at least two, maybe signed. */
  predicate WellFormed(s: string) {
    |Unsigned(s)| % 2 == 0 && |Unsigned(s)| >= 2 && AllHex(Unsigned(s))
  }

  function StripZeros(s: string): (r: string)
    ensures |r| <= |s| && (r != "" ==> r[0] != '0')
  {
    if s != "" && s[0] == '0' then StripZeros(s[1..]) else s
  }

  /** index_serial_cmp finds no difference. */
  predicate SameSerial(a: string, b: string) {
    StripZeros(a) == StripZeros(b)
  }

  function Magnitude(s: string): nat
    requires AllHex(s)
  {
    if s == "" then 0 else 16 * Magnitude(s[..|s| - 1]) + DigitValue(s[|s| - 1])
  }

  function Value(s: string): int
    requires WellFormed(s)
  {
    if s[0] == '-' then 0 - Magnitude(s[1..]) else Magnitude(s)
  }

  // ----- A canonical form -----

  /** The digits of a number without leading zeros. */
  function Digits(n: nat): (s: string)
    ensures AllHex(s) && Capitals(s) && Magnitude(s) == n && (n > 0 ==> s != "" && s[0] != '0')
  {
    if n == 0 then ""
    else
      var front, last := Digits(n / 16), HexDigit(n % 16);
      assert (front + [last])[..|front|] == front;
      front + [last]
  }

  lemma {:induction false} NoLeadingZero(s: string)
    requires AllHex(s) && Capitals(s) && (s != "" ==> s[0] != '0')
    ensures Digits(Magnitude(s)) == s
  {
    if s != "" {
      var front, last := s[..|s| - 1], s[|s| - 1];
      NoLeadingZero(front);
      SameDigit(last);
      var m, d := Magnitude(front), DigitValue(last);
      assert m == 0 ==> front == "";
      assert (16 * m + d) / 16 == m && (16 * m + d) % 16 == d;
      assert front + [last] == s;
    }
  }

  /** An unsigned serial in capitals is, without its leading zeros, the digits of its value. */
  lemma StrippedAreDigits(s: string)
    requires AllHex(s) && Capitals(s)
    ensures StripZeros(s) == Digits(Magnitude(s))
  {
    StripKeepsMagnitude(s);
    StripKeepsCapitals(s);
    NoLeadingZero(StripZeros(s));
  }

  lemma SameDigit(c: char)
    requires IsHexDigit(c) && !IsLowerHex(c)
    ensures HexDigit(DigitValue(c)) == c && (c == '0' <==> DigitValue(c) == 0)
  {
  }

  lemma MagnitudePush(front: string, c: char)
    requires AllHex(front) && IsHexDigit(c)
    ensures AllHex(front + [c]) && Magnitude(front + [c]) == 16 * Magnitude(front) + DigitValue(c)
  {
    assert (front + [c])[..|front|] == front;
  }

  lemma ByteArithmetic(n: nat)
    ensures 16 * (16 * (n / 256) + n / 16 % 16) + n % 16 == n
  {
    var q := n / 16;
    assert n == 16 * q + n % 16 && q == 16 * (q / 16) + q % 16;
    assert q / 16 == n / 256;
  }

  lemma {:induction false} BytesMagnitude(n: nat)
    ensures Capitals(Bytes(n)) && Magnitude(Bytes(n)) == n
  {
    if n > 0 {
      BytesMagnitude(n / 256);
      var front, hi, lo := Bytes(n / 256), HexDigit(n / 16 % 16), HexDigit(n % 16);
      MagnitudePush(front, hi);
      MagnitudePush(front + [hi], lo);
      assert front + [hi, lo] == front + [hi] + [lo];
      ByteArithmetic(n);
    }
  }

  lemma {:induction false} StripKeepsCapitals(s: string)
    ensures Capitals(StripZeros(s)) <==> Capitals(s)
  {
    if s != "" && s[0] == '0' {
      StripKeepsCapitals(s[1..]);
      assert forall i | 0 < i < |s| :: s[i] == s[1..][i - 1];
      assert Capitals(s[1..]) ==> forall i | 0 < i < |s| :: !IsLowerHex(s[i]);
    }
  }

  /** Two printed serials are the same to the index exactly when the numbers are. */
  lemma HexIsInjective(a: int, b: int)
    ensures SameSerial(Hex(a), Hex(b)) <==> a == b
  {
    StrippedHex(a);
    StrippedHex(b);
    assert Digits(if a < 0 then -a else a) != "" ==> a != 0;
  }

  lemma StrippedHex(n: int)
    ensures StripZeros(Hex(n)) == if n < 0 then ['-'] + Bytes(-n) else Digits(n)
    ensures n < 0 ==> Magnitude(Bytes(-n)) == -n
  {
    if n > 0 {
      BytesMagnitude(n);
      StrippedAreDigits(Bytes(n));
    } else if n == 0 {
      assert "00"[1..] == "0" && "0"[1..] == "";
    } else {
      BytesMagnitude(-n);
    }
  }

  /** A printed serial reads back as its number. */
  lemma HexValue(n: int)
    ensures Value(Hex(n)) == n
  {
    if n == 0 {
      assert "00"[..1] == "0" && "0"[..0] == "";
    } else {
      BytesMagnitude(if n > 0 then n else -n);
      if n < 0 {
        assert Hex(n)[1..] == Bytes(-n);
      } else {
        assert IsHexDigit(Bytes(n)[0]);
      }
    }
  }

  /** An even number of digits whose first byte is not zero. */
  predicate Minimal(s: string) {
    |s| >= 2 && |s| % 2 == 0 && !(s[0] == '0' && s[1] == '0')
  }

  lemma {:induction false} BytesAreMinimal(n: nat)
    requires n > 0
    ensures Minimal(Bytes(n))
  {
    if n >= 256 {
      BytesAreMinimal(n / 256);
    } else {
      assert n / 16 % 16 == 0 ==> n % 16 != 0;
    }
  }

  lemma TwoMoreDigits(front: string, hi: char, lo: char)
    requires AllHex(front) && IsHexDigit(hi) && IsHexDigit(lo)
    ensures AllHex(front + [hi, lo])
    ensures Magnitude(front + [hi, lo]) == 256 * Magnitude(front) + (16 * DigitValue(hi) + DigitValue(lo))
  {
    MagnitudePush(front, hi);
    MagnitudePush(front + [hi], lo);
    assert front + [hi, lo] == front + [hi] + [lo];
  }

  lemma LastByte(m: nat, hi: nat, lo: nat)
    requires hi < 16 && lo < 16
    ensures var n := 256 * m + (16 * hi + lo); n / 256 == m && n / 16 % 16 == hi && n % 16 == lo
  {
    var n := 256 * m + (16 * hi + lo);
    assert n == 16 * (16 * m + hi) + lo;
    assert n / 16 == 16 * m + hi;
  }

  /** Printing the value of minimal digits in capitals gives them back. */
  lemma {:induction false} MinimalDigitsAreBytes(s: string)
    requires AllHex(s) && Capitals(s) && Minimal(s)
    ensures Magnitude(s) > 0 && Bytes(Magnitude(s)) == s
  {
    var front, hi, lo := s[..|s| - 2], s[|s| - 2], s[|s| - 1];
    assert s == front + [hi, lo];
    TwoMoreDigits(front, hi, lo);
    LastByte(Magnitude(front), DigitValue(hi), DigitValue(lo));
    SameDigit(hi);
    SameDigit(lo);
    if front == "" {
      assert Bytes(0) == "";
    } else {
      MinimalDigitsAreBytes(front);
    }
  }

  /**
   A row is found by the number of a certificate exactly when it has that number, is in capitals and,
   if it is negative, has no superfluous zero byte behind the minus sign.  The load-time check lets
   lower case and such bytes through.
   */
  lemma FoundExactlyWhen(s: string, n: int)
    requires WellFormed(s)
    ensures SameSerial(s, Hex(n)) <==> Value(s) == n && Capitals(s) && (s[0] == '-' ==> Minimal(s[1..]))
  {
    StrippedHex(n);
    HexValue(n);
    NoSignInHex(s);
    NoSignInHex(Hex(n));
    if s[0] == '-' {
      NegativeIsPrinted(s, n);
    } else if n >= 0 {
      StripKeepsCapitals(s);
      if Capitals(s) {
        StrippedAreDigits(s);
      }
    }
  }

  lemma CapitalsBehindSign(digits: string)
    ensures Capitals(['-'] + digits) <==> Capitals(digits)
  {
    var s := ['-'] + digits;
    assert s[1..] == digits;
    if Capitals(s) {
      assert forall i | 0 <= i < |digits| :: digits[i] == s[i + 1];
    }
  }

  lemma NegativeIsPrinted(s: string, n: int)
    requires WellFormed(s) && s[0] == '-'
    ensures s == Hex(n) <==> Value(s) == n && Capitals(s) && Minimal(s[1..])
  {
    var digits := s[1..];
    assert s == ['-'] + digits;
    CapitalsBehindSign(digits);
    if s == Hex(n) {
      NegativeHex(-n);
      assert digits == Bytes(-n);
    } else if Capitals(digits) && Minimal(digits) {
      MinimalDigitsAreBytes(digits);
    }
  }

  lemma NegativeHex(m: int)
    requires Hex(-m)[0] == '-'
    ensures m > 0 && Hex(-m) == ['-'] + Bytes(m) && Capitals(Bytes(m)) && Minimal(Bytes(m)) && Magnitude(Bytes(m)) == m
  {
    assert m <= 0 ==> AllHex(Hex(-m));
    assert m > 0;
    BytesMagnitude(m);
    BytesAreMinimal(m);
  }

  /** How some numbers are printed. */
  lemma PrintedSerials()
    ensures Hex(0) == "00" && Hex(10) == "0A" && Hex(-26) == "-1A"
  {
    OneByte(10);
    OneByte(26);
  }

  /** A zero digit fills up the first byte. */
  lemma PrintedTwoBytes(n: nat)
    requires 256 <= n < 4096
    ensures Hex(n) == ['0', HexDigit(n / 256), HexDigit(n / 16 % 16), HexDigit(n % 16)]
  {
    OneByte(n / 256);
    assert Bytes(n) == Bytes(n / 256) + [HexDigit(n / 16 % 16), HexDigit(n % 16)];
  }

  lemma OneByte(n: nat)
    requires 0 < n < 256
    ensures Bytes(n) == [HexDigit(n / 16), HexDigit(n % 16)]
  {
    assert Bytes(0) == "" && n / 256 == 0;
  }

  /** A row in lower case that passes the load-time check and is not found by its number. */
  lemma LowerCaseIsNotFound(s: string)
    requires s == "0a"
    ensures WellFormed(s) && Value(s) == 10 && !SameSerial(s, Hex(10))
  {
    assert s[..1] == "0" && "0"[..0] == "";
    assert Magnitude("0") == 0 && DigitValue(s[1]) == 10;
    assert Magnitude(s) == 10;
    FoundExactlyWhen(s, 10);
    assert IsLowerHex(s[1]);
  }

  /** A negative row with a byte too many, neither. */
  lemma PaddedNegativeIsNotFound(s: string)
    requires s == "-00FF"
    ensures WellFormed(s) && Value(s) == -255 && !SameSerial(s, Hex(-255))
  {
    var digits := "00FF";
    assert s[1..] == digits;
    assert digits[..3] == "00F" && "00F"[..2] == "00" && "00"[..1] == "0" && "0"[..0] == "";
    assert Magnitude("00") == 0 && Magnitude("00F") == 15;
    FoundExactlyWhen(s, -255);
    assert Bytes(255 / 256) == "";
  }

  lemma {:induction false} StripKeepsMagnitude(s: string)
    requires AllHex(s)
    ensures AllHex(StripZeros(s)) && Magnitude(StripZeros(s)) == Magnitude(s)
  {
    if s != "" && s[0] == '0' {
      assert AllHex(s[1..]) by {
        assert forall i | 0 <= i < |s| - 1 :: s[1..][i] == s[i + 1];
      }
      StripKeepsMagnitude(s[1..]);
      LeadingZero(s[1..]);
      assert s == "0" + s[1..];
    }
  }

  lemma {:induction false} LeadingZero(s: string)
    requires AllHex(s) && AllHex("0" + s)
    ensures Magnitude("0" + s) == Magnitude(s)
  {
    var z := "0" + s;
    if s == "" {
      assert z == "0" && z[..0] == "";
    } else {
      assert z[..|z| - 1] == "0" + s[..|s| - 1];
      LeadingZero(s[..|s| - 1]);
    }
  }

  /** Serials the index takes for the same have the same value. */
  lemma SameSerialSameValue(a: string, b: string)
    requires WellFormed(a) && WellFormed(b) && SameSerial(a, b)
    ensures Value(a) == Value(b)
  {
    if a[0] == '-' || b[0] == '-' {
      NoSignInHex(a);
      NoSignInHex(b);
    } else {
      StripKeepsMagnitude(a);
      StripKeepsMagnitude(b);
    }
  }

  lemma NoSignInHex(s: string)
    requires WellFormed(s)
    ensures s[0] == '-' ==> StripZeros(s) == s
    ensures s[0] != '-' ==> StripZeros(s) == "" || StripZeros(s)[0] != '-'
  {
    if s[0] != '-' {
      StripKeepsMagnitude(s);
    }
  }
}
