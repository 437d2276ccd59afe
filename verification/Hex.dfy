/** Hexadecimal text and the bytes it stands for. */
module Hex {
  import opened Bytes
  import opened Text

  function HexDigit(n: nat): char
    requires n < 16
  {
    if n < 10 then '0' + n as char else 'a' + (n - 10) as char
  }

  /** The value of a hexadecimal digit of either case, 16 for any other byte. */
  function HexValue(c: char): nat {
    if '0' <= c <= '9' then c as int - '0' as int
    else if 'a' <= c <= 'f' then c as int - 'a' as int + 10
    else if 'A' <= c <= 'F' then c as int - 'A' as int + 10
    else 16
  }

  /** hex.Decode into a zeroed buffer: it stops at the first pair that is not hexadecimal. */
  function HexPairs(s: string): (b: Bytes)
    ensures |b| == |s| / 2
  {
    if |s| < 2 then []
    else if HexValue(s[0]) == 16 || HexValue(s[1]) == 16 then seq(|s| / 2, _ => 0)
    else [HexValue(s[0]) * 16 + HexValue(s[1])] + HexPairs(s[2..])
  }

  function HexToBytes(s: string): Bytes {
    HexPairs(TrimHex(s))
  }

  function BytesToHex(b: Bytes): string {
    if b == [] then [] else [HexDigit(b[0] / 16), HexDigit(b[0] % 16)] + BytesToHex(b[1..])
  }

  predicate IsHex(s: string) {
    |s| % 2 == 0 && forall i | 0 <= i < |s| :: HexValue(s[i]) < 16
  }

  lemma LowerHex(c: char)
    requires HexValue(c) < 16
    ensures HexDigit(HexValue(c)) == Lower(c)
  {
  }

  lemma PairLowers(c: char, d: char, rest: Bytes)
    requires HexValue(c) < 16 && HexValue(d) < 16
    ensures BytesToHex([HexValue(c) * 16 + HexValue(d)] + rest) == [Lower(c), Lower(d)] + BytesToHex(rest)
  {
    LowerHex(c);
    LowerHex(d);
    hide HexValue, Lower, HexDigit;
    var b: Bytes := [HexValue(c) * 16 + HexValue(d)] + rest;
    assert b[1..] == rest;
  }

  lemma ToLowerPair(s: string)
    requires |s| >= 2
    ensures ToLower(s) == [Lower(s[0]), Lower(s[1])] + ToLower(s[2..])
  {
  }

  /** Reading hexadecimal and printing it gives lower case. */
  lemma {:induction false} HexLowers(s: string)
    requires IsHex(s)
    ensures BytesToHex(HexPairs(s)) == ToLower(s)
  {
    hide HexValue, Lower, HexDigit, ToLower;
    if s != [] {
      HexLowers(s[2..]);
      PairLowers(s[0], s[1], HexPairs(s[2..]));
      ToLowerPair(s);
    }
  }

  lemma HexOfDigit(n: nat)
    requires n < 16
    ensures HexValue(HexDigit(n)) == n && HexDigit(n) != 'x'
  {
  }

  /** Printing bytes and reading them back. */
  lemma {:induction false} HexRoundTrip(b: Bytes)
    ensures HexPairs(BytesToHex(b)) == b && IsHex(BytesToHex(b)) && |BytesToHex(b)| == 2 * |b|
  {
    if b != [] {
      HexRoundTrip(b[1..]);
      HexOfDigit(b[0] / 16);
      HexOfDigit(b[0] % 16);
      assert BytesToHex(b)[2..] == BytesToHex(b[1..]);
      assert b == [b[0]] + b[1..];
    }
  }

  lemma HexToBytesRoundTrip(b: Bytes)
    ensures HexToBytes(BytesToHex(b)) == b
  {
    HexRoundTrip(b);
  }

  lemma BytesToHexInjective(a: Bytes, b: Bytes)
    requires BytesToHex(a) == BytesToHex(b)
    ensures a == b
  {
    HexRoundTrip(a);
    HexRoundTrip(b);
  }

  /** The digits are written in lower case. */
  lemma DigitSpelled(n: nat)
    requires n < 16
    ensures HexDigit(n) == "0123456789abcdef"[n]
  {
  }

  /** And read in either case. */
  lemma ValueSpelled(c: char, n: nat)
    requires n < 16
    ensures HexValue(c) == n <==> c == "0123456789abcdef"[n] || c == "0123456789ABCDEF"[n]
  {
  }

  /** Each byte is the pair of digits at its place, the higher one first; from the first pair that is none on they are 0. */
  lemma {:induction false} HexPairsAt(s: string, i: nat)
    requires i < |s| / 2
    ensures HexPairs(s)[i] == if AreDigits(s, 2 * i + 2) then 16 * HexValue(s[2 * i]) + HexValue(s[2 * i + 1]) else 0
  {
    ValueBound(s[0]);
    ValueBound(s[1]);
    hide HexValue;
    if HexValue(s[0]) < 16 && HexValue(s[1]) < 16 && i > 0 {
      HexPairsAt(s[2..], i - 1);
      MoreDigits(s, 2 * i);
      assert s[2..][2 * i - 2] == s[2 * i] && s[2..][2 * i - 1] == s[2 * i + 1];
    }
  }

  lemma ValueBound(c: char)
    ensures HexValue(c) <= 16
  {
  }

  ghost predicate AreDigits(s: string, n: nat)
    requires n <= |s|
  {
    forall j | 0 <= j < n :: HexValue(s[j]) < 16
  }

  lemma MoreDigits(s: string, n: nat)
    requires n + 2 <= |s| && HexValue(s[0]) < 16 && HexValue(s[1]) < 16
    ensures AreDigits(s[2..], n) <==> AreDigits(s, n + 2)
  {
    hide HexValue;
    if AreDigits(s[2..], n) {
      forall j | 2 <= j < n + 2
        ensures HexValue(s[j]) < 16
      {
        assert s[j] == s[2..][j - 2];
      }
    }
  }

  lemma HexStep(b: Bytes)
    requires b != []
    ensures BytesToHex(b) == ["0123456789abcdef"[b[0] / 16], "0123456789abcdef"[b[0] % 16]] + BytesToHex(b[1..])
  {
    DigitSpelled(b[0] / 16);
    DigitSpelled(b[0] % 16);
  }

  lemma {:induction false} HexLength(b: Bytes)
    ensures |BytesToHex(b)| == 2 * |b|
  {
    if b != [] {
      HexLength(b[1..]);
    }
  }

  /** Each byte is printed as two digits, the higher one first. */
  lemma {:induction false} BytesToHexAt(b: Bytes, i: nat)
    requires i < |b|
    ensures |BytesToHex(b)| == 2 * |b|
    ensures BytesToHex(b)[2 * i] == "0123456789abcdef"[b[i] / 16] && BytesToHex(b)[2 * i + 1] == "0123456789abcdef"[b[i] % 16]
  {
    HexLength(b);
    hide BytesToHex;
    HexStep(b);
    if i > 0 {
      BytesToHexAt(b[1..], i - 1);
    }
  }
}
