/** The modified base58 alphabet of Bitcoin, and the two conversion loops. */
module Base58 {
  import opened Bytes
  import opened Radix
  import opened Sequences

  /** The alphabet, cut where a letter is left out. */
  const ALPHABET: string :=
    "123456789" + "ABCDEFGH" + "JKLMN" + "PQRSTUVWXYZ" + "abcdefghijk" + "mnopqrstuvwxyz"

  /** The digit table: the index of a character in the alphabet, 255 for any other byte. */
  function Digit(c: char): nat {
    if '1' <= c <= '9' then c as int - '1' as int
    else if 'A' <= c <= 'H' then c as int - 'A' as int + 9
    else if 'J' <= c <= 'N' then c as int - 'J' as int + 17
    else if 'P' <= c <= 'Z' then c as int - 'P' as int + 22
    else if 'a' <= c <= 'k' then c as int - 'a' as int + 33
    else if 'm' <= c <= 'z' then c as int - 'm' as int + 44
    else 255
  }

  /** The letter of a digit, piece by piece. */
  lemma LetterAt(d: nat)
    requires d < 58
    ensures ALPHABET[d] ==
            if d < 9 then '1' + d as char
            else if d < 17 then 'A' + (d - 9) as char
            else if d < 22 then 'J' + (d - 17) as char
            else if d < 33 then 'P' + (d - 22) as char
            else if d < 44 then 'a' + (d - 33) as char
            else 'm' + (d - 44) as char
  {
    if d < 9 { assert ALPHABET[d] == "123456789"[d]; }
    else if d < 17 { assert ALPHABET[d] == "ABCDEFGH"[d - 9]; }
    else if d < 22 { assert ALPHABET[d] == "JKLMN"[d - 17]; }
    else if d < 33 { assert ALPHABET[d] == "PQRSTUVWXYZ"[d - 22]; }
    else if d < 44 { assert ALPHABET[d] == "abcdefghijk"[d - 33]; }
    else { assert ALPHABET[d] == "mnopqrstuvwxyz"[d - 44]; }
  }

  /** The table inverts the alphabet. */
  lemma DigitOfAlphabet(d: nat)
    requires d < 58
    ensures Digit(ALPHABET[d]) == d
  {
    LetterAt(d);
  }

  /** And the alphabet inverts the table. */
  lemma AlphabetOfDigit(c: char)
    requires Digit(c) != 255
    ensures Digit(c) < 58 && ALPHABET[Digit(c)] == c
  {
    DigitRange(c);
    hide ALPHABET;
    LetterAt(Digit(c));
  }

  lemma DigitRange(c: char)
    requires Digit(c) != 255
    ensures Digit(c) < 58
  {
  }

  predicate InAlphabet(s: string) {
    forall i | 0 <= i < |s| :: Digit(s[i]) != 255
  }

  function Digits(s: string): (ds: seq<nat>)
    ensures |ds| == |s|
    ensures forall i | 0 <= i < |s| :: ds[i] == Digit(s[i])
  {
    seq(|s|, i requires 0 <= i < |s| => Digit(s[i]))
  }

  function Letters(ds: seq<nat>): (s: string)
    requires AreDigits(ds, 58)
    ensures |s| == |ds|
    ensures forall i | 0 <= i < |ds| :: s[i] == ALPHABET[ds[i]]
  {
    seq(|ds|, i requires 0 <= i < |ds| => ALPHABET[ds[i]])
  }

  /** A byte string as base-256 digits. */
  function Octets(b: Bytes): (ds: seq<nat>)
    ensures |ds| == |b|
    ensures forall i | 0 <= i < |b| :: ds[i] == b[i]
  {
    seq(|b|, i requires 0 <= i < |b| => b[i])
  }

  function ToBytes(ds: seq<nat>): (b: Bytes)
    requires AreDigits(ds, 256)
    ensures |b| == |ds|
    ensures forall i | 0 <= i < |ds| :: b[i] == ds[i]
  {
    seq(|ds|, i requires 0 <= i < |ds| => var d: byte := ds[i]; d)
  }

  lemma ConvertDigits(ds: seq<nat>, from: nat, to: nat)
    requires to >= 2
    ensures AreDigits(Convert(ds, from, to), to)
  {
  }

  /** base to the power k. */
  function Power(base: nat, k: nat): nat {
    if k == 0 then 1 else base * Power(base, k - 1)
  }

  /** The number that digits write: each with the weight of its place. */
  function Number(ds: seq<nat>, base: nat): nat {
    if ds == [] then 0 else ds[0] * Power(base, |ds| - 1) + Number(ds[1..], base)
  }

  /**
   s writes the bytes b: its letters, taken as base-58 digits, and the bytes, taken as base-256 digits,
   are the same number, and it has as many '1's in front as b has zero bytes.
   */
  ghost predicate Writes(s: string, b: Bytes) {
    && (exists ds: seq<nat> ::
          && |ds| == |s|
          && (forall i | 0 <= i < |s| :: IsLetter(s[i], ds[i]))
          && Number(ds, 58) == Number(Octets(b), 256))
    && forall n: nat :: OnesLead(s, n) <==> ZerosLead(b, n)
  }

  ghost predicate OnesLead(s: string, n: nat) {
    n <= |s| && forall i | 0 <= i < n :: s[i] == '1'
  }

  ghost predicate ZerosLead(b: Bytes, n: nat) {
    n <= |b| && forall i | 0 <= i < n :: b[i] == 0
  }

  ghost predicate IsOverAlphabet(s: string) {
    forall i | 0 <= i < |s| :: s[i] in "123456789ABCDEFGHJKLMNPQRSTUVWXYZabcdefghijkmnopqrstuvwxyz"
  }

  /** c is letter d of the alphabet. */
  ghost predicate IsLetter(c: char, d: nat) {
    d < 58 && c == "123456789ABCDEFGHJKLMNPQRSTUVWXYZabcdefghijkmnopqrstuvwxyz"[d]
  }

  /** What the encoding loop computes: base 256 to base 58. */
  function Encoded(b: Bytes): string {
    ConvertDigits(Octets(b), 256, 58);
    Letters(Convert(Octets(b), 256, 58))
  }

  /** What the decoding loop computes: base 58 to base 256, nothing for a foreign character. */
  function Decoded(s: string): Bytes {
    ConvertDigits(Digits(s), 58, 256);
    if InAlphabet(s) then ToBytes(Convert(Digits(s), 58, 256)) else []
  }

  lemma DigitsOfLetters(ds: seq<nat>)
    requires AreDigits(ds, 58)
    ensures InAlphabet(Letters(ds)) && Digits(Letters(ds)) == ds
  {
    forall i | 0 <= i < |ds|
      ensures Digit(Letters(ds)[i]) == ds[i]
    {
      DigitOfAlphabet(ds[i]);
    }
  }

  lemma LettersOfDigits(s: string)
    requires InAlphabet(s)
    ensures AreDigits(Digits(s), 58) && Letters(Digits(s)) == s
  {
    forall i | 0 <= i < |s|
      ensures Digit(s[i]) < 58 && ALPHABET[Digit(s[i])] == s[i]
    {
      AlphabetOfDigit(s[i]);
    }
  }

  /** Decoding an encoding gives every byte string back, leading zero bytes included. */
  lemma DecodeOfEncode(b: Bytes)
    ensures Decoded(Encoded(b)) == b
  {
    var ds := Octets(b);
    ConvertRoundTrip(ds, 256, 58);
    DigitsOfLetters(Convert(ds, 256, 58));
  }

  /** Encoding a decoding gives the string back exactly when it is over the alphabet. */
  lemma EncodeOfDecode(s: string)
    ensures Encoded(Decoded(s)) == s <==> InAlphabet(s)
  {
    if InAlphabet(s) {
      LettersOfDigits(s);
      ConvertRoundTrip(Digits(s), 58, 256);
      assert Octets(Decoded(s)) == Convert(Digits(s), 58, 256);
    }
  }

  lemma AcceptedAlphabet(s: string)
    requires Decoded(s) != []
    ensures InAlphabet(s)
  {
  }

  // The number written

  lemma TimesBase(d: nat, p: nat, n: nat, base: nat)
    ensures (d * p + n) * base == d * (base * p) + n * base
  {
    assert d * p * base == d * (base * p);
  }

  lemma {:induction false} NumberSnoc(ds: seq<nat>, d: nat, base: nat)
    ensures Number(ds + [d], base) == Number(ds, base) * base + d
  {
    if ds == [] {
      NumberOfOne(d, base);
      assert ds + [d] == [d];
    } else {
      hide Number, Power;
      var p := Power(base, |ds| - 1);
      var tail := ds[1..];
      NumberSnoc(tail, d, base);
      NumberStep(ds, base);
      NumberStep(ds + [d], base);
      assert (ds + [d])[1..] == tail + [d];
      PowerStep(base, |ds| - 1);
      TimesBase(ds[0], p, Number(tail, base), base);
    }
  }

  lemma PowerStep(base: nat, k: nat)
    ensures Power(base, k + 1) == base * Power(base, k)
  {
  }

  lemma NumberStep(ds: seq<nat>, base: nat)
    requires ds != []
    ensures Number(ds, base) == ds[0] * Power(base, |ds| - 1) + Number(ds[1..], base)
  {
  }

  lemma NumberOfOne(d: nat, base: nat)
    ensures Number([d], base) == d
  {
  }

  lemma {:induction false} NumberIsValue(ds: seq<nat>, base: nat)
    ensures Number(ds, base) == Value(ds, base)
  {
    if ds != [] {
      NumberIsValue(ds[..|ds| - 1], base);
      NumberSnoc(ds[..|ds| - 1], ds[|ds| - 1], base);
      assert ds == ds[..|ds| - 1] + [ds[|ds| - 1]];
    }
  }

  lemma AlphabetSpelled()
    ensures ALPHABET == "123456789ABCDEFGHJKLMNPQRSTUVWXYZabcdefghijkmnopqrstuvwxyz"
  {
    var a := "123456789" + "ABCDEFGH";
    assert a == "123456789ABCDEFGH";
    var b := a + "JKLMN";
    assert b == "123456789ABCDEFGHJKLMN";
    var c := b + "PQRSTUVWXYZ";
    assert c == "123456789ABCDEFGHJKLMNPQRSTUVWXYZ";
    var d := c + "abcdefghijk";
    assert d == "123456789ABCDEFGHJKLMNPQRSTUVWXYZabcdefghijk";
  }

  lemma LettersSpelled(s: string)
    ensures InAlphabet(s) <==> IsOverAlphabet(s)
  {
    hide Digit;
    AlphabetSpelled();
    hide ALPHABET;
    forall i | 0 <= i < |s|
      ensures Digit(s[i]) != 255 <==> s[i] in ALPHABET
    {
      InTable(s[i]);
    }
  }

  lemma InTable(c: char)
    ensures Digit(c) != 255 <==> c in ALPHABET
  {
    hide Digit;
    if Digit(c) != 255 {
      AlphabetOfDigit(c);
    }
    if c in ALPHABET {
      var d :| 0 <= d < |ALPHABET| && ALPHABET[d] == c;
      DigitOfAlphabet(d);
    }
  }

  lemma LetterOfDigit(c: char, d: nat)
    ensures IsLetter(c, d) <==> d < 58 && Digit(c) == d
  {
    AlphabetSpelled();
    if d < 58 {
      DigitOfAlphabet(d);
      if Digit(c) == d {
        AlphabetOfDigit(c);
      }
    }
  }

  lemma LettersAre(s: string, ds: seq<nat>)
    requires |ds| == |s|
    ensures (forall i | 0 <= i < |s| :: IsLetter(s[i], ds[i])) <==> AreDigits(ds, 58) && s == Letters(ds)
    ensures AreDigits(ds, 58) && s == Letters(ds) ==> InAlphabet(s) && ds == Digits(s)
  {
    hide IsLetter, Digit;
    forall i | 0 <= i < |s|
      ensures IsLetter(s[i], ds[i]) <==> ds[i] < 58 && Digit(s[i]) == ds[i]
    {
      LetterOfDigit(s[i], ds[i]);
    }
    if AreDigits(ds, 58) {
      DigitsOfLetters(ds);
    }
    if forall i | 0 <= i < |s| :: IsLetter(s[i], ds[i]) {
      assert ds == Digits(s) && AreDigits(ds, 58);
      LettersOfDigits(s);
    }
  }

  /** A '1' is the digit 0. */
  lemma OnesAreZeros(ds: seq<nat>, n: nat)
    requires AreDigits(ds, 58)
    ensures OnesLead(Letters(ds), n) <==> n <= LeadingZeros(ds)
  {
    hide Digit;
    OneLetter();
    forall i | 0 <= i < |ds|
      ensures Letters(ds)[i] == '1' <==> ds[i] == 0
    {
      DigitOfAlphabet(ds[i]);
      DigitOfAlphabet(0);
    }
    LeadIsCount(ds, n);
  }

  lemma LeadIsCount(ds: seq<nat>, n: nat)
    ensures n <= LeadingZeros(ds) <==> n <= |ds| && forall i | 0 <= i < n :: ds[i] == 0
  {
    var z := LeadingZeros(ds);
    if z < n <= |ds| {
      assert ds[z] != 0;
    }
  }

  lemma SameLead(ds: seq<nat>, b: Bytes)
    requires AreDigits(ds, 58)
    ensures (forall n: nat :: OnesLead(Letters(ds), n) <==> ZerosLead(b, n)) <==> LeadingZeros(ds) == LeadingZeros(Octets(b))
  {
    hide OnesLead, ZerosLead, Letters;
    forall n: nat
      ensures OnesLead(Letters(ds), n) <==> n <= LeadingZeros(ds)
      ensures ZerosLead(b, n) <==> n <= LeadingZeros(Octets(b))
    {
      OnesAreZeros(ds, n);
      LeadIsCount(Octets(b), n);
      LeadOfBytes(b, n);
    }
    if forall n: nat :: OnesLead(Letters(ds), n) <==> ZerosLead(b, n) {
      var z, w := LeadingZeros(ds), LeadingZeros(Octets(b));
      assert OnesLead(Letters(ds), z) && ZerosLead(b, w);
    }
  }

  lemma LeadOfBytes(b: Bytes, n: nat)
    ensures ZerosLead(b, n) <==> n <= |b| && forall i | 0 <= i < n :: Octets(b)[i] == 0
  {
    if n <= |b| && forall i | 0 <= i < n :: Octets(b)[i] == 0 {
      assert forall i | 0 <= i < n :: b[i] == Octets(b)[i];
    }
  }

  /** The encoding of bytes is the one string that writes them. */
  lemma EncodedExactly(s: string, b: Bytes)
    ensures Writes(s, b) <==> s == Encoded(b)
  {
    hide IsLetter, Letters, Number, Value, OnesLead, ZerosLead, Convert;
    var octets := Octets(b);
    NumberIsValue(octets, 256);
    ConvertDigits(octets, 256, 58);
    var ds := Convert(octets, 256, 58);
    ConvertExactly(ds, octets, 256, 58);
    if s == Encoded(b) {
      NumberIsValue(ds, 58);
      LettersAre(s, ds);
      SameLead(ds, b);
    }
    if Writes(s, b) {
      var es: seq<nat> :| |es| == |s| && (forall i | 0 <= i < |s| :: IsLetter(s[i], es[i])) && Number(es, 58) == Number(octets, 256);
      NumberIsValue(es, 58);
      LettersAre(s, es);
      SameLead(es, b);
      ConvertExactly(es, octets, 256, 58);
    }
  }

  lemma DecodedMeans(s: string)
    ensures if IsOverAlphabet(s) then Writes(s, Decoded(s)) else Decoded(s) == []
  {
    hide Writes, IsOverAlphabet;
    LettersSpelled(s);
    DecodedExactly(s, Decoded(s));
  }

  /** A string decodes to the bytes it writes. */
  lemma DecodedExactly(s: string, b: Bytes)
    ensures Writes(s, b) <==> InAlphabet(s) && b == Decoded(s)
  {
    hide Writes, InAlphabet, Encoded, Decoded;
    EncodedExactly(s, b);
    if s == Encoded(b) {
      DecodeOfEncode(b);
      EncodeOfDecode(s);
    }
    if InAlphabet(s) && b == Decoded(s) {
      EncodeOfDecode(s);
    }
  }

  /** 58 to the power k, the weight the decoding loop keeps. */
  function Weight(k: nat): nat {
    if k == 0 then 1 else Weight(k - 1) * 58
  }

  /** Adding digits from the right with growing weights gives the number they write. */
  lemma {:induction false} ValueFromRight(d: nat, ds: seq<nat>)
    ensures Value([d] + ds, 58) == Weight(|ds|) * d + Value(ds, 58)
  {
    if ds == [] {
      assert [d] + ds == [d] && [d][..0] == [];
    } else {
      var front := ds[..|ds| - 1];
      ValueFromRight(d, front);
      assert ([d] + ds)[..|ds|] == [d] + front;
      assert (Weight(|front|) * d + Value(front, 58)) * 58 == Weight(|ds|) * d + Value(front, 58) * 58;
    }
  }

  /** One more digit on the left of those summed so far. */
  lemma SumStep(b: string, i: nat)
    requires i < |b|
    ensures Value(Digits(b[i..]), 58) == Weight(|b| - 1 - i) * Digit(b[i]) + Value(Digits(b[i + 1..]), 58)
  {
    ValueFromRight(Digit(b[i]), Digits(b[i + 1..]));
    assert Digits(b[i..]) == [Digit(b[i])] + Digits(b[i + 1..]);
  }

  /** The leading ones of a string are the leading zeros of its digits. */
  lemma LeadingOnes(b: string, n: nat)
    requires InAlphabet(b) && n <= |b|
    requires forall k | 0 <= k < n :: b[k] == '1'
    requires n == |b| || b[n] != '1'
    ensures LeadingZeros(Digits(b)) == n
  {
    LeadingZerosUnique(Digits(b), n);
  }

  /** The weighted sum of the digits, from the last character to the first. */
  method SumDigits(b: string) returns (ok: bool, answer: nat)
    ensures ok <==> InAlphabet(b)
    ensures ok ==> answer == Value(Digits(b), 58)
  {
    hide Digit, Value;
    answer := 0;
    var j := 1;
    var i := |b| - 1;
    assert Digits(b[i + 1..]) == [] && Value([], 58) == 0 by { ValueOfZeros(0, 58); assert Zeros(0) == []; }
    while i >= 0
      invariant -1 <= i < |b|
      invariant j == Weight(|b| - 1 - i)
      invariant forall k | i < k < |b| :: Digit(b[k]) != 255
      invariant answer == Value(Digits(b[i + 1..]), 58)
    {
      var tmp := Digit(b[i]);
      if tmp == 255 {
        return false, 0;
      }
      SumStep(b, i);
      answer := answer + j * tmp;
      j := j * 58;
      i := i - 1;
    }
    assert b[0..] == b;
    ok := true;
  }

  method Decode(b: string) returns (val: Bytes)
    ensures val == Decoded(b)
    ensures if IsOverAlphabet(b) then Writes(b, val) else val == []
  {
    DecodedMeans(b);
    hide Writes, IsOverAlphabet, Digit, Value, Digits;
    var ok, answer := SumDigits(b);
    if !ok {
      return [];
    }
    var tmpval := ToBytes(Numeral(answer, 256));
    var numZeros := 0;
    while numZeros < |b| && b[numZeros] == '1'
      invariant numZeros <= |b|
      invariant forall k | 0 <= k < numZeros :: b[k] == '1'
    {
      numZeros := numZeros + 1;
    }
    LeadingOnes(b, numZeros);
    var padding: Bytes := seq(numZeros, _ => 0);
    val := padding + tmpval;
  }

  lemma LettersSnoc(ds: seq<nat>, d: nat)
    requires AreDigits(ds, 58) && d < 58
    ensures Letters(ds + [d]) == Letters(ds) + [ALPHABET[d]]
  {
  }

  lemma NumeralStep(x: nat, digits: seq<nat>)
    requires x > 0
    ensures Numeral(x, 58) + Reversed(digits) == Numeral(x / 58, 58) + Reversed(digits + [x % 58])
  {
    ReversedConcat(digits, [x % 58]);
    assert Reversed([x % 58]) == [x % 58];
  }

  lemma NumeralOfZero()
    ensures Numeral(0, 58) == []
  {
  }

  lemma OneLetter()
    ensures ALPHABET[0] == '1'
  {
  }

  /** The base-58 digits of x, least significant first. */
  method AppendDigits(n: nat) returns (answer: string, ghost digits: seq<nat>)
    ensures AreDigits(digits, 58) && answer == Letters(digits)
    ensures Reversed(digits) == Numeral(n, 58)
  {
    hide Numeral, Digit;
    var x := n;
    answer, digits := [], [];
    while x > 0
      invariant AreDigits(digits, 58) && answer == Letters(digits)
      invariant Numeral(n, 58) == Numeral(x, 58) + Reversed(digits)
    {
      DivSmaller(x, 58);
      NumeralStep(x, digits);
      LettersSnoc(digits, x % 58);
      digits := digits + [x % 58];
      answer := answer + [ALPHABET[x % 58]];
      x := x / 58;
    }
    NumeralOfZero();
  }

  /** The digits of the number with a zero for every leading zero byte are the converted ones, last first. */
  lemma ReversedDigits(b: Bytes, digits: seq<nat>, zeros: nat)
    requires Reversed(digits) == Numeral(Value(Octets(b), 256), 58) && zeros == LeadingZeros(Octets(b))
    ensures Reversed(digits + Zeros(zeros)) == Convert(Octets(b), 256, 58)
  {
    hide Value, Numeral, LeadingZeros;
    ReversedConcat(digits, Zeros(zeros));
    assert Reversed(Zeros(zeros)) == Zeros(zeros);
  }

  lemma LettersReversed(ds: seq<nat>)
    requires AreDigits(ds, 58)
    ensures AreDigits(Reversed(ds), 58) && Letters(Reversed(ds)) == Reversed(Letters(ds))
  {
  }

  lemma ZerosSnoc(n: nat)
    ensures Zeros(n) + [0] == Zeros(n + 1)
  {
  }

  /** A '1' behind the letters for every leading zero byte. */
  method AppendOnes(b: Bytes, answer: string, ghost digits: seq<nat>) returns (r: string)
    requires AreDigits(digits, 58) && answer == Letters(digits)
    ensures AreDigits(digits + Zeros(LeadingZeros(Octets(b))), 58)
    ensures r == Letters(digits + Zeros(LeadingZeros(Octets(b))))
  {
    hide LeadingZeros, Digit, Letters;
    OneLetter();
    r := answer;
    var i := 0;
    assert digits + Zeros(0) == digits;
    while i < |b| && b[i] == 0
      invariant i <= |b|
      invariant forall k | 0 <= k < i :: b[k] == 0
      invariant r == Letters(digits + Zeros(i))
    {
      LettersSnoc(digits + Zeros(i), 0);
      ZerosSnoc(i);
      assert digits + Zeros(i) + [0] == digits + Zeros(i + 1);
      r := r + ['1'];
      i := i + 1;
    }
    LeadingZerosUnique(Octets(b), i);
  }

  method Encode(b: Bytes) returns (s: string)
    ensures s == Encoded(b) && Writes(s, b)
  {
    EncodedExactly(Encoded(b), b);
    hide Writes, Value, Numeral, LeadingZeros, Digit, Letters, Octets, Zeros, Convert, Reversed;
    var answer, digits := AppendDigits(Value(Octets(b), 256));
    answer := AppendOnes(b, answer, digits);
    ghost var all := digits + Zeros(LeadingZeros(Octets(b)));
    ReversedDigits(b, digits, LeadingZeros(Octets(b)));
    LettersReversed(all);
    s := SwapReverse(answer);
  }
}
