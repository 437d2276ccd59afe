/** The 256-bit map of operation kinds an audit root commits to. */
module OpKindBitmap {
  import opened Bytes
  import opened Hex
  import opened Text
  import opened Wrappers

  const KINDS := 256

  /** The k-th binary digit of n, counted from the lowest. */
  predicate Bit(n: nat, k: nat) {
    if k == 0 then n % 2 == 1 else Bit(n / 2, k - 1)
  }

  function Pow2(k: nat): (r: nat)
    ensures r >= 1
  {
    if k == 0 then 1 else 2 * Pow2(k - 1)
  }

  /** The set binary digits of n below k, lowest first. */
  function Ones(n: nat, k: nat): seq<nat> {
    if k == 0 then [] else Ones(n, k - 1) + if Bit(n, k - 1) then [k - 1] else []
  }

  lemma {:induction false} OnesExact(n: nat, k: nat)
    ensures forall x :: x in Ones(n, k) <==> 0 <= x < k && Bit(n, x)
    ensures forall i, j | 0 <= i < j < |Ones(n, k)| :: Ones(n, k)[i] < Ones(n, k)[j]
  {
    hide Bit;
    if k > 0 {
      OnesExact(n, k - 1);
      var low := Ones(n, k - 1);
      assert forall i | 0 <= i < |low| :: low[i] in low;
    }
  }

  function Sum(kinds: seq<nat>): nat {
    if kinds == [] then 0 else Sum(kinds[..|kinds| - 1]) + Pow2(kinds[|kinds| - 1])
  }

  lemma SumSnoc(kinds: seq<nat>, k: nat)
    ensures Sum(kinds + [k]) == Sum(kinds) + Pow2(k)
  {
    assert (kinds + [k])[..|kinds|] == kinds;
  }

  /** What the lowest k binary digits of n stand for. */
  function Low(n: nat, k: nat): nat {
    if k == 0 then 0 else n % 2 + 2 * Low(n / 2, k - 1)
  }

  lemma {:induction false} LowAddsTop(n: nat, k: nat)
    ensures Low(n, k + 1) == Low(n, k) + if Bit(n, k) then Pow2(k) else 0
  {
    if k > 0 {
      LowAddsTop(n / 2, k - 1);
    }
  }

  lemma {:induction false} LowIsAll(n: nat, k: nat)
    requires n < Pow2(k)
    ensures Low(n, k) == n
  {
    if k > 0 {
      LowIsAll(n / 2, k - 1);
    }
  }

  lemma {:induction false} SumOfOnes(n: nat, k: nat)
    ensures Sum(Ones(n, k)) == Low(n, k)
  {
    hide Bit;
    if k > 0 {
      SumOfOnes(n, k - 1);
      LowAddsTop(n, k - 1);
      if Bit(n, k - 1) {
        SumSnoc(Ones(n, k - 1), k - 1);
      } else {
        assert Ones(n, k) == Ones(n, k - 1);
      }
    }
  }

  /** The listed kinds determine the map: the powers of two they stand for add up to it. */
  lemma KindsDetermineMap(n: nat, k: nat)
    requires n < Pow2(k)
    ensures Sum(Ones(n, k)) == n
  {
    SumOfOnes(n, k);
    LowIsAll(n, k);
  }

  lemma {:induction false} BitOfLowPart(x: nat, y: nat, m: nat, k: nat)
    requires k < m
    ensures Bit(x * Pow2(m) + y, k) <==> Bit(y, k)
  {
    assert x * Pow2(m) == 2 * (x * Pow2(m - 1));
    if k > 0 {
      assert (x * Pow2(m) + y) / 2 == x * Pow2(m - 1) + y / 2;
      BitOfLowPart(x, y / 2, m - 1, k - 1);
    }
  }

  lemma BitAboveByte(n: nat, k: nat)
    ensures Bit(n, k + 8) <==> Bit(n / 256, k)
  {
    assert n / 2 / 2 / 2 / 2 / 2 / 2 / 2 / 2 == n / 256;
    assert Bit(n, k + 8) == Bit(n / 2 / 2, k + 6);
    assert Bit(n / 2 / 2, k + 6) == Bit(n / 2 / 2 / 2 / 2, k + 4);
    assert Bit(n / 2 / 2 / 2 / 2, k + 4) == Bit(n / 2 / 2 / 2 / 2 / 2 / 2, k + 2);
    assert Bit(n / 2 / 2 / 2 / 2 / 2 / 2, k + 2) == Bit(n / 2 / 2 / 2 / 2 / 2 / 2 / 2 / 2, k);
  }

  lemma BitOfLastByte(b: Bytes, k: nat)
    requires b != [] && k < 8
    ensures Bit(BigEndian(b), k) <==> Bit(b[|b| - 1], k)
  {
    assert Pow2(8) == 256 by { PowAboveByte(0); }
    hide Bit, Pow2;
    BitOfLowPart(BigEndian(b[..|b| - 1]), b[|b| - 1], 8, k);
  }

  lemma FrontOfNumber(b: Bytes)
    requires b != []
    ensures BigEndian(b) / 256 == BigEndian(b[..|b| - 1])
  {
  }

  /** A binary digit of a big-endian number is one of the byte that holds it. */
  lemma {:induction false} BitOfByte(b: Bytes, k: nat)
    requires k < 8 * |b|
    ensures Bit(BigEndian(b), k) <==> Bit(b[|b| - 1 - k / 8], k % 8)
  {
    hide Bit, BigEndian;
    if k < 8 {
      BitOfLastByte(b, k);
    } else {
      var front := b[..|b| - 1];
      BitAboveByte(BigEndian(b), k - 8);
      FrontOfNumber(b);
      BitOfByte(front, k - 8);
      assert (k - 8) / 8 == k / 8 - 1 && (k - 8) % 8 == k % 8;
    }
  }

  lemma {:induction false} MapBound(b: Bytes)
    ensures BigEndian(b) < Pow2(8 * |b|)
  {
    if b != [] {
      MapBound(b[..|b| - 1]);
      assert Pow2(8 * |b|) == 256 * Pow2(8 * |b| - 8) by { PowAboveByte(8 * |b| - 8); }
    }
  }

  lemma PowAboveByte(k: nat)
    ensures Pow2(k + 8) == 256 * Pow2(k)
  {
    assert Pow2(k + 8) == 4 * Pow2(k + 6);
    assert Pow2(k + 6) == 4 * Pow2(k + 4);
    assert Pow2(k + 4) == 4 * Pow2(k + 2);
  }

  // Topics and the bitmap as text

  function Zeros(n: nat): (r: string)
    ensures |r| == n && forall i | 0 <= i < n :: r[i] == '0'
  {
    seq(n, _ => '0')
  }

  /** A kind, cut to eight bits, as a log topic: a 32-byte word in hexadecimal. */
  function PaddedOpKindTopic(opKind: nat): (r: string)
    ensures |r| == 66
  {
    "0x" + Zeros(62) + [HexDigit(opKind / 16 % 16), HexDigit(opKind % 16)]
  }

  /** The kind a topic names; other words name none. */
  function TopicUint8(lower: CaseMap, topic: string): Option<nat> {
    var word := TrimHex(ToLowerBy(lower, topic));
    if |word| != 64 || word[..62] != Zeros(62) then None
    else if HexValue(word[62]) == 16 || HexValue(word[63]) == 16 then None
    else Some(HexValue(word[62]) * 16 + HexValue(word[63]))
  }

  lemma HexDigitIsLower(lower: CaseMap, n: nat)
    requires n < 16
    ensures lower(HexDigit(n)) == HexDigit(n) && HexValue(HexDigit(n)) == n
  {
    assert lower(HexDigit(n)) == Lower(HexDigit(n));
    HexOfDigit(n);
  }

  /** Every kind's topic is read back as that kind. */
  lemma TopicRoundTrip(lower: CaseMap, opKind: nat)
    requires opKind < KINDS
    ensures TopicUint8(lower, PaddedOpKindTopic(opKind)) == Some(opKind)
  {
    hide HexDigit, HexValue, Lower;
    var topic := PaddedOpKindTopic(opKind);
    HexDigitIsLower(lower, opKind / 16);
    HexDigitIsLower(lower, opKind % 16);
    LoweredTopic(lower, topic);
    assert topic[0] == '0' && topic[1] == 'x' && "0x" <= topic;
    var word := topic[2..];
    assert word[..62] == Zeros(62);
    assert word[62] == HexDigit(opKind / 16) && word[63] == HexDigit(opKind % 16);
  }

  lemma LoweredTopic(lower: CaseMap, topic: string)
    requires |topic| == 66 && topic[0] == '0' && topic[1] == 'x' && forall i | 2 <= i < 64 :: topic[i] == '0'
    requires lower(topic[64]) == topic[64] && lower(topic[65]) == topic[65]
    ensures ToLowerBy(lower, topic) == topic
  {
    assert lower('0') == Lower('0') && lower('x') == Lower('x');
  }

  function Topics(kinds: seq<nat>): (r: seq<string>)
    ensures |r| == |kinds| && forall i | 0 <= i < |r| :: r[i] == PaddedOpKindTopic(kinds[i])
  {
    seq(|kinds|, i requires 0 <= i < |kinds| => PaddedOpKindTopic(kinds[i]))
  }

  /** The map written by a hexadecimal word: nothing unless it is 32 bytes of hexadecimal. */
  function BitmapOf(lower: CaseMap, bitmap: string): Option<nat> {
    var word := TrimHex(ToLowerBy(lower, bitmap));
    if IsHex(word) && |word| == 64 then Some(BigEndian(HexPairs(word))) else None
  }

  /** The topics of the kinds a number names. */
  function TopicsOf(n: nat): seq<string> {
    Topics(Ones(n, KINDS))
  }

  lemma NoTopics(n: nat)
    ensures Topics(Ones(n, 0)) == []
  {
  }

  lemma TopicsSnoc(kinds: seq<nat>, k: nat)
    ensures Topics(kinds + [k]) == Topics(kinds) + [PaddedOpKindTopic(k)]
  {
  }

  lemma OnesStep(n: nat, k: nat)
    ensures Ones(n, k + 1) == if Bit(n, k) then Ones(n, k) + [k] else Ones(n, k)
  {
  }

  /** A kind's topic is listed exactly when its binary digit is set. */
  lemma TopicListed(n: nat, opKind: nat)
    requires opKind < KINDS
    ensures PaddedOpKindTopic(opKind) in TopicsOf(n) <==> Bit(n, opKind)
  {
    hide Bit, Ones, PaddedOpKindTopic;
    OnesExact(n, KINDS);
    var kinds := Ones(n, KINDS);
    if PaddedOpKindTopic(opKind) in TopicsOf(n) {
      var i :| 0 <= i < |kinds| && TopicsOf(n)[i] == PaddedOpKindTopic(opKind);
      assert kinds[i] in kinds;
      TopicRoundTrip(Lower, opKind);
      TopicRoundTrip(Lower, kinds[i]);
    }
    if Bit(n, opKind) {
      assert opKind in kinds;
      var i :| 0 <= i < |kinds| && kinds[i] == opKind;
      assert TopicsOf(n)[i] == PaddedOpKindTopic(opKind);
    }
  }

  // The listing over the characters of the word

  /** Binary digit `opKind` of a word of 64 hexadecimal characters: four to a character, the last character lowest. */
  predicate DigitSet(word: string, opKind: nat)
    requires |word| == 64 && opKind < 256
  {
    HexValue(word[63 - opKind / 4]) / [1, 2, 4, 8][opKind % 4] % 2 == 1
  }

  /** The topics of the kinds whose digits are set, in ascending order and each once. */
  ghost predicate AreTopicsOf(topics: seq<string>, word: string)
    requires |word| == 64
  {
    && (forall opKind | 0 <= opKind < 256 :: PaddedOpKindTopic(opKind) in topics <==> DigitSet(word, opKind))
    && (forall topic | topic in topics :: exists opKind :: 0 <= opKind < 256 && topic == PaddedOpKindTopic(opKind))
    && (forall i, j, k: nat, l: nat | 0 <= i < j < |topics| && k < 256 && l < 256 ::
          topics[i] == PaddedOpKindTopic(k) && topics[j] == PaddedOpKindTopic(l) ==> k < l)
  }

  /** A topic is "0x", 62 zeros and the two hexadecimal digits of its kind. */
  lemma TopicSpelled(opKind: nat, i: nat)
    requires opKind < 256 && i < 66
    ensures PaddedOpKindTopic(opKind)[i] ==
      if i == 1 then 'x' else if i < 64 then '0' else "0123456789abcdef"[if i == 64 then opKind / 16 else opKind % 16]
  {
    DigitSpelled(opKind / 16);
    DigitSpelled(opKind % 16);
  }

  /** A topic names a kind exactly when its lower-case form is that kind's topic, "0x" or not. */
  lemma TopicExactly(lower: CaseMap, topic: string, opKind: nat)
    ensures TopicUint8(lower, topic) == Some(opKind) <==>
      opKind < 256 && TrimHex(ToLowerBy(lower, topic)) == PaddedOpKindTopic(opKind)[2..]
  {
    hide HexDigit, HexValue, Lower, TrimHex, IsBlank;
    var word := TrimHex(ToLowerBy(lower, topic));
    TopicWord(word, opKind);
    if |word| == 64 {
      WordIsLowered(lower, topic);
      LastDigits(lower, word[62], word[63], opKind);
    }
  }

  lemma WordIsLowered(lower: CaseMap, topic: string)
    ensures var word := TrimHex(ToLowerBy(lower, topic)); forall i | 0 <= i < |word| :: lower(word[i]) == word[i]
  {
    hide IsBlank;
    LowerTwice(lower, topic);
  }

  lemma TopicWord(word: string, opKind: nat)
    ensures word == PaddedOpKindTopic(opKind)[2..] <==>
      |word| == 64 && word[..62] == Zeros(62) &&
      word[62] == HexDigit(opKind / 16 % 16) && word[63] == HexDigit(opKind % 16)
  {
    hide HexDigit;
    var topic := PaddedOpKindTopic(opKind)[2..];
    assert topic == Zeros(62) + [HexDigit(opKind / 16 % 16), HexDigit(opKind % 16)];
    assert |word| == 64 ==> word == word[..62] + [word[62], word[63]];
  }

  lemma LastDigits(lower: CaseMap, c: char, d: char, opKind: nat)
    requires lower(c) == c && lower(d) == d
    ensures HexValue(c) <= 16 && HexValue(d) <= 16
    ensures HexValue(c) < 16 && HexValue(d) < 16 && HexValue(c) * 16 + HexValue(d) == opKind <==>
      opKind < 256 && c == HexDigit(opKind / 16 % 16) && d == HexDigit(opKind % 16)
  {
    hide HexValue, HexDigit;
    LowerDigit(lower, c);
    LowerDigit(lower, d);
    if opKind < 256 {
      HexOfDigit(opKind / 16);
      HexOfDigit(opKind % 16);
    }
  }

  lemma LowerDigit(lower: CaseMap, c: char)
    requires lower(c) == c
    ensures HexValue(c) <= 16 && (HexValue(c) < 16 ==> HexDigit(HexValue(c)) == c)
  {
    assert c as int < 128 ==> lower(c) == Lower(c);
    if HexValue(c) < 16 {
      LowerHex(c);
    }
  }

  lemma BitOfHalf(h: nat, l: nat, k: nat)
    requires h < 16 && l < 16 && k < 8
    ensures Bit(16 * h + l, k) <==> (if k < 4 then l else h) / [1, 2, 4, 8][k % 4] % 2 == 1
  {
    hide Bit;
    if k < 4 {
      assert Pow2(4) == 4 * Pow2(2) && Pow2(2) == 4;
      BitOfLowPart(h, l, 4, k);
      BitOfDigit(l, k);
    } else {
      BitAboveDigit(16 * h + l, k - 4);
      BitOfDigit(h, k - 4);
      assert k % 4 == k - 4;
    }
  }

  lemma BitAboveDigit(n: nat, k: nat)
    ensures Bit(n, k + 4) <==> Bit(n / 16, k)
  {
    assert n / 2 / 2 / 2 / 2 == n / 16;
    assert Bit(n, k + 4) == Bit(n / 2 / 2, k + 2);
    assert Bit(n / 2 / 2, k + 2) == Bit(n / 2 / 2 / 2 / 2, k);
  }

  lemma BitOfDigit(n: nat, k: nat)
    requires k < 4
    ensures Bit(n, k) <==> n / [1, 2, 4, 8][k] % 2 == 1
  {
    if k == 1 {
      assert Bit(n, 1) == Bit(n / 2, 0);
    } else if k == 2 {
      assert Bit(n, 2) == Bit(n / 2 / 2, 0) && n / 2 / 2 == n / 4;
    } else if k == 3 {
      assert Bit(n, 3) == Bit(n / 2 / 2 / 2, 0) && n / 2 / 2 / 2 == n / 8;
    }
  }

  lemma DigitOfWord(word: string, opKind: nat)
    requires |word| == 64 && IsHex(word) && opKind < 256
    ensures Bit(BigEndian(HexPairs(word)), opKind) <==> DigitSet(word, opKind)
  {
    hide Bit, BigEndian, HexValue, HexPairs;
    var i := 31 - opKind / 8;
    BitOfByte(HexPairs(word), opKind);
    HexPairsAt(word, i);
    BitOfHalf(HexValue(word[2 * i]), HexValue(word[2 * i + 1]), opKind % 8);
    if opKind % 8 < 4 {
      assert 63 - opKind / 4 == 2 * i + 1;
    } else {
      assert 63 - opKind / 4 == 2 * i;
    }
    assert opKind % 8 % 4 == opKind % 4;
  }

  lemma SameTopicSameKind(k: nat, l: nat)
    requires k < 256 && l < 256 && PaddedOpKindTopic(k) == PaddedOpKindTopic(l)
    ensures k == l
  {
    TopicRoundTrip(Lower, k);
    TopicRoundTrip(Lower, l);
  }

  lemma TopicsInOrder(kinds: seq<nat>)
    requires forall i | 0 <= i < |kinds| :: kinds[i] < 256
    requires forall i, j | 0 <= i < j < |kinds| :: kinds[i] < kinds[j]
    ensures forall i, j, k: nat, l: nat | 0 <= i < j < |kinds| && k < 256 && l < 256 ::
      Topics(kinds)[i] == PaddedOpKindTopic(k) && Topics(kinds)[j] == PaddedOpKindTopic(l) ==> k < l
  {
    hide PaddedOpKindTopic;
    forall i, j, k: nat, l: nat | 0 <= i < j < |kinds| && k < 256 && l < 256
      && Topics(kinds)[i] == PaddedOpKindTopic(k) && Topics(kinds)[j] == PaddedOpKindTopic(l)
      ensures k < l
    {
      SameTopicSameKind(kinds[i], k);
      SameTopicSameKind(kinds[j], l);
    }
  }

  lemma TopicsOfWord(word: string)
    requires |word| == 64 && IsHex(word)
    ensures AreTopicsOf(TopicsOf(BigEndian(HexPairs(word))), word)
  {
    hide Bit, Ones, PaddedOpKindTopic, BigEndian, DigitSet, IsHex, HexPairs;
    var n := BigEndian(HexPairs(word));
    var topics := TopicsOf(n);
    OnesExact(n, KINDS);
    var kinds := Ones(n, KINDS);
    forall i | 0 <= i < |kinds|
      ensures kinds[i] < 256 && topics[i] == PaddedOpKindTopic(kinds[i])
    {
      assert kinds[i] in kinds;
    }
    TopicsInOrder(kinds);
    forall opKind | 0 <= opKind < 256
      ensures PaddedOpKindTopic(opKind) in topics <==> DigitSet(word, opKind)
    {
      TopicListed(n, opKind);
      DigitOfWord(word, opKind);
    }
  }

  /**
   The topics of a bitmap, refused unless it is 64 hexadecimal characters: in ascending order those of
   the kinds whose binary digit is set in the 256-bit number the characters write, which they determine.
   */
  method OpKindTopicsFromBitmap(lower: CaseMap, bitmap: string) returns (topics: Option<seq<string>>)
    ensures match BitmapOf(lower, bitmap)
      case None => topics == None
      case Some(n) => topics == Some(TopicsOf(n)) && Sum(Ones(n, KINDS)) == n
    ensures var word := TrimHex(ToLowerBy(lower, bitmap));
      && (topics.Some? <==> |word| == 64 && forall i | 0 <= i < 64 :: HexValue(word[i]) < 16)
      && (topics.Some? ==> AreTopicsOf(topics.value, word))
  {
    hide Bit, Ones, Topics, PaddedOpKindTopic, BigEndian, AreTopicsOf, TopicsOf;
    var word := TrimHex(ToLowerBy(lower, bitmap));
    if !IsHex(word) {
      return None;
    }
    var bytes := HexPairs(word);
    if |bytes| != 32 {
      return None;
    }
    var list := CollectTopics(bytes);
    MapBound(bytes);
    KindsDetermineMap(BigEndian(bytes), KINDS);
    TopicsOfWord(word);
    return Some(list);
  }

  /** The loop over all kinds with the byte and the mask of each. */
  method CollectTopics(bytes: Bytes) returns (topics: seq<string>)
    requires |bytes| == 32
    ensures topics == TopicsOf(BigEndian(bytes))
  {
    ghost var n := BigEndian(bytes);
    topics := [];
    NoTopics(n);
    hide Bit, Ones, Topics, PaddedOpKindTopic, BigEndian;
    for opKind := 0 to KINDS
      invariant topics == Topics(Ones(n, opKind))
    {
      var byteIndex := 31 - opKind / 8;
      BitOfByte(bytes, opKind);
      OnesStep(n, opKind);
      if Bit(bytes[byteIndex], opKind % 8) {
        TopicsSnoc(Ones(n, opKind), opKind);
        topics := topics + [PaddedOpKindTopic(opKind)];
      }
    }
  }
}
