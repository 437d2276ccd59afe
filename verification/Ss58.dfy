/** SS58 addresses: a type byte, a public key and a checksum under base58. */
module Ss58 {
  import opened Bytes
  import opened Hex
  import opened Text
  import Base58

  /** Blake2b with a 64-byte digest; nothing else about it is used. */
  type Digest64 = h: Bytes -> Bytes | forall x :: |h(x)| == 64
    witness (x: Bytes) => seq(64, i => 0 as byte)

  const SS58PRE: Bytes := [0x53, 0x53, 0x35, 0x38, 0x50, 0x52, 0x45]

  function Checksum(hash: Digest64, payload: Bytes, n: nat): (c: Bytes)
    requires n <= 64
    ensures |c| == n
  {
    hash(SS58PRE + payload)[..n]
  }

  function ChecksumLength(n: nat): (k: nat)
    ensures k > 0 ==> k + 2 <= n && k <= 8
  {
    if n in {3, 4, 6, 10} then 1
    else if n in {5, 7, 11, 35} then 2
    else if n in {8, 12} then 3
    else if n in {9, 13} then 4
    else if n == 14 then 5
    else if n == 15 then 6
    else if n == 16 then 7
    else if n == 17 then 8
    else 0
  }

  /** The hexadecimal key of an address, empty when the address is refused. */
  function Decode(hash: Digest64, address: string): string {
    var format := Base58.Decoded(address);
    var k := ChecksumLength(|format|);
    if k == 0 then ""
    else
      var bss := format[..|format| - k];
      if BytesToHex(Checksum(hash, bss, k)) != BytesToHex(format[|format| - k..]) then ""
      else BytesToHex(format[1..|format| - k])
  }

  function Encode(hash: Digest64, address: string, addressType: int): string {
    var key := HexToBytes(address);
    if |key| == 32 then EncodeKey(hash, key, addressType, 2)
    else if |key| in {1, 2, 4, 8} then EncodeKey(hash, key, addressType, 1)
    else ""
  }

  function EncodeKey(hash: Digest64, key: Bytes, addressType: int, k: nat): string
    requires k <= 64
  {
    var format: Bytes := [addressType % 256] + key;
    Base58.Encoded(format + Checksum(hash, format, k))
  }

  /** What an encoded key decodes to, before the checksum is looked at. */
  lemma FormatOfEncodeKey(hash: Digest64, key: Bytes, addressType: int, k: nat)
    requires k <= 64
    ensures var format: Bytes := [addressType % 256] + key;
      Base58.Decoded(EncodeKey(hash, key, addressType, k)) == format + Checksum(hash, format, k)
  {
    hide Base58.Decoded, Base58.Encoded, Checksum;
    var format: Bytes := [addressType % 256] + key;
    Base58.DecodeOfEncode(format + Checksum(hash, format, k));
  }

  /** Decoding an encoded key gives it back in lower case, for every address type. */
  lemma DecodeOfEncode(hash: Digest64, address: string, addressType: int)
    requires IsHex(TrimHex(address)) && |TrimHex(address)| / 2 in {1, 2, 4, 8, 32}
    ensures Decode(hash, Encode(hash, address, addressType)) == ToLower(TrimHex(address))
  {
    hide Base58.Decoded, EncodeKey, Checksum, BytesToHex, HexPairs;
    var key := HexToBytes(address);
    var k := if |key| == 32 then 2 else 1;
    var format: Bytes := [addressType % 256] + key;
    FormatOfEncodeKey(hash, key, addressType, k);
    var whole := format + Checksum(hash, format, k);
    assert whole[..|whole| - k] == format && whole[|whole| - k..] == Checksum(hash, format, k);
    assert whole[1..|whole| - k] == key;
    HexLowers(TrimHex(address));
  }

  lemma FormatParts(format: Bytes, k: nat)
    requires k < |format|
    ensures format == [format[0]] + format[1..|format| - k] + format[|format| - k..]
  {
  }

  /** An accepted address is over the alphabet and ends in the checksum of what is before it. */
  lemma AcceptedParts(hash: Digest64, address: string)
    requires Decode(hash, address) != ""
    ensures var format := Base58.Decoded(address);
      var k := ChecksumLength(|format|);
      && k > 0
      && HexToBytes(Decode(hash, address)) == format[1..|format| - k]
      && format == [format[0]] + format[1..|format| - k] + Checksum(hash, format[..|format| - k], k)
      && Base58.Encoded(format) == address
  {
    hide Base58.Encoded, Base58.Decoded, Base58.InAlphabet, Checksum, BytesToHex, HexToBytes, ChecksumLength;
    var format := Base58.Decoded(address);
    var k := ChecksumLength(|format|);
    HexToBytesRoundTrip(format[1..|format| - k]);
    BytesToHexInjective(Checksum(hash, format[..|format| - k], k), format[|format| - k..]);
    FormatParts(format, k);
    Base58.AcceptedAlphabet(address);
    Base58.EncodeOfDecode(address);
  }

  /**
   An accepted address is rebuilt from its key and its first byte exactly when it has one of the
   lengths the encoder writes.
   */
  lemma EncodeOfDecode(hash: Digest64, address: string)
    requires Decode(hash, address) != ""
    ensures var format := Base58.Decoded(address);
      |format| >= 3 &&
      (Encode(hash, Decode(hash, address), format[0]) == address <==> |format| in {3, 4, 6, 10, 35})
  {
    hide Base58.Decoded, Base58.Encoded, Decode, Checksum, HexToBytes;
    AcceptedParts(hash, address);
    var format := Base58.Decoded(address);
    var n := |format|;
    var k := ChecksumLength(n);
    var key := format[1..n - k];
    var k' := if |key| == 32 then 2 else 1;
    assert format[0] % 256 == format[0];
    assert [format[0]] + key == format[..n - k];
    if n in {3, 4, 6, 10, 35} {
      assert k == k';
    } else {
      FormatOfEncodeKey(hash, key, format[0], k');
      assert |key| in {2, 4, 8};
    }
  }

  // The address written out

  /** A decoded length of n goes with a checksum of k bytes. */
  ghost predicate LengthHas(n: nat, k: nat) {
    (n, k) in {(3, 1), (4, 1), (6, 1), (10, 1), (5, 2), (7, 2), (11, 2), (35, 2), (8, 3), (12, 3),
               (9, 4), (13, 4), (14, 5), (15, 6), (16, 7), (17, 8)}
  }

  lemma LengthExactly(n: nat, k: nat)
    ensures LengthHas(n, k) <==> k > 0 && ChecksumLength(n) == k
  {
  }

  /** The last k bytes are the first k of the digest of "SS58PRE" and the bytes before them. */
  ghost predicate EndsInChecksum(hash: Digest64, format: Bytes, k: nat)
    requires k <= |format| && k <= 64
  {
    format[|format| - k..] == hash([0x53, 0x53, 0x35, 0x38, 0x50, 0x52, 0x45] + format[..|format| - k])[..k]
  }

  /** The address writes bytes of a known length: a type, the key and the checksum. */
  ghost predicate IsAddressOf(hash: Digest64, address: string, key: Bytes) {
    exists format: Bytes, k: nat ::
      && Base58.Writes(address, format)
      && LengthHas(|format|, k) && k + 2 <= |format| && k <= 8
      && EndsInChecksum(hash, format, k)
      && key == format[1..|format| - k]
  }

  lemma ChecksumMatches(hash: Digest64, format: Bytes, k: nat)
    requires k <= |format| && k <= 8
    ensures BytesToHex(Checksum(hash, format[..|format| - k], k)) == BytesToHex(format[|format| - k..]) <==>
      EndsInChecksum(hash, format, k)
  {
    hide BytesToHex;
    var c, d := Checksum(hash, format[..|format| - k], k), format[|format| - k..];
    if BytesToHex(c) == BytesToHex(d) {
      BytesToHexInjective(c, d);
    }
  }

  /** What is answered once the address is decoded. */
  lemma DecodeByParts(hash: Digest64, address: string)
    ensures var format := Base58.Decoded(address);
      var k := ChecksumLength(|format|);
      Decode(hash, address) ==
        if k > 0 && EndsInChecksum(hash, format, k) then BytesToHex(format[1..|format| - k]) else ""
  {
    hide Base58.Decoded, BytesToHex, ChecksumLength, Checksum, EndsInChecksum;
    var format := Base58.Decoded(address);
    ChecksumMatches(hash, format, ChecksumLength(|format|));
  }

  lemma HexOfSome(b: Bytes)
    ensures BytesToHex(b) == "" <==> b == []
  {
  }

  lemma KeyIsAddress(hash: Digest64, address: string) returns (key: Bytes)
    requires Decode(hash, address) != ""
    ensures IsAddressOf(hash, address, key) && Decode(hash, address) == BytesToHex(key)
  {
    hide Base58.Writes, Base58.Decoded, Base58.InAlphabet, BytesToHex, ChecksumLength, LengthHas, EndsInChecksum, Decode;
    var format := Base58.Decoded(address);
    var k := ChecksumLength(|format|);
    DecodeByParts(hash, address);
    LengthExactly(|format|, k);
    Base58.AcceptedAlphabet(address);
    Base58.DecodedExactly(address, format);
    key := format[1..|format| - k];
  }

  lemma AddressIsKey(hash: Digest64, address: string, key: Bytes)
    requires IsAddressOf(hash, address, key)
    ensures key != [] && Decode(hash, address) == BytesToHex(key)
  {
    hide Base58.Writes, Base58.Decoded, Base58.InAlphabet, BytesToHex, ChecksumLength, LengthHas, EndsInChecksum, Decode;
    var format: Bytes, k: nat :|
      && Base58.Writes(address, format)
      && LengthHas(|format|, k) && k + 2 <= |format| && k <= 8
      && EndsInChecksum(hash, format, k)
      && key == format[1..|format| - k];
    Base58.DecodedExactly(address, format);
    LengthExactly(|format|, k);
    DecodeByParts(hash, address);
  }

  /** An address is answered with a key, in hexadecimal, exactly when it is an address of it; others are refused. */
  lemma DecodeExactly(hash: Digest64, address: string, key: Bytes)
    ensures IsAddressOf(hash, address, key) <==> key != [] && Decode(hash, address) == BytesToHex(key)
    ensures Decode(hash, address) == "" || exists b :: IsAddressOf(hash, address, b)
  {
    hide BytesToHex, Decode, IsAddressOf;
    HexOfSome(key);
    if Decode(hash, address) != "" {
      var b := KeyIsAddress(hash, address);
      if Decode(hash, address) == BytesToHex(key) {
        BytesToHexInjective(key, b);
      }
    }
    if IsAddressOf(hash, address, key) {
      AddressIsKey(hash, address, key);
    }
  }

  /** s writes a front and k bytes of its checksum. */
  ghost predicate WritesWithChecksum(hash: Digest64, s: string, front: Bytes, k: nat)
    requires k <= 64
  {
    exists format: Bytes ::
      && Base58.Writes(s, format)
      && k <= |format| && format[..|format| - k] == front && EndsInChecksum(hash, format, k)
  }

  lemma FrontAndTail(format: Bytes, front: Bytes, tail: Bytes)
    ensures format == front + tail <==>
      |tail| <= |format| && format[..|format| - |tail|] == front && format[|format| - |tail|..] == tail
  {
    if |tail| <= |format| {
      assert format == format[..|format| - |tail|] + format[|format| - |tail|..];
    }
    assert (front + tail)[..|front|] == front && (front + tail)[|front|..] == tail;
  }

  lemma PartsAre(hash: Digest64, format: Bytes, front: Bytes, k: nat)
    requires k <= 64
    ensures format == front + Checksum(hash, front, k) <==>
      k <= |format| && format[..|format| - k] == front && EndsInChecksum(hash, format, k)
  {
    FrontAndTail(format, front, Checksum(hash, front, k));
  }

  lemma EncodeKeyExactly(hash: Digest64, key: Bytes, addressType: int, k: nat, s: string)
    requires k <= 64
    ensures EncodeKey(hash, key, addressType, k) == s <==> WritesWithChecksum(hash, s, [addressType % 256] + key, k)
  {
    hide Base58.Writes, Base58.Encoded, Checksum, EndsInChecksum;
    var front: Bytes := [addressType % 256] + key;
    var whole := front + Checksum(hash, front, k);
    PartsAre(hash, whole, front, k);
    Base58.EncodedExactly(s, whole);
    if format: Bytes :|
      && Base58.Writes(s, format)
      && k <= |format| && format[..|format| - k] == front && EndsInChecksum(hash, format, k)
    {
      PartsAre(hash, format, front, k);
    }
  }

  /** The address of a key writes the type, the key and one or two bytes of its checksum; other lengths give none. */
  lemma EncodeExactly(hash: Digest64, address: string, addressType: int, s: string)
    ensures var key := HexToBytes(address);
      Encode(hash, address, addressType) == s <==>
        if |key| in {1, 2, 4, 8, 32} then
          WritesWithChecksum(hash, s, [addressType % 256] + key, if |key| == 32 then 2 else 1)
        else s == ""
  {
    hide HexToBytes, EncodeKey, WritesWithChecksum;
    var key := HexToBytes(address);
    EncodeKeyExactly(hash, key, addressType, if |key| == 32 then 2 else 1, s);
  }
}
