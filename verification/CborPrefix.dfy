/** What the decoder says of inputs it refuses: a truncated encoding is reported as cut, a foreign first byte by its kind. */
module CborPrefix {
  import opened Bytes
  import opened Cbor
  import opened CborBytes
  import opened CborProofs
  import opened CborTheorems

  /** The two errors of an input that ends too soon. */
  ghost predicate IsCut<T>(r: Parsed<T>) {
    r == Err(UnexpectedEnd) || r == Err(LengthExceeds)
  }

  /** How many bytes an item took. */
  function Used(s: Bytes, rest: Bytes): nat
    requires |rest| <= |s|
  {
    |s| - |rest|
  }

  lemma FrontOfCut(s: Bytes, k: nat, n: nat)
    requires k <= n <= |s|
    ensures s[..n][..k] == s[..k] && s[..n][k..] == s[k..][..n - k]
  {
  }

  lemma ArgumentCut(ai: nat, s: Bytes, n: nat)
    requires ReadArgument(ai, s).Ok? && n <= |s|
    ensures var r := ReadArgument(ai, s);
      ReadArgument(ai, s[..n]) == if n < Used(s, r.rest) then Err(UnexpectedEnd) else Ok(r.value, r.rest[..n - Used(s, r.rest)])
    ensures Used(s, ReadArgument(ai, s).rest) in {0, 1, 2, 4, 8}
    ensures ReadArgument(ai, s).rest == s[Used(s, ReadArgument(ai, s).rest)..]
  {
    if 24 <= ai < 28 {
      var k := if ai == 24 then 1 else if ai == 25 then 2 else if ai == 26 then 4 else 8;
      if k <= n {
        FrontOfCut(s, k, n);
      }
    } else if ai < 24 {
      FrontOfCut(s, 0, n);
    }
  }

  /** An item in front of the cut is parsed as before. */
  lemma BeforeCut(s: Bytes, n: nat)
    requires Parse(s).Ok? && Used(s, Parse(s).rest) <= n <= |s|
    ensures Parse(s[..n]) == Ok(Parse(s).value, Parse(s).rest[..n - Used(s, Parse(s).rest)])
    ensures Parse(s).rest == s[Used(s, Parse(s).rest)..]
  {
    hide Parse;
    var r := Parse(s);
    var u := Used(s, r.rest);
    ParseLeaves(s);
    ParseIgnoresTail(s, s[u..n]);
    AcrossCut(s, u, n);
  }

  lemma AcrossCut(s: Bytes, u: nat, n: nat)
    requires u <= n <= |s|
    ensures s[..n] == Raw(s, s[u..]) + s[u..n] && s[u..n] == s[u..][..n - u]
  {
  }

  lemma ParseLeaves(s: Bytes)
    requires Parse(s).Ok?
    ensures Parse(s).rest == s[Used(s, Parse(s).rest)..]
  {
    hide Parse;
    var r := Parse(s);
    ParseSound(s, r.value, r.rest);
  }

  /** An item cut short is reported as cut. */
  lemma {:induction false} ItemCut(s: Bytes, n: nat)
    requires Parse(s).Ok? && n < Used(s, Parse(s).rest)
    ensures IsCut(Parse(s[..n]))
    decreases |s|, 0
  {
    hide ReadArgument, ParseItems, ParsePairs;
    if n > 0 {
      var major, ai := s[0] / 32, s[0] % 32;
      assert s[..n][0] == s[0] && s[..n][1..] == s[1..][..n - 1];
      if major != 7 {
        var a := ReadArgument(ai, s[1..]);
        ArgumentCut(ai, s[1..], n - 1);
        var m := n - 1 - Used(s[1..], a.rest);
        if m >= 0 {
          if major == 4 {
            ItemsCut(a.rest, a.value, m);
          } else if major == 5 {
            PairsCut(a.rest, a.value, [], {}, m);
          }
        }
      }
    }
  }

  lemma {:induction false} ItemsCut(s: Bytes, k: nat, n: nat)
    requires ParseItems(s, k).Ok? && n < Used(s, ParseItems(s, k).rest)
    ensures IsCut(ParseItems(s[..n], k))
    decreases |s|, 1
  {
    hide Parse;
    var r := Parse(s);
    if n < Used(s, r.rest) {
      ItemCut(s, n);
    } else {
      BeforeCut(s, n);
      ItemsCut(r.rest, k - 1, n - Used(s, r.rest));
    }
  }

  lemma {:induction false} PairsCut(s: Bytes, k: nat, prev: Bytes, seen: set<Bytes>, n: nat)
    requires ParsePairs(s, k, prev, seen).Ok? && n < Used(s, ParsePairs(s, k, prev, seen).rest)
    ensures IsCut(ParsePairs(s[..n], k, prev, seen))
    decreases |s|, 1
  {
    hide Parse, Less;
    var key := Parse(s);
    var u := Used(s, key.rest);
    if n < u {
      ItemCut(s, n);
    } else {
      BeforeCut(s, n);
      assert Raw(s[..n], key.rest[..n - u]) == Raw(s, key.rest);
      var value := Parse(key.rest);
      var w := Used(key.rest, value.rest);
      if n - u < w {
        ItemCut(key.rest, n - u);
      } else {
        BeforeCut(key.rest, n - u);
        PairsCut(value.rest, k - 1, Raw(s, key.rest), seen + {Raw(s, key.rest)}, n - u - w);
      }
    }
  }

  /** Every proper prefix of an encoding is refused as cut, never as malformed. */
  lemma TruncatedIsCut(data: Bytes, v: Value, n: nat)
    requires IsCborOf(data, v) && n < |data|
    ensures IsCut(Decode(data[..n]))
  {
    hide Parse, IsCborOf;
    DecodedExactly(data, v);
    ItemCut(data, n);
  }

  /** A first byte that no encoding begins with is refused by its kind. */
  lemma FirstByteRefused(data: Bytes)
    requires data != []
    ensures 0x20 <= data[0] < 0x40 || 0xc0 <= data[0] < 0xe0 ==> Decode(data) == Err(UnsupportedMajor)
    ensures 0xe0 <= data[0] && data[0] !in {0xf4, 0xf5, 0xf6} ==> Decode(data) == Err(UnsupportedSimple)
    ensures data[0] < 0x20 || 0x40 <= data[0] < 0xc0 ==> (data[0] % 0x20 >= 0x1c ==> Decode(data) == Err(Indefinite))
  {
  }
}
