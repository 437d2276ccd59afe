/** The parser and the encoder as they run, refined to the functions of Cbor. */
module CborCodec {
  import opened Bytes
  import opened Cbor
  import opened CborBytes

  datatype Outcome<+T> = Success(value: T) | Failure(error: Error) {
    predicate IsFailure() { Failure? }

    function PropagateFailure<U>(): Outcome<U>
      requires Failure?
    {
      Failure(error)
    }

    function Extract(): T
      requires Success?
    {
      value
    }
  }

  /** A step that returned r and left `rest` did what the parsing function says. */
  predicate Agrees<T(==)>(spec: Parsed<T>, r: Outcome<T>, rest: Bytes) {
    match spec
    case Ok(v, left) => r == Success(v) && rest == left
    case Err(e) => r == Failure(e)
  }

  /** `done` put in front of whatever remains to be parsed. */
  function Prepend<T>(done: seq<T>, tail: Parsed<seq<T>>): Parsed<seq<T>> {
    match tail
    case Ok(more, rest) => Ok(done + more, rest)
    case Err(e) => Err(e)
  }

  lemma PrependNil<T>(tail: Parsed<seq<T>>)
    ensures Prepend([], tail) == tail
  {
    if tail.Ok? {
      assert [] + tail.value == tail.value;
    }
  }

  lemma PrependStep<T>(done: seq<T>, x: T, tail: Parsed<seq<T>>)
    ensures Prepend(done, Prepend([x], tail)) == Prepend(done + [x], tail)
  {
    if tail.Ok? {
      assert done + ([x] + tail.value) == done + [x] + tail.value;
    }
  }

  class Parser {
    const data: Bytes
    var off: nat

    ghost predicate Valid()
      reads this
    {
      off <= |data|
    }

    /** The bytes not yet consumed. */
    function Left(): Bytes
      requires Valid()
      reads this
    {
      data[off..]
    }

    constructor (data: Bytes)
      ensures Valid() && this.data == data && Left() == data
    {
      this.data := data;
      off := 0;
    }

    method ReadN(n: nat) returns (r: Outcome<nat>)
      requires Valid()
      modifies this
      ensures Valid() && off >= old(off)
      ensures Agrees(Cbor.ReadN(n, old(Left())), r, Left())
    {
      if |data| - off < n {
        return Failure(UnexpectedEnd);
      }
      ghost var s := Left();
      var out: nat := 0;
      for i := 0 to n
        invariant off == old(off)
        invariant out == BigEndian(s[..i])
      {
        assert s[..i + 1][..i] == s[..i];
        out := out * 256 + data[off + i];
      }
      off := off + n;
      assert Left() == s[n..];
      return Success(out);
    }

    method ReadArgument(ai: nat) returns (r: Outcome<nat>)
      requires Valid() && ai < 32
      modifies this
      ensures Valid() && off >= old(off)
      ensures Agrees(Cbor.ReadArgument(ai, old(Left())), r, Left())
    {
      if ai < 24 {
        return Success(ai);
      } else if ai == 24 {
        var n :- ReadN(1);
        return if n < 24 then Failure(NonShortest) else Success(n);
      } else if ai == 25 {
        var n :- ReadN(2);
        return if n <= 0xff then Failure(NonShortest) else Success(n);
      } else if ai == 26 {
        var n :- ReadN(4);
        return if n <= 0xffff then Failure(NonShortest) else Success(n);
      } else if ai == 27 {
        var n :- ReadN(8);
        return if n <= 0xffff_ffff then Failure(NonShortest) else Success(n);
      } else {
        return Failure(Indefinite);
      }
    }

    method ReadString(n: nat) returns (r: Outcome<Bytes>)
      requires Valid()
      modifies this
      ensures Valid() && off >= old(off)
      ensures Agrees(Cbor.ReadString(n, old(Left())), r, Left())
    {
      if n > |data| - off {
        return Failure(LengthExceeds);
      }
      var b := data[off..off + n];
      assert b == Left()[..n] && data[off + n..] == Left()[n..];
      off := off + n;
      return Success(b);
    }

    method Parse() returns (r: Outcome<Value>)
      requires Valid()
      modifies this
      ensures Valid() && off >= old(off) && (r.Success? ==> off > old(off))
      ensures Agrees(Cbor.Parse(old(Left())), r, Left())
      decreases |data| - off, 0
    {
      hide Cbor.ReadArgument, ParseItems, ParsePairs;
      if off >= |data| {
        return Failure(UnexpectedEnd);
      }
      var head := data[off];
      off := off + 1;
      assert old(Left())[0] == head && old(Left())[1..] == Left();
      var major, ai := head / 32, head % 32;
      if major == 0 {
        var n :- ReadArgument(ai);
        return Success(Uint(n));
      } else if major == 2 {
        var n :- ReadArgument(ai);
        var b :- ReadString(n);
        return Success(Blob(b));
      } else if major == 3 {
        var n :- ReadArgument(ai);
        var s :- ReadString(n);
        return Success(Text(s));
      } else if major == 4 {
        var n :- ReadArgument(ai);
        var items :- ParseArray(n);
        return Success(Array(items));
      } else if major == 5 {
        var n :- ReadArgument(ai);
        var pairs :- ParseMap(n);
        return Success(Map(pairs));
      } else if major == 7 {
        return if ai == 20 then Success(Bool(false))
          else if ai == 21 then Success(Bool(true))
          else if ai == 22 then Success(Null)
          else Failure(UnsupportedSimple);
      } else {
        return Failure(UnsupportedMajor);
      }
    }

    method ParseArray(n: nat) returns (r: Outcome<seq<Value>>)
      requires Valid()
      modifies this
      ensures Valid() && off >= old(off)
      ensures Agrees(ParseItems(old(Left()), n), r, Left())
      decreases |data| - off, 1
    {
      hide Cbor.Parse;
      var items: seq<Value> := [];
      ghost var spec := ParseItems(Left(), n);
      PrependNil(spec);
      for i := 0 to n
        invariant Valid() && off >= old(off)
        invariant spec == Prepend(items, ParseItems(Left(), n - i))
      {
        var item :- Parse();
        PrependStep(items, item, ParseItems(Left(), n - i - 1));
        items := items + [item];
      }
      assert items + [] == items;
      return Success(items);
    }

    method ParseMap(n: nat) returns (r: Outcome<seq<Pair>>)
      requires Valid()
      modifies this
      ensures Valid() && off >= old(off)
      ensures Agrees(ParsePairs(old(Left()), n, [], {}), r, Left())
      decreases |data| - off, 1
    {
      hide Cbor.Parse;
      var pairs: seq<Pair> := [];
      var prev: Bytes := [];
      var seen: set<Bytes> := {};
      ghost var spec := ParsePairs(Left(), n, [], {});
      PrependNil(spec);
      for i := 0 to n
        invariant Valid() && off >= old(off)
        invariant spec == Prepend(pairs, ParsePairs(Left(), n - i, prev, seen))
      {
        var start := off;
        ghost var s := Left();
        var key :- Parse();
        var raw := data[start..off];
        assert raw == Raw(s, Left());
        if prev != [] && !Less(prev, raw) {
          return Failure(KeyOrder);
        }
        if raw in seen {
          return Failure(DuplicateKey);
        }
        var value :- Parse();
        prev := raw;
        seen := seen + {raw};
        PrependStep(pairs, Pair(key, value), ParsePairs(Left(), n - i - 1, prev, seen));
        pairs := pairs + [Pair(key, value)];
      }
      assert pairs + [] == pairs;
      return Success(pairs);
    }
  }

  /** What the decoder makes of a whole input, given what one parsing step made of it. */
  lemma DecodeAfterParse(data: Bytes, r: Outcome<Value>, left: Bytes)
    requires Agrees(Cbor.Parse(data), r, left)
    ensures match Decode(data)
      case Ok(v, _) => r == Success(v) && left == []
      case Err(e) => r == Failure(e) || (r.Success? && left != [] && e == TrailingBytes)
  {
    hide Cbor.Parse;
  }

  method DecodeCBOR(data: Bytes) returns (r: Outcome<Value>)
    ensures match Decode(data) { case Ok(v, _) => r == Success(v) case Err(e) => r == Failure(e) }
    ensures forall v :: r == Success(v) <==> IsCborOf(data, v)
    ensures r == Failure(TrailingBytes) <==> exists k, v :: 0 <= k < |data| && IsCborOf(data[..k], v)
  {
    hide Cbor.Parse, Decode, Agrees, IsCborOf;
    AcceptedAs(data);
    TrailingExactly(data);
    var p := new Parser(data);
    r := p.Parse();
    DecodeAfterParse(data, r, p.Left());
    if r.Failure? {
      return;
    }
    if p.off != |data| {
      return Failure(TrailingBytes);
    }
  }
}
