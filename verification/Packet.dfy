/** What each read of a packet makes of the bytes within the packet's budget. */
module Wire {
  import opened Bytes
  import VarInt

  function ReadByte(s: seq<byte>): Parsed<byte> {
    if s == [] then Failed(AssertFailed) else Parsed(s[0], s[1..])
  }

  // The rest of a varint, from given loop variables.
  function VarIntFrom(position: nat, value: nat, s: seq<byte>): Parsed<int> {
    match VarInt.ReadFrom(32, position, value, s)
    case Value(u, used) => Parsed(Signed(32, u), s[used..])
    case Incomplete(_, _) => Failed(AssertFailed)
    case Bad => Failed(InvalidVarInt)
  }

  function ReadVarInt(s: seq<byte>): Parsed<int> {
    VarIntFrom(0, 0, s)
  }

  // read_int_n and read_float_n, before the bit_cast.
  function ReadWord(n: nat, s: seq<byte>): (p: Parsed<nat>)
    ensures p.Parsed? ==> |p.rest| == |s| - n
  {
    if |s| < n then Failed(AssertFailed) else Parsed(BigEndian(s[..n]), s[n..])
  }

  function ReadInt(n: nat, s: seq<byte>): (p: Parsed<int>)
    requires n > 0
    ensures p.Parsed? ==> |p.rest| == |s| - n
  {
    var (u, s) :- ReadWord(n, s);
    Parsed(Signed(8 * n, u), s)
  }

  function ReadBool(s: seq<byte>): Parsed<bool> {
    var (b, s) :- ReadByte(s);
    if b == 0 then Parsed(false, s) else if b == 1 then Parsed(true, s) else Failed(InvalidBoolean)
  }

  function ReadChars(n: nat, s: seq<byte>): Parsed<seq<byte>> {
    if |s| < n then Failed(AssertFailed) else Parsed(s[..n], s[n..])
  }

  function ReadString(max: nat, s: seq<byte>): Parsed<seq<byte>> {
    var (length, s) :- ReadVarInt(s);
    if length < 0 then Failed(NegativeStringLength)
    else if length > max then Failed(StringTooLong)
    else ReadChars(length, s)
  }

  // ---- What these reads invert ---------------------------------------------------------------

  predicate Fits(size: nat, v: int)
    requires size > 0
  {
    FitsBits(8 * size, v)
  }

  function EncodeInt(size: nat, v: int): (s: seq<byte>)
    requires size > 0 && Fits(size, v)
    ensures |s| == size
  {
    ToBigEndian(size, Unsigned(8 * size, v))
  }

  function EncodeNumber(v: int): seq<byte>
    requires Fits(4, v)
  {
    VarInt.Write(Unsigned(32, v))
  }

  function EncodeText(chars: seq<byte>): seq<byte> {
    VarInt.Write(|chars|) + chars
  }

  lemma WordRoundTrip(size: nat, u: nat, s: seq<byte>)
    requires u < Pow2(8 * size)
    ensures ReadWord(size, ToBigEndian(size, u) + s) == Parsed(u, s)
  {
    hide ToBigEndian, BigEndian, Pow2;
    BigEndianInverts(size, u);
    var w := ToBigEndian(size, u);
    assert (w + s)[..size] == w && (w + s)[size..] == s;
  }

  lemma IntRoundTrip(size: nat, v: int, s: seq<byte>)
    requires size > 0 && Fits(size, v)
    ensures ReadInt(size, EncodeInt(size, v) + s) == Parsed(v, s)
  {
    hide ToBigEndian, BigEndian, Pow2, ReadWord;
    WordRoundTrip(size, Unsigned(8 * size, v), s);
  }

  lemma ShortLength(n: nat)
    requires n <= 4 * 32767
    ensures Fits(4, n) && Unsigned(32, n) == n
  {
    Pow2Widths();
  }

  lemma NumberRoundTrip(v: int, s: seq<byte>)
    requires Fits(4, v)
    ensures ReadVarInt(EncodeNumber(v) + s) == Parsed(v, s)
  {
    hide VarInt.Write, VarInt.ReadFrom;
    var w := VarInt.Write(Unsigned(32, v));
    VarInt.RoundTrip(32, v, s);
    assert (w + s)[|w|..] == s;
  }

  lemma TextRoundTrip(max: nat, chars: seq<byte>, s: seq<byte>)
    requires max <= 32767 && |chars| <= 4 * max
    ensures ReadString(max, EncodeText(chars) + s) ==
            if |chars| <= max then Parsed(chars, s) else Failed(StringTooLong)
  {
    hide VarInt.Write, ReadVarInt, Fits, Unsigned;
    ShortLength(|chars|);
    NumberRoundTrip(|chars|, chars + s);
    assert EncodeNumber(|chars|) == VarInt.Write(|chars|);
    assert EncodeText(chars) + s == VarInt.Write(|chars|) + (chars + s);
    assert (chars + s)[..|chars|] == chars && (chars + s)[|chars|..] == s;
  }

  // What the reads make of bytes that are no field: each fails in its own way.
  lemma VarIntErrors(s: seq<byte>)
    ensures |s| >= 5 && VarInt.AllContinue(s, 5) ==> ReadVarInt(s) == Failed(InvalidVarInt)
    ensures |s| < 5 && VarInt.AllContinue(s, |s|) ==> ReadVarInt(s) == Failed(AssertFailed)
  {
    hide VarInt.ReadFrom, Pow2, VarInt.Base128;
    VarInt.ReadExact(32, s);
  }

  lemma StringErrors(max: nat, length: int, s: seq<byte>)
    requires Fits(4, length)
    ensures length < 0 ==> ReadString(max, EncodeNumber(length) + s) == Failed(NegativeStringLength)
    ensures length > max ==> ReadString(max, EncodeNumber(length) + s) == Failed(StringTooLong)
    ensures |s| < length <= max ==> ReadString(max, EncodeNumber(length) + s) == Failed(AssertFailed)
  {
    hide EncodeNumber, ReadVarInt, Fits;
    NumberRoundTrip(length, s);
  }

  lemma BoolErrors(b: byte, s: seq<byte>)
    ensures ReadBool([]) == Failed(AssertFailed)
    ensures ReadBool([b] + s) ==
            if b > 1 then Failed(InvalidBoolean) else Parsed(b == 1, s)
  {
    assert ([b] + s)[1..] == s;
  }
}

/** packet_reader: reads from the queue of received bytes, within the budget of one packet. */
module Packet {
  import opened Bytes
  import opened Ring
  import VarInt
  import Wire

  class PacketReader {
    const ring: RingBuffer
    var remaining: nat

    ghost predicate Valid()
      reads this, ring, ring.data
    {
      ring.Valid() && remaining <= |ring.contents|
    }

    // The bytes within the budget, and those received after them.
    ghost function Body(): seq<byte>
      requires remaining <= |ring.contents|
      reads this, ring
    {
      ring.contents[..remaining]
    }

    ghost function Beyond(): seq<byte>
      requires remaining <= |ring.contents|
      reads this, ring
    {
      ring.contents[remaining..]
    }

    // A read returned what `p` says, took its bytes from the budget, and left the bytes
    // of later packets alone.
    ghost predicate Did<T>(p: Parsed<T>, beyond: seq<byte>, r: Result<T>)
      requires remaining <= |ring.contents|
      reads this, ring
    {
      match p
      case Parsed(v, rest) => r == Ok(v) && Body() == rest && Beyond() == beyond
      case Failed(e) => r == Err(e)
    }

    constructor (ring: RingBuffer, length: nat)
      requires ring.Valid() && length <= |ring.contents|
      ensures Valid() && this.ring == ring && remaining == length
    {
      this.ring, remaining := ring, length;
    }

    method ReadByte() returns (r: Result<byte>)
      requires Valid()
      modifies this, ring
      ensures Valid() && Did(Wire.ReadByte(old(Body())), old(Beyond()), r)
    {
      if remaining == 0 {
        return Err(AssertFailed);
      }
      remaining := remaining - 1;
      r := ring.Front();
      var _ := ring.Erase(1);
    }

    // All the bytes of the packet, without consuming them.
    method Peek() returns (bytes: seq<byte>)
      requires Valid()
      ensures bytes == Body()
    {
      bytes := [];
      for k := 0 to remaining
        invariant bytes == ring.contents[..k]
      {
        bytes := bytes + [ring.data[Cell(ring.data.Length, ring.read, k)]];
      }
    }

    method ReadVarInt() returns (r: Result<int>)
      requires Valid()
      modifies this, ring
      ensures Valid() && Did(Wire.ReadVarInt(old(Body())), old(Beyond()), r)
    {
      var position, value := 0, 0;
      while true
        invariant Valid() && Beyond() == old(Beyond())
        invariant Wire.VarIntFrom(position, value, Body()) == Wire.ReadVarInt(old(Body()))
        decreases remaining
      {
        ghost var s := Body();
        var b :- ReadByte();
        assert forall n: nat :: n <= |s[1..]| ==> s[1..][n..] == s[n + 1..];
        match VarInt.Step(32, position, value, b) {
          case Complete(u) => return Ok(Signed(32, u));
          case Invalid => return Err(InvalidVarInt);
          case More(p, v) => position, value := p, v;
        }
      }
    }

    method Discard(n: nat) returns (r: Result<()>)
      requires Valid()
      modifies this, ring
      ensures Valid()
      ensures Did(if n <= |old(Body())| then Parsed((), old(Body())[n..]) else Failed(AssertFailed),
                  old(Beyond()), r)
    {
      if n > remaining {
        return Err(AssertFailed);
      }
      ghost var s := ring.contents;
      remaining := remaining - n;
      var k := n;
      while k > 0
        invariant ring.Valid() && 0 <= k <= n <= |s| && remaining == old(remaining) - n
        invariant ring.contents == s[n - k..]
      {
        k := k - 1;
        var _ := ring.Erase(1);
      }
      r := Ok(());
    }

    // `v += TU(byte) << (i - 8)`; the bytes do not overlap, so the sum stays below 2^(8n).
    method ReadWord(n: nat) returns (r: Result<nat>)
      requires Valid()
      modifies this, ring
      ensures Valid() && Did(Wire.ReadWord(n, old(Body())), old(Beyond()), r)
    {
      hide Gathered, Pow2, BigEndian;
      var v := 0;
      ghost var s := Body();
      NoneGathered(s, n);
      for k := 0 to n
        invariant Valid() && Beyond() == old(Beyond())
        invariant k <= |s| && Body() == s[k..] && v == Gathered(s, k, n)
      {
        var b :- ReadByte();
        AddByte(s, k, n);
        v := v + b * Pow2(8 * (n - k - 1));
      }
      AllGathered(s, n);
      r := Ok(v);
    }

    method ReadInt(n: nat) returns (r: Result<int>)
      requires Valid() && n > 0
      modifies this, ring
      ensures Valid() && Did(Wire.ReadInt(n, old(Body())), old(Beyond()), r)
    {
      var u :- ReadWord(n);
      r := Ok(Signed(8 * n, u));
    }

    method ReadBool() returns (r: Result<bool>)
      requires Valid()
      modifies this, ring
      ensures Valid() && Did(Wire.ReadBool(old(Body())), old(Beyond()), r)
    {
      var b :- ReadByte();
      r := if b == 0 then Ok(false) else if b == 1 then Ok(true) else Err(InvalidBoolean);
    }

    method ReadChars(n: nat) returns (r: Result<seq<byte>>)
      requires Valid()
      modifies this, ring
      ensures Valid() && Did(Wire.ReadChars(n, old(Body())), old(Beyond()), r)
    {
      var out := [];
      ghost var s := Body();
      for k := 0 to n
        invariant Valid() && Beyond() == old(Beyond())
        invariant k <= |s| && Body() == s[k..] && out == s[..k]
      {
        var b :- ReadByte();
        out := out + [b];
      }
      r := Ok(out);
    }

    method ReadString(max: nat) returns (r: Result<seq<byte>>)
      requires Valid()
      modifies this, ring
      ensures Valid() && Did(Wire.ReadString(max, old(Body())), old(Beyond()), r)
    {
      var length :- ReadVarInt();
      if length < 0 {
        return Err(NegativeStringLength);
      }
      if length > max {
        return Err(StringTooLong);
      }
      r := ReadChars(length);
    }
  }

  // The first k of n bytes, at their places in the word.
  ghost function Gathered(s: seq<byte>, k: nat, n: nat): nat
    requires k <= |s| && k <= n
  {
    BigEndian(s[..k]) * Pow2(8 * (n - k))
  }

  lemma NoneGathered(s: seq<byte>, n: nat)
    ensures Gathered(s, 0, n) == 0
  {
    hide Pow2;
  }

  lemma AllGathered(s: seq<byte>, n: nat)
    requires n <= |s|
    ensures Gathered(s, n, n) == BigEndian(s[..n])
  {
  }

  lemma AddByte(s: seq<byte>, k: nat, n: nat)
    requires k < |s| && k < n
    ensures Gathered(s, k + 1, n) == Gathered(s, k, n) + s[k] * Pow2(8 * (n - k - 1))
  {
    hide Pow2;
    assert s[..k + 1][..k] == s[..k];
    Pow2Byte(n - k);
  }
}
