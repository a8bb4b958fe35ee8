/** packet_writer, and the reads that recover what it wrote. */
module Fields {
  import opened Bytes
  import opened Packet
  import opened Wire
  import VarInt

  // A call of the writer. Words are the unsigned integers, `Int` the signed ones; strings are
  // bytes, with the limit that is written in the packet's definition.
  datatype Field =
    | Bool(flag: bool)
    | Word(size: nat, u: nat)
    | Int(size: nat, v: int)
    | Number(v: int)
    | Uuid(high: nat, low: nat)
    | Text(max: nat, chars: seq<byte>)

  // What the types of the arguments guarantee.
  predicate Typed(f: Field) {
    match f
    case Bool(_) => true
    case Word(size, u) => size > 0 && u < Pow2(8 * size)
    case Int(size, v) => size > 0 && Fits(size, v)
    case Number(v) => Fits(4, v)
    case Uuid(high, low) => high < Pow2(64) && low < Pow2(64)
    case Text(max, _) => max <= 32767
  }

  // The call does not throw: a string may have four times as many bytes as its limit.
  predicate Accepted(f: Field) {
    f.Text? ==> |f.chars| <= 4 * f.max
  }

  // The reader counts bytes against the limit itself.
  predicate Readable(f: Field) {
    f.Text? ==> |f.chars| <= f.max
  }

  function Encoded(f: Field): seq<byte>
    requires Typed(f) && Accepted(f)
  {
    match f
    case Bool(flag) => [if flag then 1 else 0]
    case Word(size, u) => ToBigEndian(size, u)
    case Int(size, v) => EncodeInt(size, v)
    case Number(v) => EncodeNumber(v)
    case Uuid(high, low) => ToBigEndian(8, high) + ToBigEndian(8, low)
    case Text(_, chars) => EncodeText(chars)
  }

  predicate AllWritable(fields: seq<Field>) {
    forall f :: f in fields ==> Typed(f) && Accepted(f)
  }

  function EncodedAll(fields: seq<Field>): seq<byte>
    requires AllWritable(fields)
  {
    if fields == [] then [] else Encoded(fields[0]) + EncodedAll(fields[1..])
  }

  // ---- Writing ----------------------------------------------------------------------------------

  // The bytes of a word in memory on a little-endian machine.
  function InMemory(n: nat, u: nat): (s: seq<byte>)
    requires u < Pow2(8 * n)
    ensures |s| == n
  {
    if n == 0 then []
    else
      Pow2Byte(n);
      [u % 256] + InMemory(n - 1, u / 256)
  }

  // Read backwards they are the big-endian bytes.
  lemma {:induction false} BackwardsIsBigEndian(n: nat, u: nat, k: nat)
    requires u < Pow2(8 * n) && k < n
    ensures InMemory(n, u)[n - 1 - k] == ToBigEndian(n, u)[k]
  {
    Pow2Byte(n);
    if k < n - 1 {
      BackwardsIsBigEndian(n - 1, u / 256, k);
    }
  }

  class PacketWriter {
    var buffer: seq<byte>

    constructor ()
      ensures buffer == []
    {
      buffer := [];
    }

    // write_bytes, with `reverse`: the bytes of the word from the last to the first.
    method WriteWord(n: nat, u: nat)
      requires u < Pow2(8 * n)
      modifies this
      ensures buffer == old(buffer) + ToBigEndian(n, u)
    {
      hide Pow2, ToBigEndian, InMemory;
      var bytes := InMemory(n, u);
      for k := 0 to n
        invariant buffer == old(buffer) + ToBigEndian(n, u)[..k]
      {
        BackwardsIsBigEndian(n, u, k);
        buffer := buffer + [bytes[n - 1 - k]];
      }
    }

    method WriteNumber(v: int)
      requires Fits(4, v)
      modifies this
      ensures buffer == old(buffer) + EncodeNumber(v)
    {
      var bytes := VarInt.WriteImpl(32, v);
      buffer := buffer + bytes;
    }

    method WriteText(max: nat, chars: seq<byte>) returns (r: Result<()>)
      requires max <= 32767
      modifies this
      ensures if Accepted(Text(max, chars)) then r.Ok? && buffer == old(buffer) + Encoded(Text(max, chars))
              else r == Err(EncodeError) && buffer == old(buffer)
    {
      hide Pow2, VarInt.Write;
      if |chars| > max * 4 {
        return Err(EncodeError);
      }
      ShortLength(|chars|);
      WriteNumber(|chars|);
      buffer := buffer + chars;
      r := Ok(());
    }

    // Any one call.
    method Write(f: Field) returns (r: Result<()>)
      requires Typed(f)
      modifies this
      ensures if Accepted(f) then r.Ok? && buffer == old(buffer) + Encoded(f)
              else r == Err(EncodeError) && buffer == old(buffer)
    {
      hide Pow2, VarInt.Write, ToBigEndian, Unsigned;
      r := Ok(());
      match f {
        case Bool(flag) => buffer := buffer + [if flag then 1 else 0];
        case Word(size, u) => WriteWord(size, u);
        case Int(size, v) => WriteWord(size, Unsigned(8 * size, v));
        case Number(v) => WriteNumber(v);
        case Uuid(high, low) =>
          WriteWord(8, high);
          WriteWord(8, low);
        case Text(max, chars) => r := WriteText(max, chars);
      }
    }
  }

  // ---- Reading ----------------------------------------------------------------------------------

  // The reader's call that matches a call of the writer; it gets the sizes and limits only.
  function Read(f: Field, s: seq<byte>): Parsed<Field> {
    match f
    case Bool(_) => (var (b, s) :- ReadBool(s); Parsed(Bool(b), s))
    case Word(size, _) => (var (u, s) :- ReadWord(size, s); Parsed(Word(size, u), s))
    case Int(size, _) =>
      if size == 0 then Failed(AssertFailed)
      else var (v, s) :- ReadInt(size, s); Parsed(Int(size, v), s)
    case Number(_) => (var (v, s) :- ReadVarInt(s); Parsed(Number(v), s))
    case Uuid(_, _) =>
      var (high, s) :- ReadWord(8, s);
      var (low, s) :- ReadWord(8, s);
      Parsed(Uuid(high, low), s)
    case Text(max, _) => (var (chars, s) :- ReadString(max, s); Parsed(Text(max, chars), s))
  }

  function ReadAll(fields: seq<Field>, s: seq<byte>): Parsed<seq<Field>> {
    if fields == [] then Parsed([], s)
    else
      var (f, s) :- Read(fields[0], s);
      Prepend([f], ReadAll(fields[1..], s))
  }

  // The same on the queue of received bytes.
  method ReadFrom(f: Field, s: PacketReader) returns (r: Result<Field>)
    requires s.Valid()
    modifies s, s.ring
    ensures s.Valid() && s.Did(Read(f, old(s.Body())), old(s.Beyond()), r)
  {
    hide ReadWord, ReadInt, ReadVarInt, ReadString, ReadBool;
    match f {
      case Bool(_) =>
        var b :- s.ReadBool();
        r := Ok(Bool(b));
      case Word(size, _) =>
        var u :- s.ReadWord(size);
        r := Ok(Word(size, u));
      case Int(size, _) =>
        if size == 0 {
          return Err(AssertFailed);
        }
        var v :- s.ReadInt(size);
        r := Ok(Int(size, v));
      case Number(_) =>
        var v :- s.ReadVarInt();
        r := Ok(Number(v));
      case Uuid(_, _) =>
        var high :- s.ReadWord(8);
        var low :- s.ReadWord(8);
        r := Ok(Uuid(high, low));
      case Text(max, _) =>
        var chars :- s.ReadString(max);
        r := Ok(Text(max, chars));
    }
  }

  // A field comes back, and exactly its bytes are consumed; but a string longer than its limit
  // counted in bytes, which the writer let through, is refused.
  lemma FieldRoundTrip(f: Field, s: seq<byte>)
    requires Typed(f) && Accepted(f)
    ensures Read(f, Encoded(f) + s) == if Readable(f) then Parsed(f, s) else Failed(StringTooLong)
  {
    hide EncodeNumber, EncodeText, ToBigEndian, ReadWord, ReadInt, ReadVarInt, ReadString, EncodeInt, Pow2, Fits;
    match f
    case Bool(flag) => assert (Encoded(f) + s)[1..] == s;
    case Word(size, u) => WordRoundTrip(size, u, s);
    case Int(size, v) => IntRoundTrip(size, v, s);
    case Number(v) => NumberRoundTrip(v, s);
    case Uuid(high, low) =>
      WordRoundTrip(8, high, ToBigEndian(8, low) + s);
      WordRoundTrip(8, low, s);
      assert Encoded(f) + s == ToBigEndian(8, high) + (ToBigEndian(8, low) + s);
    case Text(max, chars) => TextRoundTrip(max, chars, s);
  }

  // Any sequence of writer calls is recovered by the same sequence of reader calls, with what
  // follows left over, exactly when every string is within its limit in bytes.
  lemma {:induction false} FieldsRoundTrip(fields: seq<Field>, s: seq<byte>)
    requires AllWritable(fields)
    ensures ReadAll(fields, EncodedAll(fields) + s)
         == if forall f :: f in fields ==> Readable(f) then Parsed(fields, s) else Failed(StringTooLong)
    decreases |fields|
  {
    hide Encoded, Read, Readable, Typed, Accepted;
    if fields == [] {
      assert EncodedAll(fields) + s == s;
    } else {
      var first, more := fields[0], EncodedAll(fields[1..]) + s;
      assert EncodedAll(fields) + s == Encoded(first) + more;
      FieldRoundTrip(first, more);
      FieldsRoundTrip(fields[1..], s);
      assert fields == [first] + fields[1..];
    }
  }
}
