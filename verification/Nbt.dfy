/** NBT trees: the recursive-descent parser, as functions of the bytes, and an encoder that
    it inverts. */
module Nbt {
  import opened Bytes
  import opened Wire

  // Integers by their values; floats by the bits they are cast from.
  datatype Tag =
    | Byte(v: int) | Short(v: int) | Int(v: int) | Long(v: int)
    | Float(bits: nat) | Double(bits: nat)
    | String(chars: seq<byte>)
    | List(items: seq<Tag>)
    | Compound(entries: seq<Entry>)
    | IntArray(ints: seq<int>)
    | LongArray(longs: seq<int>)

  datatype Entry = Entry(name: seq<byte>, tag: Tag)

  const TAG_END: byte := 0

  function TypeOf(tag: Tag): (t: byte)
    ensures t != TAG_END
  {
    match tag
    case Byte(_) => 1 case Short(_) => 2 case Int(_) => 3 case Long(_) => 4
    case Float(_) => 5 case Double(_) => 6
    case String(_) => 8 case List(_) => 9 case Compound(_) => 10
    case IntArray(_) => 11 case LongArray(_) => 12
  }

  // ---- Parsing ---------------------------------------------------------------------------

  function Map<T, U>(p: Parsed<T>, f: T -> U): Parsed<U> {
    match p
    case Parsed(v, rest) => Parsed(f(v), rest)
    case Failed(e) => Failed(e)
  }

  // tag::create. Every successful creation consumes at least one byte.
  function Create(t: byte, s: seq<byte>): (p: Parsed<Tag>)
    ensures p.Parsed? ==> |p.rest| < |s|
    decreases |s|, 1
  {
    if t == 0 then Failed(Aborted)
    else if t == 1 then Map(Wire.ReadInt(1, s), v => Byte(v))
    else if t == 2 then Map(Wire.ReadInt(2, s), v => Short(v))
    else if t == 3 then Map(Wire.ReadInt(4, s), v => Int(v))
    else if t == 4 then Map(Wire.ReadInt(8, s), v => Long(v))
    else if t == 5 then Map(Wire.ReadWord(4, s), v => Float(v))
    else if t == 6 then Map(Wire.ReadWord(8, s), v => Double(v))
    else if t == 8 then Map(ReadName(s), v => String(v))
    else if t == 9 then
      var (t', s) :- Wire.ReadByte(s);
      var (n, s) :- Wire.ReadInt(4, s);
      Map(ReadItems(t', n, s), items => List(items))
    else if t == 10 then Map(ReadEntries(s), entries => Compound(entries))
    else if t == 11 then
      var (n, s) :- Wire.ReadInt(4, s);
      Map(ReadInts(4, n, s), ints => IntArray(ints))
    else if t == 12 then
      var (n, s) :- Wire.ReadInt(4, s);
      Map(ReadInts(8, n, s), longs => LongArray(longs))
    else Failed(NbtParseError)   // byte arrays, and types that do not exist
  }

  // A 16-bit length and that many bytes.
  function ReadName(s: seq<byte>): (p: Parsed<seq<byte>>)
    ensures p.Parsed? ==> |p.rest| < |s|
  {
    var (n, s) :- Wire.ReadWord(2, s);
    Wire.ReadChars(n, s)
  }

  function ReadItems(t: byte, n: int, s: seq<byte>): (p: Parsed<seq<Tag>>)
    ensures p.Parsed? ==> |p.rest| <= |s|
    decreases |s|, 2
  {
    if n <= 0 then Parsed([], s)
    else
      var (tag, s') :- Create(t, s);
      var (more, s') :- ReadItems(t, n - 1, s');
      Parsed([tag] + more, s')
  }

  function ReadEntries(s: seq<byte>): (p: Parsed<seq<Entry>>)
    ensures p.Parsed? ==> |p.rest| < |s|
    decreases |s|, 0
  {
    var (t, s') :- Wire.ReadByte(s);
    if t == TAG_END then Parsed([], s')
    else
      var (name, s') :- ReadName(s');
      var (tag, s') :- Create(t, s');
      var (more, s') :- ReadEntries(s');
      Parsed([Entry(name, tag)] + more, s')
  }

  function ReadInts(size: nat, n: int, s: seq<byte>): (p: Parsed<seq<int>>)
    requires size > 0
    ensures p.Parsed? ==> |p.rest| <= |s|
    decreases |s|
  {
    if n <= 0 then Parsed([], s)
    else
      var (v, s') :- Wire.ReadInt(size, s);
      var (more, s') :- ReadInts(size, n - 1, s');
      Parsed([v] + more, s')
  }

  // A file: nothing, or one tag whose name is dropped.
  datatype Root = Empty | Root(tag: Tag)

  function ReadFile(s: seq<byte>): Parsed<Root> {
    var (t, s) :- Wire.ReadByte(s);
    if t == TAG_END then Parsed(Empty, s)
    else
      var (_, s) :- ReadName(s);
      Map(Create(t, s), tag => Root(tag))
  }

  // ---- Encoding --------------------------------------------------------------------------

  // The trees that have an encoding: numbers in range, lists of one type, lengths that can be
  // written.
  predicate WellFormed(tag: Tag) {
    match tag
    case Byte(v) => Fits(1, v)
    case Short(v) => Fits(2, v)
    case Int(v) => Fits(4, v)
    case Long(v) => Fits(8, v)
    case Float(bits) => bits < Pow2(32)
    case Double(bits) => bits < Pow2(64)
    case String(chars) => |chars| < 0x1_0000
    case List(items) =>
      && |items| < 0x8000_0000
      && forall x :: x in items ==> WellFormed(x) && TypeOf(x) == ItemType(items)
    case Compound(entries) =>
      forall e :: e in entries ==> |e.name| < 0x1_0000 && WellFormed(e.tag)
    case IntArray(ints) => |ints| < 0x8000_0000 && forall v :: v in ints ==> Fits(4, v)
    case LongArray(longs) => |longs| < 0x8000_0000 && forall v :: v in longs ==> Fits(8, v)
  }

  // tag_list::item_type
  function ItemType(items: seq<Tag>): byte {
    if items == [] then TAG_END else TypeOf(items[0])
  }

  function EncodeLength(n: nat): (s: seq<byte>)
    requires n < 0x8000_0000
    ensures |s| == 4
  {
    Pow2Widths();
    EncodeInt(4, n)
  }

  function EncodeName(chars: seq<byte>): (s: seq<byte>)
    requires |chars| < 0x1_0000
  {
    Pow2Widths();
    ToBigEndian(2, |chars|) + chars
  }

  function Encode(tag: Tag): seq<byte>
    requires WellFormed(tag)
    decreases tag
  {
    match tag
    case Byte(v) => EncodeInt(1, v)
    case Short(v) => EncodeInt(2, v)
    case Int(v) => EncodeInt(4, v)
    case Long(v) => EncodeInt(8, v)
    case Float(bits) => ToBigEndian(4, bits)
    case Double(bits) => ToBigEndian(8, bits)
    case String(chars) => EncodeName(chars)
    case List(items) => [ItemType(items)] + EncodeLength(|items|) + EncodeItems(items)
    case Compound(entries) => EncodeEntries(entries)
    case IntArray(ints) => EncodeLength(|ints|) + EncodeInts(4, ints)
    case LongArray(longs) => EncodeLength(|longs|) + EncodeInts(8, longs)
  }

  function EncodeItems(items: seq<Tag>): seq<byte>
    requires forall x :: x in items ==> WellFormed(x)
    decreases items
  {
    if items == [] then [] else Encode(items[0]) + EncodeItems(items[1..])
  }

  function EncodeEntries(entries: seq<Entry>): seq<byte>
    requires forall e :: e in entries ==> |e.name| < 0x1_0000 && WellFormed(e.tag)
    decreases entries
  {
    if entries == [] then [TAG_END]
    else
      var e := entries[0];
      [TypeOf(e.tag)] + EncodeName(e.name) + Encode(e.tag) + EncodeEntries(entries[1..])
  }

  function EncodeInts(size: nat, ints: seq<int>): seq<byte>
    requires size > 0 && forall v :: v in ints ==> Fits(size, v)
  {
    if ints == [] then [] else EncodeInt(size, ints[0]) + EncodeInts(size, ints[1..])
  }

  // ---- Parsing inverts encoding ------------------------------------------------------------

  lemma LengthRoundTrip(n: nat, s: seq<byte>)
    requires n < 0x8000_0000
    ensures Wire.ReadInt(4, EncodeLength(n) + s) == Parsed(n, s)
  {
    hide Wire.ReadInt, EncodeInt;
    Pow2Widths();
    IntRoundTrip(4, n, s);
  }

  lemma NameRoundTrip(chars: seq<byte>, s: seq<byte>)
    requires |chars| < 0x1_0000
    ensures ReadName(EncodeName(chars) + s) == Parsed(chars, s)
  {
    hide ToBigEndian, Wire.ReadWord;
    Pow2Widths();
    WordRoundTrip(2, |chars|, chars + s);
    assert EncodeName(chars) + s == ToBigEndian(2, |chars|) + (chars + s);
  }

  lemma {:induction false} IntsRoundTrip(size: nat, ints: seq<int>, s: seq<byte>)
    requires size > 0 && forall v :: v in ints ==> Fits(size, v)
    ensures ReadInts(size, |ints|, EncodeInts(size, ints) + s) == Parsed(ints, s)
    decreases |ints|
  {
    hide EncodeInt, Wire.ReadInt, Fits;
    if ints == [] {
      assert EncodeInts(size, ints) + s == s;
    } else {
      var first, rest := EncodeInt(size, ints[0]), EncodeInts(size, ints[1..]);
      assert EncodeInts(size, ints) + s == first + (rest + s);
      IntRoundTrip(size, ints[0], rest + s);
      IntsRoundTrip(size, ints[1..], s);
      assert [ints[0]] + ints[1..] == ints;
    }
  }

  // Parsing the encoding of a tree, whatever follows it, gives the tree and leaves what follows.
  lemma {:induction false} ParseInvertsEncode(tag: Tag, s: seq<byte>)
    requires WellFormed(tag)
    ensures Create(TypeOf(tag), Encode(tag) + s) == Parsed(tag, s)
    decreases tag
  {
    hide Wire.ReadInt, Wire.ReadWord, EncodeInt, EncodeLength, EncodeName, ReadName, ToBigEndian, Fits, Pow2;
    match tag
    case Byte(v) => IntRoundTrip(1, v, s);
    case Short(v) => IntRoundTrip(2, v, s);
    case Int(v) => IntRoundTrip(4, v, s);
    case Long(v) => IntRoundTrip(8, v, s);
    case Float(bits) => WordRoundTrip(4, bits, s);
    case Double(bits) => WordRoundTrip(8, bits, s);
    case String(chars) => NameRoundTrip(chars, s);
    case List(items) =>
      ItemsRoundTrip(ItemType(items), items, s);
      ListRoundTrip(items, s);
    case Compound(entries) => EntriesRoundTrip(entries, s);
    case IntArray(_) => ArrayRoundTrip(tag, s);
    case LongArray(_) => ArrayRoundTrip(tag, s);
  }

  lemma ListRoundTrip(items: seq<Tag>, s: seq<byte>)
    requires WellFormed(List(items))
    requires ReadItems(ItemType(items), |items|, EncodeItems(items) + s) == Parsed(items, s)
    ensures Create(TypeOf(List(items)), Encode(List(items)) + s) == Parsed(List(items), s)
  {
    hide Wire.ReadInt, Wire.ReadWord, EncodeLength, EncodeItems, ReadItems, ReadName, ReadEntries, ReadInts;
    var more := EncodeItems(items) + s;
    assert Encode(List(items)) + s == [ItemType(items)] + (EncodeLength(|items|) + more);
    LengthRoundTrip(|items|, more);
  }

  lemma ArrayRoundTrip(tag: Tag, s: seq<byte>)
    requires WellFormed(tag) && (tag.IntArray? || tag.LongArray?)
    ensures Create(TypeOf(tag), Encode(tag) + s) == Parsed(tag, s)
  {
    hide Wire.ReadInt, EncodeLength, EncodeInts, ReadInts;
    var size, ints := if tag.IntArray? then 4 else 8, if tag.IntArray? then tag.ints else tag.longs;
    assert Encode(tag) + s == EncodeLength(|ints|) + (EncodeInts(size, ints) + s);
    LengthRoundTrip(|ints|, EncodeInts(size, ints) + s);
    IntsRoundTrip(size, ints, s);
  }

  lemma {:induction false} ItemsRoundTrip(t: byte, items: seq<Tag>, s: seq<byte>)
    requires forall x :: x in items ==> WellFormed(x) && TypeOf(x) == t
    ensures ReadItems(t, |items|, EncodeItems(items) + s) == Parsed(items, s)
    decreases items
  {
    hide Encode, Create, WellFormed;
    if items == [] {
      assert EncodeItems(items) + s == s;
    } else {
      var more := EncodeItems(items[1..]) + s;
      assert EncodeItems(items) + s == Encode(items[0]) + more;
      ParseInvertsEncode(items[0], more);
      ItemsRoundTrip(t, items[1..], s);
      assert [items[0]] + items[1..] == items;
    }
  }

  lemma {:induction false} EntriesRoundTrip(entries: seq<Entry>, s: seq<byte>)
    requires forall e :: e in entries ==> |e.name| < 0x1_0000 && WellFormed(e.tag)
    ensures ReadEntries(EncodeEntries(entries) + s) == Parsed(entries, s)
    decreases entries
  {
    hide Encode, Create, WellFormed, ReadName, EncodeName;
    if entries != [] {
      var e := entries[0];
      var more := EncodeEntries(entries[1..]) + s;
      assert EncodeEntries(entries) + s == [TypeOf(e.tag)] + (EncodeName(e.name) + (Encode(e.tag) + more));
      NameRoundTrip(e.name, Encode(e.tag) + more);
      ParseInvertsEncode(e.tag, more);
      EntriesRoundTrip(entries[1..], s);
      assert [e] + entries[1..] == entries;
    }
  }

  // ---- What the parser can return ------------------------------------------------------------

  lemma ReadIntFits(size: nat, s: seq<byte>)
    requires size > 0
    ensures var p := Wire.ReadInt(size, s); p.Parsed? ==> Fits(size, p.value)
  {
    assert Pow2(8 * size) == 2 * Pow2(8 * size - 1);
  }

  lemma {:induction false} ReadIntsFit(size: nat, n: int, s: seq<byte>)
    requires size > 0
    ensures var p := ReadInts(size, n, s);
            p.Parsed? ==> |p.value| == (if n > 0 then n else 0) && forall v :: v in p.value ==> Fits(size, v)
    decreases |s|
  {
    hide Wire.ReadInt, Fits;
    if n > 0 {
      ReadIntFits(size, s);
      var p := Wire.ReadInt(size, s);
      if p.Parsed? && |p.rest| < |s| {
        ReadIntsFit(size, n - 1, p.rest);
      }
    }
  }

  lemma LengthIsSmall(s: seq<byte>)
    ensures var p := Wire.ReadInt(4, s); p.Parsed? ==> p.value < 0x8000_0000
  {
    hide Wire.ReadInt;
    Pow2Widths();
    ReadIntFits(4, s);
  }

  lemma NameIsShort(s: seq<byte>)
    ensures var p := ReadName(s); p.Parsed? ==> |p.value| < 0x1_0000
  {
    hide BigEndian;
    Pow2Widths();
    assert |s| >= 2 ==> BigEndian(s[..2]) < Pow2(8 * |s[..2]|);
  }

  // Whatever the input, a tree that is parsed has the type asked for and an encoding; so the
  // trees the parser can return are exactly those with an encoding.
  lemma {:induction false} ParsedIsWellFormed(t: byte, s: seq<byte>)
    ensures var p := Create(t, s); p.Parsed? ==> WellFormed(p.value) && TypeOf(p.value) == t
    decreases |s|, 1
  {
    hide Wire.ReadInt, Wire.ReadWord, ReadName, ReadInts, ReadItems, ReadEntries, Fits, Pow2;
    if t == 1 { ReadIntFits(1, s); }
    else if t == 2 { ReadIntFits(2, s); }
    else if t == 3 { ReadIntFits(4, s); }
    else if t == 4 { ReadIntFits(8, s); }
    else if t == 5 { WordFits(4, s); }
    else if t == 6 { WordFits(8, s); }
    else if t == 8 { NameIsShort(s); }
    else if t == 9 { ListIsWellFormed(s); }
    else if t == 10 { ParsedEntries(s); }
    else if t == 11 { ArrayIsWellFormed(4, s); }
    else if t == 12 { ArrayIsWellFormed(8, s); }
  }

  lemma WordFits(size: nat, s: seq<byte>)
    ensures var p := Wire.ReadWord(size, s); p.Parsed? ==> p.value < Pow2(8 * size)
  {
  }

  lemma ArrayIsWellFormed(size: nat, s: seq<byte>)
    requires size > 0
    ensures var n := Wire.ReadInt(4, s);
            n.Parsed? ==>
              var p := ReadInts(size, n.value, n.rest);
              p.Parsed? ==> |p.value| < 0x8000_0000 && forall v :: v in p.value ==> Fits(size, v)
  {
    hide Wire.ReadInt, Fits, ReadInts;
    LengthIsSmall(s);
    var n := Wire.ReadInt(4, s);
    if n.Parsed? {
      ReadIntsFit(size, n.value, n.rest);
    }
  }

  lemma {:induction false} ListIsWellFormed(s: seq<byte>)
    ensures var p := Create(9, s); p.Parsed? ==> WellFormed(p.value) && p.value.List?
    decreases |s|, 0
  {
    hide Wire.ReadInt, ReadItems;
    var t := Wire.ReadByte(s);
    if t.Parsed? {
      LengthIsSmall(t.rest);
      var n := Wire.ReadInt(4, t.rest);
      if n.Parsed? && |n.rest| < |s| {
        ParsedItems(t.value, n.value, n.rest);
      }
    }
  }

  lemma {:induction false} ParsedItems(t: byte, n: int, s: seq<byte>)
    ensures var p := ReadItems(t, n, s);
            p.Parsed? ==>
              && |p.value| == (if n > 0 then n else 0)
              && forall x :: x in p.value ==> WellFormed(x) && TypeOf(x) == t
    decreases |s|, 2
  {
    hide Create, WellFormed;
    if n > 0 {
      ParsedIsWellFormed(t, s);
      if Create(t, s).Parsed? {
        ParsedItems(t, n - 1, Create(t, s).rest);
      }
    }
  }

  lemma {:induction false} ParsedEntries(s: seq<byte>)
    ensures var p := ReadEntries(s);
            p.Parsed? ==> forall e :: e in p.value ==> |e.name| < 0x1_0000 && WellFormed(e.tag)
    decreases |s|, 0
  {
    hide Create, WellFormed, ReadName;
    var t := Wire.ReadByte(s);
    if t.Parsed? && t.value != TAG_END {
      NameIsShort(t.rest);
      var name := ReadName(t.rest);
      if name.Parsed? {
        ParsedIsWellFormed(t.value, name.rest);
        var tag := Create(t.value, name.rest);
        if tag.Parsed? {
          ParsedEntries(tag.rest);
        }
      }
    }
  }

  // Encoding what was parsed and parsing that again gives the same tree.
  lemma Reparse(t: byte, s: seq<byte>, suffix: seq<byte>)
    requires Create(t, s).Parsed?
    ensures var tag := Create(t, s).value;
            WellFormed(tag) && Create(t, Encode(tag) + suffix) == Parsed(tag, suffix)
  {
    hide Encode, WellFormed, Create;
    ParsedIsWellFormed(t, s);
    ParseInvertsEncode(Create(t, s).value, suffix);
  }

  // The named root tag of a file.
  lemma FileRoundTrip(name: seq<byte>, tag: Tag, s: seq<byte>)
    requires |name| < 0x1_0000 && WellFormed(tag)
    ensures ReadFile([TypeOf(tag)] + EncodeName(name) + Encode(tag) + s) == Parsed(Root(tag), s)
  {
    hide Encode, WellFormed, Create, ReadName, EncodeName;
    NameRoundTrip(name, Encode(tag) + s);
    ParseInvertsEncode(tag, s);
    assert [TypeOf(tag)] + EncodeName(name) + Encode(tag) + s
        == [TypeOf(tag)] + (EncodeName(name) + (Encode(tag) + s));
  }

  // A file that holds nothing.
  lemma EmptyFile(s: seq<byte>)
    ensures ReadFile([TAG_END] + s) == Parsed(Empty, s)
  {
    assert ([TAG_END] + s)[1..] == s;
  }

  // A length of zero or less is that of an empty list or array; the item type is of no matter.
  lemma NoItems(t: byte, n: int, s: seq<byte>)
    requires Fits(4, n) && n <= 0
    ensures Create(9, [t] + EncodeInt(4, n) + s) == Parsed(List([]), s)
    ensures Create(11, EncodeInt(4, n) + s) == Parsed(IntArray([]), s)
    ensures Create(12, EncodeInt(4, n) + s) == Parsed(LongArray([]), s)
  {
    hide Wire.ReadInt, EncodeInt, Fits;
    IntRoundTrip(4, n, s);
    assert [t] + EncodeInt(4, n) + s == [t] + (EncodeInt(4, n) + s);
    assert ([t] + (EncodeInt(4, n) + s))[1..] == EncodeInt(4, n) + s;
  }

  // The types that cannot be created: an end where a tag must be aborts, byte arrays and unknown
  // types are parse errors.
  lemma NotCreated(t: byte, s: seq<byte>)
    ensures t == TAG_END ==> Create(t, s) == Failed(Aborted)
    ensures t == 7 || t > 12 ==> Create(t, s) == Failed(NbtParseError)
  {
  }
}

/** The constructors of nbt.cc: they consume the packet reader and append to their containers
    in loops, and compute what module Nbt says. */
module NbtReader {
  import opened Bytes
  import opened Packet
  import opened Nbt
  import Wire

  method ReadNameFrom(s: PacketReader) returns (r: Result<seq<byte>>)
    requires s.Valid()
    modifies s, s.ring
    ensures s.Valid() && s.Did(ReadName(old(s.Body())), old(s.Beyond()), r)
  {
    hide Wire.ReadWord, Wire.ReadChars;
    var length :- s.ReadWord(2);
    r := s.ReadChars(length);
  }

  method ReadIntsFrom(size: nat, n: int, s: PacketReader) returns (r: Result<seq<int>>)
    requires s.Valid() && size > 0
    modifies s, s.ring
    ensures s.Valid() && s.Did(ReadInts(size, n, old(s.Body())), old(s.Beyond()), r)
  {
    var ints := [];
    var left := n;
    PrependEmpty(ints, ReadInts(size, n, s.Body()));
    while left > 0
      invariant s.Valid() && s.Beyond() == old(s.Beyond())
      invariant Prepend(ints, ReadInts(size, left, s.Body())) == ReadInts(size, n, old(s.Body()))
    {
      hide Wire.ReadInt, Prepend;
      ghost var body := s.Body();
      ReadIntsMore(size, left, body, ints);
      var v :- s.ReadInt(size);
      ints, left := ints + [v], left - 1;
    }
    PrependEmpty(ints, ReadInts(size, left, s.Body()));
    r := Ok(ints);
  }

  lemma ReadIntsMore(size: nat, n: int, s: seq<byte>, done: seq<int>)
    requires size > 0 && n > 0
    ensures Prepend(done, ReadInts(size, n, s)) ==
            match Wire.ReadInt(size, s)
            case Failed(e) => Failed(e)
            case Parsed(v, rest) => Prepend(done + [v], ReadInts(size, n - 1, rest))
  {
    hide Wire.ReadInt;
    var p := Wire.ReadInt(size, s);
    if p.Parsed? {
      PrependOne(done, p.value, ReadInts(size, n - 1, p.rest));
    }
  }

  lemma ReadItemsMore(t: byte, n: int, s: seq<byte>, done: seq<Tag>)
    requires n > 0
    ensures Prepend(done, ReadItems(t, n, s)) ==
            match Create(t, s)
            case Failed(e) => Failed(e)
            case Parsed(tag, rest) => Prepend(done + [tag], ReadItems(t, n - 1, rest))
  {
    hide Create;
    var p := Create(t, s);
    if p.Parsed? {
      PrependOne(done, p.value, ReadItems(t, n - 1, p.rest));
    }
  }

  // The next entry of a compound, or its end.
  function ReadEntry(s: seq<byte>): Parsed<seq<Entry>> {
    var (t, s) :- Wire.ReadByte(s);
    if t == TAG_END then Parsed([], s)
    else
      var (name, s) :- ReadName(s);
      var (tag, s) :- Create(t, s);
      Parsed([Entry(name, tag)], s)
  }

  lemma ReadEntriesMore(s: seq<byte>, done: seq<Entry>)
    ensures Prepend(done, ReadEntries(s)) ==
            match ReadEntry(s)
            case Failed(e) => Failed(e)
            case Parsed(es, rest) =>
              if es == [] then Parsed(done, rest) else Prepend(done + es, ReadEntries(rest))
  {
    hide Create, ReadName;
    var p := ReadEntry(s);
    if p.Parsed? && p.value != [] {
      PrependOne(done, p.value[0], ReadEntries(p.rest));
    } else if p.Parsed? {
      PrependEmpty(done, ReadEntries(s));
    }
  }

  method CreateTag(t: byte, s: PacketReader) returns (r: Result<Tag>)
    requires s.Valid()
    modifies s, s.ring
    ensures s.Valid() && s.Did(Create(t, old(s.Body())), old(s.Beyond()), r)
    decreases s.remaining, 1
  {
    hide Wire.ReadInt, Wire.ReadWord, ReadName, ReadInts, ReadItems, ReadEntries, Wire.ReadByte;
    match t {
      case 0 => r := Err(Aborted);
      case 1 => var v :- s.ReadInt(1); r := Ok(Byte(v));
      case 2 => var v :- s.ReadInt(2); r := Ok(Short(v));
      case 3 => var v :- s.ReadInt(4); r := Ok(Int(v));
      case 4 => var v :- s.ReadInt(8); r := Ok(Long(v));
      case 5 => var v :- s.ReadWord(4); r := Ok(Float(v));
      case 6 => var v :- s.ReadWord(8); r := Ok(Double(v));
      case 8 => var chars :- ReadNameFrom(s); r := Ok(String(chars));
      case 9 => r := CreateList(s);
      case 10 => var entries :- ReadEntriesFrom(s); r := Ok(Compound(entries));
      case 11 => var n :- s.ReadInt(4); var ints :- ReadIntsFrom(4, n, s); r := Ok(IntArray(ints));
      case 12 => var n :- s.ReadInt(4); var longs :- ReadIntsFrom(8, n, s); r := Ok(LongArray(longs));
      case _ => r := Err(NbtParseError);
    }
  }

  method ReadItemsFrom(t: byte, n: int, s: PacketReader) returns (r: Result<seq<Tag>>)
    requires s.Valid()
    modifies s, s.ring
    ensures s.Valid() && s.Did(ReadItems(t, n, old(s.Body())), old(s.Beyond()), r)
    decreases s.remaining, 2
  {
    var items := [];
    var left := n;
    PrependEmpty(items, ReadItems(t, n, s.Body()));
    while left > 0
      invariant s.Valid() && s.Beyond() == old(s.Beyond()) && s.remaining <= old(s.remaining)
      invariant Prepend(items, ReadItems(t, left, s.Body())) == ReadItems(t, n, old(s.Body()))
    {
      hide Create, Prepend, ReadItems;
      ReadItemsMore(t, left, s.Body(), items);
      var tag :- CreateTag(t, s);
      items, left := items + [tag], left - 1;
    }
    PrependEmpty(items, ReadItems(t, left, s.Body()));
    r := Ok(items);
  }

  method CreateList(s: PacketReader) returns (r: Result<Tag>)
    requires s.Valid()
    modifies s, s.ring
    ensures s.Valid() && s.Did(Create(9, old(s.Body())), old(s.Beyond()), r)
    decreases s.remaining, 0
  {
    hide Wire.ReadInt, ReadItems;
    var t :- s.ReadByte();
    var n :- s.ReadInt(4);
    var items :- ReadItemsFrom(t, n, s);
    r := Ok(List(items));
  }

  method ReadEntriesFrom(s: PacketReader) returns (r: Result<seq<Entry>>)
    requires s.Valid()
    modifies s, s.ring
    ensures s.Valid() && s.Did(ReadEntries(old(s.Body())), old(s.Beyond()), r)
    decreases s.remaining, 0
  {
    hide Create, Prepend, ReadName, ReadEntries;
    var entries := [];
    PrependEmpty(entries, ReadEntries(s.Body()));
    while true
      invariant s.Valid() && s.Beyond() == old(s.Beyond()) && s.remaining <= old(s.remaining)
      invariant Prepend(entries, ReadEntries(s.Body())) == ReadEntries(old(s.Body()))
      decreases s.remaining
    {
      ReadEntriesMore(s.Body(), entries);
      var t :- s.ReadByte();
      if t == TAG_END {
        return Ok(entries);
      }
      var name :- ReadNameFrom(s);
      var tag :- CreateTag(t, s);
      entries := entries + [Entry(name, tag)];
    }
  }

  method ReadFileFrom(s: PacketReader) returns (r: Result<Root>)
    requires s.Valid()
    modifies s, s.ring
    ensures s.Valid() && s.Did(ReadFile(old(s.Body())), old(s.Beyond()), r)
  {
    hide Create, ReadName;
    var t :- s.ReadByte();
    if t == TAG_END {
      return Ok(Empty);
    }
    var _ :- ReadNameFrom(s);
    var tag :- CreateTag(t, s);
    r := Ok(Root(tag));
  }
}
