/** load_blocks: one section of a chunk packet. */
module Palette {
  import opened Bytes
  import opened ExtractBits
  import opened Packet
  import Wire

  // One block for the whole section; a palette and an entry for each block; or a format that
  // is not read.
  datatype Section =
    | Uniform(block: int)
    | Paletted(palette: seq<int>, words: seq<Word>, bits: nat)
    | Unread

  function ReadVarInts(n: int, s: seq<byte>): Parsed<seq<int>>
    decreases if n > 0 then n else 0
  {
    if n <= 0 then Parsed([], s)
    else
      var (v, s) :- Wire.ReadVarInt(s);
      Prepend([v], ReadVarInts(n - 1, s))
  }

  function ReadLong(s: seq<byte>): Parsed<Word> {
    var (u, s') :- Wire.ReadWord(8, s);
    Pow2Widths();
    assert u == BigEndian(s[..8]) < Pow2(8 * |s[..8]|);
    Parsed(u, s')
  }

  function ReadWords(n: nat, s: seq<byte>): Parsed<seq<Word>> {
    if n == 0 then Parsed([], s)
    else
      var (w, s) :- ReadLong(s);
      Prepend([w], ReadWords(n - 1, s))
  }

  function ReadPaletted(bits: nat, s: seq<byte>): Parsed<Section> {
    var (length, s) :- Wire.ReadVarInt(s);
    if length < 0 then Failed(InvalidPaletteLength)
    else
      var (palette, s) :- ReadVarInts(length, s);
      var (_, s) :- Wire.ReadVarInt(s);
      var (words, s) :- ReadWords(4096 * bits / 64, s);
      Parsed(Paletted(palette, words, bits), s)
  }

  function ReadSection(s: seq<byte>): Parsed<Section> {
    var (bits, s) :- Wire.ReadByte(s);
    if bits == 0 then
      var (block, s) :- Wire.ReadVarInt(s);
      var (_, s) :- Wire.ReadVarInt(s);
      Parsed(Uniform(block), s)
    else if bits <= 8 then ReadPaletted(if bits < 4 then 4 else bits, s)
    else Parsed(Unread, s)
  }

  lemma ReadVarIntsMore(n: int, s: seq<byte>, done: seq<int>)
    requires n > 0
    ensures Prepend(done, ReadVarInts(n, s)) ==
            match Wire.ReadVarInt(s)
            case Failed(e) => Failed(e)
            case Parsed(v, rest) => Prepend(done + [v], ReadVarInts(n - 1, rest))
  {
    hide Wire.ReadVarInt, Prepend;
    var p := Wire.ReadVarInt(s);
    if p.Parsed? {
      PrependOne(done, p.value, ReadVarInts(n - 1, p.rest));
    } else {
      PrependFailure(done, p.error);
    }
  }

  lemma ReadWordsMore(n: nat, s: seq<byte>, done: seq<Word>)
    requires n > 0
    ensures Prepend(done, ReadWords(n, s)) ==
            match ReadLong(s)
            case Failed(e) => Failed(e)
            case Parsed(w, rest) => Prepend(done + [w], ReadWords(n - 1, rest))
  {
    hide ReadLong, Prepend;
    var p := ReadLong(s);
    if p.Parsed? {
      PrependOne(done, p.value, ReadWords(n - 1, p.rest));
    } else {
      PrependFailure(done, p.error);
    }
  }

  method ReadVarIntsFrom(n: int, s: PacketReader) returns (r: Result<seq<int>>)
    requires s.Valid()
    modifies s, s.ring
    ensures s.Valid() && s.Did(ReadVarInts(n, old(s.Body())), old(s.Beyond()), r)
  {
    var values := [];
    var left := n;
    PrependEmpty(values, ReadVarInts(n, s.Body()));
    while left > 0
      invariant s.Valid() && s.Beyond() == old(s.Beyond())
      invariant Prepend(values, ReadVarInts(left, s.Body())) == ReadVarInts(n, old(s.Body()))
    {
      hide Wire.ReadVarInt, Prepend;
      ReadVarIntsMore(left, s.Body(), values);
      var v :- s.ReadVarInt();
      values, left := values + [v], left - 1;
    }
    PrependEmpty(values, ReadVarInts(left, s.Body()));
    r := Ok(values);
  }

  method ReadWordsFrom(n: nat, s: PacketReader) returns (r: Result<seq<Word>>)
    requires s.Valid()
    modifies s, s.ring
    ensures s.Valid() && s.Did(ReadWords(n, old(s.Body())), old(s.Beyond()), r)
  {
    var words: seq<Word> := [];
    PrependEmpty(words, ReadWords(n, s.Body()));
    for i := 0 to n
      invariant s.Valid() && s.Beyond() == old(s.Beyond())
      invariant Prepend(words, ReadWords(n - i, s.Body())) == ReadWords(n, old(s.Body()))
    {
      hide Wire.ReadWord, Prepend, ReadWords;
      ReadWordsMore(n - i, s.Body(), words);
      ghost var p := ReadLong(s.Body());
      var w :- s.ReadWord(8);
      words := words + [w];
    }
    PrependEmpty(words, ReadWords(0, s.Body()));
    r := Ok(words);
  }

  method LoadBlocks(s: PacketReader, anything: nat) returns (r: Result<Section>, entries: seq<nat>)
    requires s.Valid()
    modifies s, s.ring
    ensures s.Valid() && s.Did(ReadSection(old(s.Body())), old(s.Beyond()), r)
    ensures r.Ok? && r.value.Paletted? ==>
              var words, bits := r.value.words, r.value.bits;
              && 4 <= bits <= 8 && |words| == 64 * bits && |entries| == 4096
              && Packed(entries, bits) == AllBits(words)
              && forall i :: 0 <= i < 4096 ==> IsField(words, bits, i, entries[i])
  {
    hide Wire.ReadVarInt, ReadPaletted, Packed, AllBits, IsField;
    entries := [];
    var bits :- s.ReadByte();
    if bits == 0 {
      var block :- s.ReadVarInt();
      var _ :- s.ReadVarInt();
      r := Ok(Uniform(block));
    } else if bits <= 8 {
      r := LoadPaletted(if bits < 4 then 4 else bits, s);
      if r.Ok? {
        entries := ExtractAll(r.value.words, r.value.bits, anything);
        Repacked(r.value.words, r.value.bits, entries);
      }
    } else {
      r := Ok(Unread);
    }
  }

  lemma Repacked(words: seq<Word>, bits: nat, entries: seq<nat>)
    requires 4 <= bits <= 8 && |words| == 64 * bits && |entries| == 4096
    requires forall i :: 0 <= i < 4096 ==> IsField(words, bits, i, entries[i])
    ensures Packed(entries, bits) == AllBits(words)
  {
    hide Packed, IsField;
    PackingInvertsExtraction(words, bits, entries);
    assert AllBits(words)[..64 * |words|] == AllBits(words);
  }

  method LoadPaletted(bits: nat, s: PacketReader) returns (r: Result<Section>)
    requires s.Valid() && 4 <= bits <= 8
    modifies s, s.ring
    ensures s.Valid() && s.Did(ReadPaletted(bits, old(s.Body())), old(s.Beyond()), r)
    ensures r.Ok? ==> r.value.Paletted? && r.value.bits == bits && |r.value.words| == 64 * bits
  {
    hide Wire.ReadVarInt, ReadVarInts, ReadWords;
    var length :- s.ReadVarInt();
    if length < 0 {
      return Err(InvalidPaletteLength);
    }
    var palette :- ReadVarIntsFrom(length, s);
    var _ :- s.ReadVarInt();
    WordsCounted(4096 * bits / 64, s.Body());
    var words :- ReadWordsFrom(4096 * bits / 64, s);
    r := Ok(Paletted(palette, words, bits));
  }

  lemma {:induction false} WordsCounted(n: nat, s: seq<byte>)
    ensures var p := ReadWords(n, s); p.Parsed? ==> |p.value| == n
  {
    hide ReadLong;
    if n > 0 && ReadLong(s).Parsed? {
      WordsCounted(n - 1, ReadLong(s).rest);
    }
  }
}
