/** Sections of a chunk packet as a server writes them, and that they are read back. */
module Sections {
  import opened Bytes
  import opened ExtractBits
  import opened Palette
  import opened Wire

  predicate AllFit(vs: seq<int>) {
    forall v :: v in vs ==> Fits(4, v)
  }

  function Numbers(vs: seq<int>): seq<byte>
    requires AllFit(vs)
  {
    if vs == [] then [] else EncodeNumber(vs[0]) + Numbers(vs[1..])
  }

  function Longs(words: seq<Word>): seq<byte> {
    if words == [] then []
    else
      Pow2Widths();
      ToBigEndian(8, words[0]) + Longs(words[1..])
  }

  // A section with a palette, after the byte with its width; the length that is declared for the
  // words is not used.
  function PalettedBytes(palette: seq<int>, declared: int, words: seq<Word>): seq<byte>
    requires AllFit(palette) && Fits(4, |palette|) && Fits(4, declared)
  {
    EncodeNumber(|palette|) + (Numbers(palette) + (EncodeNumber(declared) + Longs(words)))
  }

  lemma {:induction false} NumbersRoundTrip(vs: seq<int>, s: seq<byte>)
    requires AllFit(vs)
    ensures ReadVarInts(|vs|, Numbers(vs) + s) == Parsed(vs, s)
    decreases |vs|
  {
    hide EncodeNumber, ReadVarInt, Fits;
    if vs == [] {
      assert Numbers(vs) + s == s;
    } else {
      var more := Numbers(vs[1..]) + s;
      assert vs[0] in vs && Numbers(vs) + s == EncodeNumber(vs[0]) + more;
      NumberRoundTrip(vs[0], more);
      NumbersRoundTrip(vs[1..], s);
      assert [vs[0]] + vs[1..] == vs;
    }
  }

  lemma LongRoundTrip(w: Word, s: seq<byte>)
    ensures w < Pow2(64) && ReadLong(ToBigEndian(8, w) + s) == Parsed(w, s)
  {
    hide ToBigEndian, BigEndian, ReadWord;
    Pow2Widths();
    WordRoundTrip(8, w, s);
  }

  lemma {:induction false} LongsRoundTrip(words: seq<Word>, s: seq<byte>)
    ensures ReadWords(|words|, Longs(words) + s) == Parsed(words, s)
    decreases |words|
  {
    hide ReadLong, ToBigEndian, Pow2;
    if words == [] {
      assert Longs(words) + s == s;
    } else {
      var more := Longs(words[1..]) + s;
      LongRoundTrip(words[0], more);
      assert Longs(words) + s == ToBigEndian(8, words[0]) + more;
      LongsRoundTrip(words[1..], s);
      assert [words[0]] + words[1..] == words;
    }
  }

  lemma PalettedRoundTrip(palette: seq<int>, declared: int, words: seq<Word>, bits: nat, s: seq<byte>)
    requires AllFit(palette) && Fits(4, |palette|) && Fits(4, declared) && |words| == 4096 * bits / 64
    ensures ReadPaletted(bits, PalettedBytes(palette, declared, words) + s) == Parsed(Paletted(palette, words, bits), s)
  {
    hide EncodeNumber, Numbers, Longs, ReadVarInts, ReadWords, ReadVarInt, Fits;
    var longs := Longs(words) + s;
    var rest := Numbers(palette) + (EncodeNumber(declared) + longs);
    assert PalettedBytes(palette, declared, words) + s == EncodeNumber(|palette|) + rest;
    NumberRoundTrip(|palette|, rest);
    NumbersRoundTrip(palette, EncodeNumber(declared) + longs);
    NumberRoundTrip(declared, longs);
    LongsRoundTrip(words, s);
  }

  // A width of 1 to 3 counts as 4.
  function Width(b: byte): nat { if b < 4 then 4 else b }

  // For every width from 1 to 8, any palette and as many words as 4096 entries fill, the section
  // is read back, and what follows is left.
  lemma SectionRoundTrip(b: byte, palette: seq<int>, declared: int, words: seq<Word>, s: seq<byte>)
    requires 1 <= b <= 8 && |words| == 64 * Width(b)
    requires AllFit(palette) && Fits(4, |palette|) && Fits(4, declared)
    ensures ReadSection([b] + PalettedBytes(palette, declared, words) + s)
         == Parsed(Paletted(palette, words, Width(b)), s)
  {
    hide ReadPaletted, PalettedBytes, Fits;
    var bytes := PalettedBytes(palette, declared, words) + s;
    assert [b] + PalettedBytes(palette, declared, words) + s == [b] + bytes && ([b] + bytes)[1..] == bytes;
    PalettedRoundTrip(palette, declared, words, Width(b), s);
  }

  // One block for the whole section; a format that is not read, of which the width is taken and
  // nothing else; and a palette with a negative length.
  lemma OtherSections(b: byte, block: int, declared: int, s: seq<byte>)
    requires Fits(4, block) && Fits(4, declared)
    ensures ReadSection([0] + (EncodeNumber(block) + (EncodeNumber(declared) + s))) == Parsed(Uniform(block), s)
    ensures b > 8 ==> ReadSection([b] + s) == Parsed(Unread, s)
    ensures 1 <= b <= 8 && block < 0 ==> ReadSection([b] + (EncodeNumber(block) + s)) == Failed(InvalidPaletteLength)
  {
    hide EncodeNumber, ReadVarInts, ReadWords, ReadVarInt, Fits;
    var one := EncodeNumber(block) + (EncodeNumber(declared) + s);
    var two := EncodeNumber(block) + s;
    assert ([0] + one)[1..] == one && ([b] + s)[1..] == s && ([b] + two)[1..] == two;
    NumberRoundTrip(block, EncodeNumber(declared) + s);
    NumberRoundTrip(declared, s);
    NumberRoundTrip(block, s);
  }

  // ---- The entries --------------------------------------------------------------------------------

  // Entries packed into words are the fields that are extracted from them.
  lemma {:induction false} FieldsArePacked(words: seq<Word>, bits: nat, entries: seq<nat>, n: nat, i: nat)
    requires i < n <= |entries| && bits > 0 && n * bits <= 64 * |words|
    requires Packed(entries[..n], bits) == AllBits(words)[..n * bits]
    requires forall k :: 0 <= k < |entries| ==> entries[k] < Pow2(bits)
    ensures IsField(words, bits, i, entries[i])
    decreases n
  {
    hide AllBits, Pow2, Packed, IsField, FieldBits;
    LastField(words, bits, entries, n, n * bits, (n - 1) * bits);
    if i < n - 1 {
      FieldsArePacked(words, bits, entries, n - 1, i);
    }
  }

  lemma LastField(words: seq<Word>, bits: nat, entries: seq<nat>, n: nat, end: nat, start: nat)
    requires 0 < n <= |entries| && end == n * bits && start == (n - 1) * bits && end <= 64 * |words|
    requires Packed(entries[..n], bits) == AllBits(words)[..end]
    requires forall k :: 0 <= k < |entries| ==> entries[k] < Pow2(bits)
    ensures start <= end && Packed(entries[..n - 1], bits) == AllBits(words)[..start]
    ensures IsField(words, bits, n - 1, entries[n - 1])
  {
    hide AllBits, Bits, Value, Pow2, Packed, FieldBits;
    assert start + bits == end;
    LastPacked(entries[..n], bits, start);
    assert entries[..n][..n - 1] == entries[..n - 1];
    var all := AllBits(words);
    assert all[..end][..start] == all[..start] && all[..end][start..] == all[start..end];
    ValueOfBits(bits, entries[n - 1]);
    FieldBitsAre(words, bits, n - 1, start, end);
  }

  lemma FieldBitsAre(words: seq<Word>, bits: nat, i: nat, start: nat, end: nat)
    requires start == i * bits && end == (i + 1) * bits && end <= 64 * |words|
    ensures start + bits == end && FieldBits(words, bits, i) == AllBits(words)[start..end]
  {
    hide AllBits;
  }

  lemma LastPacked(entries: seq<nat>, bits: nat, start: nat)
    requires entries != [] && start == (|entries| - 1) * bits
    ensures var packed := Packed(entries, bits);
            && |packed| == start + bits
            && packed[..start] == Packed(entries[..|entries| - 1], bits)
            && packed[start..] == Bits(bits, entries[|entries| - 1])
  {
    hide Bits;
    PackedSize(entries[..|entries| - 1], bits);
  }

  lemma {:induction false} PackedSize(entries: seq<nat>, bits: nat)
    ensures |Packed(entries, bits)| == |entries| * bits
    decreases |entries|
  {
    hide Bits;
    if entries != [] {
      var m := |entries| - 1;
      PackedSize(entries[..m], bits);
      assert m * bits + bits == |entries| * bits;
    }
  }

  // The words that some bits fill.
  function WordsOf(bits: seq<bit>): (words: seq<Word>)
    requires |bits| % 64 == 0
    ensures |words| == |bits| / 64
  {
    if bits == [] then []
    else
      Pow2Widths();
      [Value(bits[..64])] + WordsOf(bits[64..])
  }

  lemma {:induction false} BitsOfWords(bits: seq<bit>)
    requires |bits| % 64 == 0
    ensures AllBits(WordsOf(bits)) == bits
    decreases |bits|
  {
    hide Value, Bits;
    if bits != [] {
      BitsOfValue(bits[..64]);
      BitsOfWords(bits[64..]);
      assert WordsOf(bits)[1..] == WordsOf(bits[64..]);
      assert bits[..64] + bits[64..] == bits;
    }
  }

  lemma EntryBits(bits: nat)
    requires 4 <= bits <= 8
    ensures 4096 * bits % 64 == 0 && 4096 * bits / 64 == 64 * bits && 4096 * bits == 64 * (64 * bits)
  {
  }

  // The words that 4096 entries of a width are packed into.
  function EntryWords(bits: nat, entries: seq<nat>): (words: seq<Word>)
    requires 4 <= bits <= 8 && |entries| == 4096
    ensures |words| == 64 * bits
  {
    EntryBits(bits);
    PackedSize(entries, bits);
    WordsOf(Packed(entries, bits))
  }

  // A server that packs 4096 entries of a width gets exactly these entries read back: no other
  // list has the fields of its words.
  lemma EntriesComeBack(bits: nat, entries: seq<nat>, got: seq<nat>)
    requires 4 <= bits <= 8 && |entries| == |got| == 4096
    requires forall k :: 0 <= k < 4096 ==> entries[k] < Pow2(bits)
    requires forall i :: 0 <= i < 4096 ==> IsField(EntryWords(bits, entries), bits, i, got[i])
    ensures got == entries
  {
    hide Packed, IsField, AllBits, WordsOf, Pow2;
    EntryBits(bits);
    PackedSize(entries, bits);
    var packed := Packed(entries, bits);
    var words := WordsOf(packed);
    BitsOfWords(packed);
    assert entries[..4096] == entries && packed[..4096 * bits] == packed;
    forall i | 0 <= i < 4096 ensures got[i] == entries[i] {
      FieldsArePacked(words, bits, entries, 4096, i);
      FieldIsOne(words, bits, i, got[i], entries[i]);
    }
  }

  lemma FieldIsOne(words: seq<Word>, bits: nat, i: nat, a: nat, b: nat)
    requires IsField(words, bits, i, a) && IsField(words, bits, i, b)
    ensures a == b
  {
  }
}
