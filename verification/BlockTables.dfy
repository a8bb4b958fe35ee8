/** The generated block-state tables: how the generator packs them, and how the accessors of
    the client read them back. */
module BlockTables {
  import opened Bytes
  import opened MixedRadix

  // ---- What the generator is given ----------------------------------------------------------

  datatype Kind = EnumKind(values: seq<string>) | BoolKind | IntKind(first: nat, count: nat)
  datatype Property = Property(name: string, key: string, kind: Kind)

  // A block names its properties by their number. Its states are all combinations of their
  // values, in lexicographic order, with consecutive ids.
  datatype Block = Block(id: nat, properties: seq<nat>)

  function Count(p: Property): nat {
    match p.kind
    case EnumKind(values) => |values|
    case BoolKind => 2
    case IntKind(_, count) => count
  }

  // The assertions on a single property.
  predicate Proper(p: Property) {
    0 < Count(p) < 32 && (p.kind.IntKind? ==> p.kind.first <= 1)
  }

  function EnumValues(p: Property): seq<string> {
    if p.kind.EnumKind? then p.kind.values else []
  }

  function ValuesTable(props: seq<Property>): seq<string> {
    if props == [] then [] else EnumValues(props[0]) + ValuesTable(props[1..])
  }

  // ---- Packing --------------------------------------------------------------------------------

  function Flags(p: Property, offset: nat): nat {
    match p.kind
    case EnumKind(values) => Or(offset * 0x100, |values|)
    case BoolKind => Or(0x20, 2)
    case IntKind(first, count) => Or(if first == 0 then 0x40 else 0x60, count)
  }

  function FlagsTable(props: seq<Property>, offset: nat): (flags: seq<nat>)
    ensures |flags| == |props|
  {
    if props == [] then []
    else [Flags(props[0], offset)] + FlagsTable(props[1..], offset + |EnumValues(props[0])|)
  }

  lemma PropertyStep(props: seq<Property>, i: nat, offset: nat)
    requires i < |props|
    ensures var p := props[i];
            && FlagsTable(props[i..], offset)
               == [Flags(p, offset)] + FlagsTable(props[i + 1..], offset + |EnumValues(p)|)
            && ValuesTable(props[i..]) == EnumValues(p) + ValuesTable(props[i + 1..])
  {
    assert props[i..][1..] == props[i + 1..];
  }

  lemma {:induction false} ValuesSplit(props: seq<Property>, i: nat)
    requires i <= |props|
    ensures ValuesTable(props) == ValuesTable(props[..i]) + ValuesTable(props[i..])
    decreases i
  {
    if i == 0 {
      assert props[..0] == [] && props[0..] == props;
    } else {
      assert props[..i][1..] == props[1..][..i - 1] && props[1..][i - 1..] == props[i..];
      ValuesSplit(props[1..], i - 1);
    }
  }

  lemma ValuesNext(props: seq<Property>, i: nat)
    requires i < |props|
    ensures ValuesTable(props[..i + 1]) == ValuesTable(props[..i]) + EnumValues(props[i])
  {
    hide EnumValues;
    ValuesSplit(props[..i + 1], i);
    assert props[..i + 1][..i] == props[..i] && props[..i + 1][i..] == [props[i]];
    assert ValuesTable([props[i]]) == EnumValues(props[i]) + ValuesTable([props[i]][1..]);
  }

  // The offset where its values start has eight bits, and its count five.
  predicate Packs(props: seq<Property>, i: nat)
    requires i < |props|
  {
    |ValuesTable(props[..i])| < 256 && Count(props[i]) < 32
  }

  // The property part of write_cpp. The assertions it makes are the only way for it not to
  // finish.
  method WriteProperties(props: seq<Property>) returns (ok: bool, flags: seq<nat>, values: seq<string>)
    ensures ok <==> forall i :: 0 <= i < |props| ==> Packs(props, i)
    ensures ok ==> flags == FlagsTable(props, 0) && values == ValuesTable(props)
  {
    hide Flags, ValuesTable, FlagsTable, EnumValues;
    flags, values := [], [];
    var offset: nat := 0;
    NothingYet(props);
    for i := 0 to |props|
      invariant offset == |values| && values == ValuesTable(props[..i])
      invariant flags + FlagsTable(props[i..], offset) == FlagsTable(props, 0)
      invariant forall k :: 0 <= k < i ==> Packs(props, k)
    {
      var p := props[i];
      PropertyStep(props, i, offset);
      ValuesNext(props, i);
      if offset >= 256 || Count(p) >= 32 {
        assert !Packs(props, i);
        return false, flags, values;
      }
      ghost var more := FlagsTable(props[i + 1..], offset + |EnumValues(p)|);
      assert flags + ([Flags(p, offset)] + more) == flags + [Flags(p, offset)] + more;
      flags, values := flags + [Flags(p, offset)], values + EnumValues(p);
      offset := offset + |EnumValues(p)|;
    }
    assert props[|props|..] == [] && props[..|props|] == props;
    ok := true;
  }

  lemma NothingYet(props: seq<Property>)
    ensures ValuesTable(props[..0]) == [] && FlagsTable(props[0..], 0) == FlagsTable(props, 0)
  {
    assert props[0..] == props;
  }

  // Reversed, so that the last property of a block comes first.
  function PropertyMap(blocks: seq<Block>): seq<nat> {
    if blocks == [] then [] else Reverse(blocks[0].properties) + PropertyMap(blocks[1..])
  }

  function BlockWord(offset: nat, n: nat): nat { Or(offset, n * 0x800) }

  function BlockWords(blocks: seq<Block>, offset: nat): (words: seq<nat>)
    ensures |words| == |blocks|
  {
    if blocks == [] then []
    else
      var n := |blocks[0].properties|;
      [BlockWord(offset, n)] + BlockWords(blocks[1..], offset + n)
  }

  lemma BlockStep(blocks: seq<Block>, i: nat, offset: nat)
    requires i < |blocks|
    ensures var n := |blocks[i].properties|;
            && BlockWords(blocks[i..], offset) == [BlockWord(offset, n)] + BlockWords(blocks[i + 1..], offset + n)
            && PropertyMap(blocks[i..]) == Reverse(blocks[i].properties) + PropertyMap(blocks[i + 1..])
  {
    assert blocks[i..][1..] == blocks[i + 1..];
  }

  lemma {:induction false} MapSplit(blocks: seq<Block>, i: nat)
    requires i <= |blocks|
    ensures PropertyMap(blocks) == PropertyMap(blocks[..i]) + PropertyMap(blocks[i..])
    decreases i
  {
    if i == 0 {
      assert blocks[..0] == [] && blocks[0..] == blocks;
    } else {
      assert blocks[..i][1..] == blocks[1..][..i - 1] && blocks[1..][i - 1..] == blocks[i..];
      MapSplit(blocks[1..], i - 1);
    }
  }

  lemma MapNext(blocks: seq<Block>, i: nat)
    requires i < |blocks|
    ensures PropertyMap(blocks[..i + 1]) == PropertyMap(blocks[..i]) + Reverse(blocks[i].properties)
  {
    hide Reverse;
    MapSplit(blocks[..i + 1], i);
    assert blocks[..i + 1][..i] == blocks[..i] && blocks[..i + 1][i..] == [blocks[i]];
    assert PropertyMap([blocks[i]]) == Reverse(blocks[i].properties) + PropertyMap([blocks[i]][1..]);
  }

  // The offset into the property map has eleven bits, and the number of properties three.
  predicate BlockPacks(blocks: seq<Block>, i: nat)
    requires i < |blocks|
  {
    |PropertyMap(blocks[..i])| < 2048 && |blocks[i].properties| < 8
  }

  // The block part of write_cpp.
  method WriteBlocks(blocks: seq<Block>) returns (ok: bool, words: seq<nat>, ids: seq<nat>)
    ensures ok <==> forall i :: 0 <= i < |blocks| ==> BlockPacks(blocks, i)
    ensures ok ==> words == BlockWords(blocks, 0) && ids == PropertyMap(blocks)
  {
    hide BlockWords, PropertyMap, Reverse, BlockWord;
    words, ids := [], [];
    var offset: nat := 0;
    NoBlocksYet(blocks);
    for i := 0 to |blocks|
      invariant offset == |ids| && ids == PropertyMap(blocks[..i])
      invariant words + BlockWords(blocks[i..], offset) == BlockWords(blocks, 0)
      invariant forall k :: 0 <= k < i ==> BlockPacks(blocks, k)
    {
      var n := |blocks[i].properties|;
      BlockStep(blocks, i, offset);
      MapNext(blocks, i);
      if offset >= 2048 || n >= 8 {
        assert !BlockPacks(blocks, i);
        return false, words, ids;
      }
      var word := BlockWord(offset, n);
      ghost var more := BlockWords(blocks[i + 1..], offset + n);
      assert words + ([word] + more) == words + [word] + more;
      words, ids := words + [word], ids + Reverse(blocks[i].properties);
      offset := offset + n;
    }
    assert blocks[|blocks|..] == [] && blocks[..|blocks|] == blocks;
    ok := true;
  }

  lemma NoBlocksYet(blocks: seq<Block>)
    ensures PropertyMap(blocks[..0]) == [] && BlockWords(blocks[0..], 0) == BlockWords(blocks, 0)
  {
    assert blocks[0..] == blocks;
  }

  // ---- Reading ----------------------------------------------------------------------------------

  // property: the masks of a 16-bit word.
  function CountOf(flags: nat): nat { flags % 0x10 }             // & 0x000f
  function TypeOf(flags: nat): nat { flags / 0x20 % 4 }          // & 0x0060
  function ValuesOffset(flags: nat): nat { flags / 0x100 % 0x100 } // & 0xff00, shifted down

  predicate IsEnum(flags: nat) { TypeOf(flags) == 0 }
  predicate IsBool(flags: nat) { TypeOf(flags) == 1 }
  predicate IsInt1(flags: nat) { TypeOf(flags) == 3 }
  predicate IsInt(flags: nat) { TypeOf(flags) >= 2 }             // & 0x0040

  // block_property_view
  function PropertiesStart(word: nat): nat { word % 0x800 }
  function PropertiesCount(word: nat): nat { word / 0x800 }

  // The kind and the offset come back for every property the generator accepts. The count,
  // whose mask has one bit less than the generator's field, comes back exactly if it is below
  // 16; a property with 16 values reads as having none.
  lemma FlagsRead(p: Property, offset: nat)
    requires Proper(p) && offset < 256
    ensures var f := Flags(p, offset);
            && f < 0x1_0000
            && (IsEnum(f) <==> p.kind.EnumKind?)
            && (IsBool(f) <==> p.kind.BoolKind?)
            && (IsInt(f) <==> p.kind.IntKind?)
            && (IsInt1(f) <==> p.kind.IntKind? && p.kind.first == 1)
            && (p.kind.EnumKind? ==> ValuesOffset(f) == offset)
            && (CountOf(f) == Count(p) <==> Count(p) < 16)
            && (Count(p) == 16 ==> CountOf(f) == 0)
  {
    hide Or;
    FlagsAreSums(p, offset);
    match p.kind
    case EnumKind(values) => FieldsOf(offset, 0, |values|);
    case BoolKind => FieldsOf(0, 1, 2);
    case IntKind(first, count) => FieldsOf(0, if first == 0 then 2 else 3, count);
  }

  // The parts have no bit in common.
  lemma FlagsAreSums(p: Property, offset: nat)
    requires Proper(p)
    ensures Flags(p, offset) ==
            match p.kind
            case EnumKind(values) => offset * 0x100 + |values|
            case BoolKind => 0x20 + 2
            case IntKind(first, count) => (if first == 0 then 0x40 else 0x60) + count
  {
    hide Or;
    Pow2Widths();
    assert Pow2(5) == 32;
    match p.kind
    case EnumKind(values) => OrIsSum(|values|, offset, 8);
    case BoolKind => OrIsSum(2, 1, 5);
    case IntKind(first, count) => OrIsSum(count, if first == 0 then 2 else 3, 5);
  }

  // The layout of a word: eight bits of offset, a spare bit, two of kind, five of count.
  lemma FieldsOf(offset: nat, kind: nat, count: nat)
    requires offset < 256 && kind < 4 && count < 32
    ensures var f := offset * 0x100 + kind * 0x20 + count;
            && f < 0x1_0000 && TypeOf(f) == kind && ValuesOffset(f) == offset
            && CountOf(f) == if count < 16 then count else count - 16
  {
    var f, rest := offset * 0x100 + kind * 0x20 + count, kind * 0x20 + count;
    DivMod(f, offset, rest, 0x100);
    DivMod(f, offset * 8 + kind, count, 0x20);
    DivMod(f, offset * 16 + kind * 2 + (if count < 16 then 0 else 1), if count < 16 then count else count - 16, 0x10);
  }

  lemma {:induction false} FlagsEntry(props: seq<Property>, offset: nat, i: nat)
    requires i < |props|
    ensures FlagsTable(props, offset)[i] == Flags(props[i], offset + |ValuesTable(props[..i])|)
    decreases i
  {
    if i == 0 {
      assert props[..0] == [];
    } else {
      assert props[..i][1..] == props[1..][..i - 1];
      FlagsEntry(props[1..], offset + |EnumValues(props[0])|, i - 1);
    }
  }

  // prop[d], read through the table, is the string the generator was given.
  lemma EnumLookup(props: seq<Property>, i: nat, d: nat)
    requires i < |props| && props[i].kind.EnumKind? && d < |props[i].kind.values|
    requires Proper(props[i]) && Packs(props, i)
    ensures var k := ValuesOffset(FlagsTable(props, 0)[i]) + d;
            k < |ValuesTable(props)| && ValuesTable(props)[k] == props[i].kind.values[d]
  {
    hide ValuesOffset, Flags, IsEnum, IsBool, IsInt, IsInt1, CountOf;
    var offset := |ValuesTable(props[..i])|;
    ValuesSplit(props, i);
    FlagsEntry(props, 0, i);
    FlagsRead(props[i], offset);
    assert props[i..][0] == props[i];
  }

  lemma {:induction false} WordsEntry(blocks: seq<Block>, offset: nat, i: nat)
    requires i < |blocks|
    ensures BlockWords(blocks, offset)[i] == BlockWord(offset + |PropertyMap(blocks[..i])|, |blocks[i].properties|)
    decreases i
  {
    hide BlockWord;
    if i == 0 {
      assert blocks[..0] == [];
    } else {
      assert blocks[..i][1..] == blocks[1..][..i - 1];
      WordsEntry(blocks[1..], offset + |blocks[0].properties|, i - 1);
    }
  }

  lemma FirstView(blocks: seq<Block>)
    requires blocks != []
    ensures var n := |blocks[0].properties|;
            n <= |PropertyMap(blocks)| && PropertyMap(blocks)[..n] == Reverse(blocks[0].properties)
  {
    hide Reverse;
  }

  // A block's view of the property map is its properties in reverse.
  lemma ViewIsReversed(blocks: seq<Block>, i: nat)
    requires i < |blocks|
    requires BlockPacks(blocks, i)
    ensures var word := BlockWords(blocks, 0)[i];
            var start, n := PropertiesStart(word), PropertiesCount(word);
            && word < 0x1_0000
            && start + n <= |PropertyMap(blocks)|
            && PropertyMap(blocks)[start..start + n] == Reverse(blocks[i].properties)
  {
    hide Reverse, PropertyMap, BlockWords, Or;
    var offset, n := |PropertyMap(blocks[..i])|, |blocks[i].properties|;
    WordsEntry(blocks, 0, i);
    MapSplit(blocks, i);
    FirstView(blocks[i..]);
    assert Pow2(11) == 0x800;
    OrIsSum(offset, n, 11);
    DivMod(offset + n * 0x800, n, offset, 0x800);
  }
}
