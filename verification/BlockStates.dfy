/** The generated tables as a whole, and the iterator that decodes the states of a block. */
module BlockStates {
  import opened BlockTables
  import opened Bytes
  import opened MixedRadix
  import opened Options

  datatype Tables = Tables(
    flags: seq<nat>, keys: seq<string>, values: seq<string>,
    words: seq<nat>, propertyMap: seq<nat>,
    firstState: seq<nat>, stateBlock: seq<nat>)

  // ---- What the generator writes --------------------------------------------------------------

  // Everything its assertions ask for; no count that the accessors cannot read; properties that
  // exist; and block ids that are the positions in the tables, as which the accessors use them.
  predicate Readable(props: seq<Property>, blocks: seq<Block>) {
    && (forall p :: p in props ==> Proper(p) && Count(p) < 16)
    && (forall i :: 0 <= i < |props| ==> Packs(props, i))
    && (forall i :: 0 <= i < |blocks| ==> BlockPacks(blocks, i))
    && (forall b :: b in blocks ==> Known(props, b.properties))
    && (forall i :: 0 <= i < |blocks| ==> blocks[i].id == i)
  }

  predicate Known(props: seq<Property>, ids: seq<nat>) {
    forall i :: 0 <= i < |ids| ==> ids[i] < |props| && Proper(props[ids[i]])
  }

  function Counts(props: seq<Property>, ids: seq<nat>): (counts: seq<pos>)
    requires Known(props, ids)
    ensures |counts| == |ids| && forall i :: 0 <= i < |ids| ==> counts[i] == Count(props[ids[i]])
  {
    if ids == [] then []
    else
      assert Known(props, ids[1..]);
      [Count(props[ids[0]])] + Counts(props, ids[1..])
  }

  function States(props: seq<Property>, b: Block): nat
    requires Known(props, b.properties)
  {
    Product(Counts(props, b.properties))
  }

  predicate AllKnown(props: seq<Property>, blocks: seq<Block>) {
    forall i :: 0 <= i < |blocks| ==> Known(props, blocks[i].properties)
  }

  function FirstStates(props: seq<Property>, blocks: seq<Block>, from: nat): (first: seq<nat>)
    requires AllKnown(props, blocks)
    ensures |first| == |blocks|
  {
    if blocks == [] then []
    else [from] + FirstStates(props, blocks[1..], from + States(props, blocks[0]))
  }

  function Repeat(x: nat, n: nat): (s: seq<nat>)
    ensures |s| == n && forall i :: 0 <= i < n ==> s[i] == x
  {
    seq(n, _ => x)
  }

  function StateBlocks(props: seq<Property>, blocks: seq<Block>): seq<nat>
    requires AllKnown(props, blocks)
  {
    if blocks == [] then []
    else Repeat(blocks[0].id, States(props, blocks[0])) + StateBlocks(props, blocks[1..])
  }

  function Keys(props: seq<Property>): (keys: seq<string>)
    ensures |keys| == |props| && forall i :: 0 <= i < |props| ==> keys[i] == props[i].key
  {
    if props == [] then [] else [props[0].key] + Keys(props[1..])
  }

  function Generate(props: seq<Property>, blocks: seq<Block>): (t: Tables)
    requires AllKnown(props, blocks)
    ensures |t.words| == |blocks| == |t.firstState|
  {
    Tables(FlagsTable(props, 0), Keys(props), ValuesTable(props),
           BlockWords(blocks, 0), PropertyMap(blocks),
           FirstStates(props, blocks, 0), StateBlocks(props, blocks))
  }

  // ---- The iterator ---------------------------------------------------------------------------

  datatype Entry = Entry(id: nat, digit: nat)

  // The n places of the property map from index on hold properties with a count.
  predicate Walkable(t: Tables, index: nat, n: nat) {
    && index + n <= |t.propertyMap|
    && forall i :: index <= i < index + n ==> t.propertyMap[i] < |t.flags| && CountOf(t.flags[t.propertyMap[i]]) > 0
  }

  class StateIterator {
    const t: Tables
    var value: nat    // m_value
    var index: nat    // m_prop

    constructor (t: Tables, value: nat, index: nat)
      ensures this.t == t && this.value == value && this.index == index
    {
      this.t, this.value, this.index := t, value, index;
    }

    function Current(): Entry
      requires Walkable(t, index, 1)
      reads this
    {
      var id := t.propertyMap[index];
      Entry(id, value % CountOf(t.flags[id]))
    }

    method Advance()
      requires Walkable(t, index, 1)
      modifies this
      ensures index == old(index) + 1
      ensures value == old(value) / CountOf(t.flags[t.propertyMap[old(index)]])
    {
      value := value / CountOf(t.flags[t.propertyMap[index]]);
      index := index + 1;
    }
  }

  // What iterating n places yields.
  function Walk(t: Tables, value: nat, index: nat, n: nat): seq<Entry>
    requires Walkable(t, index, n)
    decreases n
  {
    if n == 0 then []
    else
      var id := t.propertyMap[index];
      [Entry(id, value % CountOf(t.flags[id]))] + Walk(t, value / CountOf(t.flags[id]), index + 1, n - 1)
  }

  function CountsAt(t: Tables, index: nat, n: nat): (counts: seq<pos>)
    requires Walkable(t, index, n)
    decreases n
  {
    if n == 0 then [] else [CountOf(t.flags[t.propertyMap[index]])] + CountsAt(t, index + 1, n - 1)
  }

  lemma {:induction false} WalkIsDecode(t: Tables, value: nat, index: nat, n: nat)
    requires Walkable(t, index, n)
    ensures |Walk(t, value, index, n)| == n == |CountsAt(t, index, n)|
    ensures forall i :: 0 <= i < n ==>
              Walk(t, value, index, n)[i] == Entry(t.propertyMap[index + i], Decode(CountsAt(t, index, n), value)[i])
    decreases n
  {
    hide CountOf;
    if n > 0 {
      WalkIsDecode(t, value / CountOf(t.flags[t.propertyMap[index]]), index + 1, n - 1);
    }
  }

  function ViewOf(t: Tables, b: nat): (r: (nat, nat))
    requires b < |t.words|
  {
    (PropertiesStart(t.words[b]), PropertiesCount(t.words[b]))
  }

  // Along a block's view, the map holds the block's properties in reverse, and each has the
  // count it was given.
  lemma ViewEntry(props: seq<Property>, blocks: seq<Block>, b: nat, k: nat)
    requires Readable(props, blocks) && AllKnown(props, blocks) && b < |blocks|
    ensures var t, ids := Generate(props, blocks), blocks[b].properties;
            var (start, n) := ViewOf(t, b);
            && n == |ids| && start + n <= |t.propertyMap| && t.propertyMap[start..start + n] == Reverse(ids)
            && (k < n ==>
                  var id := t.propertyMap[start + k];
                  id == ids[n - 1 - k] && id < |t.flags| && CountOf(t.flags[id]) == Count(props[id]))
  {
    hide PropertiesStart, PropertiesCount, PropertyMap, BlockWords, FlagsTable, CountOf, StateBlocks, FirstStates,
      Reverse, ValuesTable, Count, Proper;
    var t, ids := Generate(props, blocks), blocks[b].properties;
    var (start, n) := ViewOf(t, b);
    ViewIsReversed(blocks, b);
    assert n == |ids|;
    if k < n {
      assert t.propertyMap[start + k] == t.propertyMap[start..start + n][k];
      assert props[ids[n - 1 - k]] in props && Packs(props, ids[n - 1 - k]);
      CountReads(props, ids[n - 1 - k]);
    }
  }

  // The table's counts, along a block's view, are the generator's in reverse.
  lemma CountsReversed(props: seq<Property>, blocks: seq<Block>, b: nat)
    requires Readable(props, blocks) && AllKnown(props, blocks) && b < |blocks|
    ensures var t, ids := Generate(props, blocks), blocks[b].properties;
            var (start, n) := ViewOf(t, b);
            && n == |ids| && Walkable(t, start, n)
            && t.propertyMap[start..start + n] == Reverse(ids)
            && CountsAt(t, start, n) == Reverse(Counts(props, ids))
  {
    hide Generate, ViewOf, CountOf, Count, Readable, Reverse, CountsAt, Counts;
    var t, ids := Generate(props, blocks), blocks[b].properties;
    var (start, n) := ViewOf(t, b);
    ViewEntry(props, blocks, b, 0);
    forall i | start <= i < start + n
      ensures t.propertyMap[i] == ids[n - 1 - (i - start)] && t.propertyMap[i] < |t.flags|
      ensures CountOf(t.flags[t.propertyMap[i]]) == Count(props[t.propertyMap[i]]) > 0
    {
      ViewEntry(props, blocks, b, i - start);
      assert Proper(props[ids[n - 1 - (i - start)]]);
    }
    CountsAtIndex(t, start, n);
    assert |CountsAt(t, start, n)| == |Reverse(Counts(props, ids))|;
  }

  lemma CountReads(props: seq<Property>, id: nat)
    requires id < |props| && Proper(props[id]) && Count(props[id]) < 16 && Packs(props, id)
    ensures CountOf(FlagsTable(props, 0)[id]) == Count(props[id])
  {
    hide CountOf, Flags, ValuesTable;
    FlagsEntry(props, 0, id);
    ValuesSplit(props, id);
    FlagsRead(props[id], |ValuesTable(props[..id])|);
  }

  lemma {:induction false} CountsAtIndex(t: Tables, index: nat, n: nat)
    requires Walkable(t, index, n)
    ensures |CountsAt(t, index, n)| == n
    ensures forall i :: 0 <= i < n ==> CountsAt(t, index, n)[i] == CountOf(t.flags[t.propertyMap[index + i]])
    decreases n
  {
    hide CountOf;
    if n > 0 {
      CountsAtIndex(t, index + 1, n - 1);
    }
  }

  // Iterating the j-th state of a block yields its properties from the last to the first, each
  // with the value it has in the j-th combination in lexicographic order.
  lemma TablesAndIteratorAgree(props: seq<Property>, blocks: seq<Block>, b: nat, j: nat)
    requires Readable(props, blocks) && AllKnown(props, blocks) && b < |blocks|
    requires j < States(props, blocks[b])
    ensures var t, ids := Generate(props, blocks), blocks[b].properties;
            var (start, n) := ViewOf(t, b);
            && n == |ids| && Walkable(t, start, n)
            && |Walk(t, j, start, n)| == n
            && forall i :: 0 <= i < n ==>
                 Walk(t, j, start, n)[n - 1 - i] == Entry(ids[i], StateAt(Counts(props, ids), j)[i])
  {
    hide Walk, CountsAt, StateAt, Decode, Counts, Product, Generate, ViewOf, Readable, Reverse;
    var t, ids := Generate(props, blocks), blocks[b].properties;
    var (start, n) := ViewOf(t, b);
    CountsReversed(props, blocks, b);
    WalkIsDecode(t, j, start, n);
    DecodeIsState(Counts(props, ids), j);
    forall i | 0 <= i < n
      ensures Walk(t, j, start, n)[n - 1 - i] == Entry(ids[i], StateAt(Counts(props, ids), j)[i])
    {
      assert t.propertyMap[start + (n - 1 - i)] == t.propertyMap[start..start + n][n - 1 - i] == ids[i];
    }
  }

  // ---- Where a block's states are ---------------------------------------------------------------

  function StatesBefore(props: seq<Property>, blocks: seq<Block>, b: nat): nat
    requires AllKnown(props, blocks) && b <= |blocks|
  {
    if b == 0 then 0 else StatesBefore(props, blocks, b - 1) + States(props, blocks[b - 1])
  }

  lemma {:induction false} StatesBeforeTail(props: seq<Property>, blocks: seq<Block>, b: nat)
    requires AllKnown(props, blocks) && 0 < b <= |blocks|
    ensures StatesBefore(props, blocks, b) == States(props, blocks[0]) + StatesBefore(props, blocks[1..], b - 1)
    decreases b
  {
    hide States;
    if b > 1 {
      StatesBeforeTail(props, blocks, b - 1);
      assert blocks[1..][b - 2] == blocks[b - 1];
    }
  }

  lemma {:induction false} FirstStateEntry(props: seq<Property>, blocks: seq<Block>, from: nat, b: nat)
    requires AllKnown(props, blocks) && b < |blocks|
    ensures FirstStates(props, blocks, from)[b] == from + StatesBefore(props, blocks, b)
    decreases b
  {
    hide States;
    if b > 0 {
      StatesBeforeTail(props, blocks, b);
      FirstStateEntry(props, blocks[1..], from + States(props, blocks[0]), b - 1);
    }
  }

  // The state table holds the block's id at each of its states.
  lemma {:induction false} StateBlockEntry(props: seq<Property>, blocks: seq<Block>, b: nat, j: nat)
    requires AllKnown(props, blocks) && b < |blocks| && j < States(props, blocks[b])
    ensures var k := StatesBefore(props, blocks, b) + j;
            k < |StateBlocks(props, blocks)| && StateBlocks(props, blocks)[k] == blocks[b].id
    decreases b
  {
    hide States;
    if b > 0 {
      StatesBeforeTail(props, blocks, b);
      StateBlockEntry(props, blocks[1..], b - 1, j);
    }
  }
}
