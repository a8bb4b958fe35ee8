/** How many states of a block a variant matches. */
module VariantCounts {
  import opened BlockStates
  import opened BlockTables
  import opened Bytes
  import opened MixedRadix
  import opened Options
  import opened Variants

  // ---- The tables and the generator's input give the same verdict ------------------------------

  lemma CheckAgrees(props: seq<Property>, blocks: seq<Block>, variant: Variant, id: nat, digit: nat)
    requires Readable(props, blocks) && AllKnown(props, blocks) && id < |props| && digit < Count(props[id])
    ensures CheckableEntry(Generate(props, blocks), Entry(id, digit))
    ensures CheckEntry(Generate(props, blocks), variant, Entry(id, digit)) == CheckProperty(props[id], variant, digit)
  {
    hide IsEnum, IsBool, IsInt, IsInt1, CountOf, ValuesOffset, Flags, UintOf, Lookup, BlockWords, PropertyMap,
      FirstStates, StateBlocks;
    var p, offset := props[id], |ValuesTable(props[..id])|;
    assert p in props && Packs(props, id);
    ValuesSplit(props, id);
    FlagsEntry(props, 0, id);
    FlagsRead(p, offset);
    if p.kind.EnumKind? {
      EnumLookup(props, id, digit);
    }
  }

  lemma {:induction false} MatchIsAllPass(t: Tables, variant: Variant, entries: seq<Entry>)
    requires Checkable(t, entries)
    ensures MatchEntries(t, variant, entries) == Pass <==>
            forall i :: 0 <= i < |entries| ==> CheckEntry(t, variant, entries[i]) == Pass
    decreases |entries|
  {
    hide CheckEntry, CheckableEntry;
    if entries != [] {
      assert Checkable(t, entries[1..]);
      MatchIsAllPass(t, variant, entries[1..]);
      if forall i :: 0 <= i < |entries| ==> CheckEntry(t, variant, entries[i]) == Pass {
        assert forall i :: 0 <= i < |entries| - 1 ==> entries[1..][i] == entries[i + 1];
      }
      if MatchEntries(t, variant, entries) == Pass {
        forall i | 0 <= i < |entries| ensures CheckEntry(t, variant, entries[i]) == Pass {
          if i > 0 {
            assert entries[i] == entries[1..][i - 1];
          }
        }
      }
    }
  }

  function TestOf(p: Property, variant: Variant): Test {
    (digit: nat) => CheckProperty(p, variant, digit) == Pass
  }

  function Tests(props: seq<Property>, ids: seq<nat>, variant: Variant): (tests: seq<Test>)
    requires Known(props, ids)
    ensures |tests| == |ids| && forall i :: 0 <= i < |ids| ==> tests[i] == TestOf(props[ids[i]], variant)
  {
    if ids == [] then []
    else
      assert Known(props, ids[1..]);
      [TestOf(props[ids[0]], variant)] + Tests(props, ids[1..], variant)
  }

  // match_block_state, on the j-th state of block b, by the tables.
  function Match(props: seq<Property>, blocks: seq<Block>, b: nat, variant: Variant, j: nat): Verdict
    requires Readable(props, blocks) && AllKnown(props, blocks) && b < |blocks| && j < States(props, blocks[b])
  {
    var t := Generate(props, blocks);
    var (start, n) := ViewOf(t, b);
    TablesAndIteratorAgree(props, blocks, b, j);
    StateIsCheckable(props, blocks, b, variant, j);
    MatchEntries(t, variant, Walk(t, j, start, n))
  }

  lemma StateIsCheckable(props: seq<Property>, blocks: seq<Block>, b: nat, variant: Variant, j: nat)
    requires Readable(props, blocks) && AllKnown(props, blocks) && b < |blocks| && j < States(props, blocks[b])
    ensures var t, ids := Generate(props, blocks), blocks[b].properties;
            var (start, n) := ViewOf(t, b);
            && Walkable(t, start, n) && n == |ids| && |Walk(t, j, start, n)| == n
            && Checkable(t, Walk(t, j, start, n))
            && forall i :: 0 <= i < n ==>
                 CheckEntry(t, variant, Walk(t, j, start, n)[n - 1 - i])
                 == CheckProperty(props[ids[i]], variant, StateAt(Counts(props, ids), j)[i])
  {
    hide CheckEntry, CheckProperty, CheckableEntry, Walk, StateAt, Product, CountOf, Generate, ViewOf, Readable;
    var t, ids := Generate(props, blocks), blocks[b].properties;
    var (start, n) := ViewOf(t, b);
    TablesAndIteratorAgree(props, blocks, b, j);
    StateAtIsChoice(Counts(props, ids), j);
    var entries, digits := Walk(t, j, start, n), StateAt(Counts(props, ids), j);
    forall k | 0 <= k < n
      ensures CheckableEntry(t, entries[k])
      ensures CheckEntry(t, variant, entries[k]) == CheckProperty(props[ids[n - 1 - k]], variant, digits[n - 1 - k])
    {
      assert entries[n - 1 - (n - 1 - k)] == entries[k];
      CheckAgrees(props, blocks, variant, ids[n - 1 - k], digits[n - 1 - k]);
    }
  }

  // A state matches exactly if every property of its combination passes.
  lemma MatchIffAccepted(props: seq<Property>, blocks: seq<Block>, b: nat, variant: Variant, j: nat)
    requires Readable(props, blocks) && AllKnown(props, blocks) && b < |blocks| && j < States(props, blocks[b])
    ensures var ids := blocks[b].properties;
            Match(props, blocks, b, variant, j) == Pass <==>
            Accepts(Tests(props, ids, variant), StateAt(Counts(props, ids), j))
  {
    hide CheckEntry, CheckProperty, Walk, StateAt, Product, Generate, ViewOf, Readable, CheckableEntry, MatchEntries;
    var t, ids := Generate(props, blocks), blocks[b].properties;
    var (start, n) := ViewOf(t, b);
    StateIsCheckable(props, blocks, b, variant, j);
    var entries, digits := Walk(t, j, start, n), StateAt(Counts(props, ids), j);
    MatchIsAllPass(t, variant, entries);
    if Accepts(Tests(props, ids, variant), digits) {
      forall k | 0 <= k < n ensures CheckEntry(t, variant, entries[k]) == Pass {
        assert entries[n - 1 - (n - 1 - k)] == entries[k];
        assert Tests(props, ids, variant)[n - 1 - k](digits[n - 1 - k]);
      }
    }
  }

  // ---- Which property decides -------------------------------------------------------------------

  // The first entry that does not pass has this verdict.
  predicate FirstIs(t: Tables, variant: Variant, entries: seq<Entry>, v: Verdict, i: nat)
    requires Checkable(t, entries)
  {
    && i < |entries| && CheckEntry(t, variant, entries[i]) == v
    && forall k :: 0 <= k < i ==> CheckEntry(t, variant, entries[k]) == Pass
  }

  lemma {:induction false} VerdictOfFirst(t: Tables, variant: Variant, entries: seq<Entry>, v: Verdict, i: nat)
    requires Checkable(t, entries) && v != Pass && FirstIs(t, variant, entries, v, i)
    ensures MatchEntries(t, variant, entries) == v
    decreases i
  {
    hide CheckEntry, CheckableEntry;
    if i > 0 {
      var rest := entries[1..];
      assert Checkable(t, rest);
      assert forall k :: 0 <= k < |rest| ==> rest[k] == entries[k + 1];
      VerdictOfFirst(t, variant, rest, v, i - 1);
    }
  }

  lemma {:induction false} FirstOfVerdict(t: Tables, variant: Variant, entries: seq<Entry>) returns (i: nat)
    requires Checkable(t, entries) && MatchEntries(t, variant, entries) != Pass
    ensures FirstIs(t, variant, entries, MatchEntries(t, variant, entries), i)
    decreases |entries|
  {
    hide CheckEntry, CheckableEntry;
    if CheckEntry(t, variant, entries[0]) != Pass {
      i := 0;
    } else {
      var rest := entries[1..];
      assert Checkable(t, rest);
      assert forall k :: 0 <= k < |rest| ==> rest[k] == entries[k + 1];
      i := FirstOfVerdict(t, variant, rest);
      i := i + 1;
    }
  }

  // Of a combination of values, the i-th property has this verdict and all after it pass: the
  // iterator comes to them first.
  predicate Decides(props: seq<Property>, ids: seq<nat>, variant: Variant, digits: seq<nat>, v: Verdict, i: nat)
    requires Known(props, ids) && |digits| == |ids|
  {
    && i < |ids| && CheckProperty(props[ids[i]], variant, digits[i]) == v
    && forall k :: i < k < |ids| ==> CheckProperty(props[ids[k]], variant, digits[k]) == Pass
  }

  predicate AllPass(props: seq<Property>, ids: seq<nat>, variant: Variant, digits: seq<nat>)
    requires Known(props, ids) && |digits| == |ids|
  {
    forall i :: 0 <= i < |ids| ==> CheckProperty(props[ids[i]], variant, digits[i]) == Pass
  }

  // The values of the properties in the j-th state of a block.
  function ValuesAt(props: seq<Property>, blocks: seq<Block>, b: nat, j: nat): (digits: seq<nat>)
    requires AllKnown(props, blocks) && b < |blocks| && j < States(props, blocks[b])
    ensures |digits| == |blocks[b].properties|
  {
    StateAt(Counts(props, blocks[b].properties), j)
  }

  // The verdicts on the entries are those on the properties, from the last to the first.
  predicate Mirrored(props: seq<Property>, ids: seq<nat>, variant: Variant, digits: seq<nat>,
                     t: Tables, entries: seq<Entry>)
    requires Known(props, ids) && |digits| == |ids| && Checkable(t, entries)
  {
    && |entries| == |ids|
    && forall i, k :: 0 <= i < |ids| && 0 <= k < |ids| && i + k + 1 == |ids| ==>
         CheckEntry(t, variant, entries[k]) == CheckProperty(props[ids[i]], variant, digits[i])
  }

  // The first entry that does not pass is that of the last property that does not.
  lemma FirstIsLast(props: seq<Property>, ids: seq<nat>, variant: Variant, digits: seq<nat>,
                    t: Tables, entries: seq<Entry>, v: Verdict, i: nat)
    requires Known(props, ids) && |digits| == |ids| && Checkable(t, entries) && i < |ids|
    requires Mirrored(props, ids, variant, digits, t, entries)
    ensures FirstIs(t, variant, entries, v, |ids| - 1 - i) <==> Decides(props, ids, variant, digits, v, i)
  {
    hide CheckEntry, CheckProperty, CheckableEntry;
    var n := |ids|;
    if FirstIs(t, variant, entries, v, n - 1 - i) {
      forall k | i < k < n ensures CheckProperty(props[ids[k]], variant, digits[k]) == Pass {
        assert CheckEntry(t, variant, entries[n - 1 - k]) == Pass;
      }
    }
    if Decides(props, ids, variant, digits, v, i) {
      forall k | 0 <= k < n - 1 - i ensures CheckEntry(t, variant, entries[k]) == Pass {
        assert CheckProperty(props[ids[n - 1 - k]], variant, digits[n - 1 - k]) == Pass;
      }
    }
  }

  lemma AllFromTheEnd(props: seq<Property>, ids: seq<nat>, variant: Variant, digits: seq<nat>,
                      t: Tables, entries: seq<Entry>)
    requires Known(props, ids) && |digits| == |ids| && Checkable(t, entries)
    requires Mirrored(props, ids, variant, digits, t, entries)
    ensures AllPass(props, ids, variant, digits) <==>
            forall k :: 0 <= k < |entries| ==> CheckEntry(t, variant, entries[k]) == Pass
  {
    hide CheckEntry, CheckProperty, CheckableEntry;
    var n := |ids|;
    if AllPass(props, ids, variant, digits) {
      forall k | 0 <= k < n ensures CheckEntry(t, variant, entries[k]) == Pass {
        assert CheckProperty(props[ids[n - 1 - k]], variant, digits[n - 1 - k]) == Pass;
      }
    } else {
      var i :| 0 <= i < n && CheckProperty(props[ids[i]], variant, digits[i]) != Pass;
      assert CheckEntry(t, variant, entries[n - 1 - i]) != Pass;
    }
  }

  lemma StateIsMirrored(props: seq<Property>, blocks: seq<Block>, b: nat, variant: Variant, j: nat)
    requires Readable(props, blocks) && AllKnown(props, blocks) && b < |blocks| && j < States(props, blocks[b])
    ensures var t := Generate(props, blocks);
            var (start, n) := ViewOf(t, b);
            && Walkable(t, start, n) && Checkable(t, Walk(t, j, start, n))
            && Mirrored(props, blocks[b].properties, variant, ValuesAt(props, blocks, b, j), t, Walk(t, j, start, n))
  {
    hide CheckEntry, CheckProperty, Walk, StateAt, Product, Generate, ViewOf, Readable, CheckableEntry;
    var t, ids := Generate(props, blocks), blocks[b].properties;
    var (start, n) := ViewOf(t, b);
    StateIsCheckable(props, blocks, b, variant, j);
    forall i, k | 0 <= i < n && 0 <= k < n && i + k + 1 == n
      ensures CheckEntry(t, variant, Walk(t, j, start, n)[k])
           == CheckProperty(props[ids[i]], variant, ValuesAt(props, blocks, b, j)[i])
    {
      assert k == n - 1 - i;
    }
  }

  // What match_block_state does with a state, property by property: it passes if all of them
  // pass, and otherwise ends as the last property that does not pass.
  lemma VerdictExactly(props: seq<Property>, blocks: seq<Block>, b: nat, variant: Variant, j: nat, v: Verdict)
    requires Readable(props, blocks) && AllKnown(props, blocks) && b < |blocks| && j < States(props, blocks[b])
    ensures var ids, digits := blocks[b].properties, ValuesAt(props, blocks, b, j);
            Match(props, blocks, b, variant, j) == v <==>
            if v == Pass then AllPass(props, ids, variant, digits)
            else exists i :: Decides(props, ids, variant, digits, v, i)
  {
    hide CheckEntry, CheckProperty, Walk, StateAt, Product, Generate, ViewOf, Readable, CheckableEntry, MatchEntries,
      Mirrored, FirstIs, Decides, AllPass, ValuesAt;
    var t, ids, digits := Generate(props, blocks), blocks[b].properties, ValuesAt(props, blocks, b, j);
    var (start, n) := ViewOf(t, b);
    StateIsMirrored(props, blocks, b, variant, j);
    var entries := Walk(t, j, start, n);
    MirroredSize(props, ids, variant, digits, t, entries);
    if v == Pass {
      MatchIsAllPass(t, variant, entries);
      AllFromTheEnd(props, ids, variant, digits, t, entries);
    } else {
      if Match(props, blocks, b, variant, j) == v {
        var i := FirstOfVerdict(t, variant, entries);
        FirstInside(t, variant, entries, v, i);
        FirstIsLast(props, ids, variant, digits, t, entries, v, |ids| - 1 - i);
      }
      forall i | Decides(props, ids, variant, digits, v, i) ensures MatchEntries(t, variant, entries) == v {
        DecidesInside(props, ids, variant, digits, v, i);
        FirstIsLast(props, ids, variant, digits, t, entries, v, i);
        VerdictOfFirst(t, variant, entries, v, |ids| - 1 - i);
      }
    }
  }

  lemma MirroredSize(props: seq<Property>, ids: seq<nat>, variant: Variant, digits: seq<nat>,
                     t: Tables, entries: seq<Entry>)
    requires Known(props, ids) && |digits| == |ids| && Checkable(t, entries)
    requires Mirrored(props, ids, variant, digits, t, entries)
    ensures |entries| == |ids|
  {
  }

  lemma FirstInside(t: Tables, variant: Variant, entries: seq<Entry>, v: Verdict, i: nat)
    requires Checkable(t, entries) && FirstIs(t, variant, entries, v, i)
    ensures i < |entries|
  {
  }

  lemma DecidesInside(props: seq<Property>, ids: seq<nat>, variant: Variant, digits: seq<nat>, v: Verdict, i: nat)
    requires Known(props, ids) && |digits| == |ids| && Decides(props, ids, variant, digits, v, i)
    ensures i < |ids|
  {
  }

  // ---- How many values of one property pass -----------------------------------------------------

  // The variant does not name the property, or names it with a value that it has. A boolean is
  // labelled as the matcher labels it: "false" first.
  predicate Legal(p: Property, variant: Variant) {
    match Lookup(variant, p.key)
    case None => true
    case Some(s) =>
      match p.kind
      case EnumKind(values) => s in values
      case BoolKind => s == "true" || s == "false"
      case IntKind(first, count) =>
        var v := UintOf(s);
        v.Some? && first <= v.value < first + count
  }

  predicate Distinct(values: seq<string>) {
    forall i, j :: 0 <= i < j < |values| ==> values[i] != values[j]
  }

  lemma {:induction false} CountOfAll(test: Test, n: nat)
    requires forall d: nat :: d < n ==> test(d)
    ensures CountValues(test, n) == n
  {
    if n > 0 {
      CountOfAll(test, n - 1);
    }
  }

  lemma {:induction false} CountOfOne(test: Test, n: nat, d: nat)
    requires forall k: nat :: k < n ==> (test(k) <==> k == d)
    ensures CountValues(test, n) == if d < n then 1 else 0
  {
    if n > 0 {
      CountOfOne(test, n - 1, d);
    }
  }

  lemma ValuesPassing(p: Property, variant: Variant)
    requires Legal(p, variant) && (p.kind.EnumKind? ==> Distinct(p.kind.values))
    ensures CountValues(TestOf(p, variant), Count(p)) == if Lookup(variant, p.key).None? then Count(p) else 1
  {
    hide Lookup, UintOf;
    var test := TestOf(p, variant);
    match Lookup(variant, p.key)
    case None => CountOfAll(test, Count(p));
    case Some(s) =>
      match p.kind
      case EnumKind(values) =>
        var d: nat :| d < |values| && values[d] == s;
        CountOfOne(test, Count(p), d);
      case BoolKind => CountOfOne(test, 2, if s == "true" then 1 else 0);
      case IntKind(first, count) => CountOfOne(test, count, UintOf(s).value - first);
  }

  // ---- How many states of a block match --------------------------------------------------------

  // The product of the counts of the properties that the variant leaves open.
  function OpenStates(props: seq<Property>, ids: seq<nat>, variant: Variant): nat
    requires Known(props, ids)
  {
    if ids == [] then 1
    else
      assert Known(props, ids[1..]);
      var p := props[ids[0]];
      (if Lookup(variant, p.key).None? then Count(p) else 1) * OpenStates(props, ids[1..], variant)
  }

  predicate AllLegal(props: seq<Property>, ids: seq<nat>, variant: Variant)
    requires Known(props, ids)
  {
    forall i :: 0 <= i < |ids| ==>
      var p := props[ids[i]];
      Legal(p, variant) && (p.kind.EnumKind? ==> Distinct(p.kind.values))
  }

  lemma {:induction false} OpenIsProduct(props: seq<Property>, ids: seq<nat>, variant: Variant)
    requires Known(props, ids) && AllLegal(props, ids, variant)
    ensures ProductOfCounts(Counts(props, ids), Tests(props, ids, variant)) == OpenStates(props, ids, variant)
    decreases |ids|
  {
    hide Legal, Distinct, Lookup, CountValues, Count, TestOf, Proper;
    if ids != [] {
      assert Known(props, ids[1..]) && AllLegal(props, ids[1..], variant);
      ValuesPassing(props[ids[0]], variant);
      OpenIsProduct(props, ids[1..], variant);
    }
  }

  // How many of the first n states of the block match, by the tables.
  function CountMatching(props: seq<Property>, blocks: seq<Block>, b: nat, variant: Variant, n: nat): nat
    requires Readable(props, blocks) && AllKnown(props, blocks) && b < |blocks| && n <= States(props, blocks[b])
  {
    if n == 0 then 0
    else
      CountMatching(props, blocks, b, variant, n - 1)
      + if Match(props, blocks, b, variant, n - 1) == Pass then 1 else 0
  }

  lemma {:induction false} MatchingIsAccepted(props: seq<Property>, blocks: seq<Block>, b: nat,
                                              variant: Variant, n: nat)
    requires Readable(props, blocks) && AllKnown(props, blocks) && b < |blocks| && n <= States(props, blocks[b])
    ensures var ids := blocks[b].properties;
            CountMatching(props, blocks, b, variant, n)
            == CountStates(Counts(props, ids), Tests(props, ids, variant), n)
    decreases n
  {
    hide Match, Accepts, StateAt, Readable, Counts, Tests, Product;
    if n > 0 {
      MatchingIsAccepted(props, blocks, b, variant, n - 1);
      MatchIffAccepted(props, blocks, b, variant, n - 1);
    }
  }

  // A variant that names properties of the block with values they have matches as many of its
  // states as there are combinations of the other properties.
  lemma MatchesAreOpenStates(props: seq<Property>, blocks: seq<Block>, b: nat, variant: Variant)
    requires Readable(props, blocks) && AllKnown(props, blocks) && b < |blocks|
    requires AllLegal(props, blocks[b].properties, variant)
    ensures CountMatching(props, blocks, b, variant, States(props, blocks[b]))
         == OpenStates(props, blocks[b].properties, variant)
  {
    hide CountMatching, CountStates, ProductOfCounts, Readable, AllLegal, OpenStates, Tests, Counts, Product;
    var ids := blocks[b].properties;
    MatchingIsAccepted(props, blocks, b, variant, States(props, blocks[b]));
    CountIsProduct(Counts(props, ids), Tests(props, ids, variant));
    OpenIsProduct(props, ids, variant);
  }

  // A variant that names all of them matches exactly one.
  lemma FullVariantMatchesOne(props: seq<Property>, blocks: seq<Block>, b: nat, variant: Variant)
    requires Readable(props, blocks) && AllKnown(props, blocks) && b < |blocks|
    requires AllLegal(props, blocks[b].properties, variant)
    requires forall i :: 0 <= i < |blocks[b].properties| ==> Lookup(variant, props[blocks[b].properties[i]].key).Some?
    ensures CountMatching(props, blocks, b, variant, States(props, blocks[b])) == 1
  {
    hide CountMatching, Readable, AllLegal, OpenStates, Lookup, States;
    MatchesAreOpenStates(props, blocks, b, variant);
    NothingOpen(props, blocks[b].properties, variant);
  }

  lemma {:induction false} NothingOpen(props: seq<Property>, ids: seq<nat>, variant: Variant)
    requires Known(props, ids)
    requires forall i :: 0 <= i < |ids| ==> Lookup(variant, props[ids[i]].key).Some?
    ensures OpenStates(props, ids, variant) == 1
    decreases |ids|
  {
    hide Lookup;
    if ids != [] {
      assert Known(props, ids[1..]);
      NothingOpen(props, ids[1..], variant);
    }
  }

  // ---- The scan -----------------------------------------------------------------------------------

  // The matching states among the first n of the block, in order.
  function Matching(props: seq<Property>, blocks: seq<Block>, b: nat, variant: Variant, n: nat): (ids: seq<nat>)
    requires Readable(props, blocks) && AllKnown(props, blocks) && b < |blocks| && n <= States(props, blocks[b])
    ensures |ids| == CountMatching(props, blocks, b, variant, n)
  {
    if n == 0 then []
    else
      Matching(props, blocks, b, variant, n - 1)
      + if Match(props, blocks, b, variant, n - 1) == Pass then [StatesBefore(props, blocks, b) + n - 1] else []
  }

  method MatchNth(props: seq<Property>, blocks: seq<Block>, b: nat, variant: Variant, state: nat, ghost j: nat)
    returns (v: Verdict)
    requires Readable(props, blocks) && AllKnown(props, blocks) && b < |blocks|
    requires j < States(props, blocks[b]) && state == StatesBefore(props, blocks, b) + j
    ensures v == Match(props, blocks, b, variant, j)
  {
    hide Walk, MatchEntries, Checkable, Walkable, StatesBefore, States, Readable, FlagsTable, PropertyMap, BlockWords,
      StateBlocks;
    var t := Generate(props, blocks);
    FirstStateEntry(props, blocks, 0, b);
    StateIsCheckable(props, blocks, b, variant, j);
    v := MatchBlockState(t, b, state, variant);
  }

  // A variant with legal values never makes the matcher throw.
  lemma LegalNeverThrows(props: seq<Property>, blocks: seq<Block>, b: nat, variant: Variant, j: nat)
    requires Readable(props, blocks) && AllKnown(props, blocks) && b < |blocks| && j < States(props, blocks[b])
    requires AllLegal(props, blocks[b].properties, variant)
    ensures Match(props, blocks, b, variant, j) != Throw
  {
    hide Match, Readable, ValuesAt, Lookup, UintOf;
    VerdictExactly(props, blocks, b, variant, j, Throw);
  }

  predicate Ascending(list: seq<nat>) {
    forall i, k :: 0 <= i < k < |list| ==> list[i] < list[k]
  }

  lemma AscendingOneMore(list: seq<nat>, x: nat)
    requires Ascending(list) && forall y :: y in list ==> y < x
    ensures Ascending(list + [x]) && x !in list
    ensures forall y :: y in list + [x] <==> y in list || y == x
  {
    assert forall i :: 0 <= i < |list| ==> list[i] in list;
  }

  lemma NoneAscending()
    ensures Ascending([])
  {
  }

  // The list holds exactly the states of the block that pass property by property, in order.
  predicate Scanned(props: seq<Property>, blocks: seq<Block>, b: nat, variant: Variant, n: nat, list: seq<nat>)
    requires Readable(props, blocks) && AllKnown(props, blocks) && b < |blocks| && n <= States(props, blocks[b])
  {
    && Ascending(list)
    && (forall x :: x in list ==> StatesBefore(props, blocks, b) <= x < StatesBefore(props, blocks, b) + n)
    && forall j: nat {:trigger ValuesAt(props, blocks, b, j)} :: j < n ==>
         (StatesBefore(props, blocks, b) + j in list <==>
            AllPass(props, blocks[b].properties, variant, ValuesAt(props, blocks, b, j)))
  }

  lemma {:induction false} MatchingScans(props: seq<Property>, blocks: seq<Block>, b: nat, variant: Variant, n: nat)
    requires Readable(props, blocks) && AllKnown(props, blocks) && b < |blocks| && n <= States(props, blocks[b])
    ensures Scanned(props, blocks, b, variant, n, Matching(props, blocks, b, variant, n))
    decreases n
  {
    hide Match, Readable, ValuesAt, AllPass, StatesBefore, States, Ascending;
    if n == 0 {
      NoneAscending();
    } else {
      var before, list := Matching(props, blocks, b, variant, n - 1), Matching(props, blocks, b, variant, n);
      var state := StatesBefore(props, blocks, b) + n - 1;
      MatchingScans(props, blocks, b, variant, n - 1);
      VerdictExactly(props, blocks, b, variant, n - 1, Pass);
      AscendingOneMore(before, state);
      if Match(props, blocks, b, variant, n - 1) == Pass {
        assert list == before + [state];
      } else {
        assert list == before;
      }
    }
  }

  // match_block_states: the scan ends at the first state of another block, so the block must
  // not be the last. It finds the matching states, or throws.
  method MatchBlockStates(props: seq<Property>, blocks: seq<Block>, b: nat, variant: Variant)
    returns (r: Option<seq<nat>>)
    requires Readable(props, blocks) && AllKnown(props, blocks) && b + 1 < |blocks|
    ensures r.Some? ==> r.value == Matching(props, blocks, b, variant, States(props, blocks[b]))
    ensures r.None? <==> exists j: nat :: j < States(props, blocks[b]) && Match(props, blocks, b, variant, j) == Throw
    ensures r.Some? ==> Scanned(props, blocks, b, variant, States(props, blocks[b]), r.value)
    ensures AllLegal(props, blocks[b].properties, variant) ==> r.Some?
  {
    hide Matching, AllLegal, Scanned, StatesBefore, StateBlocks, FirstStates, Generate, States, Readable, Match;
    var t := Generate(props, blocks);
    var state, list := t.firstState[b], [];
    ghost var j, all := 0, States(props, blocks[b]);
    ScanStart(props, blocks, b, variant);
    ScanEntry(props, blocks, b, 0);
    while t.stateBlock[state] == b
      invariant j <= all && state == StatesBefore(props, blocks, b) + j
      invariant state < |t.stateBlock| && (t.stateBlock[state] == b <==> j < all)
      invariant list == Matching(props, blocks, b, variant, j)
      invariant forall k: nat :: k < j ==> Match(props, blocks, b, variant, k) != Throw
      decreases all - j
    {
      var v := MatchNth(props, blocks, b, variant, state, j);
      ScanEntry(props, blocks, b, j + 1);
      MatchingNext(props, blocks, b, variant, j);
      if v == Throw {
        if AllLegal(props, blocks[b].properties, variant) {
          LegalNeverThrows(props, blocks, b, variant, j);
        }
        return None;
      }
      if v == Pass {
        list := list + [state];
      }
      state, j := state + 1, j + 1;
    }
    MatchingScans(props, blocks, b, variant, all);
    r := Some(list);
  }

  lemma ScanStart(props: seq<Property>, blocks: seq<Block>, b: nat, variant: Variant)
    requires Readable(props, blocks) && AllKnown(props, blocks) && b < |blocks|
    ensures Generate(props, blocks).firstState[b] == StatesBefore(props, blocks, b)
    ensures Matching(props, blocks, b, variant, 0) == []
  {
    FirstStateEntry(props, blocks, 0, b);
  }

  lemma MatchingNext(props: seq<Property>, blocks: seq<Block>, b: nat, variant: Variant, j: nat)
    requires Readable(props, blocks) && AllKnown(props, blocks) && b < |blocks| && j < States(props, blocks[b])
    ensures Matching(props, blocks, b, variant, j + 1)
         == Matching(props, blocks, b, variant, j)
            + if Match(props, blocks, b, variant, j) == Pass then [StatesBefore(props, blocks, b) + j] else []
  {
  }

  // The table entry at the j-th state of the block, and just after its last.
  lemma ScanEntry(props: seq<Property>, blocks: seq<Block>, b: nat, j: nat)
    requires Readable(props, blocks) && AllKnown(props, blocks) && b + 1 < |blocks| && j <= States(props, blocks[b])
    ensures var k, t := StatesBefore(props, blocks, b) + j, Generate(props, blocks);
            k < |t.stateBlock| && (t.stateBlock[k] == b <==> j < States(props, blocks[b]))
  {
    hide FirstStates, FlagsTable, PropertyMap, BlockWords, StateBlocks;
    assert StatesBefore(props, blocks, b + 1) == StatesBefore(props, blocks, b) + States(props, blocks[b]);
    if j < States(props, blocks[b]) {
      StateBlockEntry(props, blocks, b, j);
    } else {
      StateBlockEntry(props, blocks, b + 1, 0);
    }
  }
}
