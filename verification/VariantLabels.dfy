/** The states that a variant selects, against the labels that the generator was given. */
module VariantLabels {
  import opened BlockStates
  import opened BlockTables
  import opened MixedRadix
  import opened Options
  import opened VariantCounts
  import opened Variants

  // The generator insists that the first value of a boolean is True; the matcher takes it for
  // "false".
  function LabelVerdict(p: Property, variant: Variant, digit: nat): Verdict {
    match Lookup(variant, p.key)
    case None => Pass
    case Some(s) =>
      match p.kind
      case EnumKind(values) => if digit < |values| && s == values[digit] then Pass else Reject
      case BoolKind => if s == (if digit == 0 then "true" else "false") then Pass else Reject
      case IntKind(first, _) =>
        match UintOf(s)
        case None => Throw
        case Some(v) => if v == first + digit then Pass else Reject
  }

  // The variant gives a boolean property one of its two values.
  predicate NamesBoolean(p: Property, variant: Variant) {
    p.kind.BoolKind? && (Lookup(variant, p.key) == Some("true") || Lookup(variant, p.key) == Some("false"))
  }

  // The matcher goes by the generator's labels exactly where no boolean is named.
  lemma VerdictsAgree(p: Property, variant: Variant, digit: nat)
    requires Proper(p) && digit < Count(p)
    ensures CheckProperty(p, variant, digit) == LabelVerdict(p, variant, digit) <==> !NamesBoolean(p, variant)
  {
    hide Lookup, UintOf;
  }

  // The combination is labelled with all that the variant asks for.
  predicate Labelled(props: seq<Property>, ids: seq<nat>, variant: Variant, digits: seq<nat>)
    requires Known(props, ids)
  {
    |digits| == |ids| && forall i :: 0 <= i < |ids| ==> LabelVerdict(props[ids[i]], variant, digits[i]) == Pass
  }

  predicate NamesNoBoolean(props: seq<Property>, ids: seq<nat>, variant: Variant)
    requires Known(props, ids)
  {
    forall i :: 0 <= i < |ids| ==> !NamesBoolean(props[ids[i]], variant)
  }

  predicate SelectsLabelled(props: seq<Property>, blocks: seq<Block>, b: nat, variant: Variant, j: nat)
    requires Readable(props, blocks) && AllKnown(props, blocks) && b < |blocks| && j < States(props, blocks[b])
  {
    var ids := blocks[b].properties;
    Match(props, blocks, b, variant, j) == Pass <==> Labelled(props, ids, variant, StateAt(Counts(props, ids), j))
  }

  lemma AtState(props: seq<Property>, blocks: seq<Block>, b: nat, variant: Variant, j: nat)
    requires Readable(props, blocks) && AllKnown(props, blocks) && b < |blocks| && j < States(props, blocks[b])
    ensures NamesNoBoolean(props, blocks[b].properties, variant) ==> SelectsLabelled(props, blocks, b, variant, j)
    ensures !NamesNoBoolean(props, blocks[b].properties, variant) && Match(props, blocks, b, variant, j) == Pass ==>
              !SelectsLabelled(props, blocks, b, variant, j)
  {
    hide Match, CheckProperty, LabelVerdict, NamesBoolean, StateAt, Product, Readable;
    var ids := blocks[b].properties;
    var digits := StateAt(Counts(props, ids), j);
    MatchIffAccepted(props, blocks, b, variant, j);
    StateAtIsChoice(Counts(props, ids), j);
    forall i | 0 <= i < |ids|
      ensures TestOf(props[ids[i]], variant)(digits[i]) == (CheckProperty(props[ids[i]], variant, digits[i]) == Pass)
      ensures CheckProperty(props[ids[i]], variant, digits[i]) == LabelVerdict(props[ids[i]], variant, digits[i])
              <==> !NamesBoolean(props[ids[i]], variant)
    {
      VerdictsAgree(props[ids[i]], variant, digits[i]);
    }
  }

  lemma {:induction false} SomeMatch(props: seq<Property>, blocks: seq<Block>, b: nat, variant: Variant, n: nat)
    returns (j: nat)
    requires Readable(props, blocks) && AllKnown(props, blocks) && b < |blocks| && n <= States(props, blocks[b])
    requires CountMatching(props, blocks, b, variant, n) > 0
    ensures j < n && Match(props, blocks, b, variant, j) == Pass
    decreases n
  {
    hide Match, Readable;
    if Match(props, blocks, b, variant, n - 1) == Pass {
      j := n - 1;
    } else {
      j := SomeMatch(props, blocks, b, variant, n - 1);
    }
  }

  lemma {:induction false} OpenStatesExist(props: seq<Property>, ids: seq<nat>, variant: Variant)
    requires Known(props, ids)
    ensures OpenStates(props, ids, variant) > 0
    decreases |ids|
  {
    hide Lookup, Count;
    if ids != [] {
      assert Known(props, ids[1..]) && Proper(props[ids[0]]);
      OpenStatesExist(props, ids[1..], variant);
    }
  }

  // For a variant with legal values, the states of a block that match are those that the
  // generator labels so exactly if the variant names no boolean property of the block; if it
  // names one, no state that matches is labelled so.
  lemma SelectsLabelledIff(props: seq<Property>, blocks: seq<Block>, b: nat, variant: Variant)
    requires Readable(props, blocks) && AllKnown(props, blocks) && b < |blocks|
    requires AllLegal(props, blocks[b].properties, variant)
    ensures (forall j: nat :: j < States(props, blocks[b]) ==> SelectsLabelled(props, blocks, b, variant, j))
            <==> NamesNoBoolean(props, blocks[b].properties, variant)
    ensures !NamesNoBoolean(props, blocks[b].properties, variant) ==>
              forall j: nat :: j < States(props, blocks[b]) && Match(props, blocks, b, variant, j) == Pass ==>
                !SelectsLabelled(props, blocks, b, variant, j)
  {
    hide Match, SelectsLabelled, NamesNoBoolean, AllLegal, Readable, States, CountMatching, OpenStates;
    forall j: nat | j < States(props, blocks[b])
      ensures NamesNoBoolean(props, blocks[b].properties, variant) ==> SelectsLabelled(props, blocks, b, variant, j)
      ensures !NamesNoBoolean(props, blocks[b].properties, variant) && Match(props, blocks, b, variant, j) == Pass ==>
                !SelectsLabelled(props, blocks, b, variant, j)
    {
      AtState(props, blocks, b, variant, j);
    }
    MatchesAreOpenStates(props, blocks, b, variant);
    OpenStatesExist(props, blocks[b].properties, variant);
    var j := SomeMatch(props, blocks, b, variant, States(props, blocks[b]));
  }

  // ---- A lamp -------------------------------------------------------------------------------------

  // One block with one boolean property, and a variant that asks for it to be lit.
  predicate Lamp(props: seq<Property>, blocks: seq<Block>, variant: Variant) {
    && props == [Property("lit", "lit", BoolKind)] && blocks == [Block(0, [0])]
    && variant == [("lit", "true")]
  }

  lemma LampIsReadable(props: seq<Property>, blocks: seq<Block>, variant: Variant)
    requires Lamp(props, blocks, variant)
    ensures Readable(props, blocks) && AllKnown(props, blocks)
    ensures Counts(props, [0]) == [2] && blocks[0].properties == [0]
  {
  }

  lemma TwoStates(counts: seq<pos>, j: nat)
    requires counts == [2] && j < 2
    ensures Product(counts) == 2 && StateAt(counts, j) == [j]
  {
    assert counts[1..] == [];
    assert Product(counts[1..]) == 1;
    assert StateAt(counts[1..], j % 1) == [];
  }

  // It is lit in its first state, by the generator's labels; "lit=true" selects the second.
  lemma LampIsFlipped(props: seq<Property>, blocks: seq<Block>, variant: Variant, j: nat)
    requires Lamp(props, blocks, variant) && j < 2
    ensures Readable(props, blocks) && AllKnown(props, blocks) && States(props, blocks[0]) == 2
    ensures Labelled(props, [0], variant, StateAt(Counts(props, [0]), j)) <==> j == 0
    ensures Match(props, blocks, 0, variant, j) == Pass <==> j == 1
  {
    hide Readable, StateAt, Product, Counts, Match, Tests;
    LampIsReadable(props, blocks, variant);
    TwoStates(Counts(props, [0]), j);
    MatchIffAccepted(props, blocks, 0, variant, j);
    assert Tests(props, [0], variant)[0] == TestOf(props[0], variant);
    assert TestOf(props[0], variant)(j) == (CheckProperty(props[0], variant, j) == Pass);
  }
}
