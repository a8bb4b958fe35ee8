/** Variant strings such as "facing=north,half=top": parsing them, and matching the states of a
    block against them. */
module Variants {
  import opened BlockStates
  import opened BlockTables
  import opened Bytes
  import opened MixedRadix
  import opened Options
  import opened Text

  type Pair = (string, string)
  type Variant = seq<Pair>

  // ---- Parsing ----------------------------------------------------------------------------------

  // The text up to the first comma, and the text after it.
  function Piece(s: string): string { s[..Find(s, ',')] }
  function Rest(s: string): string { if |Piece(s)| < |s| then s[|Piece(s)| + 1..] else "" }

  // parse_variant_kv_pairs; None if its assertion that there is a '=' fails.
  function ParsePairs(s: string): Option<Variant>
    decreases |s|
  {
    if s == "" then Some([])
    else
      var piece := Piece(s);
      var eq := Find(piece, '=');
      if eq == |piece| then None else Extend([(piece[..eq], piece[eq + 1..])], ParsePairs(Rest(s)))
  }

  function Extend(list: Variant, r: Option<Variant>): Option<Variant> {
    if r.None? then None else Some(list + r.value)
  }

  lemma ExtendTwice(list: Variant, p: Pair, r: Option<Variant>)
    ensures Extend(list + [p], r) == Extend(list, Extend([p], r))
  {
    if r.Some? {
      assert list + [p] + r.value == list + ([p] + r.value);
    }
  }

  lemma ExtendNothing(list: Variant, r: Option<Variant>)
    ensures Extend([], r) == r && Extend(list, Some([])) == Some(list)
  {
    assert list + [] == list && (r.Some? ==> [] + r.value == r.value);
  }

  method ParseVariant(variant: string) returns (r: Option<Variant>)
    ensures r == ParsePairs(variant)
  {
    var s, list: Variant := variant, [];
    ExtendNothing([], ParsePairs(s));
    while s != ""
      invariant ParsePairs(variant) == Extend(list, ParsePairs(s))
      decreases |s|
    {
      hide Find, Extend;
      var piece := Piece(s);
      var eq := Find(piece, '=');
      if eq == |piece| {
        assert Extend(list, None) == None by { hide *; ExtendFailure(list); }
        return None;
      }
      ExtendTwice(list, (piece[..eq], piece[eq + 1..]), ParsePairs(Rest(s)));
      list := list + [(piece[..eq], piece[eq + 1..])];
      s := Rest(s);
    }
    ExtendNothing(list, None);
    r := Some(list);
  }

  lemma ExtendFailure(list: Variant)
    ensures Extend(list, None) == None
  {
  }

  function Format(pairs: Variant): string {
    if pairs == [] then ""
    else
      var first := pairs[0].0 + "=" + pairs[0].1;
      if |pairs| == 1 then first else first + "," + Format(pairs[1..])
  }

  predicate Plain(p: Pair) {
    ',' !in p.0 && '=' !in p.0 && ',' !in p.1
  }

  lemma PieceParses(p: Pair)
    requires Plain(p)
    ensures var piece := p.0 + "=" + p.1;
            ',' !in piece && Find(piece, '=') == |p.0| && piece[..|p.0|] == p.0 && piece[|p.0| + 1..] == p.1
  {
    FindIs(p.0 + "=" + p.1, '=', |p.0|);
  }

  lemma PieceOf(piece: string, rest: string)
    requires ',' !in piece
    ensures Piece(piece) == piece && Rest(piece) == ""
    ensures Piece(piece + "," + rest) == piece && Rest(piece + "," + rest) == rest
  {
    FindIs(piece, ',', |piece|);
    FindIs(piece + "," + rest, ',', |piece|);
  }

  // Parsing inverts writing the pairs out, for keys without ',' and '=' and values without ','.
  lemma {:induction false} ParseInvertsFormat(pairs: Variant)
    requires forall p :: p in pairs ==> Plain(p)
    ensures ParsePairs(Format(pairs)) == Some(pairs)
    decreases |pairs|
  {
    hide Find, Plain, Piece, Rest;
    if pairs != [] {
      var p := pairs[0];
      PieceParses(p);
      PieceOf(p.0 + "=" + p.1, Format(pairs[1..]));
      ParseInvertsFormat(pairs[1..]);
      assert [p] + pairs[1..] == pairs;
    }
  }

  // The pieces between commas; an empty one at the end does not count.
  function Pieces(s: string): seq<string> {
    WithoutEmptyEnd(SplitAll(s, ','))
  }

  function WithoutEmptyEnd(all: seq<string>): seq<string>
    requires all != []
  {
    var last := |all| - 1;
    if all[last] == "" then all[..last] else all
  }

  // A piece is split at its first '='.
  function PairOf(piece: string): (p: Pair)
    requires '=' in piece
    ensures p.0 + "=" + p.1 == piece && '=' !in p.0
  {
    FindSplits(piece, '=');
    var eq := Find(piece, '=');
    (piece[..eq], piece[eq + 1..])
  }

  function PairsOf(pieces: seq<string>): Variant
    requires forall piece :: piece in pieces ==> '=' in piece
  {
    if pieces == [] then [] else [PairOf(pieces[0])] + PairsOf(pieces[1..])
  }

  // Any string is parsed to the pairs of its pieces, and the assertion fails exactly if there is
  // a piece without a '='.
  lemma {:induction false} ParsesPieces(s: string)
    ensures ParsePairs(s) ==
            if forall piece :: piece in Pieces(s) ==> '=' in piece then Some(PairsOf(Pieces(s))) else None
    decreases |s|
  {
    hide SplitAll, Find, PairOf;
    PiecesStep(s);
    if s != "" {
      var piece, rest := Piece(s), Rest(s);
      FindSplits(piece, '=');
      ParsesPieces(rest);
      assert Pieces(s)[1..] == Pieces(rest);
      PairOfPiece(piece);
    }
  }

  lemma PairOfPiece(piece: string)
    requires '=' in piece ==> Find(piece, '=') < |piece|
    ensures '=' in piece ==> PairOf(piece) == (piece[..Find(piece, '=')], piece[Find(piece, '=') + 1..])
  {
  }

  lemma PiecesStep(s: string)
    ensures Pieces(s) == if s == "" then [] else [Piece(s)] + Pieces(Rest(s))
  {
    hide SplitAll, Find, WithoutEmptyEnd;
    SplitAtFirst(s, ',');
    SplitNothing();
    EmptyEnd(Piece(s), SplitAll(Rest(s), ','));
    if Find(s, ',') == |s| {
      assert Piece(s) == s && [s] + [] == [s];
    }
  }

  lemma SplitNothing()
    ensures SplitAll("", ',') == [""] && WithoutEmptyEnd([""]) == []
  {
  }

  lemma EmptyEnd(first: string, all: seq<string>)
    requires all != []
    ensures WithoutEmptyEnd([first] + all) == [first] + WithoutEmptyEnd(all)
    ensures first != "" ==> WithoutEmptyEnd([first]) == [first]
  {
  }

  // The number that digits spell, in 32 bits; None where there is something else.
  function UintOf(s: string): Option<nat> {
    if AllDigits(s) then Some(Decimal(s) % TWO_32) else None
  }

  // parse_uint: it throws at the first character that is not a digit, and wraps around.
  method ParseUint(s: string) returns (r: Option<nat>)
    ensures r == UintOf(s)
  {
    hide Decimal;
    var v: nat := 0;
    NoDigitsYet(s);
    for i := 0 to |s|
      invariant AllDigits(s[..i]) && v == Decimal(s[..i]) % TWO_32
    {
      var c := s[i];
      if c < '0' || c > '9' {
        assert !IsDigit(s[i]);
        return None;
      }
      assert s[..i + 1] == s[..i] + [c];
      DecimalOfOneMore(s[..i], c);
      WrapOnce(Decimal(s[..i]), DigitOf(c));
      v := (v * 10 + (c as int - '0' as int)) % TWO_32;
    }
    assert s[..|s|] == s;
    r := Some(v);
  }

  lemma NoDigitsYet(s: string)
    ensures AllDigits(s[..0]) && Decimal(s[..0]) == 0
  {
  }

  // Wrapping around at each digit is wrapping around once.
  lemma WrapOnce(u: nat, d: nat)
    ensures (u % TWO_32 * 10 + d) % TWO_32 == (10 * u + d) % TWO_32
  {
    var q, r := u / TWO_32, u % TWO_32;
    var v := r * 10 + d;
    DivMod(10 * u + d, 10 * q + v / TWO_32, v % TWO_32, TWO_32);
  }

  // ---- Matching one state -------------------------------------------------------------------------

  datatype Verdict = Pass | Reject | Throw

  // The value of the first pair with the key.
  function Lookup(variant: Variant, key: string): Option<string> {
    if variant == [] then None
    else if variant[0].0 == key then Some(variant[0].1)
    else Lookup(variant[1..], key)
  }

  // Of several pairs with the key, the first counts.
  lemma {:induction false} LookupIsFirst(variant: Variant, key: string, i: nat)
    requires i < |variant| && variant[i].0 == key && forall k :: 0 <= k < i ==> variant[k].0 != key
    ensures Lookup(variant, key) == Some(variant[i].1)
  {
    if i > 0 {
      LookupIsFirst(variant[1..], key, i - 1);
    }
  }

  lemma {:induction false} LookupFails(variant: Variant, key: string)
    ensures Lookup(variant, key) == None <==> forall p :: p in variant ==> p.0 != key
  {
    if variant != [] {
      LookupFails(variant[1..], key);
      assert variant == [variant[0]] + variant[1..];
    }
  }

  // The tables have what the test of an entry reads.
  predicate CheckableEntry(t: Tables, e: Entry) {
    && e.id < |t.flags| && e.id < |t.keys|
    && (IsEnum(t.flags[e.id]) ==> ValuesOffset(t.flags[e.id]) + e.digit < |t.values|)
  }

  predicate Checkable(t: Tables, entries: seq<Entry>) {
    forall i :: 0 <= i < |entries| ==> CheckableEntry(t, entries[i])
  }

  // The test of match_block_state on one property of a state, by the tables.
  function CheckEntry(t: Tables, variant: Variant, e: Entry): Verdict
    requires CheckableEntry(t, e)
  {
    var f := t.flags[e.id];
    match Lookup(variant, t.keys[e.id])
    case None => Pass
    case Some(s) =>
      if IsEnum(f) then (if s == t.values[ValuesOffset(f) + e.digit] then Pass else Reject)
      else if IsBool(f) then (if s == (if e.digit != 0 then "true" else "false") then Pass else Reject)
      else
        match UintOf(s)
        case None => Throw
        case Some(v) => if v == (if IsInt1(f) then 1 else 0) + e.digit then Pass else Reject
  }

  // The same, on the property that the tables were made from, with the matcher's own label of a
  // boolean.
  function CheckProperty(p: Property, variant: Variant, digit: nat): Verdict {
    match Lookup(variant, p.key)
    case None => Pass
    case Some(s) =>
      match p.kind
      case EnumKind(values) => if digit < |values| && s == values[digit] then Pass else Reject
      case BoolKind => if s == (if digit != 0 then "true" else "false") then Pass else Reject
      case IntKind(first, _) =>
        match UintOf(s)
        case None => Throw
        case Some(v) => if v == first + digit then Pass else Reject
  }

  // The first property that does not pass decides.
  function MatchEntries(t: Tables, variant: Variant, entries: seq<Entry>): Verdict
    requires Checkable(t, entries)
  {
    if entries == [] then Pass
    else
      match CheckEntry(t, variant, entries[0])
      case Pass => assert Checkable(t, entries[1..]); MatchEntries(t, variant, entries[1..])
      case Reject => Reject
      case Throw => Throw
  }

  method MatchBlockState(t: Tables, b: nat, state: nat, variant: Variant) returns (v: Verdict)
    requires b < |t.words| && b < |t.firstState| && state >= t.firstState[b]
    requires var (start, n) := ViewOf(t, b);
             Walkable(t, start, n) && Checkable(t, Walk(t, state - t.firstState[b], start, n))
    ensures var (start, n) := ViewOf(t, b);
            v == MatchEntries(t, variant, Walk(t, state - t.firstState[b], start, n))
  {
    hide CheckableEntry, CheckEntry, CountOf;
    var (start, n) := ViewOf(t, b);
    var iter := new StateIterator(t, state - t.firstState[b], start);
    while iter.index != start + n
      invariant iter.t == t && start <= iter.index <= start + n
      invariant Checkable(t, Walk(t, iter.value, iter.index, start + n - iter.index))
      invariant MatchEntries(t, variant, Walk(t, iter.value, iter.index, start + n - iter.index))
             == MatchEntries(t, variant, Walk(t, state - t.firstState[b], start, n))
      decreases start + n - iter.index
    {
      ghost var entries := Walk(t, iter.value, iter.index, start + n - iter.index);
      var e := iter.Current();
      assert entries[0] == e;
      if CheckEntry(t, variant, e) != Pass {
        return CheckEntry(t, variant, e);
      }
      assert Checkable(t, entries[1..]);
      iter.Advance();
    }
    v := Pass;
  }
}
