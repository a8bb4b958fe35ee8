/** Numbering the combinations of several finite properties: lexicographic order, with the last
    property varying fastest, and the digits that a state number decodes to. */
module MixedRadix {
  import opened Bytes

  type pos = n: nat | n > 0 witness 1

  function Product(counts: seq<pos>): (p: pos) {
    if counts == [] then 1
    else
      MulSign(counts[0], Product(counts[1..]));
      counts[0] * Product(counts[1..])
  }

  // One value for each property.
  predicate Choice(counts: seq<pos>, digits: seq<nat>) {
    |digits| == |counts| && forall i :: 0 <= i < |digits| ==> digits[i] < counts[i]
  }

  // The j-th combination.
  function StateAt(counts: seq<pos>, j: nat): (digits: seq<nat>)
    ensures |digits| == |counts|
  {
    if counts == [] then []
    else
      var p := Product(counts[1..]);
      [j / p] + StateAt(counts[1..], j % p)
  }

  lemma FirstDigit(c: nat, p: pos, j: nat)
    requires j < c * p
    ensures j / p < c
  {
    var d := j / p - c + 1;
    MulSign(d, p);
    assert d * p == j / p * p - c * p + p;
  }

  // Every number below the product decodes to a choice.
  lemma {:induction false} StateAtIsChoice(counts: seq<pos>, j: nat)
    requires j < Product(counts)
    ensures Choice(counts, StateAt(counts, j))
  {
    if counts != [] {
      var p := Product(counts[1..]);
      FirstDigit(counts[0], p, j);
      StateAtIsChoice(counts[1..], j % p);
    }
  }

  // The number of a choice.
  function IndexOf(counts: seq<pos>, digits: seq<nat>): nat
    requires |digits| == |counts|
  {
    if counts == [] then 0 else digits[0] * Product(counts[1..]) + IndexOf(counts[1..], digits[1..])
  }

  // Every choice is the combination of exactly one number below the product.
  lemma {:induction false} EveryChoiceOnce(counts: seq<pos>, digits: seq<nat>)
    requires Choice(counts, digits)
    ensures IndexOf(counts, digits) < Product(counts)
    ensures StateAt(counts, IndexOf(counts, digits)) == digits
  {
    if counts != [] {
      var p, d, rest := Product(counts[1..]), digits[0], IndexOf(counts[1..], digits[1..]);
      EveryChoiceOnce(counts[1..], digits[1..]);
      DivMod(d * p + rest, d, rest, p);
      MulSign(counts[0] - d, p);
      assert (counts[0] - d) * p == counts[0] * p - d * p;
      assert digits == [d] + digits[1..];
    }
  }

  lemma {:induction false} IndexInverts(counts: seq<pos>, j: nat)
    requires j < Product(counts)
    ensures IndexOf(counts, StateAt(counts, j)) == j
  {
    if counts != [] {
      var p := Product(counts[1..]);
      IndexInverts(counts[1..], j % p);
      assert StateAt(counts, j)[1..] == StateAt(counts[1..], j % p);
    }
  }

  // The first difference decides.
  predicate Before(a: seq<nat>, b: seq<nat>) {
    a != [] && b != [] && (a[0] < b[0] || (a[0] == b[0] && Before(a[1..], b[1..])))
  }

  // The numbering is the lexicographic order.
  lemma {:induction false} OrderIsLexicographic(counts: seq<pos>, i: nat, j: nat)
    requires i < j < Product(counts)
    ensures Before(StateAt(counts, i), StateAt(counts, j))
  {
    if counts != [] {
      var p := Product(counts[1..]);
      QuotientsGrow(i, j, p);
      assert StateAt(counts, i)[1..] == StateAt(counts[1..], i % p);
      assert StateAt(counts, j)[1..] == StateAt(counts[1..], j % p);
      if i / p == j / p {
        OrderIsLexicographic(counts[1..], i % p, j % p);
      }
    }
  }

  lemma QuotientsGrow(i: nat, j: nat, p: pos)
    requires i < j
    ensures i / p < j / p || (i / p == j / p && i % p < j % p)
  {
    var a, b := i / p, j / p;
    MulSign(a - b, p);
    assert (a - b) * p == (i - i % p) - (j - j % p);
  }

  // ---- Decoding from the fast end -----------------------------------------------------------

  // Taking the remainder and the quotient by each count in turn, as the state iterator does.
  function Decode(counts: seq<pos>, value: nat): (digits: seq<nat>)
    ensures |digits| == |counts|
  {
    if counts == [] then [] else [value % counts[0]] + Decode(counts[1..], value / counts[0])
  }

  function Reverse<T>(s: seq<T>): (r: seq<T>)
    ensures |r| == |s|
    ensures forall i :: 0 <= i < |s| ==> r[i] == s[|s| - 1 - i]
  {
    if s == [] then [] else Reverse(s[1..]) + [s[0]]
  }

  lemma {:induction false} ReverseLast<T>(s: seq<T>, x: T)
    ensures Reverse(s + [x]) == [x] + Reverse(s)
  {
    assert |Reverse(s + [x])| == |[x] + Reverse(s)|;
    forall i | 0 <= i <= |s| ensures Reverse(s + [x])[i] == ([x] + Reverse(s))[i] {
    }
  }

  lemma {:induction false} ProductLast(counts: seq<pos>, c: pos)
    ensures Product(counts + [c]) == Product(counts) * c
  {
    if counts == [] {
      assert [] + [c] == [c] && [c][1..] == [];
      assert Product([c]) == c * Product([]);
    } else {
      assert (counts + [c])[1..] == counts[1..] + [c];
      ProductLast(counts[1..], c);
      assert counts[0] * (Product(counts[1..]) * c) == counts[0] * Product(counts[1..]) * c;
    }
  }

  // Dividing by a product is dividing by its factors, one after the other.
  lemma DivideTwice(j: nat, p: pos, c: pos)
    ensures p * c > 0
    ensures j / (p * c) == j / c / p
    ensures j % (p * c) / c == j / c % p
    ensures j % (p * c) % c == j % c
  {
    var r, a, b := j % c, j / c / p, j / c % p;
    MulSign(p, c);
    MulSign(p - 1 - b, c);
    assert (p - 1 - b) * c == p * c - c - b * c;
    assert j == a * (p * c) + (b * c + r) by { Regroup(j, p, c); }
    DivMod(j, a, b * c + r, p * c);
    DivMod(b * c + r, b, r, c);
  }

  lemma Regroup(j: nat, p: pos, c: pos)
    ensures j == j / c / p * (p * c) + (j / c % p * c + j % c)
  {
    var q := j / c;
    assert q == q / p * p + q % p;
    assert (q / p * p + q % p) * c == q / p * (p * c) + q % p * c;
  }

  lemma {:induction false} StateAtLast(counts: seq<pos>, c: pos, j: nat)
    requires j < Product(counts + [c])
    ensures StateAt(counts + [c], j) == StateAt(counts, j / c) + [j % c]
  {
    var all := counts + [c];
    if counts == [] {
      assert all == [c] && all[1..] == [];
      assert Product(all) == c * Product([]);
      DivMod(j, 0, j, c);
    } else {
      assert all[1..] == counts[1..] + [c];
      ProductLast(counts[1..], c);
      DivideTwice(j, Product(counts[1..]), c);
      StateAtLast(counts[1..], c, j % Product(all[1..]));
    }
  }

  lemma DecodeLast(init: seq<pos>, c: pos, j: nat)
    requires j < Product(init + [c]) && Decode(Reverse(init), j / c) == Reverse(StateAt(init, j / c))
    ensures Decode(Reverse(init + [c]), j) == Reverse(StateAt(init + [c], j))
  {
    hide Product, StateAt, Reverse;
    ReverseLast(init, c);
    StateAtLast(init, c, j);
    ReverseLast(StateAt(init, j / c), j % c);
    assert ([c] + Reverse(init))[1..] == Reverse(init);
  }

  // The state iterator, which starts from the last property, decodes a state's number to its
  // combination in reverse.
  lemma {:induction false} DecodeIsState(counts: seq<pos>, j: nat)
    requires j < Product(counts)
    ensures Decode(Reverse(counts), j) == Reverse(StateAt(counts, j))
    decreases |counts|
  {
    hide Product, StateAt, Reverse, Decode;
    if counts == [] {
      NoDigits(j);
    } else {
      var n := |counts| - 1;
      var init, c := counts[..n], counts[n];
      assert counts == init + [c];
      ProductLast(init, c);
      FirstDigit(Product(init), c, j);
      DecodeIsState(init, j / c);
      DecodeLast(init, c, j);
    }
  }

  lemma NoDigits(j: nat)
    ensures Decode(Reverse([]), j) == Reverse(StateAt([], j))
  {
  }

  // ---- Counting ------------------------------------------------------------------------------

  // Which values of each property are accepted: one test per property.
  type Test = nat -> bool

  predicate Accepts(tests: seq<Test>, digits: seq<nat>)
    requires |tests| == |digits|
  {
    forall i :: 0 <= i < |digits| ==> tests[i](digits[i])
  }

  // How many of the first n values pass.
  function CountValues(test: Test, n: nat): nat {
    if n == 0 then 0 else CountValues(test, n - 1) + if test(n - 1) then 1 else 0
  }

  // How many of the first n combinations are accepted.
  function CountStates(counts: seq<pos>, tests: seq<Test>, n: nat): nat
    requires |tests| == |counts|
  {
    if n == 0 then 0
    else CountStates(counts, tests, n - 1) + if Accepts(tests, StateAt(counts, n - 1)) then 1 else 0
  }

  // The product, over the properties, of the numbers of accepted values.
  function ProductOfCounts(counts: seq<pos>, tests: seq<Test>): nat
    requires |tests| == |counts|
  {
    if counts == [] then 1
    else CountValues(tests[0], counts[0]) * ProductOfCounts(counts[1..], tests[1..])
  }

  lemma AcceptsFirst(tests: seq<Test>, digits: seq<nat>)
    requires |tests| == |digits| > 0
    ensures Accepts(tests, digits) <==> tests[0](digits[0]) && Accepts(tests[1..], digits[1..])
  {
    if tests[0](digits[0]) && Accepts(tests[1..], digits[1..]) {
      forall i | 0 <= i < |digits| ensures tests[i](digits[i]) {
        if i > 0 {
          assert tests[1..][i - 1](digits[1..][i - 1]);
        }
      }
    }
    if Accepts(tests, digits) {
      forall i | 0 <= i < |digits| - 1 ensures tests[1..][i](digits[1..][i]) {
        assert tests[i + 1](digits[i + 1]);
      }
    }
  }

  // The combinations with first value d are a block; r of them have been counted.
  lemma {:induction false} CountBlock(counts: seq<pos>, tests: seq<Test>, d: nat, r: nat)
    requires |tests| == |counts| > 0
    requires r <= Product(counts[1..])
    ensures CountStates(counts, tests, d * Product(counts[1..]) + r)
         == CountStates(counts, tests, d * Product(counts[1..]))
            + if tests[0](d) then CountStates(counts[1..], tests[1..], r) else 0
    decreases r
  {
    hide Accepts;
    if r > 0 {
      var p := Product(counts[1..]);
      CountBlock(counts, tests, d, r - 1);
      var j := d * p + (r - 1);
      DivMod(j, d, r - 1, p);
      assert StateAt(counts, j) == [d] + StateAt(counts[1..], r - 1);
      AcceptsFirst(tests, StateAt(counts, j));
      assert j + 1 == d * p + r;
    }
  }

  lemma {:induction false} CountBlocks(counts: seq<pos>, tests: seq<Test>, d: nat)
    requires |tests| == |counts| > 0
    ensures CountStates(counts, tests, d * Product(counts[1..]))
         == CountValues(tests[0], d) * CountStates(counts[1..], tests[1..], Product(counts[1..]))
  {
    hide CountStates;
    var p := Product(counts[1..]);
    var inner := CountStates(counts[1..], tests[1..], p);
    if d == 0 {
      assert CountStates(counts, tests, 0) == 0 by { NothingToCount(counts, tests); }
    } else {
      CountBlocks(counts, tests, d - 1);
      CountBlock(counts, tests, d - 1, p);
      assert (d - 1) * p + p == d * p;
      assert (CountValues(tests[0], d - 1) + 1) * inner == CountValues(tests[0], d - 1) * inner + inner;
    }
  }

  lemma NothingToCount(counts: seq<pos>, tests: seq<Test>)
    requires |tests| == |counts|
    ensures CountStates(counts, tests, 0) == 0
  {
  }

  // Accepting property by property accepts a product of states.
  lemma {:induction false} CountIsProduct(counts: seq<pos>, tests: seq<Test>)
    requires |tests| == |counts|
    ensures CountStates(counts, tests, Product(counts)) == ProductOfCounts(counts, tests)
    decreases |counts|
  {
    hide CountValues, Accepts;
    if counts == [] {
      OneEmptyState(tests);
    } else {
      CountBlocks(counts, tests, counts[0]);
      CountIsProduct(counts[1..], tests[1..]);
    }
  }

  lemma OneEmptyState(tests: seq<Test>)
    requires tests == []
    ensures CountStates([], tests, 1) == 1
  {
    assert Accepts(tests, StateAt([], 0));
    NothingToCount([], tests);
  }
}
