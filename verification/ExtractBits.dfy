/** Bit-packed palette data: fields of a few bits, most significant first, that may straddle two
    64-bit words. Bits are written as digits, most significant first. */
module ExtractBits {
  import opened Bytes

  type bit = b: nat | b < 2

  // The number that bits spell, and the bits of a number.
  function Value(bits: seq<bit>): (v: nat)
    ensures v < Pow2(|bits|)
  {
    if bits == [] then 0 else 2 * Value(bits[..|bits| - 1]) + bits[|bits| - 1]
  }

  function Bits(n: nat, v: nat): (bits: seq<bit>)
    ensures |bits| == n
  {
    if n == 0 then [] else Bits(n - 1, v / 2) + [v % 2]
  }

  lemma {:induction false} ValueOfBits(n: nat, v: nat)
    requires v < Pow2(n)
    ensures Value(Bits(n, v)) == v
  {
    if n > 0 {
      ValueOfBits(n - 1, v / 2);
      assert Bits(n, v)[..n - 1] == Bits(n - 1, v / 2);
    }
  }

  lemma {:induction false} BitsOfValue(bits: seq<bit>)
    ensures Bits(|bits|, Value(bits)) == bits
  {
    if bits != [] {
      var n := |bits| - 1;
      BitsOfValue(bits[..n]);
      assert bits == bits[..n] + [bits[n]];
    }
  }

  lemma ValueAppend(bits: seq<bit>, b: bit)
    ensures Value(bits + [b]) == 2 * Value(bits) + b
  {
    assert (bits + [b])[..|bits + [b]| - 1] == bits;
  }

  lemma {:induction false} ValueOfSum(a: seq<bit>, b: seq<bit>)
    ensures Value(a + b) == Value(a) * Pow2(|b|) + Value(b)
    decreases |b|
  {
    hide Value;
    if b == [] {
      assert a + b == a && Value(b) == 0 by { ValueOfNothing(); }
    } else {
      var n := |b| - 1;
      ValueOfSum(a, b[..n]);
      ValueAppend(a + b[..n], b[n]);
      ValueAppend(b[..n], b[n]);
      assert a + b == a + b[..n] + [b[n]] && b == b[..n] + [b[n]];
      assert Value(a) * Pow2(|b|) == 2 * (Value(a) * Pow2(n));
    }
  }

  lemma ValueOfNothing()
    ensures Value([]) == 0
  {
  }

  // Shifting right and masking selects bits: the n after the first `from`.
  lemma ShiftAndMask(bits: seq<bit>, from: nat, n: nat)
    requires from + n <= |bits|
    ensures Value(bits) / Pow2(|bits| - from - n) % Pow2(n) == Value(bits[from..from + n])
  {
    hide Value, Pow2;
    var a, b, c := bits[..from], bits[from..from + n], bits[from + n..];
    assert bits == a + b + c;
    ValueOfSum(a + b, c);
    DivMod(Value(bits), Value(a + b), Value(c), Pow2(|c|));
    ValueOfSum(a, b);
    DivMod(Value(a + b), Value(a), Value(b), Pow2(n));
  }

  // ---- The words ------------------------------------------------------------------------------

  type Word = w: nat | w < 0x1_0000_0000_0000_0000

  function WordBits(w: Word): (bits: seq<bit>)
    ensures |bits| == 64
  {
    Bits(64, w)
  }

  function AllBits(data: seq<Word>): (bits: seq<bit>)
    ensures |bits| == 64 * |data|
  {
    if data == [] then [] else WordBits(data[0]) + AllBits(data[1..])
  }

  lemma {:induction false} BitsOfWord(data: seq<Word>, k: nat, start: nat)
    requires k < |data| && start == 64 * k
    ensures AllBits(data)[start..start + 64] == WordBits(data[k])
    decreases k
  {
    hide WordBits;
    if k > 0 {
      BitsOfWord(data[1..], k - 1, start - 64);
      assert AllBits(data)[start..start + 64] == AllBits(data[1..])[start - 64..start];
    }
  }

  // `>>` on a 64-bit word; a shift by 64 is undefined, and may give anything.
  function ShiftRight(w: Word, n: nat, anything: nat): nat {
    if n < 64 then Quotient(w, Pow2(n)) else anything
  }

  function Quotient(a: nat, b: nat): nat
    requires b > 0
  {
    a / b
  }

  // extract_bits: the part in the first word, and the part that spills into the second.
  function Extract(data: seq<Word>, offset: nat, bits: nat, anything: nat): nat
    requires 0 < bits <= 8 && offset / 64 + 1 < |data|
  {
    var flPos, flOff := offset / 64, offset % 64;
    var flNum := if bits > 64 - flOff then 64 - flOff else bits;
    var slNum := bits - flNum;
    Or(FirstPart(data[flPos], flOff, flNum, anything) * Pow2(slNum), SecondPart(data[flPos + 1], slNum, anything))
  }

  function FirstPart(w: Word, off: nat, num: nat, anything: nat): nat
    requires off + num <= 64
  {
    ShiftRight(w, 64 - off - num, anything) % Pow2(num)
  }

  function SecondPart(w: Word, num: nat, anything: nat): (part: nat)
    requires num <= 64
    ensures part < Pow2(num)
  {
    ShiftRight(w, 64 - num, anything) % Pow2(num)
  }

  lemma WordField(w: Word, from: nat, n: nat)
    requires from + n <= 64
    ensures w / Pow2(64 - from - n) % Pow2(n) == Value(WordBits(w)[from..from + n])
  {
    hide Value, Bits;
    Pow2Widths();
    ValueOfBits(64, w);
    ShiftAndMask(WordBits(w), from, n);
  }

  lemma FirstPartIs(w: Word, off: nat, num: nat, anything: nat)
    requires off < 64 && 0 < num <= 64 - off
    ensures FirstPart(w, off, num, anything) == Value(WordBits(w)[off..off + num])
  {
    hide Value, WordBits, Pow2;
    WordField(w, off, num);
  }

  // Nothing is masked in when nothing spills.
  lemma SecondPartIs(w: Word, num: nat, anything: nat)
    requires num <= 8
    ensures SecondPart(w, num, anything) == Value(WordBits(w)[..num])
  {
    hide Value, WordBits;
    if num == 0 {
      assert Pow2(0) == 1;
      assert anything % 1 == 0;
      ValueOfNothing();
    } else {
      WordField(w, 0, num);
    }
  }

  // The field is the value of its bits in the concatenation of all words, whether or not it
  // straddles two of them, and whatever a shift by 64 gives.
  lemma ExtractIsField(data: seq<Word>, offset: nat, bits: nat, anything: nat)
    requires 0 < bits <= 8 && offset / 64 + 1 < |data|
    ensures offset + bits <= |AllBits(data)|
    ensures Extract(data, offset, bits, anything) == Value(AllBits(data)[offset..offset + bits])
  {
    hide Value, WordBits, AllBits, FirstPart, SecondPart, Pow2, Or;
    var k, off := offset / 64, offset % 64;
    var num := if bits > 64 - off then 64 - off else bits;
    FirstPartIs(data[k], off, num, anything);
    SecondPartIs(data[k + 1], bits - num, anything);
    OrIsSum(SecondPart(data[k + 1], bits - num, anything), FirstPart(data[k], off, num, anything), bits - num);
    ValueOfSum(WordBits(data[k])[off..off + num], WordBits(data[k + 1])[..bits - num]);
    FieldParts(data, k, 64 * k, off, num, bits - num);
  }

  lemma FieldParts(data: seq<Word>, k: nat, start: nat, off: nat, n: nat, m: nat)
    requires k + 1 < |data| && start == 64 * k
    requires off + n <= 64 && m <= 64 && (m > 0 ==> off + n == 64)
    ensures |AllBits(data)| >= start + 128
    ensures AllBits(data)[start + off..start + off + n + m]
         == WordBits(data[k])[off..off + n] + WordBits(data[k + 1])[..m]
  {
    hide WordBits, AllBits;
    var all, next := AllBits(data), start + 64;
    BitsOfWord(data, k, start);
    BitsOfWord(data, k + 1, next);
    TwoParts(all, start, off, n, m, WordBits(data[k]), WordBits(data[k + 1]));
  }

  lemma TwoParts<T>(s: seq<T>, a: nat, off: nat, n: nat, m: nat, first: seq<T>, second: seq<T>)
    requires a + 128 <= |s| && off + n <= 64 && m <= 64 && (m > 0 ==> off + n == 64)
    requires first == s[a..a + 64] && second == s[a + 64..a + 128]
    ensures s[a + off..a + off + n + m] == first[off..off + n] + second[..m]
  {
    SliceOfSlice(s, a, a + 64, off, off + n);
    SliceOfSlice(s, a + 64, a + 128, 0, m);
    if m > 0 {
      SliceConcat(s, a + off, a + 64, a + 64 + m);
    }
  }

  lemma SliceOfSlice<T>(s: seq<T>, a: nat, b: nat, c: nat, d: nat)
    requires c <= d <= b - a && b <= |s|
    ensures s[a..b][c..d] == s[a + c..a + d]
  {
    var l, r := s[a..b][c..d], s[a + c..a + d];
    assert |l| == |r| && forall i :: 0 <= i < |l| ==> l[i] == r[i];
  }

  lemma SliceConcat<T>(s: seq<T>, a: nat, b: nat, c: nat)
    requires a <= b <= c <= |s|
    ensures s[a..b] + s[b..c] == s[a..c]
  {
  }

  // ---- A whole section ------------------------------------------------------------------------

  // The i-th field of `bits` bits.
  function FieldBits(words: seq<Word>, bits: nat, i: nat): (f: seq<bit>)
    requires (i + 1) * bits <= 64 * |words|
    ensures |f| == bits
  {
    assert (i + 1) * bits == i * bits + bits;
    AllBits(words)[i * bits..i * bits + bits]
  }

  lemma AllBitsOfSum(a: seq<Word>, b: seq<Word>)
    ensures AllBits(a + b) == AllBits(a) + AllBits(b)
  {
    hide WordBits;
    if a == [] {
      assert a + b == b;
    } else {
      assert (a + b)[1..] == a[1..] + b;
      AllBitsOfSum(a[1..], b);
    }
  }

  // 4096 fields fill their words exactly. The read of every field stays within one word more,
  // and the last one needs it.
  lemma FieldsFillWords(bits: nat, i: nat)
    requires 4 <= bits <= 8 && i < 4096
    ensures 4096 * bits / 64 == 64 * bits
    ensures (i + 1) * bits <= 64 * (64 * bits) && i * bits / 64 + 1 <= 64 * bits
    ensures i == 4095 ==> i * bits / 64 + 1 == 64 * bits
  {
  }

  // This value is the i-th field of the words, which has all its bits in them.
  predicate IsField(words: seq<Word>, bits: nat, i: nat, value: nat) {
    (i + 1) * bits <= 64 * |words| && value == Value(FieldBits(words, bits, i))
  }

  // The loop of load_blocks over the data array, to which it has added a zero word.
  method ExtractAll(words: seq<Word>, bits: nat, anything: nat) returns (entries: seq<nat>)
    requires 4 <= bits <= 8 && |words| == 4096 * bits / 64
    ensures |entries| == 4096
    ensures forall i :: 0 <= i < 4096 ==> IsField(words, bits, i, entries[i])
  {
    hide IsField, Extract;
    var data := words + [0];
    entries := [];
    for i := 0 to 4096
      invariant |entries| == i
      invariant forall k :: 0 <= k < i ==> IsField(words, bits, k, entries[k])
    {
      FieldsFillWords(bits, i);
      ExtractsField(words, bits, i, anything);
      entries := entries + [Extract(data, i * bits, bits, anything)];
    }
  }

  lemma ExtractsField(words: seq<Word>, bits: nat, i: nat, anything: nat)
    requires 4 <= bits <= 8 && (i + 1) * bits <= 64 * |words| && i * bits / 64 < |words|
    ensures IsField(words, bits, i, Extract(words + [0], i * bits, bits, anything))
  {
    hide Value, AllBits, Extract;
    assert (i + 1) * bits == i * bits + bits;
    AllBitsOfSum(words, [0]);
    ExtractIsField(words + [0], i * bits, bits, anything);
    assert AllBits(words + [0])[i * bits..i * bits + bits] == AllBits(words)[i * bits..i * bits + bits];
  }

  // The bits of entries, side by side.
  function Packed(entries: seq<nat>, bits: nat): seq<bit> {
    if entries == [] then [] else Packed(entries[..|entries| - 1], bits) + Bits(bits, entries[|entries| - 1])
  }

  // Putting the extracted entries side by side again gives back the bits of the words.
  lemma {:induction false} PackingInvertsExtraction(words: seq<Word>, bits: nat, entries: seq<nat>)
    requires bits > 0 && |entries| * bits <= 64 * |words|
    requires forall i :: 0 <= i < |entries| ==> IsField(words, bits, i, entries[i])
    ensures Packed(entries, bits) == AllBits(words)[..|entries| * bits]
    decreases |entries|
  {
    hide Value, AllBits, Bits;
    if entries != [] {
      var n := |entries| - 1;
      assert n * bits + bits == |entries| * bits;
      assert IsField(words, bits, n, entries[n]);
      PackingInvertsExtraction(words, bits, entries[..n]);
      BitsOfValue(FieldBits(words, bits, n));
      SliceConcat(AllBits(words), 0, n * bits, n * bits + bits);
    }
  }

  // The words as one number, most significant word first: the i-th field is a base-2^bits digit
  // of it, cut out by one division and one remainder.
  lemma FieldIsDigit(words: seq<Word>, bits: nat, i: nat)
    requires (i + 1) * bits <= 64 * |words|
    ensures Value(FieldBits(words, bits, i))
         == Value(AllBits(words)) / Pow2(64 * |words| - (i + 1) * bits) % Pow2(bits)
  {
    hide Value, AllBits, Pow2;
    assert (i + 1) * bits == i * bits + bits;
    ShiftAndMask(AllBits(words), i * bits, bits);
  }
}
