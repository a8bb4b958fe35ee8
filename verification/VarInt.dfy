/** VarInt and VarLong: seven bits a byte, least significant group first, at most five or
    ten bytes ("VarInt and VarLong" of the protocol description). `width` is the number of
    bits of the unsigned type the templates are instantiated with: 32 or 64. */
module VarInt {
  import opened Bytes

  // write_impl: the groups of a number.
  function Write(u: nat): (s: seq<byte>)
    ensures |s| > 0
  {
    if u < 128 then [u] else [u % 128 + 128] + Write(u / 128)
  }

  method WriteImpl(width: nat, value: int) returns (out: seq<byte>)
    requires width > 0 && -(Pow2(width - 1) as int) <= value < Pow2(width - 1)
    ensures out == Write(Unsigned(width, value))
  {
    var u := Unsigned(width, value);
    out := [];
    while u >= 128
      invariant u >= 0
      invariant out + Write(u) == Write(Unsigned(width, value))
    {
      ContinueBit(u);
      out := out + [Or(u % 128, 128)];
      u := u / 128;
    }
    out := out + [u];
  }

  // `(value & SEGMENT_BITS) | CONTINUE_BIT`
  lemma ContinueBit(u: nat)
    ensures Or(u % 128, 128) == u % 128 + 128
  {
    hide Or;
    Pow2Widths();
    OrIsSum(u % 128, 1, 7);
  }

  // The two variables of async_read_impl, and what one more byte does to them.
  datatype Progress =
    | More(position: nat, value: nat)
    | Complete(result: nat)
    | Invalid

  // `value |= TU(byte & 0x7f) << position`, cut to the width.
  function Step(width: nat, position: nat, value: nat, b: byte): Progress
    requires width == 32 || width == 64
  {
    var value' := Or(value, b % 128 * Pow2(position) % Pow2(width));
    if b < 128 then Complete(value')
    else if position + 7 >= width then Invalid
    else More(position + 7, value')
  }

  datatype ReadResult =
    | Value(u: nat, used: nat)
    | Incomplete(position: nat, value: nat)
    | Bad

  // async_read_impl on the bytes that are there, from a given pair of variables.
  function ReadFrom(width: nat, position: nat, value: nat, s: seq<byte>): (r: ReadResult)
    requires width == 32 || width == 64
    ensures r.Value? ==> 0 < r.used <= |s|
    decreases |s|
  {
    if s == [] then Incomplete(position, value)
    else match Step(width, position, value, s[0])
      case Complete(u) => Value(u, 1)
      case Invalid => Bad
      case More(p, v) =>
        match ReadFrom(width, p, v, s[1..])
        case Value(u, used) => Value(u, used + 1)
        case Incomplete(p', v') => Incomplete(p', v')
        case Bad => Bad
  }

  function Read(width: nat, s: seq<byte>): (r: ReadResult)
    requires width == 32 || width == 64
    ensures r.Value? ==> 0 < r.used <= |s|
  {
    ReadFrom(width, 0, 0, s)
  }

  // ---- What is accepted, and what it means: the reference definition -------------------

  function MaxBytes(width: nat): nat { (width + 6) / 7 }

  // The base-128 number of the low seven bits of the bytes.
  function Base128(s: seq<byte>): nat {
    if s == [] then 0 else s[0] % 128 + 128 * Base128(s[1..])
  }

  // The first byte without the continuation bit is the one at index `n - 1`.
  predicate EndsAt(s: seq<byte>, n: nat) {
    0 < n <= |s| && s[n - 1] < 128 && forall i :: 0 <= i < n - 1 ==> s[i] >= 128
  }

  // A group that fits is added in full.
  lemma GroupFits(position: nat, value: nat, x: nat, width: nat)
    requires position + 7 < width && value < Pow2(position) && x < 128
    ensures x * Pow2(position) % Pow2(width) == x * Pow2(position)
    ensures value + x * Pow2(position) < Pow2(position + 7)
  {
    var m := Pow2(position);
    Pow2Group(position);
    MulSign(127 - x, m);
    assert (127 - x) * m == 127 * m - x * m;
    Pow2Mono(position + 7, width);
    DivMod(x * m, 0, x * m, Pow2(width));
  }

  // The last group is cut to the width (c * m), and with it the sum.
  lemma LastGroup(c: nat, m: nat, value: nat, x: nat)
    requires c > 0 && value < m
    ensures c * m > 0 && x * m % (c * m) == x % c * m
    ensures value + x * m % (c * m) == (value + x * m) % (c * m)
  {
    var h, l := x / c, x % c;
    SplitProduct(x, c, h, l, m);
    MulSign(c - l, m);
    RemainderFits(c, l, m, value);
    DivMod(x * m, h, l * m, c * m);
    DivMod(value + x * m, h, value + l * m, c * m);
  }

  lemma SplitProduct(x: nat, c: nat, h: nat, l: nat, m: nat)
    requires x == h * c + l
    ensures x * m == h * (c * m) + l * m
  {
    assert (h * c + l) * m == (h * c) * m + l * m;
  }

  lemma RemainderFits(c: nat, l: nat, m: nat, value: nat)
    requires l < c && value < m && (c - l) * m >= m
    ensures 0 <= l * m && value + l * m < c * m
  {
    assert (c - l) * m == c * m - l * m;
  }

  // What the rest of the bytes will make of the variables: n bytes up to the terminator.
  function Sum(position: nat, value: nat, s: seq<byte>, n: nat): nat
    requires n <= |s|
  {
    value + Pow2(position) * Base128(s[..n])
  }

  lemma SumStep(position: nat, value: nat, s: seq<byte>, n: nat)
    requires 0 < n <= |s|
    ensures Sum(position, value, s, n)
         == Sum(position + 7, value + s[0] % 128 * Pow2(position), s[1..], n - 1)
  {
    assert s[..n][1..] == s[1..][..n - 1];
    var x, m, rest := s[0] % 128, Pow2(position), Base128(s[1..][..n - 1]);
    Pow2Group(position);
    assert m * (x + 128 * rest) == x * m + 128 * m * rest;
  }

  predicate AllContinue(s: seq<byte>, n: nat) {
    forall i :: 0 <= i < n && i < |s| ==> s[i] >= 128
  }

  // How many more bytes a reader in the given position accepts.
  function Left(width: nat, position: nat): nat
    requires position < width
  {
    (width - position + 6) / 7
  }

  lemma LastPosition(width: nat, position: nat)
    requires width == 32 || width == 64
    requires position < width <= position + 7 && position % 7 == 0
    ensures Pow2(width - position) * Pow2(position) == Pow2(width) && Left(width, position) == 1
  {
    Pow2Add(width - position, position);
  }

  // What a reader in the given position must make of the bytes.
  predicate Meaning(width: nat, position: nat, value: nat, s: seq<byte>, r: ReadResult)
    requires position < width
  {
    match r
    case Value(u, used) =>
      EndsAt(s, used) && used <= Left(width, position) && u == Sum(position, value, s, used) % Pow2(width)
    case Bad => Left(width, position) <= |s| && AllContinue(s, Left(width, position))
    case Incomplete(_, _) => |s| < Left(width, position) && AllContinue(s, |s|)
  }

  function Prepend(r: ReadResult): ReadResult {
    if r.Value? then Value(r.u, r.used + 1) else r
  }

  lemma MeaningStep(width: nat, position: nat, value: nat, s: seq<byte>, r: ReadResult)
    requires position + 7 < width && s != [] && s[0] >= 128
    requires Meaning(width, position + 7, value + s[0] % 128 * Pow2(position), s[1..], r)
    ensures Meaning(width, position, value, s, Prepend(r))
  {
    assert Left(width, position) == Left(width, position + 7) + 1;
    match r
    case Value(u, used) => SumStep(position, value, s, used + 1);
    case _ =>
  }

  lemma StepFits(width: nat, position: nat, value: nat, b: byte)
    requires width == 32 || width == 64
    requires position + 7 < width && value < Pow2(position)
    ensures var sum := value + b % 128 * Pow2(position);
            && sum < Pow2(position + 7)
            && Step(width, position, value, b) ==
               if b < 128 then Complete(sum % Pow2(width)) else More(position + 7, sum)
  {
    hide Or, Pow2;
    var sum := value + b % 128 * Pow2(position);
    GroupFits(position, value, b % 128, width);
    OrIsSum(value, b % 128, position);
    Pow2Mono(position + 7, width);
    DivMod(sum, 0, sum, Pow2(width));
  }

  lemma StepLast(width: nat, position: nat, value: nat, b: byte)
    requires width == 32 || width == 64
    requires position < width <= position + 7 && position % 7 == 0 && value < Pow2(position)
    ensures Step(width, position, value, b) ==
            if b < 128 then Complete((value + b % 128 * Pow2(position)) % Pow2(width)) else Invalid
  {
    hide Or, Pow2;
    LastPosition(width, position);
    var c := Pow2(width - position);
    LastGroup(c, Pow2(position), value, b % 128);
    OrIsSum(value, b % 128 % c, position);
  }

  lemma {:induction false} ReadFromMeans(width: nat, position: nat, value: nat, s: seq<byte>)
    requires width == 32 || width == 64
    requires position < width && position % 7 == 0 && value < Pow2(position)
    ensures Meaning(width, position, value, s, ReadFrom(width, position, value, s))
    decreases |s|
  {
    hide Step, Pow2, Base128;
    if s != [] {
      SingleByte(position, value, s);
      if position + 7 < width {
        StepFits(width, position, value, s[0]);
        if s[0] >= 128 {
          var value' := value + s[0] % 128 * Pow2(position);
          ReadFromMeans(width, position + 7, value', s[1..]);
          MeaningStep(width, position, value, s, ReadFrom(width, position + 7, value', s[1..]));
        }
      } else {
        ReadLastMeans(width, position, value, s);
      }
    }
  }

  lemma ReadLastMeans(width: nat, position: nat, value: nat, s: seq<byte>)
    requires width == 32 || width == 64
    requires position < width <= position + 7 && position % 7 == 0 && value < Pow2(position) && s != []
    ensures Meaning(width, position, value, s, ReadFrom(width, position, value, s))
  {
    hide Step, Pow2, Base128;
    SingleByte(position, value, s);
    StepLast(width, position, value, s[0]);
  }

  lemma SingleByte(position: nat, value: nat, s: seq<byte>)
    requires s != []
    ensures Sum(position, value, s, 1) == value + s[0] % 128 * Pow2(position)
  {
    SumStep(position, value, s, 1);
    assert s[1..][..0] == [];
  }

  // The reader accepts exactly the inputs that end within the bound, and returns the
  // base-128 sum modulo the width; it rejects as soon as the bound is passed, and otherwise
  // waits for more.
  lemma ReadExact(width: nat, s: seq<byte>)
    requires width == 32 || width == 64
    ensures match Read(width, s)
            case Value(u, used) =>
              EndsAt(s, used) && used <= MaxBytes(width) && u == Base128(s[..used]) % Pow2(width)
            case Bad => MaxBytes(width) <= |s| && AllContinue(s, MaxBytes(width))
            case Incomplete(_, _) => |s| < MaxBytes(width) && AllContinue(s, |s|)
  {
    ReadFromMeans(width, 0, 0, s);
  }

  lemma ReadAccepts(width: nat, s: seq<byte>, n: nat)
    requires width == 32 || width == 64
    requires EndsAt(s, n) && n <= MaxBytes(width)
    ensures Read(width, s) == Value(Base128(s[..n]) % Pow2(width), n)
  {
    hide Base128, Pow2;
    ReadExact(width, s);
    assert s[n - 1] < 128;
    match Read(width, s) {
      case Value(u, used) => EndIsUnique(s, n, used);
      case _ =>
    }
  }

  lemma EndIsUnique(s: seq<byte>, m: nat, n: nat)
    requires EndsAt(s, m) && EndsAt(s, n)
    ensures m == n
  {
    assert s[m - 1] < 128 && s[n - 1] < 128;
  }

  // ---- Writing --------------------------------------------------------------------------

  lemma {:induction false} WriteMeans(u: nat)
    ensures EndsAt(Write(u), |Write(u)|) && Base128(Write(u)) == u
  {
    if u >= 128 {
      WriteMeans(u / 128);
      var s, t := Write(u), Write(u / 128);
      assert s[1..] == t;
      forall i | 0 <= i < |s| - 1 ensures s[i] >= 128 {
        if i > 0 { assert s[i] == t[i - 1]; }
      }
    }
  }

  lemma {:induction false} WriteLength(u: nat, n: nat)
    requires 0 < n && u < Pow2(7 * n)
    ensures |Write(u)| <= n
  {
    if u >= 128 {
      assert n > 1 by { assert Pow2(7) == 128; }
      Pow2Group(7 * (n - 1));
      WriteLength(u / 128, n - 1);
    }
  }

  lemma {:induction false} Base128Bound(s: seq<byte>)
    ensures Base128(s) < Pow2(7 * |s|)
  {
    if s != [] {
      Base128Bound(s[1..]);
      Pow2Group(7 * (|s| - 1));
    }
  }

  lemma EndsAtPrefix(s: seq<byte>, t: seq<byte>)
    requires EndsAt(s, |s|)
    ensures EndsAt(s + t, |s|) && (s + t)[..|s|] == s
  {
  }

  lemma WriteFits(width: nat, u: nat)
    requires (width == 32 || width == 64) && u < Pow2(width)
    ensures |Write(u)| <= MaxBytes(width)
  {
    Pow2Mono(width, 7 * MaxBytes(width));
    WriteLength(u, MaxBytes(width));
  }

  // Reading inverts writing and consumes exactly what was written, whatever follows.
  lemma RoundTrip(width: nat, v: int, suffix: seq<byte>)
    requires width == 32 || width == 64
    requires -(Pow2(width - 1) as int) <= v < Pow2(width - 1)
    ensures var s := Write(Unsigned(width, v));
            && |s| <= MaxBytes(width)
            && Read(width, s + suffix) == Value(Unsigned(width, v), |s|)
            && Signed(width, Unsigned(width, v)) == v
  {
    hide Pow2, Base128, Write;
    RoundTripUnsigned(width, Unsigned(width, v), suffix);
  }

  lemma RoundTripUnsigned(width: nat, u: nat, suffix: seq<byte>)
    requires (width == 32 || width == 64) && u < Pow2(width)
    ensures |Write(u)| <= MaxBytes(width)
    ensures Read(width, Write(u) + suffix) == Value(u, |Write(u)|)
  {
    hide Pow2, Base128, Write;
    WriteMeans(u);
    WriteFits(width, u);
    EndsAtPrefix(Write(u), suffix);
    ReadAccepts(width, Write(u) + suffix, |Write(u)|);
    DivMod(u, 0, u, Pow2(width));
  }

  // No accepted input is shorter than the written form of the number it stands for.
  lemma Minimal(width: nat, s: seq<byte>)
    requires width == 32 || width == 64
    requires Read(width, s).Value?
    ensures |Write(Read(width, s).u)| <= Read(width, s).used
  {
    hide Pow2, Base128, Write;
    ReadExact(width, s);
    var u, used := Read(width, s).u, Read(width, s).used;
    if used < MaxBytes(width) {
      Base128Bound(s[..used]);
      Pow2Mono(7 * used, width);
      DivMod(Base128(s[..used]), 0, Base128(s[..used]), Pow2(width));
      WriteLength(u, used);
    } else {
      WriteFits(width, u);
    }
  }

  lemma PrefixFree(u: nat, v: nat)
    requires Write(u) <= Write(v)
    ensures u == v
  {
    WriteMeans(u);
    WriteMeans(v);
    EndsAtPrefix(Write(u), Write(v)[|Write(u)|..]);
    assert Write(u) + Write(v)[|Write(u)|..] == Write(v);
    EndIsUnique(Write(v), |Write(u)|, |Write(v)|);
  }
}
