/** Bytes, the outcomes an operation can have, and big-endian integers. */
module Bytes {
  type byte = b: int | 0 <= b < 256

  const TWO_32: int := 0x1_0000_0000
  const TWO_64: int := 0x1_0000_0000_0000_0000

  // What stops a run. A failed `assert` and a call to `abort` end the process, so they are
  // kept apart from the exceptions, which end only the receiving coroutine.
  datatype Error =
    | InvalidVarInt        // decode_error("invalid varint")
    | LengthTooLow         // decode_error("invalid packet length (too low)")
    | LengthTooHigh        // decode_error("invalid packet length (too high)")
    | TrailingData         // decode_error("trailing data in packet")
    | InvalidBoolean       // decode_error("invalid boolean")
    | NegativeStringLength // decode_error("got a string with a negative length")
    | StringTooLong        // decode_error("string length exceeds max_code_points")
    | InvalidPaletteLength // decode_error("invalid palette length")
    | EncodeError          // encode_error
    | InvalidPacketId      // protocol_error("invalid packet id")
    | NbtParseError        // nbt::parse_error
    | AssertFailed         // an `assert` of the source does not hold
    | Aborted              // `abort()`

  datatype Result<+T> = Ok(value: T) | Err(error: Error) {
    predicate IsFailure() { Err? }

    function PropagateFailure<U>(): Result<U>
      requires Err?
    {
      Err(error)
    }

    function Extract(): T
      requires Ok?
    {
      value
    }
  }

  // What a reader makes of the bytes it may read: a value and the bytes it left, or an error.
  datatype Parsed<+T> = Parsed(value: T, rest: seq<byte>) | Failed(error: Error) {
    predicate IsFailure() { Failed? }

    function PropagateFailure<U>(): Parsed<U>
      requires Failed?
    {
      Failed(error)
    }

    function Extract(): (T, seq<byte>)
      requires Parsed?
    {
      (value, rest)
    }
  }

  // A container filled so far, followed by what is still to be read.
  function Prepend<T>(done: seq<T>, p: Parsed<seq<T>>): Parsed<seq<T>> {
    match p
    case Parsed(more, rest) => Parsed(done + more, rest)
    case Failed(e) => Failed(e)
  }

  lemma PrependOne<T>(done: seq<T>, x: T, p: Parsed<seq<T>>)
    ensures Prepend(done + [x], p) == Prepend(done, Prepend([x], p))
  {
    if p.Parsed? {
      assert done + [x] + p.value == done + ([x] + p.value);
    }
  }

  lemma PrependFailure<T>(done: seq<T>, e: Error)
    ensures Prepend(done, Failed(e)) == Failed(e)
  {
  }

  lemma PrependEmpty<T>(done: seq<T>, p: Parsed<seq<T>>)
    ensures Prepend([], p) == p
    ensures p.Parsed? && p.value == [] ==> Prepend(done, p) == Parsed(done, p.rest)
  {
    if p.Parsed? {
      assert [] + p.value == p.value && done + [] == done;
    }
  }

  function Pow2(n: nat): (r: nat)
    ensures r > 0
  {
    if n == 0 then 1 else 2 * Pow2(n - 1)
  }

  lemma {:induction false} Pow2Add(a: nat, b: nat)
    ensures Pow2(a + b) == Pow2(a) * Pow2(b)
  {
    if a > 0 {
      Pow2Add(a - 1, b);
      assert Pow2(a + b) == 2 * (Pow2(a - 1) * Pow2(b));
    }
  }

  lemma Pow2Widths()
    ensures Pow2(7) == 128 && Pow2(8) == 256 && Pow2(16) == 0x1_0000
    ensures Pow2(31) == TWO_32 / 2 && Pow2(32) == TWO_32 && Pow2(63) == TWO_64 / 2 && Pow2(64) == TWO_64
  {
    assert Pow2(8) == 256;
    Pow2Add(8, 8);
    Pow2Add(16, 16);
    Pow2Add(32, 32);
  }

  lemma MulSign(d: int, m: nat)
    ensures d >= 1 ==> d * m >= m
    ensures d <= -1 ==> d * m <= -(m as int)
  {
    if d >= 1 {
      assert (d - 1) * m >= 0;
    } else if d <= -1 {
      assert (-d - 1) * m >= 0;
    }
  }

  lemma DivMod(a: int, q: int, r: int, m: int)
    requires 0 <= r < m && a == q * m + r
    ensures a / m == q && a % m == r
  {
    var d := a / m - q;
    assert d * m == r - a % m;
    MulSign(d, m);
  }

  lemma Pow2Group(p: nat)
    ensures Pow2(p + 7) == 128 * Pow2(p)
  {
    Pow2Add(7, p);
    assert Pow2(7) == 128;
  }

  lemma Pow2Byte(n: nat)
    requires n > 0
    ensures Pow2(8 * n) == 256 * Pow2(8 * (n - 1))
  {
    Pow2Add(8, 8 * (n - 1));
    assert Pow2(8) == 256;
  }

  lemma {:induction false} Pow2Mono(a: nat, b: nat)
    requires a <= b
    ensures Pow2(a) <= Pow2(b)
    decreases b
  {
    if a < b {
      Pow2Mono(a, b - 1);
    }
  }

  // ---- Bitwise or -------------------------------------------------------------------------------

  function Or(a: nat, b: nat): nat
    decreases a + b
  {
    if a == 0 && b == 0 then 0 else (if a % 2 == 1 || b % 2 == 1 then 1 else 0) + 2 * Or(a / 2, b / 2)
  }

  lemma {:induction false} OrZero(a: nat)
    ensures Or(a, 0) == a == Or(0, a)
  {
    if a > 0 {
      OrZero(a / 2);
    }
  }

  // Fields that have no bit in common are put together by adding them.
  lemma {:induction false} OrIsSum(low: nat, high: nat, k: nat)
    requires low < Pow2(k)
    ensures Or(low, high * Pow2(k)) == low + high * Pow2(k) == Or(high * Pow2(k), low)
  {
    if k == 0 {
      OrZero(high);
    } else {
      var shifted := high * Pow2(k - 1);
      assert high * Pow2(k) == 2 * shifted;
      OrIsSum(low / 2, high, k - 1);
      OrOfHalves(low, shifted);
    }
    OrCommutes(low, high * Pow2(k));
  }

  lemma {:induction false} OrCommutes(a: nat, b: nat)
    ensures Or(a, b) == Or(b, a)
    decreases a + b
  {
    if a > 0 || b > 0 {
      OrCommutes(a / 2, b / 2);
    }
  }

  lemma OrOfHalves(a: nat, b: nat)
    ensures Or(a, 2 * b) == a % 2 + 2 * Or(a / 2, b)
  {
    var even := 2 * b;
    assert even / 2 == b && even % 2 == 0;
    if a == 0 && b == 0 {
      OrZero(0);
    }
  }

  // ---- Words and their bytes --------------------------------------------------------------------

  // A signed number of n bits.
  predicate FitsBits(n: nat, v: int)
    requires n > 0
  {
    -(Pow2(n - 1) as int) <= v < Pow2(n - 1)
  }

  // The value of a two's-complement word of `width` bits, and back (std::bit_cast).
  function Signed(width: nat, u: int): int
    requires width > 0
  {
    if u < Pow2(width - 1) then u else u - Pow2(width)
  }

  function Unsigned(width: nat, v: int): (u: int)
    requires width > 0 && -(Pow2(width - 1) as int) <= v < Pow2(width - 1)
    ensures 0 <= u < Pow2(width) && Signed(width, u) == v
  {
    if v < 0 then v + Pow2(width) else v
  }

  // The number that big-endian bytes spell.
  function BigEndian(s: seq<byte>): (v: nat)
    ensures v < Pow2(8 * |s|)
  {
    if s == [] then 0
    else
      Pow2Byte(|s|);
      BigEndian(s[..|s| - 1]) * 256 + s[|s| - 1]
  }

  // `n` bytes, the most significant first.
  function ToBigEndian(n: nat, v: nat): (s: seq<byte>)
    requires v < Pow2(8 * n)
    ensures |s| == n
  {
    if n == 0 then []
    else
      Pow2Byte(n);
      ToBigEndian(n - 1, v / 256) + [v % 256]
  }

  lemma {:induction false} BigEndianInverts(n: nat, v: nat)
    requires v < Pow2(8 * n)
    ensures BigEndian(ToBigEndian(n, v)) == v
  {
    if n > 0 {
      Pow2Byte(n);
      BigEndianInverts(n - 1, v / 256);
      var s := ToBigEndian(n, v);
      assert s[..n - 1] == ToBigEndian(n - 1, v / 256);
    }
  }

  lemma {:induction false} ToBigEndianInverts(s: seq<byte>)
    ensures ToBigEndian(|s|, BigEndian(s)) == s
  {
    if s != [] {
      var n := |s|;
      ToBigEndianInverts(s[..n - 1]);
      Pow2Byte(n);
      assert BigEndian(s) / 256 == BigEndian(s[..n - 1]) && BigEndian(s) % 256 == s[n - 1];
      assert s == s[..n - 1] + [s[n - 1]];
    }
  }
}
