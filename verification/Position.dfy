/** Block positions: three signed fields of 26, 26 and 12 bits in one 64-bit word. */
module BlockPosition {
  import opened Bytes

  datatype Position = Position(x: int, y: int, z: int)

  // sign_extend: the branch for an arithmetic `>>`, shifting up and down again. The division
  // rounds down, as the shift does.
  function ExtendByShift(n: nat, v: nat): int
    requires 0 < n <= 32
  {
    Signed(32, v * Pow2(32 - n) % Pow2(32)) / Pow2(32 - n)
  }

  // The other branch: with the sign bit set, `|= ~mask` sets all the bits above.
  function ExtendByMask(n: nat, v: nat): int
    requires 0 < n <= 32
  {
    var value := v % Pow2(n);
    Signed(32, if value >= Pow2(n - 1) then value + (Pow2(32) - Pow2(n)) else value)
  }

  // Both give the signed value of the field.
  lemma BranchesAgree(n: nat, v: nat)
    requires 0 < n <= 32 && v < Pow2(n)
    ensures ExtendByShift(n, v) == ExtendByMask(n, v) == Signed(n, v)
  {
    ShiftIsSigned(n, v);
    MaskIsSigned(n, v);
  }

  lemma ShiftIsSigned(n: nat, v: nat)
    requires 0 < n <= 32 && v < Pow2(n)
    ensures ExtendByShift(n, v) == Signed(n, v)
  {
    Halves(n);
    hide Pow2;
    Pow2Add(n, 32 - n);
    Pow2Add(n - 1, 32 - n);
    assert n + (32 - n) == 32 && n - 1 + (32 - n) == 31;
    ScaledField(Pow2(n - 1), Pow2(32 - n), Pow2(31), Pow2(32), v);
  }

  lemma Halves(n: nat)
    requires n > 0
    ensures Pow2(n) == 2 * Pow2(n - 1)
  {
  }

  lemma MaskIsSigned(n: nat, v: nat)
    requires 0 < n <= 32 && v < Pow2(n)
    ensures ExtendByMask(n, v) == Signed(n, v)
  {
    Halves(n);
    Halves(32);
    Pow2Mono(n - 1, 31);
    hide Pow2;
    DivMod(v, 0, v, Pow2(n));
  }

  // The same with the powers of two as numbers: `full` is a word, and half of it is `sign`.
  lemma ScaledField(half: nat, scale: nat, sign: nat, full: nat, v: nat)
    requires half > 0 && scale > 0 && sign == half * scale && full == 2 * half * scale && v < 2 * half
    ensures var w := v * scale % full;
            (if w < sign then w else w - full) / scale == if v < half then v else v - 2 * half
  {
    var w := v * scale;
    MulSign(2 * half - v, scale);
    MulSign(half - v, scale);
    MulSign(v - half, scale);
    assert (2 * half - v) * scale == full - w && (half - v) * scale == sign - w && (v - half) * scale == w - sign;
    DivMod(w, 0, w, full);
    DivMod(w, v, 0, scale);
    DivMod(w - full, v - 2 * half, 0, scale);
  }

  // The constructor from a word, and raw().
  function FromRaw(raw: nat): Position {
    Position(ExtendByShift(26, raw / Pow2(38) % Pow2(26)),
             ExtendByShift(12, raw % Pow2(12)),
             ExtendByShift(26, raw / Pow2(12) % Pow2(26)))
  }

  function Raw(p: Position): nat {
    Or(Or(Masked(26, p.x, 38), Masked(26, p.z, 12)), p.y % Pow2(12))
  }

  // `(int64_t(v) & mask) << shift`, where the mask has the n lowest bits.
  function Masked(n: nat, v: int, shift: nat): nat {
    v % Pow2(n) * Pow2(shift)
  }

  lemma FieldRange(n: nat, v: nat)
    requires 0 < n <= 32 && v < Pow2(n)
    ensures FitsBits(n, ExtendByShift(n, v)) && ExtendByShift(n, v) % Pow2(n) == v
  {
    ShiftIsSigned(n, v);
    Halves(n);
    hide Pow2, ExtendByShift;
    var x := Signed(n, v);
    DivMod(x, if x < 0 then -1 else 0, v, Pow2(n));
  }

  lemma FieldInverts(n: nat, x: int)
    requires 0 < n <= 32
    ensures 0 <= x % Pow2(n) < Pow2(n)
    ensures ExtendByShift(n, x % Pow2(n)) == x <==> FitsBits(n, x)
  {
    FieldRange(n, x % Pow2(n));
    ShiftIsSigned(n, x % Pow2(n));
    Halves(n);
    hide Pow2, ExtendByShift;
    if FitsBits(n, x) {
      DivMod(x, if x < 0 then -1 else 0, Unsigned(n, x), Pow2(n));
    }
  }

  lemma Nested(low: nat, mid: nat, high: nat, a: nat, b: nat, c: nat)
    requires b < mid && c < low && high == mid * low
    ensures var upper, raw := a * mid + b, a * high + b * low + c;
            && raw / low == upper && raw % low == c && upper / mid == a && upper % mid == b
            && high > 0 && raw / high == a
  {
    var upper, raw := a * mid + b, a * high + b * low + c;
    assert upper * low == a * (mid * low) + b * low;
    DivMod(raw, upper, c, low);
    DivMod(upper, a, b, mid);
    MulSign(mid - b, low);
    assert (mid - b) * low == high - b * low;
    assert b * low >= 0;
    DivMod(raw, a, b * low + c, high);
  }

  // The three fields of a word, put side by side, are the word.
  lemma FieldsOfRaw(a: nat, b: nat, c: nat)
    requires a < Pow2(26) && b < Pow2(26) && c < Pow2(12)
    ensures var raw := a * Pow2(38) + b * Pow2(12) + c;
            raw / Pow2(38) % Pow2(26) == a && raw / Pow2(12) % Pow2(26) == b && raw % Pow2(12) == c
  {
    hide Pow2;
    Pow2Add(26, 12);
    Nested(Pow2(12), Pow2(26), Pow2(38), a, b, c);
    DivMod(a, 0, a, Pow2(26));
  }

  lemma WordOfFields(raw: nat)
    requires raw < Pow2(64)
    ensures raw == raw / Pow2(38) % Pow2(26) * Pow2(38) + raw / Pow2(12) % Pow2(26) * Pow2(12) + raw % Pow2(12)
  {
    hide Pow2;
    Pow2Add(26, 12);
    Pow2Add(26, 38);
    var a, b, c := Split(Pow2(12), Pow2(26), raw);
    ThreeParts(Pow2(12), Pow2(26), Pow2(38), raw, a, b, c);
  }

  lemma Split(low: nat, mid: nat, raw: nat) returns (a: nat, b: nat, c: nat)
    requires low > 0 && mid > 0
    ensures b < mid && c < low && raw == a * (mid * low) + b * low + c
  {
    var upper := raw / low;
    a, b, c := upper / mid, upper % mid, raw % low;
    assert raw == upper * low + c && upper == a * mid + b;
    assert (a * mid) * low == a * (mid * low);
    assert (a * mid + b) * low == (a * mid) * low + b * low;
  }

  lemma ThreeParts(low: nat, mid: nat, high: nat, raw: nat, a: nat, b: nat, c: nat)
    requires b < mid && c < low && high == mid * low && raw == a * high + b * low + c && raw < mid * high
    ensures high > 0 && raw / high % mid == a && raw / low % mid == b && raw % low == c
  {
    Nested(low, mid, high, a, b, c);
    Bounded(a, mid, high, b * low + c, raw);
    DivMod(a, 0, a, mid);
  }

  lemma Bounded(a: nat, mid: nat, high: nat, rest: nat, raw: nat)
    requires raw == a * high + rest && raw < mid * high
    ensures a < mid
  {
    MulSign(a - mid, high);
    assert (a - mid) * high == a * high - mid * high;
  }

  // The fields have no bit in common.
  lemma RawIsSum(p: Position)
    ensures Raw(p) == Masked(26, p.x, 38) + Masked(26, p.z, 12) + p.y % Pow2(12)
  {
    hide Pow2, Or;
    Pow2Add(26, 12);
    var x, z, low, mid := p.x % Pow2(26), p.z % Pow2(26), Pow2(12), Pow2(26);
    FitsBelow(z, mid, low);
    OrIsSum(z * low, x, 38);
    SumOfShifts(x, z, mid, low);
    OrIsSum(p.y % low, x * mid + z, 12);
  }

  lemma FitsBelow(z: nat, mid: nat, low: nat)
    requires z < mid && low > 0
    ensures z * low < mid * low
  {
    MulSign(mid - z, low);
    assert (mid - z) * low == mid * low - z * low;
  }

  lemma SumOfShifts(x: nat, z: nat, mid: nat, low: nat)
    ensures x * (mid * low) + z * low == (x * mid + z) * low
  {
    assert (x * mid) * low == x * (mid * low);
  }

  // Every 64-bit word is the word of its position.
  lemma RawInverts(raw: nat)
    requires raw < Pow2(64)
    ensures Raw(FromRaw(raw)) == raw
  {
    hide Pow2, ExtendByShift, Raw;
    RawIsSum(FromRaw(raw));
    WordOfFields(raw);
    FieldRange(26, raw / Pow2(38) % Pow2(26));
    FieldRange(26, raw / Pow2(12) % Pow2(26));
    FieldRange(12, raw % Pow2(12));
  }

  // A position comes back exactly when its coordinates fit their fields.
  lemma PositionInverts(p: Position)
    ensures FromRaw(Raw(p)) == p <==> FitsBits(26, p.x) && FitsBits(12, p.y) && FitsBits(26, p.z)
  {
    hide Pow2, ExtendByShift, FitsBits, Raw;
    RawIsSum(p);
    FieldInverts(26, p.x);
    FieldInverts(12, p.y);
    FieldInverts(26, p.z);
    FieldsOfRaw(p.x % Pow2(26), p.z % Pow2(26), p.y % Pow2(12));
  }
}
