/** Strings: finding a character, and decimal numbers. */
module Text {

  // Where the character first occurs; the length if it does not.
  function Find(s: string, c: char): (i: nat)
    ensures i <= |s|
  {
    if s == "" || s[0] == c then 0 else Find(s[1..], c) + 1
  }

  lemma {:induction false} FindIs(s: string, c: char, i: nat)
    requires i <= |s| && (forall k :: 0 <= k < i ==> s[k] != c) && (i < |s| ==> s[i] == c)
    ensures Find(s, c) == i
    decreases i
  {
    if i > 0 {
      FindIs(s[1..], c, i - 1);
    }
  }

  lemma {:induction false} FindStops(s: string, c: char)
    ensures var i := Find(s, c);
            (forall k :: 0 <= k < i ==> s[k] != c) && (i < |s| ==> s[i] == c)
  {
    if s != "" && s[0] != c {
      FindStops(s[1..], c);
      var i := Find(s[1..], c);
      assert forall k :: 0 < k <= i ==> s[k] == s[1..][k - 1];
    }
  }

  lemma FindSplits(s: string, c: char)
    ensures var i := Find(s, c);
            if c in s then i < |s| && c !in s[..i] && s[i] == c && s == s[..i] + [c] + s[i + 1..] else i == |s|
  {
    hide Find;
    FindStops(s, c);
    var i := Find(s, c);
    if i < |s| {
      assert s == s[..i] + [s[i]] + s[i + 1..];
    }
  }

  // The parts between occurrences of a character: one more than there are occurrences.
  function SplitAll(s: string, c: char): (parts: seq<string>)
    ensures |parts| > 0
  {
    if s == "" then [""]
    else
      var rest := SplitAll(s[1..], c);
      if s[0] == c then [""] + rest else [[s[0]] + rest[0]] + rest[1..]
  }

  lemma {:induction false} SplitAtFirst(s: string, c: char)
    ensures SplitAll(s, c) ==
            if Find(s, c) == |s| then [s] else [s[..Find(s, c)]] + SplitAll(s[Find(s, c) + 1..], c)
    decreases |s|
  {
    if s != "" && s[0] != c {
      SplitAtFirst(s[1..], c);
      assert s == [s[0]] + s[1..];
      var i := Find(s[1..], c);
      assert Find(s, c) == i + 1;
      if i < |s[1..]| {
        assert s[1..][i + 1..] == s[i + 2..];
        assert s[..i + 1] == [s[0]] + s[1..][..i];
      }
    }
  }

  predicate IsDigit(c: char) { '0' <= c <= '9' }

  predicate AllDigits(s: string) {
    forall i :: 0 <= i < |s| ==> IsDigit(s[i])
  }

  function DigitOf(c: char): (d: nat)
    requires IsDigit(c)
    ensures d < 10
  {
    c as int - '0' as int
  }

  function Pow10(n: nat): nat {
    if n == 0 then 1 else 10 * Pow10(n - 1)
  }

  // Each digit counts for a power of ten, by its place.
  function Decimal(s: string): nat
    requires AllDigits(s)
  {
    if s == "" then 0 else DigitOf(s[0]) * Pow10(|s| - 1) + Decimal(s[1..])
  }

  lemma {:induction false} DecimalOfOneMore(s: string, c: char)
    requires AllDigits(s) && IsDigit(c)
    ensures AllDigits(s + [c]) && Decimal(s + [c]) == 10 * Decimal(s) + DigitOf(c)
    decreases |s|
  {
    if s == "" {
      assert s + [c] == [c];
    } else {
      assert (s + [c])[1..] == s[1..] + [c];
      DecimalOfOneMore(s[1..], c);
      assert DigitOf(s[0]) * (10 * Pow10(|s| - 1)) == 10 * (DigitOf(s[0]) * Pow10(|s| - 1));
    }
  }
}
