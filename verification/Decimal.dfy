/** Decimal numbers on the wire: writing a 64-bit value and reading it back. */
module Decimal {
  import opened Common

  const CR := '\r'
  const LF := '\n'
  const CRLF := [CR, LF]

  predicate IsDigit(c: char) {
    '0' <= c <= '9'
  }

  function DigitValue(c: char): (d: nat)
    requires IsDigit(c)
    ensures d < 10
  {
    c as int - '0' as int
  }

  function DigitChar(d: nat): (c: char)
    requires d < 10
    ensures IsDigit(c) && DigitValue(c) == d
  {
    ('0' as int + d) as char
  }

  ghost predicate AllDigits(s: string) {
    forall i :: 0 <= i < |s| ==> IsDigit(s[i])
  }

  /** The decimal numeral of `n`, without leading zeros. */
  function Digits(n: nat): (s: string)
    ensures s != [] && AllDigits(s)
    ensures n != 0 ==> s[0] != '0'
  {
    if n < 10 then [DigitChar(n)] else Digits(n / 10) + [DigitChar(n % 10)]
  }

  /** The number a string of digits stands for. */
  function Numeral(s: string): nat
    requires AllDigits(s)
  {
    if s == [] then 0 else Numeral(s[..|s| - 1]) * 10 + DigitValue(s[|s| - 1])
  }

  lemma {:induction false} NumeralOfDigits(n: nat)
    ensures Numeral(Digits(n)) == n
  {
    if n < 10 {
      assert Digits(n)[..0] == [];
    } else {
      NumeralOfDigits(n / 10);
      assert Digits(n)[..|Digits(n)| - 1] == Digits(n / 10);
    }
  }

  lemma {:induction false} NumeralOfPrefix(s: string, j: nat)
    requires AllDigits(s) && j <= |s|
    ensures Numeral(s[..j]) <= Numeral(s)
    ensures 0 < j && s[0] != '0' ==> 0 < Numeral(s[..j])
  {
    if j == |s| {
      assert s[..j] == s;
      if 1 < j {
        NumeralOfPrefix(s[..j - 1], j - 1);
        assert s[..j - 1][..j - 1] == s[..j - 1];
      }
    } else {
      NumeralOfPrefix(s[..|s| - 1], j);
      assert s[..|s| - 1][..j] == s[..j];
    }
  }

  function Pow10(k: nat): nat {
    if k == 0 then 1 else 10 * Pow10(k - 1)
  }

  lemma {:induction false} DigitCount(n: nat, k: nat)
    requires 0 < k && n < Pow10(k)
    ensures |Digits(n)| <= k
  {
    if n >= 10 {
      assert 1 < k by {
        assert Pow10(1) == 10 * Pow10(0);
      }
      DigitCount(n / 10, k - 1);
    }
  }

  /** Every 64-bit value has at most twenty digits, the size of the scratch buffer. */
  lemma DigitsFit(n: u64)
    ensures |Digits(n)| <= 20
  {
    assert Pow10(4) == 10000;
    assert Pow10(8) == 100000000;
    assert Pow10(12) == 1000000000000;
    assert Pow10(16) == 10000000000000000;
    assert Pow10(20) == 100000000000000000000;
    DigitCount(n, 20);
  }

  // ---------- Writing ----------

  /** Reverses the digits `buf[..n]`, the least significant one first, in place. */
  method ReverseDigits(buf: array<char>, n: nat)
    requires 0 < n <= buf.Length
    modifies buf
    ensures forall k :: 0 <= k < n ==> buf[k] == old(buf[n - 1 - k])
  {
    var i, j := 0, n - 1;
    while i < j
      invariant 0 <= i && i + j == n - 1 && i <= j + 1
      invariant forall k :: 0 <= k < i ==> buf[k] == old(buf[n - 1 - k])
      invariant forall k :: j < k < n ==> buf[k] == old(buf[n - 1 - k])
      invariant forall k :: i <= k <= j ==> buf[k] == old(buf[k])
    {
      buf[i], buf[j] := buf[j], buf[i];
      i, j := i + 1, j - 1;
    }
  }

  /** The last digit, and the digits before it. */
  lemma LastDigit(n: nat)
    ensures |Digits(n)| > 0 && Digits(n)[|Digits(n)| - 1] == DigitChar(n % 10)
    ensures if n / 10 == 0 then |Digits(n)| == 1 else Digits(n / 10) == Digits(n)[..|Digits(n)| - 1]
  {
  }

  /** `u64_to_ascii`: writes the numeral of `v` at the front of `out`. */
  method WriteDigits(v: u64, out: array<char>) returns (n: nat)
    requires 20 <= out.Length
    modifies out
    ensures n == |Digits(v)| <= 20 && out[..n] == Digits(v)
  {
    hide Digits;
    DigitsFit(v);
    var buf := new char[20](_ => '0');
    n := 0;
    var rest: nat := v;
    var more := true;
    while more
      invariant n <= |Digits(v)| <= 20
      invariant more ==> n < |Digits(v)| && Digits(rest) == Digits(v)[..|Digits(v)| - n]
      invariant !more ==> n == |Digits(v)|
      invariant forall k :: 0 <= k < n ==> buf[k] == Digits(v)[|Digits(v)| - 1 - k]
      decreases more, rest
    {
      var q := rest / 10;
      var r := rest - q * 10;
      LastDigit(rest);
      buf[n] := ('0' as int + r) as char;
      n := n + 1;
      rest := q;
      more := rest != 0;
    }
    ReverseDigits(buf, n);
    forall i | 0 <= i < n {
      out[i] := buf[i];
    }
    assert forall k :: 0 <= k < n ==> out[k] == Digits(v)[k];
  }

  // ---------- Reading ----------

  /** How a decimal header ends: at CRLF, badly, or at the end of the bytes after at least one digit. */
  datatype Header = Value(n: nat, rest: string) | Bad | RanOut(n: nat)

  /** One more digit, in 64-bit arithmetic. */
  function Shifted(val: nat, c: char): nat
    requires IsDigit(c)
  {
    (val * 10 + DigitValue(c)) % TWO_TO_THE_64
  }

  /** Reads digits, accumulating modulo 2^64, up to CRLF. */
  function ReadHeader(s: string, val: nat, any: bool): (h: Header)
    ensures h.Value? ==> |h.rest| + 2 <= |s|
    decreases |s|
  {
    if s == [] then
      if any then RanOut(val) else Bad
    else if s[0] == CR then
      if |s| < 2 || s[1] != LF || !any then Bad else Value(val, s[2..])
    else if !IsDigit(s[0]) then
      Bad
    else
      ReadHeader(s[1..], Shifted(val, s[0]), true)
  }

  function Accumulated(val: nat, s: string): nat
    requires AllDigits(s)
    decreases |s|
  {
    if s == [] then val else Accumulated(Shifted(val, s[0]), s[1..])
  }

  lemma {:induction false} ReadsDigits(s: string, rest: string, val: nat, any: bool)
    requires AllDigits(s)
    ensures ReadHeader(s + rest, val, any) == ReadHeader(rest, Accumulated(val, s), any || s != [])
  {
    if s == [] {
      assert s + rest == rest;
    } else {
      assert (s + rest)[1..] == s[1..] + rest;
      ReadsDigits(s[1..], rest, Shifted(val, s[0]), true);
    }
  }

  lemma {:induction false} AccumulatedLast(val: nat, s: string, c: char)
    requires AllDigits(s) && IsDigit(c)
    ensures AllDigits(s + [c])
    ensures Accumulated(val, s + [c]) == Shifted(Accumulated(val, s), c)
    decreases |s|
  {
    if s != [] {
      assert (s + [c])[1..] == s[1..] + [c];
      AccumulatedLast(Shifted(val, s[0]), s[1..], c);
    }
  }

  lemma {:induction false} AccumulatesNumeral(s: string)
    requires AllDigits(s) && Numeral(s) < TWO_TO_THE_64
    ensures Accumulated(0, s) == Numeral(s)
  {
    if s != [] {
      var t, c := s[..|s| - 1], s[|s| - 1];
      assert s == t + [c];
      AccumulatesNumeral(t);
      AccumulatedLast(0, t, c);
    }
  }

  /** Reading inverts writing for every 64-bit value, whatever follows. */
  lemma ReadInvertsWrite(n: u64, rest: string)
    ensures ReadHeader(Digits(n) + CRLF + rest, 0, false) == Value(n, rest)
  {
    var tail := CRLF + rest;
    assert Digits(n) + CRLF + rest == Digits(n) + tail;
    ReadsDigits(Digits(n), tail, 0, false);
    NumeralOfDigits(n);
    AccumulatesNumeral(Digits(n));
    assert tail[2..] == rest;
  }

  /** A header cut short: just after the numeral's first j digits, or after the CR that follows it. */
  lemma ReadCutHeader(n: u64, j: nat)
    requires j <= |Digits(n)|
    ensures j == 0 ==> ReadHeader(Digits(n)[..j], 0, false) == Bad
    ensures 0 < j ==> ReadHeader(Digits(n)[..j], 0, false).RanOut?
    ensures 0 < j && 0 < n ==> ReadHeader(Digits(n)[..j], 0, false).n > 0
    ensures ReadHeader(Digits(n) + [CR], 0, false) == Bad
  {
    var s := Digits(n)[..j];
    assert s + [] == s;
    ReadsDigits(s, [], 0, false);
    NumeralOfDigits(n);
    NumeralOfPrefix(Digits(n), j);
    AccumulatesNumeral(s);
    ReadsDigits(Digits(n), [CR], 0, false);
  }
}
