/**
 Numbers as decimal text (LI_ltostr in buffer.c): the digits are written from the lowest up
 and then reversed in place. Read back, they give the number.
 */
module Decimal {
  import opened CaselessCompare

  const ZERO: schar := 48
  const MINUS: schar := 45

  /** The largest long. */
  const LONG_MAX := 0x7fff_ffff_ffff_ffff

  /** The decimal digits of a number, the highest first. */
  function Digits(n: nat): (k: Key)
    ensures |k| >= 1
  {
    (if n > 9 then Digits(n / 10) else []) + [ZERO + n % 10]
  }

  /** The number that decimal digits stand for. */
  function Number(k: Key): int {
    if k == [] then 0 else 10 * Number(k[..|k| - 1]) + (k[|k| - 1] as int - 48)
  }

  /** The digits of a number are decimal, without a zero in front, and read back as the number. */
  lemma {:induction false} DigitsRead(n: nat)
    ensures Number(Digits(n)) == n
    ensures forall i | 0 <= i < |Digits(n)| :: '0' as int <= Digits(n)[i] as int <= '9' as int
    ensures Digits(n)[0] as int == '0' as int <==> n == 0
    ensures n <= 9 <==> |Digits(n)| == 1
  {
    if n > 9 {
      DigitsRead(n / 10);
    }
    var k := Digits(n);
    assert k[..|k| - 1] == if n > 9 then Digits(n / 10) else [];
  }

  /** Numbers that are read off, as they are usually written. */
  lemma NumberRead(a: schar, b: schar, c: schar)
    ensures Number([]) == 0 && Number([a]) == a as int - '0' as int
    ensures Number([a, b]) == 10 * (a as int - '0' as int) + (b as int - '0' as int)
    ensures Number([a, b, c]) == 100 * (a as int - '0' as int) + 10 * (b as int - '0' as int) + (c as int - '0' as int)
  {
    assert [a][..0] == [] && [a, b][..1] == [a] && [a, b, c][..2] == [a, b];
  }

  /** Different numbers are written differently. */
  lemma DigitsDiffer(m: nat, n: nat)
    requires Digits(m) == Digits(n)
    ensures m == n
  {
    DigitsRead(m);
    DigitsRead(n);
  }

  // ----- how many digits

  function Pow10(k: nat): nat {
    if k == 0 then 1 else 10 * Pow10(k - 1)
  }

  lemma {:induction false} DigitsBound(n: nat, k: nat)
    requires 0 < k && n < Pow10(k)
    ensures |Digits(n)| <= k
  {
    if k == 1 {
      assert Pow10(1) == 10 * Pow10(0);
    } else if n > 9 {
      DigitsBound(n / 10, k - 1);
    }
  }

  /** A long has at most 19 digits. */
  lemma LongDigits(n: nat)
    requires n <= LONG_MAX
    ensures |Digits(n)| <= 19
  {
    assert Pow10(6) == 1000000;
    assert Pow10(12) == 1000000 * Pow10(6);
    assert Pow10(18) == 1000000 * Pow10(12);
    assert Pow10(19) == 10 * Pow10(18);
    DigitsBound(n, 19);
  }

  // ----- writing

  /** A number with its sign. */
  function Text(val: int): Key {
    if val < 0 then [MINUS] + Digits(-val) else Digits(val)
  }

  /** From the text of a number back to the number: no two numbers have the same text. */
  lemma TextRead(val: int)
    ensures val < 0 <==> Text(val)[0] as int == '-' as int
    ensures val == if Text(val)[0] as int == '-' as int then -Number(Text(val)[1..]) else Number(Text(val))
  {
    DigitsRead(if val < 0 then -val else val);
  }

  /** The last digit, and the digits before it. */
  lemma LastDigit(d: Key, v: nat)
    requires v > 9 && |Digits(v)| <= |d| && d[..|Digits(v)|] == Digits(v)
    ensures |Digits(v)| == |Digits(v / 10)| + 1 && d[..|Digits(v / 10)|] == Digits(v / 10)
    ensures d[|Digits(v / 10)|] == ZERO + v % 10
  {
    var n := |Digits(v / 10)|;
    assert Digits(v) == Digits(v / 10) + [ZERO + v % 10];
    assert d[n] == d[..n + 1][n];
    assert d[..n] == d[..n + 1][..n];
  }

  /** Writes the digits from the lowest up, with a zero behind them; the highest is at the position returned. */
  method WriteReversed(buf: array<schar>, start: nat, val: nat) returns (end: nat)
    requires start + |Digits(val)| < buf.Length
    modifies buf
    ensures start <= end && end + 1 - start == |Digits(val)| && end + 1 < buf.Length && buf[end + 1] == 0
    ensures forall k | start <= k <= end :: buf[k] == Digits(val)[end - k]
    ensures forall k | 0 <= k < buf.Length && (k < start || k > end + 1) :: buf[k] == old(buf[k])
  {
    ghost var d := Digits(val);
    ghost var last := start + |d| - 1;
    var v := val;
    end := start;
    while v > 9
      invariant start <= end && last - end == |Digits(v)| - 1 && d[..|Digits(v)|] == Digits(v)
      invariant forall k | start <= k < end :: buf[k] == d[last - k]
      invariant forall k | 0 <= k < buf.Length && (k < start || k >= end) :: buf[k] == old(buf[k])
    {
      LastDigit(d, v);
      buf[end] := ZERO + v % 10;
      end := end + 1;
      v := v / 10;
    }
    assert d[0] == d[..1][0];
    buf[end] := ZERO + v;
    buf[end + 1] := 0;
  }

  /** Reverses a part of the buffer in place. */
  method Reverse(buf: array<schar>, start: nat, end: nat)
    requires start <= end < buf.Length
    modifies buf
    ensures forall k | start <= k <= end :: buf[k] == old(buf[start + end - k])
    ensures forall k | 0 <= k < buf.Length && (k < start || k > end) :: buf[k] == old(buf[k])
  {
    var i, j := start, end;
    while i < j
      invariant start <= i <= j + 1 && j <= end && i + j == start + end
      invariant forall k | start <= k < i || j < k <= end :: buf[k] == old(buf[start + end - k])
      invariant forall k | i <= k <= j || 0 <= k < start || end < k < buf.Length :: buf[k] == old(buf[k])
    {
      buf[i], buf[j] := buf[j], buf[i];
      i, j := i + 1, j - 1;
    }
  }

  /** Writes a number and a terminating zero; the result is the length of the text. */
  method LtoStr(buf: array<schar>, val: int) returns (len: nat)
    requires -LONG_MAX <= val <= LONG_MAX && buf.Length >= 21
    modifies buf
    ensures len < buf.Length && buf[..len] == Text(val) && buf[len] == 0
    ensures forall k | len < k < buf.Length :: buf[k] == old(buf[k])
  {
    hide Digits;
    var start, v := 0, val;
    if val < 0 {
      buf[0] := MINUS;
      start, v := 1, -val;
    }
    LongDigits(v);
    var end := WriteReversed(buf, start, v);
    Reverse(buf, start, end);
    len := end + 1;
    assert buf[start..len] == Digits(v);
    assert buf[..len] == buf[..start] + buf[start..len];
  }
}
