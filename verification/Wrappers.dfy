/** Definitions shared by the other modules. */
module Wrappers {
  datatype Option<+T> = None | Some(value: T)

  /** A byte, as an integer. */
  type byte = x: int | 0 <= x < 256

  function Pow2(n: nat): (p: nat)
    ensures p > 0
  {
    if n == 0 then 1 else 2 * Pow2(n - 1)
  }

  lemma Associative<T>(x: seq<T>, y: seq<T>, z: seq<T>)
    ensures (x + y) + z == x + (y + z)
  {}

  // ----- counting

  lemma {:induction false} CountBelow(s: set<nat>, n: nat)
    requires forall x | x in s :: x < n
    ensures |s| <= n
  {
    if n == 0 {
      assert s == {};
    } else {
      CountBelow(s - {n - 1}, n - 1);
    }
  }

  function Members(s: seq<nat>): (m: set<nat>)
    ensures forall x :: x in m <==> x in s
  {
    if s == [] then {} else
      assert s == s[..|s| - 1] + [s[|s| - 1]];
      Members(s[..|s| - 1]) + {s[|s| - 1]}
  }

  /** A sequence without repetition has as many members as it is long. */
  lemma {:induction false} CountDistinct(s: seq<nat>)
    requires forall i, k | 0 <= i < k < |s| :: s[i] != s[k]
    ensures |Members(s)| == |s|
  {
    if s == [] {
    } else {
      CountDistinct(s[..|s| - 1]);
      assert s[|s| - 1] !in Members(s[..|s| - 1]);
    }
  }

  /** Of more than n numbers below n, two are equal. */
  lemma Pigeonhole(s: seq<nat>, n: nat) returns (i: nat, k: nat)
    requires |s| > n && forall i | 0 <= i < |s| :: s[i] < n
    ensures i < k < |s| && s[i] == s[k]
  {
    if forall i, k | 0 <= i < k < |s| :: s[i] != s[k] {
      CountDistinct(s);
      CountBelow(Members(s), n);
    }
    i, k :| 0 <= i < k < |s| && s[i] == s[k];
  }

  // ----- hexadecimal digits

  /** The value of a hexadecimal digit in either case. */
  function HexValue(c: byte): Option<nat> {
    if '0' as int <= c <= '9' as int then Some(c - '0' as int)
    else if 'A' as int <= c <= 'F' as int then Some(c - 'A' as int + 10)
    else if 'a' as int <= c <= 'f' as int then Some(c - 'a' as int + 10)
    else None
  }

  /** The digits of either case, and no other characters, have the values of their places. */
  lemma HexDigits(c: byte)
    ensures match HexValue(c)
            case Some(d) => d < 16 && (c == "0123456789abcdef"[d] as int || c == "0123456789ABCDEF"[d] as int)
            case None => forall d | 0 <= d < 16 ::
                c != "0123456789abcdef"[d] as int && c != "0123456789ABCDEF"[d] as int
  {
    var lower, upper := "0123456789abcdef", "0123456789ABCDEF";
    forall d | 0 <= d < 16
      ensures lower[d] as int == (if d < 10 then '0' as int + d else 'a' as int + d - 10)
      ensures upper[d] as int == (if d < 10 then '0' as int + d else 'A' as int + d - 10)
    {
    }
  }

  /** A digit as the code writes it, in lower case. */
  function HexDigit(d: nat): (c: byte)
    requires d < 16
    ensures HexValue(c) == Some(d)
  {
    if d < 10 then '0' as int + d else 'a' as int + d - 10
  }

  lemma HexDigitLower(d: nat)
    requires d < 16
    ensures HexDigit(d) == "0123456789abcdef"[d] as int
  {}
}
