/**
 The caseless comparison of lighttpd (buffer_caseless_compare in buffer.c): equal
 machine words are skipped first, then characters are compared in lower case, and
 length decides last. It orders keys totally, up to case.
 */
module CaselessCompare {
  /** A C character, which is signed. */
  type schar = x: int | -128 <= x < 128

  type Key = seq<schar>

  const INT_MAX := 0x7fff_ffff

  function Lower(c: schar): (l: schar)
    ensures 'A' as int <= c as int <= 'Z' as int ==> l as int - 'a' as int == c as int - 'A' as int
    ensures !('A' as int <= c as int <= 'Z' as int) ==> l == c
  {
    if 'A' as int <= c <= 'Z' as int then c + 32 else c
  }

  /** A key in lower case; two keys are the same up to case when these are equal. */
  function Folded(k: Key): (f: Key)
    ensures |f| == |k|
  {
    seq(|k|, i requires 0 <= i < |k| => Lower(k[i]))
  }

  /** The first difference in lower case decides, else the difference in length. */
  function Cmp(a: Key, b: Key): int {
    if a == [] || b == [] then |a| - |b|
    else if Lower(a[0]) != Lower(b[0]) then Lower(a[0]) - Lower(b[0])
    else Cmp(a[1..], b[1..])
  }

  lemma {:induction false} CmpZero(a: Key, b: Key)
    ensures Cmp(a, b) == 0 <==> Folded(a) == Folded(b)
  {
    if a == [] || b == [] {
    } else {
      CmpZero(a[1..], b[1..]);
      var fa, fb := Folded(a), Folded(b);
      assert fa == [Lower(a[0])] + Folded(a[1..]) && fb == [Lower(b[0])] + Folded(b[1..]);
      assert fa == fb ==> fa[0] == fb[0] && fa[1..] == fb[1..];
    }
  }

  /** Equal folded prefixes can be skipped. */
  lemma {:induction false} CmpSkip(a: Key, b: Key, n: nat)
    requires n <= |a| && n <= |b| && forall i | 0 <= i < n :: Lower(a[i]) == Lower(b[i])
    ensures Cmp(a, b) == Cmp(a[n..], b[n..])
  {
    if n == 0 {
    } else {
      CmpSkip(a[1..], b[1..], n - 1);
      assert a[1..][n - 1..] == a[n..] && b[1..][n - 1..] == b[n..];
    }
  }

  /** Keys that differ, up to case, are ordered by their first difference, or the shorter one comes first. */
  lemma CmpFirstDifference(a: Key, b: Key, n: nat)
    requires n <= |a| && n <= |b| && forall i | 0 <= i < n :: Lower(a[i]) == Lower(b[i])
    ensures n < |a| && n < |b| && Lower(a[n]) != Lower(b[n]) ==>
              Cmp(a, b) == Lower(a[n]) as int - Lower(b[n]) as int
    ensures n == |a| || n == |b| ==> Cmp(a, b) == |a| - |b|
  {
    CmpSkip(a, b, n);
  }

  lemma {:induction false} CmpAntisymmetric(a: Key, b: Key)
    ensures Cmp(a, b) == -Cmp(b, a)
  {
    if a == [] || b == [] {
    } else {
      CmpAntisymmetric(a[1..], b[1..]);
    }
  }

  lemma {:induction false} CmpTransitive(a: Key, b: Key, c: Key)
    requires Cmp(a, b) <= 0 && Cmp(b, c) <= 0
    ensures Cmp(a, c) <= 0 && (Cmp(a, c) == 0 ==> Cmp(a, b) == 0 && Cmp(b, c) == 0)
  {
    if a == [] || b == [] || c == [] {
    } else {
      if Lower(a[0]) == Lower(b[0]) == Lower(c[0]) {
        CmpTransitive(a[1..], b[1..], c[1..]);
      }
    }
  }

  /** A 64-bit difference of lengths, converted to int. */
  function ToInt(d: int): int {
    var low := d % 0x1_0000_0000;
    if low > INT_MAX then low - 0x1_0000_0000 else low
  }

  /** Skips equal words of eight bytes. */
  method SkipWords(a: Key, b: Key) returns (ndx: nat)
    ensures ndx <= |a| && ndx <= |b| && a[..ndx] == b[..ndx]
  {
    ndx := 0;
    var max := (if |a| < |b| then |a| else |b|) / 8 * 8;
    while ndx < max
      invariant ndx <= max <= |a| && max <= |b| && ndx % 8 == 0 && max % 8 == 0
      invariant a[..ndx] == b[..ndx]
    {
      if a[ndx..ndx + 8] != b[ndx..ndx + 8] {
        return;
      }
      assert a[..ndx + 8] == a[..ndx] + a[ndx..ndx + 8] && b[..ndx + 8] == b[..ndx] + b[ndx..ndx + 8];
      ndx := ndx + 8;
    }
  }

  /** Compares two keys; `aligned` says whether both may be read in words of eight bytes. */
  method Compare(a: Key, b: Key, aligned: bool) returns (cmp: int)
    requires |a| <= INT_MAX && |b| <= INT_MAX
    ensures cmp == Cmp(a, b)
  {
    var ndx: nat := 0;
    if aligned {
      ndx := SkipWords(a, b);
    }
    assert forall i | 0 <= i < ndx :: a[i] == a[..ndx][i] && b[i] == b[..ndx][i];
    var max := if |a| < |b| then |a| else |b|;
    while ndx < max
      invariant ndx <= max
      invariant forall i | 0 <= i < ndx :: Lower(a[i]) == Lower(b[i])
    {
      var a1: int, b1: int := a[ndx], b[ndx];
      if a1 != b1 {
        a1, b1 := Lower(a1), Lower(b1);
        if a1 - b1 != 0 {
          CmpSkip(a, b, ndx);
          return a1 - b1;
        }
      }
      ndx := ndx + 1;
    }
    CmpSkip(a, b, ndx);
    if |a| == |b| {
      return 0;
    }
    return ToInt(|a| - |b|);
  }
}
