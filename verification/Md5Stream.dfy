/**
 Streaming MD5 (md5.c): however a message is cut into updates, the digest is that of
 the whole message, padded as sections 3.1 and 3.2 of RFC 1321 say. The transform of
 one block is a parameter.
 */
module Md5Stream {
  import opened Wrappers

  type Bytes = seq<byte>

  const TWO32 := 0x1_0000_0000
  const TWO64 := 0x1_0000_0000_0000_0000

  type Word = x: int | 0 <= x < TWO32

  datatype State = State(a: Word, b: Word, c: Word, d: Word)

  const INITIAL := State(0x67452301, 0xefcdab89, 0x98badcfe, 0x10325476)

  type Transform = (State, Bytes) -> State

  // ----- numbers as octets, the low-order octet first

  function LittleEndian(n: nat, k: nat): (s: Bytes)
    ensures |s| == k
  {
    if k == 0 then [] else [n % 256] + LittleEndian(n / 256, k - 1)
  }

  function FromLittleEndian(s: Bytes): nat {
    if s == [] then 0 else s[0] + 256 * FromLittleEndian(s[1..])
  }

  function EncodeWords(ws: seq<Word>): (s: Bytes)
    ensures |s| == 4 * |ws|
  {
    if ws == [] then [] else EncodeWords(ws[..|ws| - 1]) + LittleEndian(ws[|ws| - 1], 4)
  }

  lemma {:induction false} LittleEndianInverse(s: Bytes)
    ensures LittleEndian(FromLittleEndian(s), |s|) == s
  {
    if s == [] {
    } else {
      LittleEndianInverse(s[1..]);
      var n := FromLittleEndian(s[1..]);
      assert (s[0] + 256 * n) % 256 == s[0] && (s[0] + 256 * n) / 256 == n;
    }
  }

  function Pow256(k: nat): nat {
    if k == 0 then 1 else 256 * Pow256(k - 1)
  }

  lemma {:induction false} FromLittleEndianInverse(n: nat, k: nat)
    requires n < Pow256(k)
    ensures FromLittleEndian(LittleEndian(n, k)) == n
  {
    if k == 0 {
    } else {
      FromLittleEndianInverse(n / 256, k - 1);
      assert LittleEndian(n, k)[1..] == LittleEndian(n / 256, k - 1);
    }
  }

  lemma WordOf(s: Bytes)
    requires |s| == 4
    ensures var s0: int, s1: int, s2: int, s3: int := s[0], s[1], s[2], s[3];
            FromLittleEndian(s) == s0 + 0x100 * s1 + 0x1_0000 * s2 + 0x100_0000 * s3
  {
    var t1, t2, t3 := s[1..], s[2..], s[3..];
    assert t1[1..] == t2 && t2[1..] == t3 && t3[1..] == [];
    assert FromLittleEndian(t3) == t3[0] + 256 * FromLittleEndian([]);
    assert FromLittleEndian(t2) == t2[0] + 256 * FromLittleEndian(t3);
  }

  /** What eight octets stand for: each counts 256 times as much as the one before it. */
  lemma EightOctets(s: Bytes)
    requires |s| == 8
    ensures FromLittleEndian(s) ==
            s[0] as int + 0x100 * (s[1] as int) + 0x1_0000 * (s[2] as int) + 0x100_0000 * (s[3] as int)
            + 0x1_0000_0000 * (s[4] as int) + 0x100_0000_0000 * (s[5] as int)
            + 0x1_0000_0000_0000 * (s[6] as int) + 0x100_0000_0000_0000 * (s[7] as int)
  {
    WordOf(s[4..]);
    var t1, t2, t3 := s[1..], s[2..], s[3..];
    assert t1[1..] == t2 && t2[1..] == t3 && t3[1..] == s[4..];
    assert FromLittleEndian(t3) == t3[0] + 256 * FromLittleEndian(s[4..]);
    assert FromLittleEndian(t2) == t2[0] + 256 * FromLittleEndian(t3);
    assert FromLittleEndian(t1) == t1[0] + 256 * FromLittleEndian(t2);
  }

  /** A number without its k low-order octets. */
  function Without(n: nat, k: nat): nat {
    if k == 0 then n else Without(n / 256, k - 1)
  }

  lemma {:induction false} LittleEndianSplit(n: nat, j: nat, k: nat)
    ensures LittleEndian(n, j + k) == LittleEndian(n, j) + LittleEndian(Without(n, j), k)
  {
    if j == 0 {
    } else {
      LittleEndianSplit(n / 256, j - 1, k);
    }
  }

  lemma FourOctets(n: nat)
    ensures LittleEndian(n, 4) == [n % 256, n / 256 % 256, n / 256 / 256 % 256, n / 256 / 256 / 256 % 256]
    ensures Without(n, 4) == n / 256 / 256 / 256 / 256
  {
    var n1 := n / 256;
    var n2 := n1 / 256;
    var n3 := n2 / 256;
    assert LittleEndian(n3, 1) == [n3 % 256] + LittleEndian(n3 / 256, 0);
    assert LittleEndian(n2, 2) == [n2 % 256] + LittleEndian(n3, 1);
    assert Without(n2, 2) == Without(n3, 1) == n3 / 256;
  }

  /** The octets of a word do not depend on what is above it. */
  lemma LowOctets(low: Word, high: Word)
    ensures LittleEndian(low + TWO32 * high, 4) == LittleEndian(low, 4)
    ensures Without(low + TWO32 * high, 4) == high
  {
    var n := low + TWO32 * high;
    FourOctets(n);
    FourOctets(low);
    var n1, l1 := n / 256, low / 256;
    assert n1 == l1 + 0x100_0000 * high && n % 256 == low % 256;
    var n2, l2 := n1 / 256, l1 / 256;
    assert n2 == l2 + 0x1_0000 * high && n1 % 256 == l1 % 256;
    var n3, l3 := n2 / 256, l2 / 256;
    assert n3 == l3 + 0x100 * high && n2 % 256 == l2 % 256;
    assert l3 < 256;
  }

  lemma TwoWords(low: Word, high: Word)
    ensures EncodeWords([low, high]) == LittleEndian(low + TWO32 * high, 8)
  {
    assert [low, high][..1] == [low] && [low][..0] == [];
    assert EncodeWords([low]) == LittleEndian(low, 4);
    LittleEndianSplit(low + TWO32 * high, 4, 4);
    LowOctets(low, high);
  }

  /** Writes words as octets. */
  method Encode(input: seq<Word>) returns (output: array<byte>)
    ensures fresh(output) && output[..] == EncodeWords(input)
  {
    output := new byte[4 * |input|];
    for i := 0 to |input|
      invariant output.Length == 4 * |input| && output[..4 * i] == EncodeWords(input[..i])
    {
      ghost var done := output[..4 * i];
      var j, w := 4 * i, input[i];
      output[j] := w % 256;
      output[j + 1] := w / 256 % 256;
      output[j + 2] := w / 256 / 256 % 256;
      output[j + 3] := w / 256 / 256 / 256 % 256;
      assert input[..i + 1][..i] == input[..i];
      assert output[..4 * (i + 1)] == done + [w % 256, w / 256 % 256, w / 256 / 256 % 256, w / 256 / 256 / 256 % 256];
      FourOctets(w);
    }
    assert input[..|input|] == input && output[..4 * |input|] == output[..];
  }

  lemma NoWords()
    ensures EncodeWords([]) == []
  {}

  lemma OneMoreWord(input: Bytes, i: nat, done: seq<Word>, w: Word)
    requires 4 * i + 4 <= |input| && EncodeWords(done) == input[..4 * i]
    requires w == input[4 * i] as int + 0x100 * (input[4 * i + 1] as int) + 0x1_0000 * (input[4 * i + 2] as int)
                  + 0x100_0000 * (input[4 * i + 3] as int)
    ensures EncodeWords(done + [w]) == input[..4 * (i + 1)]
  {
    hide LittleEndian, FromLittleEndian;
    var s := input[4 * i..4 * i + 4];
    WordOf(s);
    LittleEndianInverse(s);
    assert (done + [w])[..|done|] == done;
    assert input[..4 * (i + 1)] == input[..4 * i] + s;
  }

  /** Reads words from octets. */
  method Decode(input: Bytes) returns (output: array<Word>)
    requires |input| % 4 == 0
    ensures fresh(output) && EncodeWords(output[..]) == input
  {
    hide EncodeWords;
    output := new Word[|input| / 4];
    NoWords();
    for i := 0 to |input| / 4
      invariant EncodeWords(output[..i]) == input[..4 * i]
    {
      ghost var done := output[..i];
      var s0: int, s1: int, s2: int, s3: int := input[4 * i], input[4 * i + 1], input[4 * i + 2], input[4 * i + 3];
      output[i] := s0 + 0x100 * s1 + 0x1_0000 * s2 + 0x100_0000 * s3;
      OneMoreWord(input, i, done, output[i]);
      assert output[..i + 1] == done + [output[i]];
    }
    assert output[..|input| / 4] == output[..] && input[..4 * (|input| / 4)] == input;
  }

  // ----- the digest of a whole message

  /** The state after the complete blocks of a message. */
  function Fold(f: Transform, m: Bytes): State
    requires |m| % 64 == 0
  {
    if m == [] then INITIAL else f(Fold(f, m[..|m| - 64]), m[|m| - 64..])
  }

  function Zeros(k: nat): (s: Bytes)
    ensures |s| == k && forall i | 0 <= i < k :: s[i] == 0
  {
    seq(k, i => 0)
  }

  lemma PaddedLength(n: nat)
    ensures (n + 1 + (119 - n % 64) % 64 + 8) % 64 == 0
  {}

  function BitLength(m: Bytes): (s: Bytes)
    ensures |s| == 8
  {
    LittleEndian(8 * |m| % TWO64, 8)
  }

  /** A one bit, as few zero bits as fill up to eight octets before the end of a block, and the length in bits. */
  function Padded(m: Bytes): (p: Bytes)
    ensures |p| % 64 == 0
  {
    PaddedLength(|m|);
    m + [0x80] + Zeros((119 - |m| % 64) % 64) + BitLength(m)
  }

  lemma BelowPow256(n: nat)
    requires n < TWO64
    ensures FromLittleEndian(LittleEndian(n, 8)) == n
  {
    hide LittleEndian, FromLittleEndian;
    assert Pow256(4) == TWO32;
    assert Pow256(8) == 0x100 * 0x100 * 0x100 * 0x100 * Pow256(4);
    FromLittleEndianInverse(n, 8);
  }

  /** The padding is the shortest that has room for the one bit and the length in whole blocks. */
  lemma PaddedShape(m: Bytes)
    ensures m < Padded(m) && Padded(m)[|m|] == 0x80
    ensures |m| + 9 <= |Padded(m)| < |m| + 9 + 64
    ensures forall i | |m| < i < |Padded(m)| - 8 :: Padded(m)[i] == 0
    ensures FromLittleEndian(Padded(m)[|Padded(m)| - 8..]) == 8 * |m| % 0x1_0000_0000_0000_0000
  {
    hide LittleEndian, FromLittleEndian;
    BelowPow256(8 * |m| % TWO64);
    assert Padded(m)[|Padded(m)| - 8..] == BitLength(m);
  }

  /** No other sequence has this shape. */
  lemma PaddedUnique(m: Bytes, p: Bytes)
    requires m < p && p[|m|] == 0x80 && |p| % 64 == 0
    requires |m| + 9 <= |p| < |m| + 9 + 64
    requires forall i | |m| < i < |p| - 8 :: p[i] == 0
    requires FromLittleEndian(p[|p| - 8..]) == 8 * |m| % 0x1_0000_0000_0000_0000
    ensures p == Padded(m)
  {
    hide LittleEndian, FromLittleEndian;
    var n := (119 - |m| % 64) % 64;
    PaddedLength(|m|);
    assert |p| == |m| + 1 + n + 8;
    LittleEndianInverse(p[|p| - 8..]);
    assert p == m + [p[|m|]] + p[|m| + 1..|p| - 8] + p[|p| - 8..];
    assert p[|m| + 1..|p| - 8] == Zeros(n);
  }

  function Words(s: State): Bytes {
    EncodeWords([s.a, s.b, s.c, s.d])
  }

  lemma FourWords(a: Word, b: Word, c: Word, d: Word)
    ensures EncodeWords([a, b, c, d]) ==
            LittleEndian(a, 4) + LittleEndian(b, 4) + LittleEndian(c, 4) + LittleEndian(d, 4)
  {
    hide LittleEndian;
    assert [a][..0] == [] && [a, b][..1] == [a] && [a, b, c][..2] == [a, b] && [a, b, c, d][..3] == [a, b, c];
    assert EncodeWords([a]) == LittleEndian(a, 4);
    assert EncodeWords([a, b]) == EncodeWords([a]) + LittleEndian(b, 4);
    assert EncodeWords([a, b, c]) == EncodeWords([a, b]) + LittleEndian(c, 4);
  }

  /** The octets of a word that is given by them. */
  lemma OctetsOf(s: Bytes)
    requires |s| == 4
    ensures LittleEndian(s[0] as int + 0x100 * (s[1] as int) + 0x1_0000 * (s[2] as int) + 0x100_0000 * (s[3] as int), 4)
            == s
  {
    WordOf(s);
    LittleEndianInverse(s);
  }

  /** The state before the first block, in octets, as section 3.3 of RFC 1321 gives it. */
  lemma InitialOctets()
    ensures Words(INITIAL) ==
            [0x01, 0x23, 0x45, 0x67, 0x89, 0xab, 0xcd, 0xef, 0xfe, 0xdc, 0xba, 0x98, 0x76, 0x54, 0x32, 0x10]
  {
    hide LittleEndian, EncodeWords;
    FourWords(0x67452301, 0xefcdab89, 0x98badcfe, 0x10325476);
    OctetsOf([0x01, 0x23, 0x45, 0x67]);
    OctetsOf([0x89, 0xab, 0xcd, 0xef]);
    OctetsOf([0xfe, 0xdc, 0xba, 0x98]);
    OctetsOf([0x76, 0x54, 0x32, 0x10]);
  }

  lemma FoldBlock(f: Transform, m: Bytes, block: Bytes)
    requires |m| % 64 == 0 && |block| == 64
    ensures Fold(f, m + block) == f(Fold(f, m), block)
  {}

  /** The blocks are transformed one after the other, the first one from the initial state. */
  lemma FoldTwo(f: Transform, a: Bytes, b: Bytes)
    requires |a| == |b| == 64
    ensures Fold(f, []) == INITIAL && Fold(f, a) == f(INITIAL, a) && Fold(f, a + b) == f(f(INITIAL, a), b)
  {
    assert a[..0] == [] && a[0..] == a;
    FoldBlock(f, a, b);
  }

  function Digest(f: Transform, m: Bytes): Bytes {
    Words(Fold(f, Padded(m)))
  }

  /** The complete blocks of a message, and what is left. */
  function Whole(m: Bytes): (w: Bytes)
    ensures |w| % 64 == 0
  {
    m[..|m| / 64 * 64]
  }

  function Tail(m: Bytes): (t: Bytes)
    ensures |t| == |m| % 64
  {
    m[|m| / 64 * 64..]
  }

  lemma OneMoreBlock(front: Bytes, input: Bytes, i: nat)
    requires i + 64 <= |input|
    ensures front + input[..i] + input[i..i + 64] == front + input[..i + 64]
  {}

  lemma WholeOf(w: Bytes, t: Bytes)
    requires |w| % 64 == 0 && |t| < 64
    ensures Whole(w + t) == w && Tail(w + t) == t
  {}

  /** What is left after the first i octets of the input have completed blocks, or none of them could. */
  lemma Remaining(m: Bytes, input: Bytes, i: nat, w: Bytes)
    requires i <= |input|
    requires if i == 0 then w == Whole(m) && |m| % 64 + |input| < 64
             else w == Whole(m) + Tail(m) + input[..i] && |w| % 64 == 0 && |input| - i < 64
    ensures Whole(m + input) == w && Tail(m + input) == if i == 0 then Tail(m) + input else input[i..]
  {
    assert m == Whole(m) + Tail(m);
    if i == 0 {
      assert m + input == w + (Tail(m) + input);
      WholeOf(w, Tail(m) + input);
    } else {
      assert m + input == w + input[i..];
      WholeOf(w, input[i..]);
    }
  }

  // ----- arithmetic of the bit count

  function Bits(count0: Word, count1: Word): nat {
    count0 + TWO32 * count1
  }

  /** The two words of the count, after len octets more, as the carry is computed. */
  function Counted(count0: Word, count1: Word, len: nat): (Word, Word) {
    var low: Word := 8 * len % TWO32;
    var c0: Word := (count0 + low) % TWO32;
    var c1: Word := if c0 < low then (count1 + 1) % TWO32 else count1;
    (c0, (c1 + len / 0x2000_0000) % TWO32)
  }

  lemma CarryHigh(count1: Word, carry: nat, high: nat)
    requires carry <= 1 && high < TWO32
    ensures ((if carry == 1 then (count1 + 1) % TWO32 else count1) + high) % TWO32 == (count1 + carry + high) % TWO32
  {}

  lemma Reduced(c0: Word, c1: nat)
    ensures c0 + TWO32 * (c1 % TWO32) == (c0 + TWO32 * c1) % TWO64
  {}

  lemma CountedIsSum(count0: Word, count1: Word, len: nat)
    requires len < TWO32
    ensures var c := Counted(count0, count1, len);
            Bits(c.0, c.1) == (Bits(count0, count1) + 8 * len) % TWO64
  {
    var low, high := 8 * len % TWO32, len / 0x2000_0000;
    assert 8 * len == TWO32 * high + low;
    var carry := if count0 + low >= TWO32 then 1 else 0;
    var c0 := count0 + low - TWO32 * carry;
    assert (count0 + low) % TWO32 == c0;
    assert c0 < low <==> carry == 1;
    var c1 := count1 + carry + high;
    CarryHigh(count1, carry, high);
    Reduced(c0, c1);
  }

  lemma CountOfMessage(n: nat, len: nat)
    ensures (8 * n % TWO64 + 8 * len) % TWO64 == 8 * (n + len) % TWO64
  {}

  lemma SameIndex(n: nat, t: nat, c: nat)
    requires c == 8 * (n - 64 * t)
    ensures c / 8 % 64 == n % 64
  {}

  /** The index of the buffer, taken from the bit count, is the number of octets beyond whole blocks. */
  lemma IndexFromCount(count0: Word, count1: Word, n: nat)
    requires Bits(count0, count1) == 8 * n % TWO64
    ensures count0 / 8 % 64 == n % 64
  {
    var q := 8 * n / TWO64;
    assert 8 * n == TWO64 * q + Bits(count0, count1);
    var t := 0x80_0000 * count1 + 0x80_0000_0000_0000 * q;
    assert count0 == 8 * (n - 64 * t);
    SameIndex(n, t, count0);
  }

  // ----- the guard of the block loop

  /** i + 63 < inputLen, on unsigned ints. */
  predicate Guard(i: int, len: int) {
    (i + 63) % TWO32 < len
  }

  /** Where the loop over whole blocks has to stop. */
  function Stop(ndx: nat, len: nat): (i: nat)
    requires ndx < 64 && 64 - ndx <= len
    ensures i <= len < i + 64 && (ndx + i) % 64 == 0
  {
    (ndx + len) / 64 * 64 - ndx
  }

  /** There the guard ends the loop exactly if the octets beyond whole blocks and the input together are below 2^32. */
  lemma GuardExact(ndx: nat, len: nat)
    requires ndx < 64 && 64 - ndx <= len < TWO32
    ensures !Guard(Stop(ndx, len), len) <==> ndx + len < TWO32
  {}

  lemma GuardBefore(ndx: nat, len: nat, i: nat)
    requires ndx < 64 && 64 - ndx <= len < TWO32 && i < Stop(ndx, len) && (ndx + i) % 64 == 0
    ensures Guard(i, len) && i + 64 <= Stop(ndx, len)
  {}

  // ----- the context

  const PADDING: Bytes := [0x80] + Zeros(63)

  lemma PaddingPrefix(k: nat)
    requires k <= 63
    ensures k < |PADDING| && PADDING[..1 + k] == [0x80] + Zeros(k)
  {}

  lemma PaddingCount(n: nat)
    ensures 1 + (119 - n % 64) % 64 == if n % 64 < 56 then 56 - n % 64 else 120 - n % 64
  {}

  lemma PaddingJoin(m: Bytes, k: nat, length: Bytes)
    requires k <= 63
    ensures k < |PADDING| && (m + PADDING[..1 + k]) + length == m + [0x80] + Zeros(k) + length
  {
    PaddingPrefix(k);
    Associative(m, [0x80], Zeros(k));
  }

  lemma PaddedIs(m: Bytes, padLen: nat)
    requires padLen == if |m| % 64 < 56 then 56 - |m| % 64 else 120 - |m| % 64
    ensures padLen <= |PADDING| && (m + PADDING[..padLen]) + BitLength(m) == Padded(m)
  {
    hide BitLength, Zeros;
    PaddingCount(|m|);
    PaddingJoin(m, padLen - 1, BitLength(m));
  }

  class Context {
    const transform: Transform
    const buffer: array<byte>
    var state: State
    var count0: Word
    var count1: Word
    ghost var message: Bytes    // what has been hashed so far

    ghost predicate Valid()
      reads this, buffer
    {
      && buffer.Length == 64
      && Bits(count0, count1) == 8 * |message| % TWO64
      && state == Fold(transform, Whole(message))
      && buffer[..|message| % 64] == Tail(message)
    }

    constructor (transform: Transform)
      ensures Valid() && message == [] && this.transform == transform && fresh(buffer)
    {
      this.transform := transform;
      buffer := new byte[64];
      count0, count1, state := 0, 0, INITIAL;
      message := [];
    }

    /** Copies octets into the buffer. */
    method Fill(ndx: nat, part: Bytes)
      requires ndx + |part| <= buffer.Length
      modifies buffer
      ensures buffer[..ndx + |part|] == old(buffer[..ndx]) + part
    {
      for k := 0 to |part|
        invariant buffer[..ndx] == old(buffer[..ndx]) && buffer[ndx..ndx + k] == part[..k]
      {
        buffer[ndx + k] := part[k];
        assert buffer[ndx..ndx + k + 1] == buffer[ndx..ndx + k] + [part[k]];
        assert part[..k + 1] == part[..k] + [part[k]];
      }
      assert part[..|part|] == part && buffer[..ndx + |part|] == buffer[..ndx] + buffer[ndx..ndx + |part|];
    }

    /** Adds the bits of len octets to the count, with the carry from one word to the other. */
    method AddCount(len: nat)
      requires len < TWO32
      modifies this`count0, this`count1
      ensures Bits(count0, count1) == (old(Bits(count0, count1)) + 8 * len) % TWO64
    {
      CountedIsSum(count0, count1, len);
      var low: Word := 8 * len % TWO32;
      count0 := (count0 + low) % TWO32;
      if count0 < low {
        count1 := (count1 + 1) % TWO32;
      }
      count1 := (count1 + len / 0x2000_0000) % TWO32;
    }

    /** Transforms the block that the input completes, and the whole blocks that follow; i octets are used. */
    method Blocks(input: Bytes, ndx: nat, ghost w: Bytes) returns (i: nat)
      requires buffer.Length == 64 && ndx < 64 && 64 - ndx <= |input| && ndx + |input| < TWO32
      requires |w| % 64 == 0 && state == Fold(transform, w)
      modifies this`state, buffer
      ensures i == Stop(ndx, |input|) && (|w| + ndx + i) % 64 == 0
      ensures state == Fold(transform, w + old(buffer[..ndx]) + input[..i])
    {
      hide Fold, Guard, Stop;
      ghost var tail := buffer[..ndx];
      var partLen := 64 - ndx;
      Fill(ndx, input[..partLen]);
      assert buffer[..] == buffer[..64];
      FoldBlock(transform, w, buffer[..]);
      state := transform(state, buffer[..]);
      i := partLen;
      ghost var folded := w + buffer[..];
      assert folded == w + tail + input[..i] && (|w| + 64) % 64 == 0;
      GuardExact(ndx, |input|);
      while Guard(i, |input|)
        invariant i <= Stop(ndx, |input|) && (ndx + i) % 64 == 0
        invariant folded == w + tail + input[..i] && |folded| % 64 == 0 && state == Fold(transform, folded)
        decreases |input| - i
      {
        GuardBefore(ndx, |input|, i);
        FoldBlock(transform, folded, input[i..i + 64]);
        OneMoreBlock(w + tail, input, i);
        folded := folded + input[i..i + 64];
        state := transform(state, input[i..i + 64]);
        i := i + 64;
      }
      if i < Stop(ndx, |input|) { GuardBefore(ndx, |input|, i); }
    }

    /** Takes in more of the message. */
    method Update(input: Bytes)
      requires Valid() && |message| % 64 + |input| < TWO32
      modifies this`state, this`count0, this`count1, this`message, buffer
      ensures Valid() && message == old(message) + input
    {
      hide Fold, Whole, Tail, Bits;
      var ndx := count0 / 8 % 64;
      IndexFromCount(count0, count1, |message|);
      CountOfMessage(|message|, |input|);
      AddCount(|input|);
      var partLen := 64 - ndx;
      var i := 0;
      ghost var w := Whole(message);
      if |input| >= partLen {
        i := Blocks(input, ndx, w);
        w := w + Tail(message) + input[..i];
        ndx := 0;
      }
      Fill(ndx, input[i..]);
      Remaining(message, input, i, w);
      message := message + input;
    }

    method Clear()
      requires buffer.Length == 64
      modifies this`state, this`count0, this`count1, buffer
      ensures state == State(0, 0, 0, 0) && count0 == 0 && count1 == 0 && buffer[..] == Zeros(64)
    {
      for k := 0 to 64
        invariant forall j | 0 <= j < k :: buffer[j] == 0
      {
        buffer[k] := 0;
      }
      state, count0, count1 := State(0, 0, 0, 0), 0, 0;
    }

    /** Finishes the message: pads it, appends its length, and gives the digest; the context is cleared. */
    method Final() returns (digest: array<byte>)
      requires Valid()
      modifies this, buffer
      ensures fresh(digest) && digest[..] == Digest(transform, old(message))
      ensures state == State(0, 0, 0, 0) && count0 == 0 && count1 == 0 && buffer[..] == Zeros(64)
    {
      hide Fold, Padded, EncodeWords, LittleEndian, PADDING;
      var bits := Encode([count0, count1]);
      TwoWords(count0, count1);
      var ndx := count0 / 8 % 64;
      IndexFromCount(count0, count1, |message|);
      var padLen := if ndx < 56 then 56 - ndx else 120 - ndx;
      ghost var m := message;
      PaddedIs(m, padLen);
      Update(PADDING[..padLen]);
      Update(bits[..]);
      WholeOf(message, []);
      assert message + [] == message == Padded(m);
      digest := Encode([state.a, state.b, state.c, state.d]);
      Clear();
    }
  }

  function Concat(parts: seq<Bytes>): Bytes {
    if parts == [] then [] else Concat(parts[..|parts| - 1]) + parts[|parts| - 1]
  }

  /** The digest of a message that comes in parts is that of the whole message. */
  method DigestOfParts(f: Transform, parts: seq<Bytes>) returns (digest: array<byte>)
    requires forall i | 0 <= i < |parts| :: |parts[i]| < TWO32 - 63
    ensures digest[..] == Digest(f, Concat(parts))
  {
    var c := new Context(f);
    for i := 0 to |parts|
      invariant c.Valid() && fresh(c) && fresh(c.buffer) && c.message == Concat(parts[..i]) && c.transform == f
    {
      assert parts[..i + 1][..i] == parts[..i];
      c.Update(parts[i]);
    }
    assert parts[..|parts|] == parts;
    digest := c.Final();
  }
}
