/**
 The chunked transfer coding that http_chunk.c writes to a queue, and a decoder
 for it after section 3.6.1 of RFC 2616 (without chunk extensions and trailers).
 */
module ChunkedCoding {
  import opened Wrappers
  import opened ChunkQueue

  const CRLF: Bytes := [13, 10]
  const ZERO_CHUNK: Bytes := ['0' as int] + CRLF + CRLF
  const MAX_SIZE := 0x1_0000_0000
  const SIZE_MAX := 0xffff_ffff_ffff_ffff

  // ----- the size in hexadecimal

  predicate IsHex(b: byte) {
    HexValue(b).Some?
  }

  function DigitOf(b: byte): (d: nat)
    requires IsHex(b)
    ensures d < 16
  {
    HexValue(b).value
  }

  /** The value of a chunk size. */
  function Value(s: Bytes): nat
    requires forall i | 0 <= i < |s| :: IsHex(s[i])
  {
    if s == [] then 0 else 16 * Value(s[..|s| - 1]) + DigitOf(s[|s| - 1])
  }

  /** The last w hexadecimal digits of n. */
  function Low(n: nat, w: nat): (s: Bytes)
    ensures |s| == w && forall i | 0 <= i < w :: IsHex(s[i])
  {
    if w == 0 then [] else Low(n / 16, w - 1) + [HexDigit(n % 16)]
  }

  /** The number of digits that are needed for n, but no more than bound. */
  function Width(n: nat, bound: nat): (w: nat)
    ensures w <= bound && (n > 0 && bound > 0 ==> w > 0)
  {
    if n == 0 || bound == 0 then 0 else 1 + Width(n / 16, bound - 1)
  }

  function Pow16(w: nat): (p: nat)
    ensures p > 0
  {
    if w == 0 then 1 else 16 * Pow16(w - 1)
  }

  lemma MulMonotone(m: nat, a: nat, b: nat)
    ensures a <= b ==> m * a <= m * b
  {}

  lemma ModUnique(n: nat, m: nat, q: nat, r: nat)
    requires m > 0 && n == m * q + r && r < m
    ensures n % m == r
  {
    var d := n / m;
    assert n == m * d + n % m && m * (d + 1) == m * d + m && m * (q + 1) == m * q + m;
    MulMonotone(m, d + 1, q);
    MulMonotone(m, q + 1, d);
  }

  lemma ModSplit(n: nat, m: nat)
    requires m > 0
    ensures n % (16 * m) == 16 * (n / 16 % m) + n % 16
  {
    var q, r := n / 16 / m, n / 16 % m;
    assert n / 16 == m * q + r;
    assert n == 16 * (n / 16) + n % 16;
    var low := 16 * r + n % 16;
    assert n == (16 * m) * q + low by {
      assert 16 * (m * q) == (16 * m) * q;
    }
    assert 0 <= low < 16 * m;
    ModUnique(n, 16 * m, q, low);
  }

  lemma {:induction false} LowValue(n: nat, w: nat)
    ensures Value(Low(n, w)) == n % Pow16(w)
  {
    if w == 0 {
    } else {
      var s := Low(n, w);
      LowValue(n / 16, w - 1);
      assert s[..w - 1] == Low(n / 16, w - 1);
      assert HexValue(HexDigit(n % 16)) == Some(n % 16);
      ModSplit(n, Pow16(w - 1));
    }
  }

  lemma {:induction false} WidthSuffices(n: nat, bound: nat)
    ensures n < Pow16(bound) ==> n < Pow16(Width(n, bound))
    ensures Width(n, bound) < bound ==> n < Pow16(bound)
    ensures n >= Pow16(bound) ==> Width(n, bound) == bound
  {
    if n == 0 || bound == 0 {
    } else {
      WidthSuffices(n / 16, bound - 1);
    }
  }

  /** The size line, as http_chunk_append_len computes it. */
  function SizeText(n: nat): (s: Bytes)
    ensures s != [] && forall i | 0 <= i < |s| :: IsHex(s[i])
  {
    if n == 0 then ['0' as int] else Low(n, Width(n, 8))
  }

  lemma WidthValue(n: nat, bound: nat)
    ensures Value(Low(n, Width(n, bound))) == n % Pow16(bound)
  {
    LowValue(n, Width(n, bound));
    WidthSuffices(n, bound);
    if n < Pow16(bound) {
      ModUnique(n, Pow16(bound), 0, n);
      ModUnique(n, Pow16(Width(n, bound)), 0, n);
    }
  }

  /** Eight digits have room for 32 bits: the announced size is the length modulo 2^32. */
  lemma SizeIsLength(n: nat)
    ensures Value(SizeText(n)) == n % MAX_SIZE
    ensures Value(SizeText(n)) == n <==> n < MAX_SIZE
  {
    assert Pow16(8) == MAX_SIZE by {
      assert Pow16(4) == 0x1_0000;
    }
    if n == 0 {
      assert SizeText(0)[..0] == [];
    } else {
      WidthValue(n, 8);
    }
  }

  function Shifted(n: nat, k: nat): nat {
    if k == 0 then n else Shifted(n / 16, k - 1)
  }

  lemma {:induction false} ShiftedNext(n: nat, k: nat)
    ensures Shifted(n, k + 1) == Shifted(n, k) / 16
    ensures Low(n, k + 1) == [HexDigit(Shifted(n, k) % 16)] + Low(n, k)
  {
    if k == 0 {
    } else {
      ShiftedNext(n / 16, k - 1);
    }
  }

  // ----- what the appended parts look like

  /** A chunk: size, data, and the ends of lines. */
  function Frame(p: Bytes): Bytes {
    SizeText(|p|) + CRLF + p + CRLF
  }

  function Frames(ps: seq<Bytes>): Bytes {
    if ps == [] then [] else Frame(ps[0]) + Frames(ps[1..])
  }

  function Payload(ps: seq<Bytes>): Bytes {
    if ps == [] then [] else ps[0] + Payload(ps[1..])
  }

  // ----- decoding

  datatype Decoded = Decoded(payload: Bytes, rest: Bytes)

  function HexCount(u: Bytes): (n: nat)
    ensures n <= |u| && forall i | 0 <= i < n :: IsHex(u[i])
  {
    if u == [] || !IsHex(u[0]) then 0 else 1 + HexCount(u[1..])
  }

  predicate LineEndAt(u: Bytes, i: nat) {
    i + 2 <= |u| && u[i..i + 2] == CRLF
  }

  /** Lines end with a carriage return and a newline; the last chunk has the size 0 and no data. */
  lemma LineEnds(u: Bytes, i: nat)
    ensures LineEndAt(u, i) <==> i + 2 <= |u| && u[i] as char == '\r' && u[i + 1] as char == '\n'
    ensures ZERO_CHUNK == ['0' as int, '\r' as int, '\n' as int, '\r' as int, '\n' as int]
  {
    if i + 2 <= |u| {
      assert u[i..i + 2] == [u[i], u[i + 1]];
    }
  }

  /** Sizes are hexadecimal, the highest digit first. */
  lemma SizeRead(a: byte, b: byte)
    requires IsHex(a) && IsHex(b)
    ensures Value([a]) == HexValue(a).value && Value([a, b]) == 16 * HexValue(a).value + HexValue(b).value
  {
    assert [a][..0] == [] && [a, b][..1] == [a];
  }

  /** Decodes a chunked body: what it carries, and what follows it; none if it is malformed or cut off. */
  function Decode(u: Bytes): Option<Decoded>
    decreases |u|
  {
    var n := HexCount(u);
    if n == 0 || !LineEndAt(u, n) then None
    else
      var size, start := Value(u[..n]), n + 2;
      if !LineEndAt(u, start + size) then None
      else
        var after := u[start + size + 2..];
        if size == 0 then Some(Decoded([], after))
        else match Decode(after)
          case None => None
          case Some(d) => Some(Decoded(u[start..start + size] + d.payload, d.rest))
  }

  lemma {:induction false} HexCountAppend(s: Bytes, u: Bytes)
    requires forall i | 0 <= i < |s| :: IsHex(s[i])
    requires u == [] || !IsHex(u[0])
    ensures HexCount(s + u) == |s|
  {
    if s == [] {
      assert s + u == u;
    } else {
      HexCountAppend(s[1..], u);
      assert (s + u)[1..] == s[1..] + u;
    }
  }

  /** The head of a body: its size line. */
  lemma SizeLine(s: Bytes, u: Bytes)
    requires s != [] && forall i | 0 <= i < |s| :: IsHex(s[i])
    ensures var w := s + CRLF + u;
            HexCount(w) == |s| && LineEndAt(w, |s|) && w[..|s|] == s && w[|s| + 2..] == u
  {
    HexCountAppend(s, CRLF + u);
    assert s + CRLF + u == s + (CRLF + u);
  }

  lemma FrameData(p: Bytes, u: Bytes)
    ensures var w := p + CRLF + u;
            LineEndAt(w, |p|) && w[..|p|] == p && w[|p| + 2..] == u
  {}

  /** A chunk of admissible length is decoded as its data. */
  lemma DecodeFrame(p: Bytes, u: Bytes)
    requires 0 < |p| < MAX_SIZE
    ensures Decode(Frame(p) + u) == match Decode(u)
                                    case None => None
                                    case Some(d) => Some(Decoded(p + d.payload, d.rest))
  {
    hide SizeText, HexCount, Value;
    var s, data := SizeText(|p|), p + CRLF + u;
    var w := s + CRLF + data;
    assert Frame(p) + u == w;
    SizeLine(s, data);
    SizeIsLength(|p|);
    FrameData(p, u);
    var start := |s| + 2;
    assert w[start..start + |p|] == data[..|p|] == p;
    assert w[start + |p|..start + |p| + 2] == data[|p|..|p| + 2];
    assert w[start + |p| + 2..] == data[|p| + 2..] == u;
  }

  /** A chunk without data ends the body, whatever follows. */
  lemma DecodeZero(u: Bytes)
    ensures Frame([]) == ZERO_CHUNK
    ensures Decode(ZERO_CHUNK + u) == Some(Decoded([], u))
  {
    var w := ZERO_CHUNK + u;
    SizeLine(SizeText(0), CRLF + u);
    assert w == SizeText(0) + CRLF + (CRLF + u);
    SizeIsLength(0);
    assert w[3..5] == CRLF && w[5..] == u;
  }

  /** Chunks of admissible lengths, and a chunk without data at their end, are decoded as what they carry. */
  lemma {:induction false} RoundTrip(ps: seq<Bytes>, u: Bytes)
    requires forall i | 0 <= i < |ps| :: 0 < |ps[i]| < MAX_SIZE
    ensures Decode(Frames(ps) + ZERO_CHUNK + u) == Some(Decoded(Payload(ps), u))
  {
    hide Decode, Frame;
    if ps == [] {
      DecodeZero(u);
      assert Frames(ps) + ZERO_CHUNK + u == ZERO_CHUNK + u;
    } else {
      var first, rest := Frame(ps[0]), Frames(ps[1..]);
      RoundTrip(ps[1..], u);
      DecodeFrame(ps[0], rest + ZERO_CHUNK + u);
      Associative(first, rest, ZERO_CHUNK);
      Associative(first, rest + ZERO_CHUNK, u);
    }
  }

  /** Every chunk costs at least five octets beside its data. */
  lemma {:induction false} Overhead(u: Bytes)
    requires Decode(u).Some?
    ensures var d := Decode(u).value;
            |u| >= |d.payload| + |d.rest| + if d.payload == [] then 5 else 10
    decreases |u|
  {
    var n := HexCount(u);
    var size, start := Value(u[..n]), n + 2;
    if size == 0 {
    } else {
      Overhead(u[start + size + 2..]);
    }
  }

  /** What the decoder makes of data that is too long: not that data. */
  lemma TooLong(p: Bytes)
    requires |p| >= MAX_SIZE
    ensures Decode(Frame(p) + ZERO_CHUNK) != Some(Decoded(p, []))
  {
    var s, u := SizeText(|p|), Frame(p) + ZERO_CHUNK;
    var data := p + CRLF + ZERO_CHUNK;
    assert u == s + CRLF + data;
    SizeLine(s, data);
    SizeIsLength(|p|);
    WidthSuffices(|p|, 8);
    assert Pow16(8) == MAX_SIZE by {
      assert Pow16(4) == 0x1_0000;
    }
    var size := |p| % MAX_SIZE;
    if Decode(u) == Some(Decoded(p, [])) {
      var after := u[|s| + 2 + size + 2..];
      Overhead(after);
    }
  }

  /** One chunk and the end are read back exactly if the chunk has data, of a length below 2^32. */
  lemma AdmissibleExact(p: Bytes)
    ensures Decode(Frame(p) + ZERO_CHUNK) == Some(Decoded(p, [])) <==> 0 < |p| < MAX_SIZE
  {
    if p == [] {
      DecodeZero(ZERO_CHUNK);
    } else if |p| < MAX_SIZE {
      RoundTrip([p], []);
      assert Frames([p]) == Frame(p) + Frames([]) == Frame(p);
      assert Payload([p]) == p + Payload([]) == p;
      assert Frame(p) + ZERO_CHUNK + [] == Frame(p) + ZERO_CHUNK;
    } else {
      TooLong(p);
    }
  }

  // ----- what is written to the queue

  datatype Item = MemItem(data: Bytes) | BufferItem(data: Bytes) | FileItem(data: Bytes)

  /** How many digits the first loop counts. */
  method CountDigits(olen: nat) returns (i: nat)
    ensures i == Width(olen, 8)
  {
    i := 0;
    var len := olen;
    while i < 8 && len != 0
      invariant i <= 8 && Width(olen, 8) == i + Width(len, 8 - i)
      decreases 8 - i
    {
      len := len / 16;
      i := i + 1;
    }
  }

  /** The digits of a length, written from the last to the first. */
  method WriteDigits(olen: nat, i: nat) returns (b: array<byte>)
    ensures fresh(b) && b[..] == Low(olen, i)
  {
    b := new byte[i];
    var j: int, len := i - 1, olen;
    while j + 1 > 0
      invariant -1 <= j < i && b.Length == i
      invariant len == Shifted(olen, i - 1 - j) && b[j + 1..] == Low(olen, i - 1 - j)
      decreases j
    {
      ShiftedNext(olen, i - 1 - j);
      ghost var done := b[j + 1..];
      b[j] := len % 16 + if len % 16 <= 9 then '0' as int else 'a' as int - 10;
      assert b[j..] == [b[j]] + done;
      len := len / 16;
      j := j - 1;
    }
    assert b[0..] == b[..];
  }

  lemma FrameParts(was: Bytes, p: Bytes)
    ensures was + (SizeText(|p|) + CRLF) + p + CRLF == was + Frame(p)
    ensures Text(CRLF + [0]) == CRLF
  {}

  function Datas(items: seq<Item>): (ps: seq<Bytes>)
    ensures |ps| == |items| && forall i | 0 <= i < |ps| :: ps[i] == items[i].data
  {
    seq(|items|, i requires 0 <= i < |items| => items[i].data)
  }

  lemma DatasFirst(items: seq<Item>, i: nat)
    requires i < |items|
    ensures Frames(Datas(items[i..])) == Frame(items[i].data) + Frames(Datas(items[i + 1..]))
  {
    assert Datas(items[i..])[1..] == Datas(items[i + 1..]);
  }

  class Response {
    const writeQueue: Queue
    const chunked: bool

    ghost predicate Valid()
      reads this, writeQueue
    {
      writeQueue.Valid()
    }

    ghost function Written(): Bytes
      reads writeQueue`chunks
    {
      Rest(writeQueue.chunks)
    }

    constructor (chunked: bool)
      ensures Valid() && this.chunked == chunked && Written() == [] && fresh(writeQueue)
    {
      writeQueue := new Queue();
      this.chunked := chunked;
    }

    /** Appends the size line of a chunk. */
    method AppendLen(len: nat)
      requires Valid()
      modifies writeQueue`chunks, writeQueue`unused, writeQueue`unusedChunks
      ensures Valid() && Written() == old(Written()) + (SizeText(len) + CRLF)
    {
      var text: Bytes;
      if len == 0 {
        text := ['0' as int];
      } else {
        var i := CountDigits(len);
        var b := WriteDigits(len, i);
        text := b[..];
      }
      var line := text + CRLF + [0];
      assert Text(line) == text + CRLF;
      writeQueue.AddBuffer(line, false);
    }

    /** Appends memory; the length counts a terminating zero, and length zero ends the response. */
    method AppendMem(mem: Bytes)
      requires Valid()
      modifies writeQueue`chunks, writeQueue`unused, writeQueue`unusedChunks
      ensures Valid()
      ensures Written() == old(Written()) +
                           if mem == [] then (if chunked then ZERO_CHUNK else [])
                           else if chunked then Frame(Text(mem)) else Text(mem)
    {
      hide Rest, SizeText, Frame;
      if |mem| == 0 {
        if chunked {
          writeQueue.AppendMem(ZERO_CHUNK + [0]);
        } else {
          writeQueue.AppendMem([0]);
        }
        return;
      }
      ghost var was := Written();
      if chunked {
        AppendLen(|mem| - 1);
      }
      writeQueue.AppendMem(mem);
      if chunked {
        writeQueue.AppendMem(CRLF + [0]);
        FrameParts(was, Text(mem));
      }
    }

    /** Appends a buffer. An unused one still announces a size, that of the largest 32-bit number. */
    method AppendBuffer(mem: Bytes)
      requires Valid() && Terminated(mem)
      modifies writeQueue`chunks, writeQueue`unused, writeQueue`unusedChunks
      ensures Valid()
      ensures Written() == old(Written()) +
                           if !chunked then Text(mem) else if mem == [] then SizeText(SIZE_MAX) + CRLF
                               else Frame(Text(mem))
    {
      ghost var was := Written();
      if chunked {
        AppendLen(if |mem| == 0 then SIZE_MAX else |mem| - 1);
      }
      writeQueue.AddBuffer(mem, false);
      if chunked && |mem| > 0 {
        writeQueue.AppendMem(CRLF + [0]);
        FrameParts(was, Text(mem));
      }
    }

    /** Appends a part of a file. An empty part leaves a size line alone. */
    method AppendFile(part: Bytes)
      requires Valid()
      modifies writeQueue`chunks, writeQueue`unused, writeQueue`unusedChunks
      ensures Valid()
      ensures Written() == old(Written()) +
                           if !chunked then part else if part == [] then SizeText(0) + CRLF else Frame(part)
    {
      ghost var was := Written();
      if chunked {
        AppendLen(|part|);
      }
      writeQueue.AppendFile(part);
      if chunked && |part| > 0 {
        writeQueue.AppendMem(CRLF + [0]);
        FrameParts(was, part);
      }
    }

    /** Appends one item that has data. */
    method AppendItem(item: Item)
      requires Valid() && item.data != []
      modifies writeQueue`chunks, writeQueue`unused, writeQueue`unusedChunks
      ensures Valid() && Written() == old(Written()) + if chunked then Frame(item.data) else item.data
    {
      assert Text(item.data + [0]) == item.data;
      match item {
        case MemItem(data) => AppendMem(data + [0]);
        case BufferItem(data) => AppendBuffer(data + [0]);
        case FileItem(data) => AppendFile(data);
      }
    }

    /** A whole response: the queue holds what decodes to its data, with nothing left over. */
    method Send(items: seq<Item>)
      requires Valid() && chunked && Written() == []
      requires forall i | 0 <= i < |items| :: 0 < |items[i].data| < MAX_SIZE
      modifies writeQueue`chunks, writeQueue`unused, writeQueue`unusedChunks
      ensures Valid() && Decode(Written()) == Some(Decoded(Payload(Datas(items)), []))
    {
      hide Rest, Frame, Decode;
      for i := 0 to |items|
        invariant Valid() && Written() + Frames(Datas(items[i..])) == Frames(Datas(items))
      {
        DatasFirst(items, i);
        Associative(Written(), Frame(items[i].data), Frames(Datas(items[i + 1..])));
        AppendItem(items[i]);
      }
      assert items[|items|..] == [];
      AppendMem([]);
      RoundTrip(Datas(items), []);
      assert Written() == Frames(Datas(items)) + ZERO_CHUNK + [];
    }
  }
}
