/**
 The chunk queues of lighttpd (chunk.c): a list of buffers and files whose unsent
 parts make up a byte stream, and a stack of chunks kept for reuse.
 */
module ChunkQueue {
  import opened Wrappers

  type Bytes = seq<byte>

  datatype Kind = UnusedChunk | MemChunk | FileChunk

  /**
   A chunk: its buffer with the terminating zero, the octets of its file part,
   whether the file is temporary and open, and how many octets have been sent.
   */
  datatype Chunk = Chunk(kind: Kind, mem: Bytes, file: Bytes, isTemp: bool, isOpen: bool, offset: int)

  const NEW_CHUNK := Chunk(UnusedChunk, [], [], false, false, 0)

  /** The content of a buffer before its terminating zero; an unused buffer has none. */
  function Text(mem: Bytes): Bytes {
    if mem == [] then [] else mem[..|mem| - 1]
  }

  predicate Terminated(mem: Bytes) {
    mem == [] || mem[|mem| - 1] == 0
  }

  function Content(c: Chunk): Bytes {
    match c.kind
    case UnusedChunk => []
    case MemChunk => Text(c.mem)
    case FileChunk => c.file
  }

  predicate Sound(c: Chunk) {
    && c.kind != UnusedChunk && Terminated(c.mem)
    && (0 <= c.offset <= |Content(c)| || (c.kind == MemChunk && c.mem == []))
  }

  function Unsent(c: Chunk): Bytes {
    if 0 <= c.offset <= |Content(c)| then Content(c)[c.offset..] else []
  }

  function Join(parts: seq<Bytes>): Bytes {
    if parts == [] then [] else Join(parts[..|parts| - 1]) + parts[|parts| - 1]
  }

  lemma {:induction false} JoinConcat(a: seq<Bytes>, b: seq<Bytes>)
    ensures Join(a + b) == Join(a) + Join(b)
  {
    if b == [] {
      assert a + b == a;
    } else {
      var b0, c := b[..|b| - 1], b[|b| - 1];
      JoinConcat(a, b0);
      assert (a + b)[..|a + b| - 1] == a + b0 && (a + b)[|a + b| - 1] == c;
      Associative(Join(a), Join(b0), c);
    }
  }

  lemma JoinFirst(parts: seq<Bytes>)
    requires parts != []
    ensures Join(parts) == parts[0] + Join(parts[1..])
  {
    var one := [parts[0]];
    JoinConcat(one, parts[1..]);
    assert one + parts[1..] == parts && one[..0] == [];
  }

  function Parts(s: seq<Chunk>): (parts: seq<Bytes>)
    ensures |parts| == |s|
  {
    seq(|s|, i requires 0 <= i < |s| => Unsent(s[i]))
  }

  /** The unsent octets of a list of chunks, in order. */
  function Rest(s: seq<Chunk>): Bytes {
    Join(Parts(s))
  }

  lemma RestConcat(a: seq<Chunk>, b: seq<Chunk>)
    ensures Rest(a + b) == Rest(a) + Rest(b)
  {
    assert Parts(a + b) == Parts(a) + Parts(b);
    JoinConcat(Parts(a), Parts(b));
  }

  lemma RestLast(s: seq<Chunk>)
    requires s != []
    ensures Rest(s) == Rest(s[..|s| - 1]) + Unsent(s[|s| - 1])
  {
    assert Parts(s[..|s| - 1]) == Parts(s)[..|s| - 1];
  }

  lemma RestFirst(s: seq<Chunk>)
    requires s != []
    ensures Rest(s) == Unsent(s[0]) + Rest(s[1..])
  {
    assert Parts(s[1..]) == Parts(s)[1..];
    JoinFirst(Parts(s));
  }

  lemma RestOne(c: Chunk)
    ensures Rest([c]) == Unsent(c)
  {
    RestLast([c]);
  }

  /** Sums over a list of chunks. */
  function Total(s: seq<Chunk>): nat {
    if s == [] then 0 else Total(s[..|s| - 1]) + |Content(s[|s| - 1])|
  }

  lemma {:induction false} TotalConcat(a: seq<Chunk>, b: seq<Chunk>)
    ensures Total(a + b) == Total(a) + Total(b)
  {
    if b == [] {
      assert a + b == a;
    } else {
      TotalConcat(a, b[..|b| - 1]);
      assert (a + b)[..|a + b| - 1] == a + b[..|b| - 1] && (a + b)[|a + b| - 1] == b[|b| - 1];
    }
  }

  lemma TotalReplaced(s: seq<Chunk>, i: nat, c: Chunk)
    requires i < |s|
    ensures Total(s[i := c]) == Total(s) - |Content(s[i])| + |Content(c)|
  {
    var pre, post := s[..i], s[i + 1..];
    assert s == pre + [s[i]] + post && s[i := c] == pre + [c] + post;
    TotalConcat(pre + [s[i]], post);
    TotalConcat(pre, [s[i]]);
    TotalConcat(pre + [c], post);
    TotalConcat(pre, [c]);
    assert [s[i]][..0] == [] && [c][..0] == [];
  }

  function Offsets(s: seq<Chunk>): int {
    if s == [] then 0 else Offsets(s[..|s| - 1]) + s[|s| - 1].offset
  }

  /** What a queue holds is what it has sent and what it still has to send. */
  lemma {:induction false} LengthIsWrittenAndRest(s: seq<Chunk>)
    requires forall c | c in s :: Sound(c) && 0 <= c.offset <= |Content(c)|
    ensures Total(s) == Offsets(s) + |Rest(s)|
  {
    if s == [] {
    } else {
      LengthIsWrittenAndRest(s[..|s| - 1]);
      RestLast(s);
      assert s[|s| - 1] in s;
    }
  }

  predicate Finished(c: Chunk) {
    match c.kind
    case UnusedChunk => false
    case MemChunk => c.mem == [] || c.offset == |c.mem| - 1
    case FileChunk => c.offset == |c.file|
  }

  /** The number of finished chunks at the front. */
  function Leading(s: seq<Chunk>): (n: nat)
    ensures n <= |s| && (forall i | 0 <= i < n :: Finished(s[i])) && (n < |s| ==> !Finished(s[n]))
  {
    if s == [] || !Finished(s[0]) then 0 else 1 + Leading(s[1..])
  }

  /** What chunk_reset leaves of a chunk: the offset, the file length and the temporary mark stay. */
  function Cleared(c: Chunk): Chunk {
    c.(mem := [], isOpen := false)
  }

  function Retire(unused: seq<Chunk>, c: Chunk): seq<Chunk> {
    if |unused| > 4 then unused else [Cleared(c)] + unused
  }

  function RetireAll(unused: seq<Chunk>, s: seq<Chunk>): seq<Chunk>
    decreases s
  {
    if s == [] then unused else RetireAll(Retire(unused, s[0]), s[1..])
  }

  /** Up to five chunks are kept for reuse, one more than the comment beside the test says. */
  lemma {:induction false} KeptForReuse(unused: seq<Chunk>, s: seq<Chunk>)
    ensures |RetireAll(unused, s)| ==
            if |unused| >= 5 then |unused| else if |unused| + |s| <= 5 then |unused| + |s| else 5
    ensures (forall c | c in unused :: c.mem == []) ==> forall c | c in RetireAll(unused, s) :: c.mem == []
    decreases s
  {
    if s == [] {
    } else {
      KeptForReuse(Retire(unused, s[0]), s[1..]);
    }
  }

  lemma {:induction false} RetireOneMore(unused: seq<Chunk>, s: seq<Chunk>, c: Chunk)
    ensures RetireAll(unused, s + [c]) == Retire(RetireAll(unused, s), c)
    decreases s
  {
    if s == [] {
      assert s + [c] == [c] && [c][1..] == [];
    } else {
      RetireOneMore(Retire(unused, s[0]), s[1..], c);
      assert (s + [c])[1..] == s[1..] + [c];
    }
  }

  lemma RetireStep(unused: seq<Chunk>, s: seq<Chunk>, n: nat)
    requires n < |s|
    ensures RetireAll(unused, s[..n + 1]) == Retire(RetireAll(unused, s[..n]), s[n])
    ensures s[n..][1..] == s[n + 1..]
  {
    RetireOneMore(unused, s[..n], s[n]);
    assert s[..n + 1] == s[..n] + [s[n]];
  }

  lemma {:induction false} AllFinished(s: seq<Chunk>)
    requires forall c | c in s :: Sound(c) && Finished(c)
    ensures Rest(s) == []
  {
    if s == [] {
    } else {
      AllFinished(s[..|s| - 1]);
      RestLast(s);
      assert s[|s| - 1] in s;
    }
  }

  lemma RestOfFinished(s: seq<Chunk>)
    requires forall c | c in s :: Sound(c)
    ensures Rest(s[Leading(s)..]) == Rest(s)
  {
    var a, b := s[..Leading(s)], s[Leading(s)..];
    assert forall c | c in a :: c in s && Finished(c);
    AllFinished(a);
    RestConcat(a, b);
    assert a + b == s;
  }

  function MarkSent(c: Chunk): Chunk {
    c.(offset := if c.kind == MemChunk then |c.mem| - 1 else if c.kind == FileChunk then |c.file| else c.offset)
  }

  function MarkAll(s: seq<Chunk>): (r: seq<Chunk>)
    ensures |r| == |s|
  {
    seq(|s|, i requires 0 <= i < |s| => MarkSent(s[i]))
  }

  lemma {:induction false} AllLeading(s: seq<Chunk>)
    requires forall c | c in s :: Finished(c)
    ensures Leading(s) == |s|
  {}

  class Queue {
    var chunks: seq<Chunk>
    var unused: seq<Chunk>     // a stack, its top first
    var unusedChunks: nat
    var bytesIn: nat
    var bytesOut: nat

    ghost predicate Valid()
      reads this
    {
      && (forall c | c in chunks :: Sound(c))
      && (forall c | c in unused :: c.mem == [])
      && unusedChunks == |unused|
    }

    constructor ()
      ensures Valid() && chunks == [] && unused == [] && bytesIn == 0 && bytesOut == 0
    {
      chunks, unused, unusedChunks, bytesIn, bytesOut := [], [], 0, 0, 0;
    }

    /** The chunk that would be handed out next, and what then stays for reuse. */
    ghost function Spare(): Chunk
      reads this`unused
    {
      if unused == [] then NEW_CHUNK else unused[0]
    }

    ghost function Spares(): seq<Chunk>
      reads this`unused
    {
      if unused == [] then [] else unused[1..]
    }

    method GetUnusedChunk() returns (c: Chunk)
      requires Valid()
      modifies this`unused, this`unusedChunks
      ensures Valid() && c == old(Spare()) && c.mem == [] && unused == old(Spares())
    {
      if |unused| == 0 {
        c := NEW_CHUNK;
      } else {
        c := unused[0];
        unused := unused[1..];
        unusedChunks := unusedChunks - 1;
      }
    }

    /** Takes a chunk for reuse and puts it, as a buffer with the given content, at one end. */
    method AddMem(mem: Bytes, front: bool)
      requires Valid() && Terminated(mem)
      modifies this`chunks, this`unused, this`unusedChunks
      ensures Valid() && unused == old(Spares())
      ensures var c := old(Spare()).(kind := MemChunk, mem := mem, offset := 0);
              chunks == if front then [c] + old(chunks) else old(chunks) + [c]
      ensures Rest(chunks) == if front then Text(mem) + Rest(old(chunks)) else Rest(old(chunks)) + Text(mem)
    {
      var c := GetUnusedChunk();
      c := c.(kind := MemChunk, mem := mem, offset := 0);
      RestOne(c);
      RestConcat([c], chunks);
      RestConcat(chunks, [c]);
      chunks := if front then [c] + chunks else chunks + [c];
    }

    /** Appends octets; the given length counts a terminating zero. */
    method AppendMem(mem: Bytes)
      requires Valid()
      modifies this`chunks, this`unused, this`unusedChunks
      ensures Valid() && (mem == [] ==> chunks == old(chunks) && unused == old(unused))
      ensures mem != [] ==>
                unused == old(Spares()) &&
                chunks == old(chunks) + [old(Spare()).(kind := MemChunk, mem := Text(mem) + [0], offset := 0)]
      ensures Rest(chunks) == Rest(old(chunks)) + Text(mem)
    {
      if |mem| == 0 {
        return;
      }
      AddMem(mem[..|mem| - 1] + [0], false);
    }

    /** Appends or prepends a copy of a buffer, unless the buffer is unused. */
    method AddBuffer(mem: Bytes, front: bool)
      requires Valid() && Terminated(mem)
      modifies this`chunks, this`unused, this`unusedChunks
      ensures Valid() && (mem == [] ==> chunks == old(chunks) && unused == old(unused))
      ensures var c := old(Spare()).(kind := MemChunk, mem := mem, offset := 0);
              mem != [] ==> unused == old(Spares()) && chunks == if front then [c] + old(chunks) else old(chunks) + [c]
      ensures Rest(chunks) == if front then Text(mem) + Rest(old(chunks)) else Rest(old(chunks)) + Text(mem)
    {
      if |mem| == 0 {
        return;
      }
      AddMem(mem, front);
    }

    /** Appends a part of a file, unless it is empty. */
    method AppendFile(part: Bytes)
      requires Valid()
      modifies this`chunks, this`unused, this`unusedChunks
      ensures Valid() && (part == [] ==> chunks == old(chunks) && unused == old(unused))
      ensures part != [] ==>
                unused == old(Spares()) &&
                chunks == old(chunks) + [old(Spare()).(kind := FileChunk, file := part, offset := 0)]
      ensures Rest(chunks) == Rest(old(chunks)) + part
    {
      if |part| == 0 {
        return;
      }
      var c := GetUnusedChunk();
      c := c.(kind := FileChunk, file := part, offset := 0);
      RestOne(c);
      RestConcat(chunks, [c]);
      chunks := chunks + [c];
    }

    /** Appends an empty temporary file; creating it may fail, which leaves it closed. */
    method GetAppendTempfile(created: bool)
      requires Valid()
      modifies this`chunks, this`unused, this`unusedChunks
      ensures Valid() && unused == old(Spares()) && Rest(chunks) == Rest(old(chunks))
      ensures var c := old(Spare());
              chunks == old(chunks) + [c.(kind := FileChunk, file := [], isTemp := created ||
                  c.isTemp, isOpen := created, offset := 0)]
    {
      var c := GetUnusedChunk();
      c := c.(kind := FileChunk, file := [], isTemp := created || c.isTemp, isOpen := created, offset := 0);
      RestOne(c);
      RestConcat(chunks, [c]);
      chunks := chunks + [c];
    }

    /** Takes finished chunks off the front; some are kept for reuse. */
    method RemoveFinished()
      requires Valid()
      modifies this`chunks, this`unused, this`unusedChunks
      ensures Valid() && chunks == old(chunks)[Leading(old(chunks))..]
      ensures unused == RetireAll(old(unused), old(chunks)[..Leading(old(chunks))])
      ensures Rest(chunks) == Rest(old(chunks))
    {
      hide Rest, Leading;
      ghost var s, n := chunks, 0;
      RestOfFinished(s);
      while |chunks| > 0 && Finished(chunks[0])
        invariant n <= Leading(s) && chunks == s[n..]
        invariant (forall c | c in unused :: c.mem == []) && unusedChunks == |unused|
        invariant unused == RetireAll(old(unused), s[..n])
        decreases |chunks|
      {
        RetireStep(old(unused), s, n);
        var c := chunks[0];
        chunks := chunks[1..];
        if unusedChunks <= 4 {
          unused := [Cleared(c)] + unused;
          unusedChunks := unusedChunks + 1;
        }
        n := n + 1;
      }
    }

    /** Marks everything as sent and takes it off. */
    method Reset()
      requires Valid()
      modifies this
      ensures Valid() && chunks == [] && bytesIn == 0 && bytesOut == 0
      ensures unused == RetireAll(old(unused), MarkAll(old(chunks)))
    {
      ghost var s := chunks;
      for i := 0 to |chunks|
        invariant |chunks| == |s| && Valid() && unused == old(unused)
        invariant forall j | 0 <= j < |s| :: chunks[j] == if j < i then MarkSent(s[j]) else s[j]
      {
        assert Sound(s[i]);
        chunks := chunks[i := MarkSent(chunks[i])];
      }
      assert chunks == MarkAll(s);
      AllLeading(chunks);
      assert chunks[..|s|] == chunks;
      RemoveFinished();
      bytesIn, bytesOut := 0, 0;
    }

    method Length() returns (len: nat)
      requires Valid()
      ensures len == Total(chunks)
    {
      len := 0;
      for i := 0 to |chunks|
        invariant len == Total(chunks[..i])
      {
        assert chunks[..i + 1][..i] == chunks[..i];
        if chunks[i].kind == MemChunk {
          len := len + if |chunks[i].mem| > 0 then |chunks[i].mem| - 1 else 0;
        } else if chunks[i].kind == FileChunk {
          len := len + |chunks[i].file|;
        }
      }
      assert chunks[..|chunks|] == chunks;
    }

    method Written() returns (len: int)
      requires Valid()
      ensures len == Offsets(chunks)
    {
      len := 0;
      for i := 0 to |chunks|
        invariant len == Offsets(chunks[..i])
      {
        assert chunks[..i + 1][..i] == chunks[..i];
        assert Sound(chunks[i]);
        len := len + chunks[i].offset;
      }
      assert chunks[..|chunks|] == chunks;
    }
  }
}
