/**
 Reading requests from a connection (connections.c): received octets go through
 the read queue, whatever chunks they arrive in. Headers are found and copied
 across chunk boundaries, bodies are copied on, and the pipelined rest stays.
 */
module ReadState {
  import opened Wrappers
  import opened ChunkQueue

  const HEADER_END: Bytes := [13, 10, 13, 10]

  const MAX_HEADER := 64 * 1024
  const MAX_IN_MEMORY := 64 * 1024
  const TEMPFILE_SIZE := 1024 * 1024

  // ----- the end of a header, in a stream

  ghost predicate EndsAt(u: Bytes, e: int) {
    4 <= e <= |u| && u[e - 4..e] == HEADER_END
  }

  /** The first place where a header ends. */
  ghost predicate HeaderEnd(u: Bytes, e: int) {
    EndsAt(u, e) && forall f | f < e :: !EndsAt(u, f)
  }

  ghost predicate NoHeader(u: Bytes) {
    forall f :: !EndsAt(u, f)
  }

  /** A header ends with an empty line. */
  lemma EndsAtExact(u: Bytes, e: int)
    ensures EndsAt(u, e) <==>
            4 <= e <= |u| && u[e - 4] as char == u[e - 2] as char == '\r' &&
                u[e - 3] as char == u[e - 1] as char == '\n'
  {
    if 4 <= e <= |u| {
      var v := u[e - 4..e];
      assert v == [u[e - 4], u[e - 3], u[e - 2], u[e - 1]];
    }
  }

  lemma EndsAtPrefix(u: Bytes, w: Bytes, e: int)
    requires e <= |u|
    ensures EndsAt(u, e) <==> EndsAt(u + w, e)
  {}

  /** Where a header ends is decided by the header alone. */
  lemma HeaderEndPrefix(u: Bytes, w: Bytes, e: nat)
    requires e <= |u|
    ensures HeaderEnd(u, e) <==> HeaderEnd(u + w, e)
  {
    forall f | f <= e
      ensures EndsAt(u, f) <==> EndsAt(u + w, f)
    {
      EndsAtPrefix(u, w, f);
    }
  }

  /** The first m characters after p are those of a header end. */
  ghost predicate Matching(u: Bytes, p: nat, m: nat) {
    m <= 4 && p + m <= |u| && forall t | 0 <= t < m :: u[p + t] == HEADER_END[t]
  }

  lemma MatchIsEnd(u: Bytes, p: nat)
    ensures Matching(u, p, 4) <==> EndsAt(u, p + 4)
  {}

  // ----- messages

  datatype Message = Message(header: Bytes, body: Bytes)

  function Flatten(log: seq<Message>): Bytes {
    if log == [] then [] else Flatten(log[..|log| - 1]) + log[|log| - 1].header + log[|log| - 1].body
  }

  /** A header ends where it first may, and the body has the length the header announces. */
  ghost predicate WellFormed(log: seq<Message>, bodyLength: Bytes -> nat) {
    forall i | 0 <= i < |log| :: HeaderEnd(log[i].header, |log[i].header|) && |log[i].body| == bodyLength(log[i].header)
  }

  lemma Outward(h: Bytes, b: Bytes, rest: Bytes, header: Bytes, body: Bytes)
    ensures (h + (b + rest)) + header + body == h + (b + (rest + header + body))
  {}

  lemma {:induction false} FlattenFirst(log: seq<Message>)
    requires log != []
    ensures Flatten(log) == log[0].header + (log[0].body + Flatten(log[1..]))
  {
    var n := |log| - 1;
    if n == 0 {
    } else {
      var m, rest := log[n], Flatten(log[1..][..n - 1]);
      FlattenFirst(log[..n]);
      assert log[..n][1..] == log[1..][..n - 1];
      assert Flatten(log[1..]) == rest + m.header + m.body;
      Outward(log[0].header, log[0].body, rest, m.header, m.body);
    }
  }

  lemma Peel(a: seq<Message>, rest: Bytes)
    requires a != []
    ensures Flatten(a) + rest == a[0].header + (a[0].body + (Flatten(a[1..]) + rest))
  {
    FlattenFirst(a);
  }

  lemma SameFirst(m: Message, n: Message, restM: Bytes, restN: Bytes, bodyLength: Bytes -> nat)
    requires HeaderEnd(m.header, |m.header|) && |m.body| == bodyLength(m.header)
    requires HeaderEnd(n.header, |n.header|) && |n.body| == bodyLength(n.header)
    requires m.header + (m.body + restM) == n.header + (n.body + restN)
    ensures m == n && restM == restN
  {
    var u := m.header + (m.body + restM);
    HeaderEndPrefix(m.header, m.body + restM, |m.header|);
    HeaderEndPrefix(n.header, n.body + restN, |n.header|);
    assert m.header == u[..|m.header|] && n.header == u[..|n.header|];
    assert m.body + restM == u[|m.header|..] == n.body + restN;
    assert m.body == u[|m.header|..][..|m.body|] && restM == u[|m.header|..][|m.body|..];
  }

  /** The messages are determined by the octets received, however these were cut into chunks. */
  lemma {:induction false} MessagesDetermined(a: seq<Message>, b: seq<Message>, restA: Bytes, restB: Bytes,
                                              bodyLength: Bytes -> nat)
    requires WellFormed(a, bodyLength) && WellFormed(b, bodyLength)
    requires Flatten(a) + restA == Flatten(b) + restB && |a| <= |b|
    ensures a == b[..|a|]
    decreases |a|
  {
    hide HeaderEnd;
    if a == [] {
    } else {
      Peel(a, restA);
      Peel(b, restB);
      SameFirst(a[0], b[0], Flatten(a[1..]) + restA, Flatten(b[1..]) + restB, bodyLength);
      assert WellFormed(a[1..], bodyLength) && WellFormed(b[1..], bodyLength);
      MessagesDetermined(a[1..], b[1..], restA, restB, bodyLength);
      assert a == [a[0]] + a[1..] && b[..|a|] == [b[0]] + b[1..][..|a| - 1];
    }
  }

  /** A stream that does not hold a whole message. */
  ghost predicate NoMessage(u: Bytes, bodyLength: Bytes -> nat) {
    forall e | 0 <= e <= |u| :: HeaderEnd(u, e) ==> |u| - e < bodyLength(u[..e])
  }

  lemma HoldsMessage(u: Bytes, a: seq<Message>, rest: Bytes, bodyLength: Bytes -> nat)
    requires a != [] && WellFormed(a, bodyLength) && u == Flatten(a) + rest
    ensures !NoMessage(u, bodyLength)
  {
    var e := |a[0].header|;
    Peel(a, rest);
    HeaderEndPrefix(a[0].header, a[0].body + (Flatten(a[1..]) + rest), e);
    assert u[..e] == a[0].header;
  }

  /** A stream is divided in one way into messages and a rest that holds none. */
  lemma {:induction false} DivisionUnique(a: seq<Message>, b: seq<Message>, restA: Bytes, restB: Bytes,
                                          bodyLength: Bytes -> nat)
    requires WellFormed(a, bodyLength) && WellFormed(b, bodyLength)
    requires NoMessage(restA, bodyLength) && NoMessage(restB, bodyLength)
    requires Flatten(a) + restA == Flatten(b) + restB
    ensures a == b && restA == restB
    decreases |a|
  {
    hide HeaderEnd;
    assert a == [] ==> Flatten(a) + restA == restA;
    assert b == [] ==> Flatten(b) + restB == restB;
    if a == [] && b == [] {
    } else if a == [] {
      HoldsMessage(restA, b, restB, bodyLength);
    } else if b == [] {
      HoldsMessage(restB, a, restA, bodyLength);
    } else {
      Peel(a, restA);
      Peel(b, restB);
      SameFirst(a[0], b[0], Flatten(a[1..]) + restA, Flatten(b[1..]) + restB, bodyLength);
      DivisionUnique(a[1..], b[1..], restA, restB, bodyLength);
      assert a == [a[0]] + a[1..] && b == [b[0]] + b[1..];
    }
  }

  lemma LogExtended(log: seq<Message>, m: Message, rest: Bytes, bodyLength: Bytes -> nat)
    requires WellFormed(log, bodyLength) && HeaderEnd(m.header, |m.header|) && |m.body| == bodyLength(m.header)
    ensures WellFormed(log + [m], bodyLength)
    ensures Flatten(log + [m]) + rest == Flatten(log) + (m.header + (m.body + rest))
  {
    assert (log + [m])[..|log|] == log;
  }

  // ----- the read queue

  /** The chunks of the read queue are buffers; all are in use, except perhaps the last. */
  ghost predicate Buffers(s: seq<Chunk>, lastMayBeEmpty: bool) {
    forall i | 0 <= i < |s| :: s[i].kind == MemChunk && Sound(s[i]) &&
        (s[i].mem == [] ==> lastMayBeEmpty && i == |s| - 1 && s[i].offset == 0)
  }

  predicate Unfilled(c: Chunk) {
    c.mem == []
  }

  function CleanedFrom(s: seq<Chunk>): seq<Chunk> {
    if |s| <= 1 then s
    else if Unfilled(s[1]) then [s[0]] + CleanedFrom(s[2..])
    else [s[0]] + CleanedFrom(s[1..])
  }

  /** What the removal of unused buffers leaves: after a removed one the next is not looked at. */
  function Cleaned(s: seq<Chunk>): seq<Chunk> {
    if s == [] then [] else if Unfilled(s[0]) then Cleaned(s[1..]) else CleanedFrom(s)
  }

  lemma RestSkip(s: seq<Chunk>)
    requires s != [] && s[0].kind == MemChunk && Unfilled(s[0])
    ensures Rest(s) == Rest(s[1..])
  {
    RestFirst(s);
  }

  lemma {:induction false} CleanedFromKeepsBytes(s: seq<Chunk>)
    requires forall i | 0 <= i < |s| :: s[i].kind == MemChunk
    ensures Rest(CleanedFrom(s)) == Rest(s)
  {
    if |s| <= 1 {
    } else {
      RestFirst(s);
      if Unfilled(s[1]) {
        RestSkip(s[1..]);
        assert s[1..][1..] == s[2..];
      }
      var n := if Unfilled(s[1]) then 2 else 1;
      CleanedFromKeepsBytes(s[n..]);
      RestFirst([s[0]] + CleanedFrom(s[n..]));
    }
  }

  /** Unused buffers hold nothing: removing them changes no octet. */
  lemma {:induction false} CleanedKeepsBytes(s: seq<Chunk>)
    requires forall i | 0 <= i < |s| :: s[i].kind == MemChunk
    ensures Rest(Cleaned(s)) == Rest(s)
  {
    if s == [] {
    } else {
      if Unfilled(s[0]) {
        CleanedKeepsBytes(s[1..]);
        RestFirst(s);
      } else {
        CleanedFromKeepsBytes(s);
      }
    }
  }

  /** The list while it is cleaned: up to c it is as it will be. */
  ghost predicate CleaningAt(cur: seq<Chunk>, c: nat, s: seq<Chunk>) {
    c <= |cur| && if c == 0 then Cleaned(cur) == Cleaned(s) else cur[..c] + CleanedFrom(cur[c..]) == Cleaned(s)
  }

  lemma CleaningBegin(s: seq<Chunk>)
    ensures CleaningAt(s, 0, s)
  {}

  lemma CleaningEnd(cur: seq<Chunk>, s: seq<Chunk>)
    requires CleaningAt(cur, |cur|, s)
    ensures cur == Cleaned(s)
  {
    assert cur[..|cur|] == cur && cur[|cur|..] == [];
  }

  lemma CleaningStep(cur: seq<Chunk>, c: nat, s: seq<Chunk>)
    requires CleaningAt(cur, c, s) && c < |cur|
    ensures c == 0 && Unfilled(cur[0]) ==> CleaningAt(cur[..0] + cur[1..], 0, s)
    ensures !(c == 0 && Unfilled(cur[0])) && c + 1 < |cur| && Unfilled(cur[c + 1]) ==>
            CleaningAt(cur[..c + 1] + cur[c + 2..], c + 1, s)
    ensures !(c == 0 && Unfilled(cur[0])) && !(c + 1 < |cur| && Unfilled(cur[c + 1])) ==> CleaningAt(cur, c + 1, s)
  {
    if c == 0 && Unfilled(cur[0]) {
      assert cur[..0] + cur[1..] == cur[1..];
    } else {
      var t := cur[c..];
      assert cur[..c] + CleanedFrom(t) == Cleaned(s) by { assert c == 0 ==> cur[..c] == [] && t == cur; }
      if c + 1 < |cur| && Unfilled(cur[c + 1]) {
        var cur' := cur[..c + 1] + cur[c + 2..];
        assert t[2..] == cur[c + 2..] == cur'[c + 1..] && cur'[..c + 1] == cur[..c] + [t[0]];
        Associative(cur[..c], [t[0]], CleanedFrom(t[2..]));
      } else if c + 1 < |cur| {
        assert t[1..] == cur[c + 1..] && cur[..c + 1] == cur[..c] + [t[0]];
        Associative(cur[..c], [t[0]], CleanedFrom(t[1..]));
      } else {
        assert cur[..c + 1] == cur[..c] + t && cur[c + 1..] == [];
      }
    }
  }

  ghost predicate AllFilled(s: seq<Chunk>) {
    forall i | 0 <= i < |s| :: !Unfilled(s[i])
  }

  /** No two unused buffers next to each other. */
  ghost predicate NoPair(s: seq<Chunk>) {
    forall i | 0 <= i < |s| - 1 :: !(Unfilled(s[i]) && Unfilled(s[i + 1]))
  }

  lemma TailFilled(s: seq<Chunk>)
    requires s != [] && !Unfilled(s[0])
    ensures AllFilled(s) <==> AllFilled(s[1..])
  {}

  lemma TailNoPair(s: seq<Chunk>)
    requires |s| > 1 && !(Unfilled(s[0]) && Unfilled(s[1]))
    ensures NoPair(s) <==> NoPair(s[1..])
  {}

  /** Every unused buffer is removed exactly if no two of them follow each other. */
  lemma {:induction false} CleanedFromExact(s: seq<Chunk>)
    requires s != [] && !Unfilled(s[0])
    ensures AllFilled(CleanedFrom(s)) <==> NoPair(s)
  {
    if |s| <= 1 {
    } else {
      assert CleanedFrom(s)[1..] == CleanedFrom(s[if Unfilled(s[1]) then 2 else 1..]);
      if !Unfilled(s[1]) {
        CleanedFromExact(s[1..]);
        assert AllFilled(CleanedFrom(s)) <==> AllFilled(CleanedFrom(s)[1..]) by { TailFilled(CleanedFrom(s)); }
        assert NoPair(s) <==> NoPair(s[1..]) by { TailNoPair(s); }
      } else if |s| > 2 {
        TailFilled(CleanedFrom(s));
        if Unfilled(s[2]) {
          assert CleanedFrom(s[2..])[0] == s[2];
          assert Unfilled(s[1]) && Unfilled(s[1 + 1]);
          assert !AllFilled(CleanedFrom(s[2..]));
        } else {
          CleanedFromExact(s[2..]);
          TailNoPair(s);
          TailNoPair(s[1..]);
          assert s[1..][1..] == s[2..];
        }
      }
    }
  }

  /** The list after its leading unused buffers. */
  function AfterUnfilled(s: seq<Chunk>): seq<Chunk> {
    if s == [] || !Unfilled(s[0]) then s else AfterUnfilled(s[1..])
  }

  /** No unused buffer is left exactly if, after the leading ones, no two of them follow each other. */
  lemma {:induction false} CleanedExact(s: seq<Chunk>)
    ensures AllFilled(Cleaned(s)) <==> NoPair(AfterUnfilled(s))
  {
    if s == [] {
    } else if Unfilled(s[0]) {
      CleanedExact(s[1..]);
    } else {
      CleanedFromExact(s);
    }
  }

  lemma {:induction false} CleanedFromBuffers(s: seq<Chunk>)
    requires Buffers(s, true) && s != [] && !Unfilled(s[0])
    ensures Buffers(CleanedFrom(s), false)
  {
    hide Sound;
    if |s| <= 1 {
    } else {
      if Unfilled(s[1]) {
        assert s[2..] == [];
      } else {
        CleanedFromBuffers(s[1..]);
      }
    }
  }

  /** When only the last buffer may be unused, none is left. */
  lemma {:induction false} CleanedBuffers(s: seq<Chunk>)
    requires Buffers(s, true)
    ensures Buffers(Cleaned(s), false)
  {
    if s != [] {
      if Unfilled(s[0]) {
        assert s[1..] == [];
      } else {
        CleanedFromBuffers(s);
      }
    }
  }

  lemma WithoutOne(s: seq<Chunk>, i: nat)
    requires i < |s|
    ensures multiset(s[..i] + s[i + 1..]) + multiset([s[i]]) == multiset(s)
  {
    assert s == s[..i] + [s[i]] + s[i + 1..];
  }

  // ----- lengths

  lemma TotalUnfilled(s: seq<Chunk>)
    requires s != [] && s[0].kind == MemChunk && Unfilled(s[0])
    ensures Total(s) == Total(s[1..])
  {
    assert s == [s[0]] + s[1..] && [s[0]][..0] == [];
    TotalConcat([s[0]], s[1..]);
  }

  /** Removing unused buffers does not change the length. */
  lemma {:induction false} TotalCleanedFrom(s: seq<Chunk>)
    requires forall i | 0 <= i < |s| :: s[i].kind == MemChunk
    ensures Total(CleanedFrom(s)) == Total(s)
  {
    hide Content, Total;
    if |s| <= 1 {
    } else {
      var n := if Unfilled(s[1]) then 2 else 1;
      TotalCleanedFrom(s[n..]);
      if Unfilled(s[1]) {
        TotalUnfilled(s[1..]);
        assert s[1..][1..] == s[2..];
      }
      TotalConcat([s[0]], CleanedFrom(s[n..]));
      TotalConcat([s[0]], s[1..]);
      assert s == [s[0]] + s[1..];
    }
  }

  lemma {:induction false} TotalCleaned(s: seq<Chunk>)
    requires forall i | 0 <= i < |s| :: s[i].kind == MemChunk
    ensures Total(Cleaned(s)) == Total(s)
  {
    if s == [] {
    } else if Unfilled(s[0]) {
      TotalCleaned(s[1..]);
      TotalUnfilled(s);
    } else {
      TotalCleanedFrom(s);
    }
  }

  /** A buffer after octets have been appended to it. */
  function Filled(c: Chunk, octets: Bytes): Chunk {
    c.(mem := Text(c.mem) + octets + [0])
  }

  lemma TotalFilled(s: seq<Chunk>, octets: Bytes)
    requires Buffers(s, true) && s != []
    ensures Total(s[|s| - 1 := Filled(s[|s| - 1], octets)]) == Total(s) + |octets|
  {
    TotalReplaced(s, |s| - 1, Filled(s[|s| - 1], octets));
  }

  /** The list after n more octets of chunk c have been taken. */
  function Take(s: seq<Chunk>, c: nat, n: nat): seq<Chunk>
    requires c < |s|
  {
    s[c := s[c].(offset := s[c].offset + n)]
  }

  lemma TotalTaken(s: seq<Chunk>, c: nat, n: nat)
    requires c < |s|
    ensures Total(Take(s, c, n)) == Total(s)
  {
    TotalReplaced(s, c, s[c].(offset := s[c].offset + n));
  }

  lemma TotalDropped(s: seq<Chunk>, n: nat)
    requires n <= |s|
    ensures Total(s[n..]) <= Total(s)
  {
    assert s == s[..n] + s[n..];
    TotalConcat(s[..n], s[n..]);
  }

  // ----- positions

  /** Where part k begins in the stream. */
  function Begin(parts: seq<Bytes>, k: nat): nat
    requires k <= |parts|
  {
    if k == 0 then 0 else Begin(parts, k - 1) + |parts[k - 1]|
  }

  ghost predicate Octet(parts: seq<Bytes>, u: Bytes, k: nat, i: nat) {
    k < |parts| && i < |parts[k]| && Begin(parts, k) + i < |u| && u[Begin(parts, k) + i] == parts[k][i]
  }

  /** The stream u is what the parts hold, octet by octet. */
  ghost predicate Stream(parts: seq<Bytes>, u: Bytes) {
    && Begin(parts, |parts|) == |u|
    && forall k, i | 0 <= k < |parts| && 0 <= i < |parts[k]| :: Octet(parts, u, k, i)
  }

  lemma {:induction false} BeginExtended(parts: seq<Bytes>, more: seq<Bytes>, k: nat)
    requires k <= |parts|
    ensures Begin(parts + more, k) == Begin(parts, k)
  {
    if k == 0 {
    } else {
      BeginExtended(parts, more, k - 1);
    }
  }

  lemma StreamExtended(parts: seq<Bytes>, u: Bytes, b: Bytes)
    requires Stream(parts, u)
    ensures Stream(parts + [b], u + b)
  {
    var parts' := parts + [b];
    BeginExtended(parts, [b], |parts|);
    forall k, i | 0 <= k < |parts'| && 0 <= i < |parts'[k]|
      ensures Octet(parts', u + b, k, i)
    {
      if k < |parts| {
        BeginExtended(parts, [b], k);
        assert Octet(parts, u, k, i);
      }
    }
  }

  lemma {:induction false} JoinIsStream(parts: seq<Bytes>)
    ensures Stream(parts, Join(parts))
  {
    if parts == [] {
    } else {
      var t, c := parts[..|parts| - 1], parts[|parts| - 1];
      JoinIsStream(t);
      StreamExtended(t, Join(t), c);
      assert parts == t + [c];
    }
  }

  lemma QueueStream(s: seq<Chunk>)
    ensures Stream(Parts(s), Rest(s)) && forall i | 0 <= i < |s| :: Parts(s)[i] == Unsent(s[i])
  {
    JoinIsStream(Parts(s));
  }

  /** Checks whether the rest of a header end follows the carriage return at i in part k. */
  method MatchFrom(parts: seq<Bytes>, ghost u: Bytes, k: nat, i: nat) returns (found: bool, kk: nat, off: nat)
    requires Stream(parts, u) && k < |parts| && i < |parts[k]| && parts[k][i] == 13
    ensures found <==> EndsAt(u, Begin(parts, k) + i + 4)
    ensures found ==> kk < |parts| && 0 < off <= |parts[kk]| && Begin(parts, kk) + off == Begin(parts, k) + i + 4
  {
    ghost var p := Begin(parts, k) + i;
    MatchIsEnd(u, p);
    assert Octet(parts, u, k, i);
    var m, j: nat := 1, i + 1;
    kk := k;
    while kk < |parts|
      invariant kk <= |parts| && m < 4 && Matching(u, p, m) && Begin(parts, kk) + j == p + m
      invariant if kk == |parts| then j == 0 else j <= |parts[kk]|
    {
      var bb := parts[kk];
      while j < |bb|
        invariant j <= |bb| && m < 4 && Matching(u, p, m) && Begin(parts, kk) + j == p + m
      {
        assert Octet(parts, u, kk, j);
        if bb[j] != HEADER_END[m] {
          return false, 0, 0;
        }
        m := m + 1;
        if m == 4 {
          return true, kk, j + 1;
        }
        j := j + 1;
      }
      kk, j := kk + 1, 0;
    }
    return false, 0, 0;
  }

  /** Finds the first header end in the unsent octets, wherever it is cut. */
  method FindHeaderEnd(parts: seq<Bytes>, ghost u: Bytes) returns (found: bool, k: nat, off: nat)
    requires Stream(parts, u)
    ensures found ==> k < |parts| && 0 < off <= |parts[k]| && HeaderEnd(u, Begin(parts, k) + off)
    ensures !found ==> NoHeader(u)
  {
    var c := 0;
    while c < |parts|
      invariant c <= |parts| && forall f | f < Begin(parts, c) + 4 :: !EndsAt(u, f)
    {
      var b := parts[c];
      for i := 0 to |b|
        invariant forall f | f < Begin(parts, c) + i + 4 :: !EndsAt(u, f)
      {
        assert Octet(parts, u, c, i);
        if b[i] == 13 {
          found, k, off := MatchFrom(parts, u, c, i);
          if found {
            return;
          }
        } else {
          MatchIsEnd(u, Begin(parts, c) + i);
          assert !Matching(u, Begin(parts, c) + i, 4);
        }
        assert !EndsAt(u, Begin(parts, c) + i + 4);
      }
      c := c + 1;
    }
    return false, 0, 0;
  }

  // ----- taking octets from the front

  lemma TakeBuffers(s: seq<Chunk>, c: nat, n: nat)
    requires Buffers(s, false) && c < |s| && n <= |Unsent(s[c])|
    ensures Buffers(Take(s, c, n), false) && Unsent(Take(s, c, n)[c]) == Unsent(s[c])[n..]
  {}

  lemma {:induction false} JoinTake(parts: seq<Bytes>, c: nat, n: nat)
    requires c < |parts| && n <= |parts[c]| && forall j | 0 <= j < c :: parts[j] == []
    ensures parts[c][..n] + Join(parts[c := parts[c][n..]]) == Join(parts)
  {
    var t := parts[c := parts[c][n..]];
    JoinFirst(parts);
    JoinFirst(t);
    if c == 0 {
      assert t[1..] == parts[1..] && parts[0] == parts[0][..n] + parts[0][n..];
    } else {
      JoinTake(parts[1..], c - 1, n);
      assert t[1..] == parts[1..][c - 1 := parts[1..][c - 1][n..]];
    }
  }

  /** Octets taken from the first chunk that has any are the first of the stream; the others stay. */
  lemma TakeKeeps(s: seq<Chunk>, c: nat, n: nat)
    requires Buffers(s, false) && c < |s| && n <= |Unsent(s[c])|
    requires forall j | 0 <= j < c :: Unsent(s[j]) == []
    ensures Unsent(s[c])[..n] + Rest(Take(s, c, n)) == Rest(s)
  {
    JoinTake(Parts(s), c, n);
    TakeBuffers(s, c, n);
    assert Parts(Take(s, c, n)) == Parts(s)[c := Parts(s)[c][n..]];
  }

  lemma LastReplaced(s: seq<Chunk>, c: Chunk, octets: Bytes)
    requires s != [] && Unsent(c) == Unsent(s[|s| - 1]) + octets
    ensures Rest(s[|s| - 1 := c]) == Rest(s) + octets
  {
    RestLast(s);
    RestLast(s[|s| - 1 := c]);
    assert s[|s| - 1 := c][..|s| - 1] == s[..|s| - 1];
    Associative(Rest(s[..|s| - 1]), Unsent(s[|s| - 1]), octets);
  }

  lemma FilledUnsent(c: Chunk, octets: Bytes)
    requires c.kind == MemChunk && Sound(c) && (c.mem == [] ==> c.offset == 0)
    ensures Unsent(Filled(c, octets)) == Unsent(c) + octets && Sound(Filled(c, octets))
  {}

  lemma FillLast(s: seq<Chunk>, octets: Bytes)
    requires Buffers(s, true) && s != []
    ensures var s' := s[|s| - 1 := Filled(s[|s| - 1], octets)];
            Buffers(s', true) && Rest(s') == Rest(s) + octets
  {
    FilledUnsent(s[|s| - 1], octets);
    LastReplaced(s, Filled(s[|s| - 1], octets), octets);
  }

  /** Nothing of these chunks has been sent yet. */
  ghost predicate AtStart(s: seq<Chunk>) {
    forall i | 0 <= i < |s| :: s[i].offset == 0
  }

  function Last(s: seq<Chunk>): Chunk
    requires s != []
  {
    s[|s| - 1]
  }

  /** The last chunk is a temporary file that is not full. */
  predicate LastFits(s: seq<Chunk>) {
    s != [] && Last(s).kind == FileChunk && Last(s).isTemp && |Last(s).file| < TEMPFILE_SIZE
  }

  /** A temporary file takes more until it has a megabyte. */
  lemma LastFitsExact(s: seq<Chunk>)
    ensures LastFits(s) <==>
            s != [] && s[|s| - 1].kind == FileChunk && s[|s| - 1].isTemp && |s[|s| - 1].file| < 0x10_0000
  {}

  ghost predicate SpentTo(s: seq<Chunk>, c: nat) {
    c <= |s| && forall j | 0 <= j < c :: Unsent(s[j]) == []
  }

  /** Octets moved from the front of one stream to the end of another. */
  lemma MoveStep(s: seq<Chunk>, c: nat, n: nat, content: Bytes, content': Bytes, total: Bytes)
    requires Buffers(s, false) && SpentTo(s, c) && c < |s| && n <= |Unsent(s[c])|
    requires content' == content + Unsent(s[c])[..n] && content + Rest(s) == total
    ensures content' + Rest(Take(s, c, n)) == total
    ensures Buffers(Take(s, c, n), false) && (n == |Unsent(s[c])| ==> SpentTo(Take(s, c, n), c + 1))
  {
    TakeKeeps(s, c, n);
    TakeBuffers(s, c, n);
    Associative(content, Unsent(s[c])[..n], Rest(Take(s, c, n)));
  }

  lemma {:induction false} AllSpent(parts: seq<Bytes>)
    requires forall j | 0 <= j < |parts| :: parts[j] == []
    ensures Join(parts) == []
  {
    if parts == [] {
    } else {
      AllSpent(parts[..|parts| - 1]);
    }
  }

  lemma BuffersValid(s: seq<Chunk>)
    requires Buffers(s, true) || Buffers(s, false)
    ensures forall c | c in s :: Sound(c)
  {}

  lemma {:induction false} TotalCoversRest(s: seq<Chunk>)
    ensures |Rest(s)| <= Total(s)
  {
    if s == [] {
    } else {
      RestLast(s);
      TotalCoversRest(s[..|s| - 1]);
    }
  }

  /** While a header is copied out: the chunks before c are spent, the others untouched. */
  ghost predicate CopyingAt(cur: seq<Chunk>, s: seq<Chunk>, c: nat, request: Bytes) {
    && |cur| == |s| && c <= |s| && Buffers(cur, false)
    && (forall j | 0 <= j < c :: Unsent(cur[j]) == []) && (forall j | c <= j < |s| :: cur[j] == s[j])
    && request + Rest(cur) == Rest(s) && |request| == Begin(Parts(s), c)
  }

  lemma CopyPart(cur: seq<Chunk>, s: seq<Chunk>, c: nat, request: Bytes, n: nat)
    requires CopyingAt(cur, s, c, request) && c < |s| && n <= |Unsent(cur[c])|
    ensures Buffers(Take(cur, c, n), false)
    ensures (request + Unsent(cur[c])[..n]) + Rest(Take(cur, c, n)) == Rest(s)
    ensures |request + Unsent(cur[c])[..n]| == Begin(Parts(s), c) + n
  {
    TakeBuffers(cur, c, n);
    TakeKeeps(cur, c, n);
    Associative(request, Unsent(cur[c])[..n], Rest(Take(cur, c, n)));
  }

  /** A whole chunk is taken; its offset becomes its length. */
  lemma CopyWhole(cur: seq<Chunk>, s: seq<Chunk>, c: nat, request: Bytes, n: nat)
    requires CopyingAt(cur, s, c, request) && c < |s| && n == |Unsent(cur[c])|
    ensures CopyingAt(Take(cur, c, n), s, c + 1, request + Unsent(cur[c])[..n])
    ensures Take(cur, c, n)[c].offset == |cur[c].mem| - 1
  {
    CopyPart(cur, s, c, request, n);
    TakeBuffers(cur, c, n);
  }

  /** What a read from the socket gives. */
  datatype Arrival = Data(octets: Bytes) | Nothing | Closed | Failed

  function Octets(a: Arrival): Bytes {
    if a.Data? then a.octets else []
  }

  /** What is read when the socket may not be readable. */
  function Arrived(a: Option<Arrival>): Bytes {
    if a.Some? then Octets(a.value) else []
  }

  lemma NoneLeft(s: seq<Chunk>)
    requires s == []
    ensures Rest(s) == []
  {}

  lemma NothingArrived(u: Bytes)
    ensures u + Arrived(None) == u
  {}

  lemma PrefixOf(done: Bytes, request: Bytes, content: Bytes, rest: Bytes, inRequest: bool)
    ensures done + (if inRequest then request + (content + rest) else rest) ==
            (done + if inRequest then request + content else []) + rest
  {}

  // ----- the connection

  datatype State = Read | ReadPost | RequestEnd | HandleRequest | Error

  /** Whether chunks of a body can be stored: is a temporary file created, and is it written? */
  datatype Disk = Disk(created: bool, written: bool)

  /** What happens at the socket, and at the disk in the first call of the reader and in later ones. */
  datatype Event = Event(arrival: Option<Arrival>, reuse: bool, first: nat -> Disk, later: nat -> nat -> Disk)

  /** Every chunk of a body that comes with the event can be stored. */
  ghost predicate DisksWork(e: Event) {
    (forall i :: e.first(i) == Disk(true, true)) && forall k, i :: e.later(k)(i) == Disk(true, true)
  }

  function AllArrived(events: seq<Event>): Bytes {
    if events == [] then [] else AllArrived(events[..|events| - 1]) + Arrived(events[|events| - 1].arrival)
  }

  class Connection {
    const readQueue: Queue
    const contentQueue: Queue
    const bodyLength: Bytes -> nat    // the content length that the parser finds in a header
    var state: State
    var request: Bytes
    var contentLength: nat
    var httpStatus: nat
    var keepAlive: bool

    ghost var received: Bytes         // all that has been read from the socket
    ghost var log: seq<Message>       // the messages completed before the current one
    ghost var done: Bytes             // these messages as octets
    ghost var inRequest: bool         // the current header has been copied out

    /** The body so far and the octets still unsent. */
    ghost function Pending(): Bytes
      reads contentQueue`chunks, readQueue`chunks
    {
      Rest(contentQueue.chunks) + Rest(readQueue.chunks)
    }

    /** What has arrived of the message that is not complete. */
    ghost function Unfinished(): Bytes
      reads this`request, this`inRequest, contentQueue`chunks, readQueue`chunks
    {
      if inRequest then request + Pending() else Rest(readQueue.chunks)
    }

    /** The octets received are those copied out, message by message, and those still unsent. */
    ghost predicate Conserved()
      reads this`request, this`inRequest, this`received, this`log, this`done, contentQueue`chunks, readQueue`chunks
    {
      && done == Flatten(log)
      && received == done + Unfinished()
    }

    ghost predicate Progress()
      reads this, contentQueue
    {
      && WellFormed(log, bodyLength)
      && (inRequest ==> HeaderEnd(request, |request|))
      && AtStart(contentQueue.chunks)
      && |Rest(contentQueue.chunks)| == contentQueue.bytesIn
      && match state
         case Read => !inRequest && contentQueue.chunks == [] && httpStatus == 0
         case RequestEnd => inRequest && contentQueue.chunks == [] && httpStatus == 0
         case ReadPost => inRequest && httpStatus == 0 && contentLength == bodyLength(request) &&
             contentQueue.bytesIn <= contentLength
         case HandleRequest => httpStatus == 0 ==>
             inRequest && contentQueue.bytesIn == contentLength == bodyLength(request)
         case Error => true
    }

    ghost predicate Valid()
      reads this, readQueue, contentQueue
    {
      && readQueue != contentQueue && readQueue.Valid() && contentQueue.Valid()
      && Buffers(readQueue.chunks, state == Error)
      && Progress() && Conserved()
    }

    /** The reader has done all that it can with what has arrived. */
    ghost predicate Waiting()
      reads this, readQueue, contentQueue
    {
      match state
      case Read => NoHeader(Rest(readQueue.chunks))
      case ReadPost => Rest(readQueue.chunks) == [] && contentQueue.bytesIn < contentLength
      case _ => false
    }

    constructor (bodyLength: Bytes -> nat)
      ensures Valid() && Waiting() && this.bodyLength == bodyLength && received == [] && log == [] &&
              fresh(readQueue) && fresh(contentQueue)
      ensures state == Read && httpStatus == 0 && keepAlive && Total(readQueue.chunks) == 0
    {
      readQueue := new Queue();
      contentQueue := new Queue();
      this.bodyLength := bodyLength;
      state, request, contentLength, httpStatus, keepAlive := Read, [], 0, 0, true;
      received, log, done, inRequest := [], [], [], false;
    }

    /** Appends an unused buffer to the read queue. */
    method NewBuffer()
      requires readQueue.Valid() && Buffers(readQueue.chunks, false)
      modifies readQueue`chunks, readQueue`unused, readQueue`unusedChunks
      ensures readQueue.Valid() && Buffers(readQueue.chunks, true) && readQueue.chunks != []
      ensures Rest(readQueue.chunks) == Rest(old(readQueue.chunks))
      ensures Total(readQueue.chunks) == Total(old(readQueue.chunks))
    {
      TotalConcat(readQueue.chunks, [readQueue.Spare().(kind := MemChunk, mem := [], offset := 0)]);
      readQueue.AddMem([], false);
    }

    /** Reads from the socket into the last buffer, or into a new one. */
    method HandleRead(a: Arrival, reuse: bool) returns (r: int)
      requires readQueue.Valid() && Buffers(readQueue.chunks, false)
      modifies this`state, this`received, readQueue`chunks, readQueue`unused, readQueue`unusedChunks
      ensures readQueue.Valid() && Buffers(readQueue.chunks, true)
      ensures received == old(received) + Octets(a) && Rest(readQueue.chunks) == Rest(old(readQueue.chunks)) + Octets(a)
      ensures Total(readQueue.chunks) == Total(old(readQueue.chunks)) + |Octets(a)|
      ensures r == match a case Failed => -1 case Closed => -2 case _ => 0
      ensures state == if a.Failed? then Error else old(state)
    {
      hide Rest, Unsent, Total, Content;
      if |readQueue.chunks| == 0 || !reuse {
        NewBuffer();
      }
      match a {
        case Failed =>
          state := Error;
          return -1;
        case Closed =>
          return -2;
        case Nothing =>
          return 0;
        case Data(octets) =>
          FillLast(readQueue.chunks, octets);
          TotalFilled(readQueue.chunks, octets);
          var n := |readQueue.chunks| - 1;
          readQueue.chunks := readQueue.chunks[n := Filled(readQueue.chunks[n], octets)];
          BuffersValid(readQueue.chunks);
          received := received + octets;
          return 0;
      }
    }

    /** Moves one unused buffer to the stack of unused chunks. */
    method Unlink(i: nat)
      requires readQueue.Valid() && i < |readQueue.chunks| && readQueue.chunks[i].mem == []
      modifies readQueue`chunks, readQueue`unused, readQueue`unusedChunks
      ensures readQueue.Valid() && readQueue.chunks == old(readQueue.chunks)[..i] + old(readQueue.chunks)[i + 1..]
      ensures multiset(readQueue.chunks) + multiset(readQueue.unused) ==
              old(multiset(readQueue.chunks) + multiset(readQueue.unused))
    {
      WithoutOne(readQueue.chunks, i);
      readQueue.unused := [readQueue.chunks[i]] + readQueue.unused;
      readQueue.unusedChunks := readQueue.unusedChunks + 1;
      readQueue.chunks := readQueue.chunks[..i] + readQueue.chunks[i + 1..];
    }

    /** Moves unused buffers of the read queue to the stack of unused chunks. */
    method CleanUp()
      requires readQueue.Valid() && forall c | c in readQueue.chunks :: c.kind == MemChunk
      modifies readQueue`chunks, readQueue`unused, readQueue`unusedChunks
      ensures readQueue.Valid() && readQueue.chunks == Cleaned(old(readQueue.chunks))
      ensures multiset(readQueue.chunks) + multiset(readQueue.unused) ==
              old(multiset(readQueue.chunks) + multiset(readQueue.unused))
    {
      hide CleaningAt, Cleaned, Rest;
      ghost var s := readQueue.chunks;
      var c := 0;
      CleaningBegin(s);
      while c < |readQueue.chunks|
        invariant readQueue.Valid() && c <= |readQueue.chunks|
        invariant CleaningAt(readQueue.chunks, c, s)
        invariant multiset(readQueue.chunks) + multiset(readQueue.unused) ==
                  old(multiset(readQueue.chunks) + multiset(readQueue.unused))
        decreases |readQueue.chunks| - c
      {
        CleaningStep(readQueue.chunks, c, s);
        if c == 0 && |readQueue.chunks[c].mem| == 0 {
          Unlink(0);
        } else if c + 1 < |readQueue.chunks| && |readQueue.chunks[c + 1].mem| == 0 {
          Unlink(c + 1);
          c := c + 1;
        } else {
          c := c + 1;
        }
      }
      CleaningEnd(readQueue.chunks, s);
    }

    /** The first n unsent octets of a chunk; its offset moves behind them. */
    method TakeOut(c: nat, n: nat) returns (b: Bytes)
      requires Buffers(readQueue.chunks, false)
      requires c < |readQueue.chunks| && n <= |Unsent(readQueue.chunks[c])|
      modifies readQueue`chunks
      ensures readQueue.chunks == Take(old(readQueue.chunks), c, n)
      ensures b == Unsent(old(readQueue.chunks[c]))[..n]
    {
      b := Unsent(readQueue.chunks[c])[..n];
      readQueue.chunks := readQueue.chunks[c := readQueue.chunks[c].(offset := readQueue.chunks[c].offset + n)];
    }

    /** Copies the header out: whole chunks before chunk k, then off octets of chunk k. */
    method CopyHeader(k: nat, off: nat)
      requires Buffers(readQueue.chunks, false)
      requires k < |readQueue.chunks| && off <= |Unsent(readQueue.chunks[k])|
      modifies this`request, readQueue`chunks
      ensures Buffers(readQueue.chunks, false)
      ensures request + Rest(readQueue.chunks) == Rest(old(readQueue.chunks))
      ensures |request| == Begin(Parts(old(readQueue.chunks)), k) + off
      ensures Total(readQueue.chunks) == Total(old(readQueue.chunks))
    {
      hide Rest, Unsent, Parts, Total;
      ghost var s := readQueue.chunks;
      request := [];
      var c := 0;
      while c < k
        invariant c <= k && CopyingAt(readQueue.chunks, s, c, request) && Total(readQueue.chunks) == Total(s)
      {
        var n := |Unsent(readQueue.chunks[c])|;
        CopyWhole(readQueue.chunks, s, c, request, n);
        TotalTaken(readQueue.chunks, c, n);
        var b := TakeOut(c, n);
        request := request + b;
        c := c + 1;
      }
      CopyPart(readQueue.chunks, s, k, request, off);
      TotalTaken(readQueue.chunks, k, off);
      var b := TakeOut(k, off);
      request := request + b;
    }

    /** Refuses a header that is not complete although the queue holds more than a header may have. */
    method RefuseLong()
      requires Valid() && state == Read
      modifies this`state, this`httpStatus, this`keepAlive
      ensures Valid() && !inRequest
      ensures (state, httpStatus, keepAlive) ==
              if Total(readQueue.chunks) > 64 * 1024 then (HandleRequest, 414, false) else (Read, 0, old(keepAlive))
    {
      hide Rest, Total, HeaderEnd, Flatten, WellFormed;
      var length := readQueue.Length();
      if length > MAX_HEADER {
        httpStatus, keepAlive, state := 414, false, HandleRequest;
      }
    }

    /** Makes the header that was found the current request. */
    method TakeHeader(k: nat, off: nat)
      requires Valid() && state == Read && k < |readQueue.chunks| && off <= |Unsent(readQueue.chunks[k])|
      requires HeaderEnd(Rest(readQueue.chunks), Begin(Parts(readQueue.chunks), k) + off)
      modifies this`request, this`state, this`inRequest, readQueue`chunks
      ensures Valid() && state == RequestEnd && inRequest && httpStatus == 0
      ensures HeaderEnd(Rest(old(readQueue.chunks)), |request|)
      ensures request + Rest(readQueue.chunks) == Rest(old(readQueue.chunks))
      ensures Total(readQueue.chunks) == Total(old(readQueue.chunks))
    {
      hide Begin, Parts, Unsent, Rest, Flatten, WellFormed, HeaderEnd, EndsAt, Total;
      NoneLeft(contentQueue.chunks);
      CopyHeader(k, off);
      BuffersValid(readQueue.chunks);
      HeaderEndPrefix(request, Rest(readQueue.chunks), |request|);
      inRequest := true;
      state := RequestEnd;
      assert Pending() == Rest(readQueue.chunks);
    }

    /** Looks for a header end and copies the header out; a header that is too long is refused. */
    method ReadHeader()
      requires Valid() && state == Read
      modifies this`request, this`state, this`httpStatus, this`keepAlive, this`inRequest, readQueue`chunks
      ensures Valid()
      ensures state == RequestEnd ==>
                && HeaderEnd(Rest(old(readQueue.chunks)), |request|) && inRequest
                && request + Rest(readQueue.chunks) == Rest(old(readQueue.chunks))
                && httpStatus == 0 && keepAlive == old(keepAlive)
      ensures state != RequestEnd ==>
                && NoHeader(Rest(old(readQueue.chunks))) && readQueue.chunks == old(readQueue.chunks) && !inRequest
                && (state, httpStatus, keepAlive) ==
                   if Total(readQueue.chunks) > 64 * 1024 then (HandleRequest, 414, false)
                   else (Read, 0, old(keepAlive))
      ensures Total(readQueue.chunks) == Total(old(readQueue.chunks))
    {
      hide *;
      ghost var u := Rest(readQueue.chunks);
      QueueStream(readQueue.chunks);
      var found, k, off := FindHeaderEnd(Parts(readQueue.chunks), u);
      if found {
        TakeHeader(k, off);
      } else {
        RefuseLong();
      }
    }

    /** Puts a chunk with more octets in the place of the last one of the content queue. */
    method PutLast(c: Chunk, ghost octets: Bytes)
      requires contentQueue.Valid() && AtStart(contentQueue.chunks) && contentQueue.chunks != []
      requires c.offset == 0 && Sound(c) && Unsent(c) == Unsent(contentQueue.chunks[|contentQueue.chunks| - 1]) + octets
      modifies contentQueue`chunks
      ensures contentQueue.Valid() && AtStart(contentQueue.chunks) &&
              |contentQueue.chunks| == old(|contentQueue.chunks|)
      ensures contentQueue.chunks[|contentQueue.chunks| - 1] == c
      ensures Rest(contentQueue.chunks) == Rest(old(contentQueue.chunks)) + octets
    {
      LastReplaced(contentQueue.chunks, c, octets);
      contentQueue.chunks := contentQueue.chunks[|contentQueue.chunks| - 1 := c];
    }

    /** Makes the last chunk a buffer, if need be a new one. */
    method BufferToFill() returns (c: Chunk)
      requires contentQueue.Valid() && AtStart(contentQueue.chunks)
      modifies contentQueue`chunks, contentQueue`unused, contentQueue`unusedChunks
      ensures contentQueue.Valid() && AtStart(contentQueue.chunks)
      ensures contentQueue.chunks != [] && c == contentQueue.chunks[|contentQueue.chunks| - 1]
      ensures c.kind == MemChunk && c.offset == 0 && Sound(c)
      ensures |contentQueue.chunks| == old(|contentQueue.chunks|) +
                if old(contentQueue.chunks != [] && Last(contentQueue.chunks).kind == MemChunk) then 0 else 1
      ensures Rest(contentQueue.chunks) == Rest(old(contentQueue.chunks))
    {
      hide Rest, Unsent;
      var n := |contentQueue.chunks|;
      if n == 0 || contentQueue.chunks[n - 1].kind != MemChunk {
        contentQueue.AddMem([], false);
        n := n + 1;
      }
      c := contentQueue.chunks[n - 1];
      assert c in contentQueue.chunks;
    }

    /** Appends octets of a body to a buffer in memory. */
    method StoreInMemory(octets: Bytes)
      requires contentQueue.Valid() && AtStart(contentQueue.chunks)
      modifies contentQueue`chunks, contentQueue`unused, contentQueue`unusedChunks
      ensures contentQueue.Valid() && AtStart(contentQueue.chunks)
      ensures Rest(contentQueue.chunks) == Rest(old(contentQueue.chunks)) + octets
      ensures contentQueue.chunks != [] && Last(contentQueue.chunks).kind == MemChunk
    {
      hide Rest, Unsent, Sound, AtStart;
      var c := BufferToFill();
      if |octets| > 0 {
        FilledUnsent(c, octets);
        PutLast(Filled(c, octets), octets);
      }
    }

    /** Opens or closes the file of the last chunk. */
    method SetOpen(open: bool)
      requires contentQueue.Valid() && AtStart(contentQueue.chunks) && contentQueue.chunks != []
      modifies contentQueue`chunks
      ensures contentQueue.Valid() && AtStart(contentQueue.chunks)
      ensures var n := |old(contentQueue.chunks)| - 1;
              contentQueue.chunks == old(contentQueue.chunks)[n := old(contentQueue.chunks)[n].(isOpen := open)]
      ensures Rest(contentQueue.chunks) == Rest(old(contentQueue.chunks))
    {
      hide Rest;
      var n := |contentQueue.chunks| - 1;
      var last := contentQueue.chunks[n].(isOpen := open);
      assert contentQueue.chunks[n] in contentQueue.chunks;
      LastReplaced(contentQueue.chunks, last, []);
      contentQueue.chunks := contentQueue.chunks[n := last];
    }

    /** Makes the last chunk a temporary file that is not full, if need be a new one; it may not be open. */
    method FileToFill(d: Disk) returns (c: Chunk)
      requires contentQueue.Valid() && AtStart(contentQueue.chunks)
      modifies contentQueue`chunks, contentQueue`unused, contentQueue`unusedChunks
      ensures contentQueue.Valid() && AtStart(contentQueue.chunks)
      ensures contentQueue.chunks != [] && c == contentQueue.chunks[|contentQueue.chunks| - 1]
      ensures c.kind == FileChunk && |c.file| < 1024 * 1024
      ensures c.isOpen <==> d.created || old(LastFits(contentQueue.chunks) && Last(contentQueue.chunks).isOpen)
      ensures |contentQueue.chunks| == old(|contentQueue.chunks|) + if old(LastFits(contentQueue.chunks)) then 0 else 1
      ensures Rest(contentQueue.chunks) == Rest(old(contentQueue.chunks))
    {
      hide Rest, Total, Sound, Unsent, Content;
      var n := |contentQueue.chunks|;
      if n > 0 && contentQueue.chunks[n - 1].kind == FileChunk && contentQueue.chunks[n - 1].isTemp &&
          contentQueue.chunks[n - 1].offset == 0 {
        var last := contentQueue.chunks[n - 1];
        if |last.file| < TEMPFILE_SIZE {
          if !last.isOpen {
            SetOpen(d.created);
          }
        } else {
          SetOpen(false);
          contentQueue.GetAppendTempfile(d.created);
        }
      } else {
        contentQueue.GetAppendTempfile(d.created);
      }
      c := contentQueue.chunks[|contentQueue.chunks| - 1];
    }

    /** Appends octets of a body to a temporary file, which may fail. */
    method StoreInFile(octets: Bytes, d: Disk) returns (ok: bool)
      requires contentQueue.Valid() && AtStart(contentQueue.chunks)
      modifies contentQueue`chunks, contentQueue`unused, contentQueue`unusedChunks
      ensures contentQueue.Valid() && AtStart(contentQueue.chunks)
      ensures Rest(contentQueue.chunks) == Rest(old(contentQueue.chunks)) + if ok then octets else []
      ensures ok <==> d.written && (d.created || old(LastFits(contentQueue.chunks) && Last(contentQueue.chunks).isOpen))
      ensures ok ==>
                && contentQueue.chunks != [] && Last(contentQueue.chunks).kind == FileChunk
                && (Last(contentQueue.chunks).isOpen <==> contentQueue.bytesIn + |octets| != contentLength)
    {
      var c := FileToFill(d);
      assert Sound(c);
      if !c.isOpen {
        return false;
      }
      if !d.written {
        PutLast(c.(isOpen := false), []);
        return false;
      }
      var open := contentQueue.bytesIn + |octets| != contentLength;
      PutLast(c.(file := c.file + octets, isOpen := open), octets);
      return true;
    }

    /** While a body is copied: what is in both queues together stays. */
    ghost predicate Copying(total: Bytes)
      reads this`contentLength, readQueue, contentQueue
    {
      && readQueue != contentQueue && readQueue.Valid() && contentQueue.Valid()
      && Buffers(readQueue.chunks, false) && AtStart(contentQueue.chunks)
      && |Rest(contentQueue.chunks)| == contentQueue.bytesIn <= contentLength
      && Pending() == total
    }

    /** Appends octets of a body to the content queue: in memory, or if the body is large in files. */
    method Store(octets: Bytes, d: Disk) returns (ok: bool)
      requires contentQueue.Valid() && AtStart(contentQueue.chunks)
      modifies contentQueue`chunks, contentQueue`unused, contentQueue`unusedChunks
      ensures contentQueue.Valid() && AtStart(contentQueue.chunks)
      ensures Rest(contentQueue.chunks) == Rest(old(contentQueue.chunks)) + if ok then octets else []
      ensures d == Disk(true, true) || contentLength <= 64 * 1024 ==> ok
      ensures ok ==> contentQueue.chunks != []
                     && Last(contentQueue.chunks).kind == if contentLength > 64 * 1024 then FileChunk else MemChunk
    {
      if contentLength > MAX_IN_MEMORY {
        ok := StoreInFile(octets, d);
      } else {
        StoreInMemory(octets);
        ok := true;
      }
    }

    /** Copies what is wanted of one chunk. */
    method CopyChunk(c: nat, d: Disk, ghost total: Bytes) returns (ok: bool)
      requires Copying(total) && c < |readQueue.chunks| && SpentTo(readQueue.chunks, c) &&
               contentQueue.bytesIn != contentLength
      modifies readQueue`chunks, contentQueue`chunks, contentQueue`unused, contentQueue`unusedChunks,
               contentQueue`bytesIn
      ensures Copying(total) && |readQueue.chunks| == old(|readQueue.chunks|) && (d == Disk(true, true) ==> ok)
      ensures Total(readQueue.chunks) == Total(old(readQueue.chunks))
      ensures ok && contentQueue.bytesIn != contentLength ==> SpentTo(readQueue.chunks, c + 1)
    {
      hide Rest, Unsent, Total;
      var want := contentLength - contentQueue.bytesIn;
      var have := |Unsent(readQueue.chunks[c])|;
      var n := if have > want then want else have;
      ok := Store(Unsent(readQueue.chunks[c])[..n], d);
      if ok {
        MoveStep(readQueue.chunks, c, n, old(Rest(contentQueue.chunks)), Rest(contentQueue.chunks), total);
        TotalTaken(readQueue.chunks, c, n);
        var _ := TakeOut(c, n);
        BuffersValid(readQueue.chunks);
        contentQueue.bytesIn := contentQueue.bytesIn + n;
      }
    }

    /** The loop over the chunks. */
    method CopyBody(disk: nat -> Disk, ghost total: Bytes) returns (ok: bool)
      requires Copying(total)
      modifies readQueue`chunks, contentQueue`chunks, contentQueue`unused, contentQueue`unusedChunks,
               contentQueue`bytesIn
      ensures Copying(total) && ((forall i :: disk(i) == Disk(true, true)) ==> ok)
      ensures Total(readQueue.chunks) == Total(old(readQueue.chunks))
      ensures ok && contentQueue.bytesIn != contentLength ==> Rest(readQueue.chunks) == []
    {
      var c := 0;
      ok := true;
      while c < |readQueue.chunks| && contentQueue.bytesIn != contentLength
        invariant Copying(total) && c <= |readQueue.chunks| && Total(readQueue.chunks) == Total(old(readQueue.chunks))
        invariant contentQueue.bytesIn != contentLength ==> SpentTo(readQueue.chunks, c)
      {
        ok := CopyChunk(c, disk(c), total);
        if !ok {
          assert disk(c) != Disk(true, true);
          return;
        }
        c := c + 1;
      }
      if contentQueue.bytesIn != contentLength {
        AllSpent(Parts(readQueue.chunks));
      }
    }

    /** Copies octets of the body from the read queue, chunk by chunk, until it is complete. */
    method ReadBody(disk: nat -> Disk)
      requires Valid() && state == ReadPost
      modifies this`state, this`httpStatus, this`keepAlive, readQueue`chunks
      modifies contentQueue`chunks, contentQueue`unused, contentQueue`unusedChunks, contentQueue`bytesIn
      ensures Valid() && Pending() == old(Pending()) && ((forall i :: disk(i) == Disk(true, true)) ==> httpStatus == 0)
      ensures httpStatus == 0 ==> state == (if contentQueue.bytesIn == contentLength then HandleRequest else ReadPost)
      ensures state == ReadPost ==> Rest(readQueue.chunks) == []
      ensures if httpStatus == 0 then keepAlive == old(keepAlive)
              else state == HandleRequest && httpStatus == 413 && !keepAlive
      ensures Total(readQueue.chunks) == Total(old(readQueue.chunks))
    {
      hide Rest, Total, Flatten, WellFormed, HeaderEnd;
      ghost var total := Pending();
      var ok := CopyBody(disk, total);
      if !ok {
        httpStatus, keepAlive, state := 413, false, HandleRequest;
      } else if contentQueue.bytesIn == contentLength {
        state := HandleRequest;
      }
    }

    /** Reads what the socket has, if it is readable, and removes an unused buffer that this may have left. */
    method Receive(a: Option<Arrival>, reuse: bool) returns (r: int)
      requires Valid() && (state == Read || state == ReadPost)
      modifies this`state, this`received, readQueue`chunks, readQueue`unused, readQueue`unusedChunks
      ensures Valid() && state == if a == Some(Failed) then Error else old(state)
      ensures received == old(received) + Arrived(a)
      ensures Rest(readQueue.chunks) == Rest(old(readQueue.chunks)) + Arrived(a)
      ensures r == if a == Some(Failed) then -1 else if a == Some(Closed) then -2 else 0
      ensures Total(readQueue.chunks) == Total(old(readQueue.chunks)) + |Arrived(a)|
    {
      hide Rest, Total, Flatten, WellFormed, HeaderEnd, Cleaned, Sound;
      ghost var prefix := done + if inRequest then request + Rest(contentQueue.chunks) else [];
      PrefixOf(done, request, Rest(contentQueue.chunks), Rest(readQueue.chunks), inRequest);
      ghost var rest := Rest(readQueue.chunks);
      r := 0;
      if a.Some? {
        r := HandleRead(a.value, reuse);
      }
      Associative(prefix, rest, Arrived(a));
      if r != -1 {
        CleanedKeepsBytes(readQueue.chunks);
        TotalCleaned(readQueue.chunks);
        CleanedBuffers(readQueue.chunks);
        CleanUp();
      }
      PrefixOf(done, request, Rest(contentQueue.chunks), Rest(readQueue.chunks), inRequest);
    }

    /** Drops chunks of the read queue that have been copied out completely. */
    method DropFinished()
      requires Valid()
      modifies readQueue`chunks, readQueue`unused, readQueue`unusedChunks
      ensures Valid() && Rest(readQueue.chunks) == Rest(old(readQueue.chunks))
      ensures Total(readQueue.chunks) <= Total(old(readQueue.chunks))
    {
      TotalDropped(readQueue.chunks, Leading(readQueue.chunks));
      readQueue.RemoveFinished();
    }

    /** The reader on a header, with what has been received. */
    method FinishHeader(closed: bool)
      requires Valid() && state == Read
      modifies this`request, this`state, this`httpStatus, this`keepAlive, this`inRequest
      modifies readQueue`chunks, readQueue`unused, readQueue`unusedChunks
      ensures Valid() && keepAlive == (old(keepAlive) && httpStatus == 0)
      ensures var u := Rest(old(readQueue.chunks));
              if state == RequestEnd then
                HeaderEnd(u, |request|) && request + Rest(readQueue.chunks) == u && inRequest && httpStatus == 0
              else
                && NoHeader(u) && Rest(readQueue.chunks) == u && !inRequest
                && (state, httpStatus) ==
                   if Total(old(readQueue.chunks)) > 64 * 1024 then (HandleRequest, 414)
                   else (if closed then Error else Read, 0)
      ensures Total(readQueue.chunks) <= Total(old(readQueue.chunks))
    {
      hide HeaderEnd, NoHeader, Flatten, WellFormed, Rest, Total;
      ReadHeader();
      if closed && state == Read {
        state := Error;
      }
      DropFinished();
    }

    /** The reader on a body. */
    method FinishBody(closed: bool, disk: nat -> Disk)
      requires Valid() && state == ReadPost
      modifies this`state, this`httpStatus, this`keepAlive
      modifies readQueue`chunks, readQueue`unused, readQueue`unusedChunks
      modifies contentQueue`chunks, contentQueue`unused, contentQueue`unusedChunks, contentQueue`bytesIn
      ensures Valid() && Pending() == old(Pending()) && keepAlive == (old(keepAlive) && httpStatus == 0)
      ensures if httpStatus != 0 then state == HandleRequest && httpStatus == 413
              else if contentQueue.bytesIn == contentLength then state == HandleRequest
              else state == (if closed then Error else ReadPost) && Rest(readQueue.chunks) == []
      ensures (forall i :: disk(i) == Disk(true, true)) ==> httpStatus == 0
      ensures Total(readQueue.chunks) <= Total(old(readQueue.chunks))
    {
      hide Rest, Total, Flatten, WellFormed;
      ReadBody(disk);
      if closed && state == ReadPost {
        state := Error;
      }
      DropFinished();
    }

    /**
     One call of the reader. A header is found exactly where the unsent octets first
     have one, and refused exactly if there is none and the queue is too long; octets of
     a body move from one queue to the other; the rest stays.
     */
    method HandleReadState(a: Option<Arrival>, reuse: bool, disk: nat -> Disk) returns (r: int)
      requires Valid() && (state == Read || state == ReadPost)
      modifies this`state, this`request, this`httpStatus, this`keepAlive, this`received, this`inRequest, readQueue,
               contentQueue
      ensures Valid() && received == old(received) + Arrived(a) && keepAlive == (old(keepAlive) && httpStatus == 0)
      ensures r == (if a == Some(Failed) then -1 else 0) && (r == -1 ==> state == Error && httpStatus == 0)
      ensures var u, n := Rest(old(readQueue.chunks)) + Arrived(a), Total(old(readQueue.chunks)) + |Arrived(a)|;
              r == 0 && old(state) == Read ==>
                if state == RequestEnd then
                  HeaderEnd(u, |request|) && request + Rest(readQueue.chunks) == u && inRequest && httpStatus == 0
                else
                  && NoHeader(u) && Rest(readQueue.chunks) == u && !inRequest
                  && (state, httpStatus) ==
                     if n > 64 * 1024 then (HandleRequest, 414) else (if a == Some(Closed) then Error else Read, 0)
      ensures r == 0 && old(state) == ReadPost ==>
                && request == old(request) && contentLength == old(contentLength)
                && Pending() == old(Pending()) + Arrived(a)
                && (if httpStatus != 0 then state == HandleRequest && httpStatus == 413
                    else if contentQueue.bytesIn == contentLength then state == HandleRequest
                    else state == (if a == Some(Closed) then Error else ReadPost) && Rest(readQueue.chunks) == [])
                && ((forall i :: disk(i) == Disk(true, true)) ==> httpStatus == 0)
      ensures Total(readQueue.chunks) <= Total(old(readQueue.chunks)) + |Arrived(a)|
    {
      hide Rest, Total, Flatten, WellFormed, HeaderEnd, NoHeader;
      ghost var content, rest := Rest(contentQueue.chunks), Rest(readQueue.chunks);
      Associative(content, rest, Arrived(a));
      var got := Receive(a, reuse);
      if got == -1 {
        return -1;
      }
      if state == Read {
        FinishHeader(got == -2);
      } else {
        FinishBody(got == -2, disk);
      }
      return 0;
    }

    /** The header has been parsed: the body is read next, if there is one. */
    method EndRequest()
      requires Valid() && state == RequestEnd
      modifies this`state, this`contentLength
      ensures Valid() && state == if bodyLength(request) > 0 then ReadPost else HandleRequest
      ensures contentLength == bodyLength(request)
    {
      contentLength := bodyLength(request);
      state := if contentLength > 0 then ReadPost else HandleRequest;
    }

    /** The request has been handled: the connection waits for the next one. */
    method NextRequest()
      requires Valid() && state == HandleRequest && httpStatus == 0
      modifies this`state, this`log, this`done, this`inRequest, contentQueue
      ensures Valid() && state == Read
      ensures log == old(log) + [Message(request, old(Rest(contentQueue.chunks)))]
    {
      hide Flatten, WellFormed, HeaderEnd, Buffers, EndsAt;
      ghost var m := Message(request, Rest(contentQueue.chunks));
      LogExtended(log, m, Rest(readQueue.chunks), bodyLength);
      contentQueue.Reset();
      log, done, inRequest := log + [m], Flatten(log + [m]), false;
      state := Read;
    }

    lemma Accounted()
      requires Valid()
      ensures received == Flatten(log) + Unfinished() && WellFormed(log, bodyLength)
    {}

    /** A connection that is waiting has not received all of another message. */
    lemma WaitingForMessage()
      requires Valid() && Waiting()
      ensures NoMessage(Unfinished(), bodyLength) && httpStatus == 0 && state != Error
    {
      if state == ReadPost {
        HeaderEndPrefix(request, Pending(), |request|);
        assert Unfinished()[..|request|] == request;
      }
    }

    /** The header is complete: the body is read, if there is one. */
    method AfterHeader(disk: nat -> Disk)
      requires Valid() && state == RequestEnd
      modifies this, readQueue, contentQueue
      ensures Valid() && received == old(received) && |Rest(readQueue.chunks)| <= |Rest(old(readQueue.chunks))|
      ensures state == HandleRequest || Waiting()
      ensures httpStatus == 0 || (httpStatus == 413 && exists i :: disk(i) != Disk(true, true))
      ensures Total(readQueue.chunks) <= Total(old(readQueue.chunks))
    {
      hide HeaderEnd, NoHeader, Flatten, WellFormed, Total;
      EndRequest();
      if state == ReadPost {
        NothingArrived(Pending());
        var _ := HandleReadState(None, false, disk);
      }
    }

    /** The message is complete: the next header is read. */
    method AfterMessage(disk: nat -> Disk)
      requires Valid() && state == HandleRequest && httpStatus == 0
      modifies this, readQueue, contentQueue
      ensures Valid() && received == old(received)
      ensures state == RequestEnd || Waiting() || (state == HandleRequest && httpStatus == 414)
      ensures if httpStatus == 0 then state != HandleRequest else httpStatus == 414
      ensures httpStatus != 0 ==> Total(old(readQueue.chunks)) > 64 * 1024 && NoHeader(Unfinished())
      ensures |Rest(readQueue.chunks)| + (if state == RequestEnd then 1 else 0) <= |Rest(old(readQueue.chunks))|
      ensures Total(readQueue.chunks) <= Total(old(readQueue.chunks))
    {
      hide NoHeader, Flatten, WellFormed, Rest, Total;
      NextRequest();
      NothingArrived(Rest(readQueue.chunks));
      var _ := HandleReadState(None, false, disk);
    }

    lemma NotRefused()
      requires Valid() && state == RequestEnd
      ensures httpStatus == 0
    {}

    /** The header, then the body, then the next request, for as long as there is one in the queue. */
    method Advance(disk: nat -> nat -> Disk)
      requires Valid() && (state == Read || state == ReadPost ==> Waiting())
      modifies this, readQueue, contentQueue
      ensures Valid() && received == old(received) && (Waiting() || state == Error || httpStatus != 0)
      ensures state == Error ==> old(state) == Error
      ensures old(httpStatus) != 0 ==> httpStatus == old(httpStatus) && Unfinished() == old(Unfinished())
      ensures old(httpStatus) == 0 != httpStatus ==>
                || (httpStatus == 413 && exists k, i :: disk(k)(i) != Disk(true, true))
                || (httpStatus == 414 && Total(old(readQueue.chunks)) > 64 * 1024 && NoHeader(Unfinished()))
      ensures Total(readQueue.chunks) <= Total(old(readQueue.chunks))
    {
      hide Valid, NoHeader, Rest, Total;
      var calls := 0;
      while state == RequestEnd || (state == HandleRequest && httpStatus == 0)
        invariant Valid() && received == old(received) && (state == Read || state == ReadPost ==> Waiting())
        invariant state == Error ==> old(state) == Error
        invariant old(httpStatus) != 0 ==> httpStatus == old(httpStatus) && Unfinished() == old(Unfinished())
        invariant old(httpStatus) == 0 != httpStatus ==>
                    || (httpStatus == 413 && exists k, i :: disk(k)(i) != Disk(true, true))
                    || (httpStatus == 414 && Total(old(readQueue.chunks)) > 64 * 1024 && NoHeader(Unfinished()))
        invariant Total(readQueue.chunks) <= Total(old(readQueue.chunks))
        decreases |Rest(readQueue.chunks)|, if state == RequestEnd then 2
                  else if state == HandleRequest && httpStatus == 0 then 1 else 0
      {
        if state == RequestEnd {
          NotRefused();
          AfterHeader(disk(calls));
        } else {
          AfterMessage(disk(calls));
        }
        calls := calls + 1;
      }
    }

    /** An event: the reader is called, and all that has arrived is handled. */
    method Serve(e: Event)
      requires Valid() && Waiting()
      modifies this, readQueue, contentQueue
      ensures Valid() && received == old(received) + Arrived(e.arrival)
      ensures Waiting() || state == Error || httpStatus != 0
      ensures state == Error ==> e.arrival == Some(Failed) || e.arrival == Some(Closed)
      ensures httpStatus != 0 ==>
                || (httpStatus == 413 && !DisksWork(e))
                || (httpStatus == 414 && Total(old(readQueue.chunks)) + |Arrived(e.arrival)| > 64 * 1024
                    && NoHeader(Unfinished()))
      ensures Total(readQueue.chunks) <= Total(old(readQueue.chunks)) + |Arrived(e.arrival)|
    {
      hide HeaderEnd, NoHeader, Flatten, WellFormed, Rest, Total;
      var _ := HandleReadState(e.arrival, e.reuse, e.first);
      Advance(e.later);
    }
  }

  /** Connections that wait after the same octets have read the same messages, however the octets arrived. */
  lemma SameOctetsSameLog(c: Connection, d: Connection)
    requires c.Valid() && d.Valid() && c.bodyLength == d.bodyLength && c.Waiting() && d.Waiting()
    requires c.received == d.received
    ensures c.log == d.log && c.Unfinished() == d.Unfinished()
  {
    c.WaitingForMessage();
    d.WaitingForMessage();
    DivisionUnique(c.log, d.log, c.Unfinished(), d.Unfinished(), c.bodyLength);
  }

  /** At any other time one has read the first messages of the other. */
  lemma SameOctetsSameMessages(c: Connection, d: Connection)
    requires c.Valid() && d.Valid() && c.bodyLength == d.bodyLength
    requires c.received == d.received && |c.log| <= |d.log|
    ensures c.log == d.log[..|c.log|]
  {
    MessagesDetermined(c.log, d.log, c.received[|Flatten(c.log)|..], d.received[|Flatten(d.log)|..], c.bodyLength);
  }

  /**
   A whole connection, up to its end: what arrived is the messages in the log, in order,
   and a rest that holds no whole message. It ends early only if the peer closes, a read
   or a disk fails, or a header is missing after more octets than one may have.
   */
  method Run(bodyLength: Bytes -> nat, events: seq<Event>) returns (c: Connection, n: nat)
    ensures c.Valid() && c.bodyLength == bodyLength && n <= |events|
    ensures c.received == AllArrived(events[..n]) == Flatten(c.log) + c.Unfinished()
    ensures WellFormed(c.log, bodyLength)
    ensures if c.Waiting() then n == |events| && NoMessage(c.Unfinished(), bodyLength)
            else c.state == Error || c.httpStatus != 0
    ensures c.state == Error ==>
              n > 0 && (events[n - 1].arrival == Some(Failed) || events[n - 1].arrival == Some(Closed))
    ensures c.httpStatus != 0 ==>
              || (c.httpStatus == 413 && n > 0 && !DisksWork(events[n - 1]))
              || (c.httpStatus == 414 && |c.received| > 64 * 1024 && NoHeader(c.Unfinished()))
  {
    hide HeaderEnd, NoHeader, Flatten, WellFormed, Buffers, AtStart, NoMessage, Rest, Total, DisksWork, Arrived;
    hide Connection.Progress, Connection.Pending, Queue.Valid;
    c := new Connection(bodyLength);
    n := 0;
    while n < |events| && c.httpStatus == 0 && c.state != Error
      invariant fresh(c) && fresh(c.readQueue) && fresh(c.contentQueue) && n <= |events|
      invariant c.Valid() && c.bodyLength == bodyLength && c.received == AllArrived(events[..n])
      invariant c.Waiting() || c.state == Error || c.httpStatus != 0
      invariant c.state == Error ==>
                  n > 0 && (events[n - 1].arrival == Some(Failed) || events[n - 1].arrival == Some(Closed))
      invariant c.httpStatus != 0 ==>
                  || (c.httpStatus == 413 && n > 0 && !DisksWork(events[n - 1]))
                  || (c.httpStatus == 414 && |c.received| > 64 * 1024 && NoHeader(c.Unfinished()))
      invariant Total(c.readQueue.chunks) <= |c.received|
    {
      c.Serve(events[n]);
      assert events[..n + 1][..n] == events[..n];
      n := n + 1;
    }
    c.Accounted();
    if c.Waiting() {
      c.WaitingForMessage();
    }
  }
}
