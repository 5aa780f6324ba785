/**
 The transfer of a stream through a shared buffer between two processes that hand
 it to each other with two semaphores (03IPC/05shm): the steps of the writer and of
 the reader, in every interleaving.
 */
module ShmTransfer {
  import opened Wrappers

  type Bytes = seq<byte>

  const BUF_SIZE := 4096

  /** Where the writer stands: before sem_wait, read, sem_post, the test of count, the last sem_wait, or torn down. */
  datatype WriterAt = WWait | WFill | WPost | WTest | WLast | WDone

  /** Where the reader stands: before sem_wait, write, sem_post, the test of n, or at its end. */
  datatype ReaderAt = RWait | RDrain | RPost | RTest | RDone

  datatype State = State(
    pos: nat,              // how much of the input the writer has read
    output: Bytes,         // what the reader has written
    semWrite: nat, semRead: nat,
    count: nat, buf: Bytes,
    writer: WriterAt, reader: ReaderAt,
    n: nat)                // what the reader's last write returned

  ghost predicate Init(s: State) {
    && s.pos == 0 && s.output == [] && s.semWrite == 1 && s.semRead == 0
    && |s.buf| == BUF_SIZE && s.writer == WWait && s.reader == RWait
  }

  // ----- steps

  /** read: k bytes of the input, none only at its end. */
  ghost predicate FillStep(input: Bytes, s: State, s': State, k: nat) {
    && s.writer == WFill && s.pos + k <= |input| && k <= BUF_SIZE && (k == 0 ==> s.pos == |input|) &&
        |s'.buf| == BUF_SIZE
    && s'.buf[..k] == input[s.pos..s.pos + k]
    && s' == s.(pos := s.pos + k, count := k, buf := s'.buf, writer := WPost)
  }

  ghost predicate WriterStep(input: Bytes, s: State, s': State) {
    match s.writer
    case WWait => s.semWrite > 0 && s' == s.(semWrite := s.semWrite - 1, writer := WFill)
    case WFill => exists k :: FillStep(input, s, s', k)
    case WPost => s' == s.(semRead := s.semRead + 1, writer := WTest)
    case WTest => s' == s.(writer := if s.count == 0 then WLast else WWait)
    case WLast => s.semWrite > 0 && s' == s.(semWrite := s.semWrite - 1, writer := WDone)
    case WDone => false
  }

  /** write: n of the count bytes in the buffer. */
  ghost predicate DrainStep(s: State, s': State, n: nat) {
    && s.reader == RDrain && n <= s.count <= |s.buf|
    && s' == s.(output := s.output + s.buf[..n], n := n, reader := RPost)
  }

  /** Unless writes may be short, a write takes the whole block. */
  ghost predicate ReaderStep(s: State, s': State, short: bool) {
    match s.reader
    case RWait => s.semRead > 0 && s' == s.(semRead := s.semRead - 1, reader := RDrain)
    case RDrain => exists n :: DrainStep(s, s', n) && (n == s.count || (short && n > 0))
    case RPost => s' == s.(semWrite := s.semWrite + 1, reader := RTest)
    case RTest => s' == s.(reader := if s.n == 0 then RDone else RWait)
    case RDone => false
  }

  ghost predicate Next(input: Bytes, s: State, s': State, short: bool) {
    WriterStep(input, s, s') || ReaderStep(s, s', short)
  }

  ghost predicate Run(input: Bytes, run: seq<State>, short: bool) {
    run != [] && Init(run[0]) && forall i | 0 <= i < |run| - 1 :: Next(input, run[i], run[i + 1], short)
  }

  predicate Final(s: State) {
    s.writer == WDone && s.reader == RDone
  }

  /** Neither process can take a step. */
  ghost predicate Stuck(input: Bytes, s: State, short: bool) {
    forall s' :: !Next(input, s, s', short)
  }

  // ----- the invariant

  function One(b: bool): nat {
    if b then 1 else 0
  }

  /** The right to use the buffer: a semaphore has it, a process has it, or the writer has kept it at the end. */
  function Tokens(s: State): nat {
    s.semWrite + s.semRead + One(s.writer in {WFill, WPost, WDone}) + One(s.reader in {RDrain, RPost})
  }

  /** The buffer holds a block that has not been written out. */
  predicate Pending(s: State) {
    s.writer == WPost || s.semRead > 0 || s.reader == RDrain
  }

  /** The writer has met the end of the input. */
  predicate Ended(s: State) {
    s.count == 0 && s.writer in {WPost, WTest, WLast, WDone}
  }

  /** The reader has taken the empty block. */
  predicate Taken(s: State) {
    s.reader == RDone || (s.reader in {RPost, RTest} && s.n == 0)
  }

  /** The part of the invariant that short writes do not break. */
  ghost predicate Shape(input: Bytes, s: State) {
    && Tokens(s) == 1 && s.pos <= |input| && |s.buf| == BUF_SIZE
    && (Pending(s) ==> s.count <= BUF_SIZE)
    && (Ended(s) ==> s.pos == |input|)
    && (s.writer in {WLast, WDone} ==> Ended(s))
    && (Taken(s) <==> Ended(s) && !Pending(s))
    && (s.writer == WWait ==> !Pending(s) || s.count > 0)
  }

  /** The block in the buffer that has not been written out. */
  function Waiting(s: State): Bytes
    requires Pending(s) ==> s.count <= |s.buf|
  {
    if Pending(s) then s.buf[..s.count] else []
  }

  /** What has been read is what has been written out and what waits. */
  ghost predicate Whole(input: Bytes, s: State)
    requires Shape(input, s)
  {
    s.output + Waiting(s) == input[..s.pos]
  }

  ghost predicate Inv(input: Bytes, s: State) {
    Shape(input, s) && Whole(input, s)
  }

  lemma InitInv(input: Bytes, s: State)
    requires Init(s)
    ensures Inv(input, s)
  {}

  /** The writer keeps the shape, and wholeness; nothing is lost by it. */
  lemma WriterKeeps(input: Bytes, s: State, s': State)
    requires Shape(input, s) && WriterStep(input, s, s')
    ensures Shape(input, s') && (Whole(input, s) ==> Whole(input, s'))
    ensures s'.pos - |s'.output| - |Waiting(s')| == s.pos - |s.output| - |Waiting(s)|
  {
    if s.writer == WFill {
      var k :| FillStep(input, s, s', k);
      assert input[..s.pos + k] == input[..s.pos] + input[s.pos..s.pos + k];
    }
  }

  /** What this step leaves of a block. */
  function Dropped(s: State, s': State): int {
    if s.reader == RDrain && s'.reader == RPost then s.count - s'.n else 0
  }

  /** The reader keeps the shape, and wholeness too unless it drops a part of a block. */
  lemma ReaderKeeps(input: Bytes, s: State, s': State, short: bool)
    requires Shape(input, s) && ReaderStep(s, s', short)
    ensures Shape(input, s') && (Whole(input, s) && Dropped(s, s') == 0 ==> Whole(input, s'))
    ensures s'.pos - |s'.output| - |Waiting(s')| == s.pos - |s.output| - |Waiting(s)| + Dropped(s, s')
    ensures if short then Dropped(s, s') >= 0 else Dropped(s, s') == 0
  {}

  lemma StepKeeps(input: Bytes, s: State, s': State, short: bool)
    requires Shape(input, s) && Next(input, s, s', short)
    ensures Shape(input, s') && (Whole(input, s) && Dropped(s, s') == 0 ==> Whole(input, s'))
    ensures s'.pos - |s'.output| - |Waiting(s')| == s.pos - |s.output| - |Waiting(s)| + Dropped(s, s')
    ensures if short then Dropped(s, s') >= 0 else Dropped(s, s') == 0
  {
    if WriterStep(input, s, s') {
      WriterKeeps(input, s, s');
    } else {
      ReaderKeeps(input, s, s', short);
    }
  }

  lemma {:induction false} RunShape(input: Bytes, run: seq<State>, short: bool, i: nat)
    requires Run(input, run, short) && i < |run|
    ensures Shape(input, run[i])
  {
    hide Shape, Whole, WriterStep, ReaderStep;
    if i == 0 {
      InitInv(input, run[0]);
    } else {
      RunShape(input, run, short, i - 1);
      assert Next(input, run[i - 1], run[i - 1 + 1], short);
      StepKeeps(input, run[i - 1], run[i], short);
    }
  }

  lemma {:induction false} RunInv(input: Bytes, run: seq<State>, i: nat)
    requires Run(input, run, false) && i < |run|
    ensures Inv(input, run[i])
  {
    hide Shape, Whole, WriterStep, ReaderStep;
    if i == 0 {
      InitInv(input, run[0]);
    } else {
      RunInv(input, run, i - 1);
      assert Next(input, run[i - 1], run[i - 1 + 1], false);
      StepKeeps(input, run[i - 1], run[i], false);
    }
  }

  // ----- safety

  /** In every interleaving: one process at a time uses the buffer, and nothing is lost, changed or reordered. */
  lemma Safety(input: Bytes, run: seq<State>, i: nat)
    requires Run(input, run, false) && i < |run|
    ensures !(run[i].writer == WFill && run[i].reader == RDrain)
    ensures run[i].output <= input
    ensures run[i].writer == WDone || run[i].reader == RDone ==> run[i].output == input
  {
    RunInv(input, run, i);
    var s := run[i];
    assert input[..s.pos] <= input;
    assert s.output <= input[..s.pos];
    if s.writer == WDone || s.reader == RDone {
      assert Taken(s) && Ended(s);
      assert input[..s.pos] == input;
    }
  }

  // ----- progress

  /** No process waits for ever: unless both have ended, one of them can go on. */
  lemma NoDeadlock(input: Bytes, s: State, short: bool)
    requires Shape(input, s) && !Final(s)
    ensures !Stuck(input, s, short)
  {
    if s.reader == RDrain {
      var s' := s.(output := s.output + s.buf[..s.count], n := s.count, reader := RPost);
      assert DrainStep(s, s', s.count);
      assert Next(input, s, s', short);
    } else if s.writer == WFill {
      var left := |input| - s.pos;
      var k := if left < BUF_SIZE then left else BUF_SIZE;
      var s' := s.(pos := s.pos + k, count := k, buf := input[s.pos..s.pos + k] + s.buf[k..], writer := WPost);
      assert FillStep(input, s, s', k);
      assert Next(input, s, s', short);
    } else if s.reader == RPost {
      assert Next(input, s, s.(semWrite := s.semWrite + 1, reader := RTest), short);
    } else if s.reader == RTest {
      assert Next(input, s, s.(reader := if s.n == 0 then RDone else RWait), short);
    } else if s.reader == RWait && s.semRead > 0 {
      assert Next(input, s, s.(semRead := s.semRead - 1, reader := RDrain), short);
    } else {
      var s' := match s.writer
        case WWait => if s.semWrite > 0 then s.(semWrite := s.semWrite - 1, writer := WFill) else s
        case WPost => s.(semRead := s.semRead + 1, writer := WTest)
        case WTest => s.(writer := if s.count == 0 then WLast else WWait)
        case WLast => if s.semWrite > 0 then s.(semWrite := s.semWrite - 1, writer := WDone) else s
        case _ => s;
      assert WriterStep(input, s, s');
      assert Next(input, s, s', short);
    }
  }

  /** The blocks that the reader still has to take, at most. */
  function Rounds(input: Bytes, s: State): int {
    One(Pending(s)) + if Ended(s) then 0 else |input| - s.pos + 1
  }

  /** A bound on the steps that are left. */
  function Measure(input: Bytes, s: State): int {
    var blocks := 4 * (|input| - s.pos + 1);
    var w := match s.writer
      case WWait => blocks + 2
      case WFill => blocks + 1
      case WPost => if Ended(s) then 3 else blocks + 4
      case WTest => if Ended(s) then 2 else blocks + 3
      case WLast => 1
      case WDone => 0;
    var rounds := 4 * Rounds(input, s);
    var r := match s.reader
      case RWait => rounds
      case RDrain => rounds - 1
      case RPost => rounds + 2
      case RTest => rounds + 1
      case RDone => 0;
    w + r
  }

  lemma StepDecreases(input: Bytes, s: State, s': State, short: bool)
    requires Shape(input, s) && Next(input, s, s', short)
    ensures 0 <= Measure(input, s') < Measure(input, s)
  {
    StepKeeps(input, s, s', short);
  }

  lemma {:induction false} RunMeasure(input: Bytes, run: seq<State>, short: bool, i: nat)
    requires Run(input, run, short) && i < |run|
    ensures 0 <= Measure(input, run[i]) <= 8 * |input| + 10 - i
  {
    if i == 0 {
    } else {
      RunMeasure(input, run, short, i - 1);
      RunShape(input, run, short, i - 1);
      assert Next(input, run[i - 1], run[i - 1 + 1], short);
      StepDecreases(input, run[i - 1], run[i], short);
    }
  }

  /** Every run ends, and one that cannot go on has ended both processes, short writes or not. */
  lemma Termination(input: Bytes, run: seq<State>, short: bool)
    requires Run(input, run, short)
    ensures |run| <= 8 * |input| + 11
    ensures Stuck(input, run[|run| - 1], short) ==> Final(run[|run| - 1])
  {
    var i := |run| - 1;
    RunMeasure(input, run, short, i);
    RunShape(input, run, short, i);
    if !Final(run[i]) {
      NoDeadlock(input, run[i], short);
    }
  }

  /** With whole writes, a run that cannot go on has transferred the whole input. */
  lemma Completion(input: Bytes, run: seq<State>)
    requires Run(input, run, false)
    ensures |run| <= 8 * |input| + 11
    ensures Stuck(input, run[|run| - 1], false) ==> Final(run[|run| - 1]) && run[|run| - 1].output == input
  {
    Termination(input, run, false);
    Safety(input, run, |run| - 1);
  }

  // ----- short writes

  /** What the writes before state i have left of their blocks. */
  function Lost(run: seq<State>, i: nat): int
    requires i < |run|
  {
    if i == 0 then 0 else Lost(run, i - 1) + Dropped(run[i - 1], run[i])
  }

  /** Every write before state i took the whole block. */
  predicate WholeWrites(run: seq<State>, i: nat)
    requires i < |run|
  {
    forall j | 0 <= j < i :: Dropped(run[j], run[j + 1]) == 0
  }

  /**
   In every interleaving the bytes read are written out, wait in the buffer or are lost, and none is if and
   only if all writes were whole.
   */
  lemma {:induction false} BytesLost(input: Bytes, run: seq<State>, i: nat)
    requires Run(input, run, true) && i < |run|
    ensures Shape(input, run[i]) && Lost(run, i) >= 0
    ensures |run[i].output| + |Waiting(run[i])| + Lost(run, i) == run[i].pos
    ensures Lost(run, i) == 0 <==> WholeWrites(run, i)
    ensures Whole(input, run[i]) <==> WholeWrites(run, i)
  {
    hide WriterStep, ReaderStep;
    if i == 0 {
      InitInv(input, run[0]);
    } else {
      BytesLost(input, run, i - 1);
      assert Next(input, run[i - 1], run[i - 1 + 1], true);
      StepKeeps(input, run[i - 1], run[i], true);
      assert WholeWrites(run, i) <==> WholeWrites(run, i - 1) && Dropped(run[i - 1], run[i - 1 + 1]) == 0;
      if Whole(input, run[i]) {
        assert |run[i].output| + |Waiting(run[i])| == |input[..run[i].pos]| == run[i].pos;
      }
    }
  }

  /**
   A run that cannot go on has written all but what was lost: the input itself if and only if all writes were
   whole.
   */
  lemma OutputIsInputIff(input: Bytes, run: seq<State>)
    requires Run(input, run, true) && Stuck(input, run[|run| - 1], true)
    ensures |run[|run| - 1].output| == |input| - Lost(run, |run| - 1)
    ensures run[|run| - 1].output == input <==> WholeWrites(run, |run| - 1)
  {
    var i := |run| - 1;
    Termination(input, run, true);
    BytesLost(input, run, i);
    assert input[..|input|] == input;
  }

  /** Extends a run by one step. */
  lemma Extend(input: Bytes, run: seq<State>, s: State)
    requires Run(input, run, true) && Next(input, run[|run| - 1], s, true)
    ensures Run(input, run + [s], true)
  {}

  /** One block written and taken, of which only n bytes are written out. */
  lemma Round(input: Bytes, run: seq<State>, k: nat, n: nat) returns (run': seq<State>)
    requires Run(input, run, true)
    requires var s := run[|run| - 1];
             s.writer == WWait && s.reader == RWait && s.semWrite == 1 && s.semRead == 0 && |s.buf| == BUF_SIZE &&
                 s.pos + k <= |input|
    requires 0 < n <= k <= BUF_SIZE
    ensures Run(input, run', true)
    ensures var s, s' := run[|run| - 1], run'[|run'| - 1];
            && s'.writer == WWait && s'.reader == RWait && s'.semWrite == 1 && s'.semRead == 0 && |s'.buf| == BUF_SIZE
            && s'.pos == s.pos + k && s'.output == s.output + input[s.pos..s.pos + n]
  {
    var s0 := run[|run| - 1];
    var s1 := s0.(semWrite := 0, writer := WFill);
    Extend(input, run, s1);
    var s2 := s1.(pos := s1.pos + k, count := k, buf := input[s1.pos..s1.pos + k] + s1.buf[k..], writer := WPost);
    assert FillStep(input, s1, s2, k);
    Extend(input, run + [s1], s2);
    var s3 := s2.(semRead := 1, writer := WTest);
    Extend(input, run + [s1] + [s2], s3);
    var s4 := s3.(writer := WWait);
    Extend(input, run + [s1] + [s2] + [s3], s4);
    var s5 := s4.(semRead := 0, reader := RDrain);
    Extend(input, run + [s1] + [s2] + [s3] + [s4], s5);
    var s6 := s5.(output := s5.output + s5.buf[..n], n := n, reader := RPost);
    assert DrainStep(s5, s6, n);
    Extend(input, run + [s1] + [s2] + [s3] + [s4] + [s5], s6);
    var s7 := s6.(semWrite := 1, reader := RTest);
    Extend(input, run + [s1] + [s2] + [s3] + [s4] + [s5] + [s6], s7);
    var s8 := s7.(reader := RWait);
    Extend(input, run + [s1] + [s2] + [s3] + [s4] + [s5] + [s6] + [s7], s8);
    run' := run + [s1] + [s2] + [s3] + [s4] + [s5] + [s6] + [s7] + [s8];
    assert s5.buf[..n] == input[s0.pos..s0.pos + n];
  }

  /** Whole writes are needed: when a write may be short, bytes can be lost, though no step fails. */
  lemma ShortWritesLose()
    ensures exists input: Bytes, run: seq<State> :: Run(input, run, true) && !(run[|run| - 1].output <= input)
  {
    var input: Bytes := [1, 2, 3];
    var init := State(0, [], 1, 0, 0, seq(BUF_SIZE, i => 0), WWait, RWait, 0);
    var run := Round(input, [init], 2, 1);
    var run' := Round(input, run, 1, 1);
    var out := run'[|run'| - 1].output;
    assert out == [1, 3] && out[1] != input[1];
  }
}
