/**
 Two event back ends (fdevent_poll.c, fdevent_select.c) behind one interface
 (fdevent.c): a table of slots with a stack of free ones, and descriptor sets.
 Both hold the same map from descriptors to the events wanted.
 */
module FdEvents {
  import opened Wrappers

  /** The events a descriptor waits for; the back ends drop the other bits. */
  datatype Interest = Interest(input: bool, output: bool)

  const FD_SETSIZE := 1024

  /** FDEVENT_IN is bit 0 and FDEVENT_OUT is bit 2. */
  function Wanted(events: nat): Interest {
    Interest(events % 2 == 1, events / 4 % 2 == 1)
  }

  lemma Quarter(mid: nat, low: nat)
    requires low < 4
    ensures (low + 4 * mid) / 4 == mid
  {}

  lemma Parity(half: nat, bit: nat)
    requires bit < 2
    ensures (bit + 2 * half) % 2 == bit
  {}

  lemma Bits(low: nat, bit: nat, rest: nat)
    requires low < 4 && bit < 2
    ensures (low + 4 * bit + 8 * rest) / 4 == bit + 2 * rest && (bit + 2 * rest) % 2 == bit
    ensures (low + 4 * bit + 8 * rest) % 2 == low % 2
  {
    var n, mid, half := low + 4 * bit + 8 * rest, bit + 2 * rest, low / 2 + 2 * bit + 4 * rest;
    assert n == low + 4 * mid && n == low % 2 + 2 * half;
    Quarter(mid, low);
    Parity(rest, bit);
    Parity(half, low % 2);
  }

  /** The mask made of FDEVENT_IN, FDEVENT_PRI, FDEVENT_OUT and higher bits. */
  lemma WantedBits(input: bool, pri: bool, output: bool, rest: nat)
    ensures Wanted((if input then 0x1 else 0) + (if pri then 0x2 else 0) + (if output then 0x4 else 0) + 0x8 * rest)
            == Interest(input, output)
  {
    var low: nat := (if input then 1 else 0) + (if pri then 2 else 0);
    Bits(low, if output then 1 else 0, rest);
  }

  datatype PollFd = PollFd(fd: int, events: Interest)

  // ----- the slot table, as values

  /** Slot i is free, or it is the one slot of its descriptor. */
  ghost predicate SlotOk(slots: seq<PollFd>, contents: map<int, Interest>, slot: map<int, nat>, i: nat) {
    i < |slots| && (slots[i].fd == -1 ||
      (slots[i].fd in slot && slot[slots[i].fd] == i && slots[i].fd in contents &&
          contents[slots[i].fd] == slots[i].events))
  }

  /** Descriptor fd has a slot. */
  ghost predicate Placed(slots: seq<PollFd>, contents: map<int, Interest>, slot: map<int, nat>, fd: int) {
    fd >= 0 && fd in slot && fd in contents && slot[fd] < |slots| && slots[slot[fd]].fd == fd
  }

  ghost predicate TableOk(slots: seq<PollFd>, contents: map<int, Interest>, slot: map<int, nat>) {
    && (forall i | 0 <= i < |slots| :: SlotOk(slots, contents, slot, i))
    && (forall fd | fd in slot :: Placed(slots, contents, slot, fd))
    && slot.Keys == contents.Keys
  }

  /** Entry j of the stack is a free slot, which stands there only. */
  ghost predicate EntryOk(slots: seq<PollFd>, stack: seq<nat>, depth: map<nat, nat>, j: nat) {
    j < |stack| && stack[j] < |slots| && slots[stack[j]].fd == -1 && stack[j] in depth && depth[stack[j]] == j
  }

  /** A free slot is on the stack. */
  ghost predicate FreeOk(slots: seq<PollFd>, stack: seq<nat>, depth: map<nat, nat>, i: nat) {
    i < |slots| && (slots[i].fd == -1 ==> i in depth && depth[i] < |stack| && stack[depth[i]] == i)
  }

  ghost predicate StackOk(slots: seq<PollFd>, stack: seq<nat>, depth: map<nat, nat>) {
    && (forall j | 0 <= j < |stack| :: EntryOk(slots, stack, depth, j))
    && (forall i | 0 <= i < |slots| :: FreeOk(slots, stack, depth, i))
  }

  /** The stack lists, without repetition, exactly the slots that are free. */
  lemma FreeStackExact(slots: seq<PollFd>, stack: seq<nat>, depth: map<nat, nat>)
    requires StackOk(slots, stack, depth)
    ensures forall i | 0 <= i < |slots| :: slots[i].fd == -1 <==> i in stack
    ensures forall j, k | 0 <= j < k < |stack| :: stack[j] != stack[k]
  {
    forall i | 0 <= i < |slots|
      ensures slots[i].fd == -1 <==> i in stack
    {
      assert FreeOk(slots, stack, depth, i);
      if i in stack {
        var j :| 0 <= j < |stack| && stack[j] == i;
        assert EntryOk(slots, stack, depth, j);
      }
    }
    forall j, k | 0 <= j < k < |stack|
      ensures stack[j] != stack[k]
    {
      assert EntryOk(slots, stack, depth, j) && EntryOk(slots, stack, depth, k);
    }
  }

  /** Each active descriptor owns exactly one slot. */
  lemma OneSlotEach(slots: seq<PollFd>, contents: map<int, Interest>, slot: map<int, nat>, fd: int)
    requires TableOk(slots, contents, slot) && fd >= 0
    ensures fd in contents <==> exists i :: 0 <= i < |slots| && slots[i].fd == fd
    ensures forall i, k | 0 <= i < |slots| && 0 <= k < |slots| && slots[i].fd == fd && slots[k].fd == fd :: i == k
  {
    if fd in contents {
      assert Placed(slots, contents, slot, fd);
    }
    forall i | 0 <= i < |slots| && slots[i].fd == fd
      ensures fd in slot && slot[fd] == i
    {
      assert SlotOk(slots, contents, slot, i);
    }
  }

  /** New events for a descriptor in its slot. */
  lemma TableUpdate(slots: seq<PollFd>, contents: map<int, Interest>, slot: map<int, nat>, k: nat, fd: int, e: Interest)
    requires TableOk(slots, contents, slot) && k < |slots| && slots[k].fd == fd >= 0
    ensures TableOk(slots[k := PollFd(fd, e)], contents[fd := e], slot) && slot[fd] == k
  {
    assert SlotOk(slots, contents, slot, k);
    var slots', contents' := slots[k := PollFd(fd, e)], contents[fd := e];
    forall i | 0 <= i < |slots'| ensures SlotOk(slots', contents', slot, i) {
      assert SlotOk(slots, contents, slot, i);
    }
    forall g | g in slot ensures Placed(slots', contents', slot, g) {
      assert Placed(slots, contents, slot, g);
    }
  }

  /** A free slot for a new descriptor. */
  lemma TableEnter(slots: seq<PollFd>, contents: map<int, Interest>, slot: map<int, nat>, k: nat, fd: int, e: Interest)
    requires TableOk(slots, contents, slot) && k < |slots| && slots[k].fd == -1 && fd >= 0 && fd !in contents
    ensures TableOk(slots[k := PollFd(fd, e)], contents[fd := e], slot[fd := k])
  {
    var slots', contents', slot' := slots[k := PollFd(fd, e)], contents[fd := e], slot[fd := k];
    forall i | 0 <= i < |slots'| ensures SlotOk(slots', contents', slot', i) {
      assert SlotOk(slots, contents, slot, i);
    }
    forall g | g in slot' ensures Placed(slots', contents', slot', g) {
      assert g in slot ==> Placed(slots, contents, slot, g);
    }
  }

  /** One more slot, for a new descriptor. */
  lemma TableGrow(slots: seq<PollFd>, contents: map<int, Interest>, slot: map<int, nat>, fd: int, e: Interest)
    requires TableOk(slots, contents, slot) && fd >= 0 && fd !in contents
    ensures TableOk(slots + [PollFd(fd, e)], contents[fd := e], slot[fd := |slots|])
  {
    var slots', contents', slot' := slots + [PollFd(fd, e)], contents[fd := e], slot[fd := |slots|];
    forall i | 0 <= i < |slots'| ensures SlotOk(slots', contents', slot', i) {
      assert i < |slots| ==> SlotOk(slots, contents, slot, i);
    }
    forall g | g in slot' ensures Placed(slots', contents', slot', g) {
      assert g in slot ==> Placed(slots, contents, slot, g);
    }
  }

  /** The slot of a descriptor becomes free. */
  lemma TableFree(slots: seq<PollFd>, contents: map<int, Interest>, slot: map<int, nat>, k: nat, fd: int)
    requires TableOk(slots, contents, slot) && k < |slots| && slots[k].fd == fd >= 0
    ensures TableOk(slots[k := slots[k].(fd := -1)], contents - {fd}, slot - {fd}) && fd in slot && slot[fd] == k
  {
    assert SlotOk(slots, contents, slot, k);
    var slots', contents', slot' := slots[k := slots[k].(fd := -1)], contents - {fd}, slot - {fd};
    forall i | 0 <= i < |slots'| ensures SlotOk(slots', contents', slot', i) {
      assert SlotOk(slots, contents, slot, i);
    }
    forall g | g in slot' ensures Placed(slots', contents', slot', g) {
      assert Placed(slots, contents, slot, g);
    }
  }

  lemma StackUpdate(slots: seq<PollFd>, stack: seq<nat>, depth: map<nat, nat>, k: nat, p: PollFd)
    requires StackOk(slots, stack, depth) && k < |slots| && slots[k].fd != -1 && p.fd != -1
    ensures StackOk(slots[k := p], stack, depth)
  {
    var slots' := slots[k := p];
    forall j | 0 <= j < |stack| ensures EntryOk(slots', stack, depth, j) {
      assert EntryOk(slots, stack, depth, j);
    }
    forall i | 0 <= i < |slots| ensures FreeOk(slots', stack, depth, i) {
      assert FreeOk(slots, stack, depth, i);
    }
  }

  /** The top of the stack is taken. */
  lemma StackPop(slots: seq<PollFd>, stack: seq<nat>, depth: map<nat, nat>, p: PollFd)
    requires StackOk(slots, stack, depth) && stack != [] && p.fd != -1
    ensures var n := |stack| - 1;
            stack[n] < |slots| && slots[stack[n]].fd == -1 && StackOk(slots[stack[n] := p], stack[..n], depth)
  {
    var n := |stack| - 1;
    assert EntryOk(slots, stack, depth, n);
    var slots', stack' := slots[stack[n] := p], stack[..n];
    forall j | 0 <= j < n ensures EntryOk(slots', stack', depth, j) {
      assert EntryOk(slots, stack, depth, j);
    }
    forall i | 0 <= i < |slots| ensures FreeOk(slots', stack', depth, i) {
      assert FreeOk(slots, stack, depth, i);
    }
  }

  lemma StackGrow(slots: seq<PollFd>, stack: seq<nat>, depth: map<nat, nat>, p: PollFd)
    requires StackOk(slots, stack, depth) && p.fd != -1
    ensures StackOk(slots + [p], stack, depth)
  {
    var slots' := slots + [p];
    forall j | 0 <= j < |stack| ensures EntryOk(slots', stack, depth, j) {
      assert EntryOk(slots, stack, depth, j);
    }
    forall i | 0 <= i < |slots'| ensures FreeOk(slots', stack, depth, i) {
      assert i < |slots| ==> FreeOk(slots, stack, depth, i);
    }
  }

  /** A slot that becomes free is put on the stack. */
  lemma StackPush(slots: seq<PollFd>, stack: seq<nat>, depth: map<nat, nat>, k: nat)
    requires StackOk(slots, stack, depth) && k < |slots| && slots[k].fd != -1
    ensures StackOk(slots[k := slots[k].(fd := -1)], stack + [k], depth[k := |stack|])
  {
    var slots', stack', depth' := slots[k := slots[k].(fd := -1)], stack + [k], depth[k := |stack|];
    forall j | 0 <= j < |stack'| ensures EntryOk(slots', stack', depth', j) {
      assert j < |stack| ==> EntryOk(slots, stack, depth, j);
    }
    forall i | 0 <= i < |slots'| ensures FreeOk(slots', stack', depth', i) {
      assert FreeOk(slots, stack, depth, i);
    }
  }

  /** An array with sixteen more elements, as realloc provides it. */
  method Sixteen<T>(a: array<T>, fill: T) returns (b: array<T>)
    ensures fresh(b) && b.Length == a.Length + 16 && b[..a.Length] == a[..]
  {
    b := new T[a.Length + 16](_ => fill);
    for k := 0 to a.Length
      invariant b[..k] == a[..k]
    {
      b[k] := a[k];
    }
  }

  // ----- the poll back end

  class Poll {
    var pollfds: array<PollFd>
    var used: nat
    var unused: array<nat>
    var unusedUsed: nat

    ghost var slots: seq<PollFd>             // the slots in use
    ghost var stack: seq<nat>                // the free slots
    ghost var slot: map<int, nat>            // where each descriptor has its slot
    ghost var depth: map<nat, nat>           // where each free slot stands on the stack
    ghost var contents: map<int, Interest>   // what each descriptor waits for

    ghost predicate Valid()
      reads this, pollfds, unused
    {
      && used <= pollfds.Length && slots == pollfds[..used]
      && unusedUsed <= unused.Length && stack == unused[..unusedUsed]
      && TableOk(slots, contents, slot) && StackOk(slots, stack, depth)
    }

    constructor ()
      ensures Valid() && contents == map[] && fresh(pollfds) && fresh(unused)
    {
      pollfds, unused := new PollFd[0], new nat[0];
      used, unusedUsed := 0, 0;
      slots, stack, slot, depth, contents := [], [], map[], map[], map[];
    }

    /** What the caller keeps for a descriptor. */
    ghost function Index(fd: int): int
      reads this`slot
    {
      if fd in slot then slot[fd] else -1
    }

    method Write(k: nat, fd: int, events: nat)
      requires k < used <= pollfds.Length && slots == pollfds[..used]
      modifies this`slots, pollfds
      ensures slots == pollfds[..used] == old(slots)[k := PollFd(fd, Wanted(events))]
    {
      pollfds[k] := PollFd(fd, Wanted(events));
      slots := slots[k := PollFd(fd, Wanted(events))];
    }

    /** Takes the free slot on top of the stack. */
    method Reuse(fd: int, events: nat) returns (k: nat)
      requires Valid() && fd >= 0 && fd !in contents && unusedUsed > 0
      modifies this`slots, this`stack, this`unusedUsed, this`slot, this`contents, pollfds
      ensures Valid() && contents == old(contents)[fd := Wanted(events)] && slot == old(slot)[fd := k]
    {
      StackPop(slots, stack, depth, PollFd(fd, Wanted(events)));
      unusedUsed := unusedUsed - 1;
      k := unused[unusedUsed];
      TableEnter(slots, contents, slot, k, fd, Wanted(events));
      stack := stack[..unusedUsed];
      Write(k, fd, events);
      contents, slot := contents[fd := Wanted(events)], slot[fd := k];
    }

    /** Takes a new slot at the end. */
    method Append(fd: int, events: nat) returns (k: nat)
      requires Valid() && fd >= 0 && fd !in contents
      modifies this`slots, this`used, this`slot, this`contents, this`pollfds, pollfds
      ensures Valid() && contents == old(contents)[fd := Wanted(events)] && slot == old(slot)[fd := k]
      ensures pollfds == old(pollfds) || fresh(pollfds)
    {
      hide TableOk, StackOk;
      var p := PollFd(fd, Wanted(events));
      TableGrow(slots, contents, slot, fd, Wanted(events));
      StackGrow(slots, stack, depth, p);
      if pollfds.Length == used {
        pollfds := Sixteen(pollfds, p);
      }
      pollfds[used] := p;
      slots := slots + [p];
      contents, slot := contents[fd := Wanted(events)], slot[fd := used];
      k := used;
      used := used + 1;
    }

    /** Registers events for a descriptor; the program aborts if the slot is another descriptor's. */
    method EventSet(ndx: int, fd: int, events: nat) returns (ok: bool, ndx': int)
      requires Valid() && fd >= 0 && -1 <= ndx < used && (ndx == -1 ==> fd !in contents)
      modifies this, pollfds
      ensures ok <==> ndx == -1 || ndx == old(Index(fd))
      ensures ok ==>
                Valid() && contents == old(contents)[fd := Wanted(events)] && ndx' >= 0 &&
                slot == old(slot)[fd := ndx']
      ensures (pollfds == old(pollfds) || fresh(pollfds)) && unused == old(unused)
    {
      if ndx != -1 {
        assert SlotOk(slots, contents, slot, ndx);
        assert fd in slot ==> Placed(slots, contents, slot, fd);
        if pollfds[ndx].fd != fd {
          return false, ndx;
        }
        TableUpdate(slots, contents, slot, ndx, fd, Wanted(events));
        StackUpdate(slots, stack, depth, ndx, PollFd(fd, Wanted(events)));
        Write(ndx, fd, events);
        contents := contents[fd := Wanted(events)];
        return true, ndx;
      }
      if unusedUsed > 0 {
        ndx' := Reuse(fd, events);
      } else {
        ndx' := Append(fd, events);
      }
      return true, ndx';
    }

    /** Puts a slot on the stack, which grows if it is full. */
    method Push(k: nat)
      requires unusedUsed <= unused.Length && stack == unused[..unusedUsed]
      modifies this`unused, this`unusedUsed, this`stack, unused
      ensures unusedUsed <= unused.Length && old(stack) + [k] == stack == unused[..unusedUsed]
      ensures unused == old(unused) || fresh(unused)
    {
      if unused.Length == unusedUsed {
        unused := Sixteen(unused, 0);
      }
      unused[unusedUsed] := k;
      unusedUsed := unusedUsed + 1;
      stack := stack + [k];
    }

    /** Frees a slot and puts it on the stack. */
    method Release(k: nat, fd: int)
      requires Valid() && fd >= 0 && k < used && pollfds[k].fd == fd
      modifies this, pollfds, unused
      ensures Valid() && contents == old(contents) - {fd} && slot == old(slot) - {fd} && fd in old(slot) &&
              old(slot)[fd] == k
      ensures pollfds == old(pollfds) && (unused == old(unused) || fresh(unused))
    {
      hide TableOk, StackOk;
      TableFree(slots, contents, slot, k, fd);
      StackPush(slots, stack, depth, k);
      pollfds[k] := pollfds[k].(fd := -1);
      slots := slots[k := slots[k].(fd := -1)];
      contents, slot := contents - {fd}, slot - {fd};
      depth := depth[k := |stack|];
      Push(k);
    }

    /** Removes a descriptor; the program aborts if the slot is not its own. */
    method EventDel(ndx: int, fd: int) returns (ok: bool, ndx': int)
      requires Valid() && fd >= 0
      modifies this, pollfds, unused
      ensures ndx' == -1 && (ok <==> ndx < 0 || ndx == old(Index(fd)))
      ensures ok && ndx < 0 ==> Valid() && contents == old(contents) && slot == old(slot)
      ensures ok && ndx >= 0 ==> Valid() && contents == old(contents) - {fd} && slot == old(slot) - {fd}
      ensures pollfds == old(pollfds) && (unused == old(unused) || fresh(unused))
    {
      if ndx < 0 {
        return true, -1;
      }
      assert fd in slot ==> Placed(slots, contents, slot, fd);
      if ndx >= used {
        return false, -1;
      }
      assert SlotOk(slots, contents, slot, ndx);
      if pollfds[ndx].fd != fd {
        return false, -1;
      }
      Release(ndx, fd);
      return true, -1;
    }
  }

  // ----- the select back end

  class Select {
    var selectRead: set<int>
    var selectWrite: set<int>
    var selectError: set<int>
    var selectMaxFd: int
    ghost var contents: map<int, Interest>

    ghost predicate Valid()
      reads this
    {
      && selectError == contents.Keys
      && (forall fd | fd in contents :: 0 <= fd < FD_SETSIZE && fd <= selectMaxFd)
      && (forall fd :: fd in selectRead <==> fd in contents && contents[fd].input)
      && (forall fd :: fd in selectWrite <==> fd in contents && contents[fd].output)
    }

    constructor ()
      ensures Valid() && contents == map[]
    {
      selectRead, selectWrite, selectError, selectMaxFd, contents := {}, {}, {}, -1, map[];
    }

    method EventSet(fd: int, events: nat) returns (ndx': int)
      requires Valid() && 0 <= fd < FD_SETSIZE
      modifies this
      ensures Valid() && contents == old(contents)[fd := Wanted(events)] && ndx' == fd
    {
      selectRead := if Wanted(events).input then selectRead + {fd} else selectRead - {fd};
      selectWrite := if Wanted(events).output then selectWrite + {fd} else selectWrite - {fd};
      selectError := selectError + {fd};
      if fd > selectMaxFd {
        selectMaxFd := fd;
      }
      contents := contents[fd := Wanted(events)];
      return fd;
    }

    method EventDel(ndx: int, fd: int) returns (ndx': int)
      requires Valid()
      modifies this
      ensures Valid() && contents == (if ndx < 0 then old(contents) else old(contents) - {fd}) && ndx' == -1
    {
      if ndx >= 0 {
        selectRead, selectWrite, selectError := selectRead - {fd}, selectWrite - {fd}, selectError - {fd};
        contents := contents - {fd};
      }
      return -1;
    }
  }

  // ----- the interface

  datatype Op = SetOp(fd: nat, events: nat) | DelOp(fd: nat)

  /** The map that a run of operations stands for. */
  function Effects(ops: seq<Op>): map<int, Interest> {
    if ops == [] then map[]
    else
      var m := Effects(ops[..|ops| - 1]);
      match ops[|ops| - 1]
      case SetOp(fd, events) => m[fd := Wanted(events)]
      case DelOp(fd) => m - {fd}
  }

  /** The last operation on a descriptor decides: its events if it set them, and nothing if it deleted them. */
  lemma {:induction false} LastOpDecides(ops: seq<Op>, fd: nat, i: nat)
    requires i < |ops| && ops[i].fd == fd && forall k | i < k < |ops| :: ops[k].fd != fd
    ensures match ops[i]
            case SetOp(_, events) => fd in Effects(ops) && Effects(ops)[fd] == Wanted(events)
            case DelOp(_) => fd !in Effects(ops)
    decreases |ops|
  {
    hide Wanted;
    if i + 1 < |ops| {
      LastOpDecides(ops[..|ops| - 1], fd, i);
    }
  }

  lemma {:induction false} NoOpNothing(ops: seq<Op>, fd: int)
    requires forall k | 0 <= k < |ops| :: ops[k].fd != fd
    ensures fd !in Effects(ops)
  {
    if ops == [] {
    } else {
      NoOpNothing(ops[..|ops| - 1], fd);
    }
  }

  class Events {
    const usePoll: bool
    const poll: Poll
    const select: Select
    var fdarray: map<nat, nat>    // the events of each registered descriptor

    ghost predicate Valid()
      reads this, poll, poll.pollfds, poll.unused, select
    {
      poll.Valid() && select.Valid() && (usePoll ==> select.contents == map[]) && (!usePoll ==> poll.contents == map[])
    }

    ghost function Contents(): map<int, Interest>
      reads this, poll, select
    {
      if usePoll then poll.contents else select.contents
    }

    /** What the caller keeps for a descriptor. */
    ghost function Index(fd: int): int
      reads this, poll, select
    {
      if usePoll then poll.Index(fd) else if fd in select.contents then fd else -1
    }

    constructor (usePoll: bool)
      ensures Valid() && Contents() == map[] && this.usePoll == usePoll && fdarray == map[]
      ensures fresh(poll) && fresh(poll.pollfds) && fresh(poll.unused) && fresh(select)
    {
      this.usePoll := usePoll;
      poll := new Poll();
      select := new Select();
      fdarray := map[];
    }

    method Register(fd: nat)
      requires Valid()
      modifies this`fdarray
      ensures Valid() && fdarray == old(fdarray)[fd := 0]
    {
      fdarray := fdarray[fd := 0];
    }

    method EventSet(ndx: int, fd: nat, events: nat) returns (ndx': int)
      requires Valid() && fd in fdarray && ndx == Index(fd) && (!usePoll ==> fd < FD_SETSIZE)
      modifies this`fdarray, poll, poll.pollfds, select
      ensures Valid() && Contents() == old(Contents())[fd := Wanted(events)]
      ensures forall g :: Index(g) == if g == fd then ndx' else old(Index(g))
      ensures fdarray == old(fdarray)[fd := events]
      ensures (poll.pollfds == old(poll.pollfds) || fresh(poll.pollfds)) && poll.unused == old(poll.unused)
    {
      if usePoll {
        assert fd in poll.slot ==> Placed(poll.slots, poll.contents, poll.slot, fd);
        var ok;
        ok, ndx' := poll.EventSet(ndx, fd, events);
      } else {
        ndx' := select.EventSet(fd, events);
      }
      fdarray := fdarray[fd := events];
    }

    /** Removes a descriptor; one that is not registered is left alone. */
    method EventDel(ndx: int, fd: nat) returns (ndx': int)
      requires Valid() && ndx == Index(fd)
      modifies this`fdarray, poll, poll.pollfds, poll.unused, select
      ensures Valid() && fdarray.Keys == old(fdarray).Keys
      ensures fd in fdarray ==> Contents() == old(Contents()) - {fd} && fdarray[fd] == 0
      ensures fd in fdarray ==> ndx' == -1 && forall g :: Index(g) == if g == fd then -1 else old(Index(g))
      ensures fd !in fdarray ==> ndx' == ndx && Contents() == old(Contents()) && forall g :: Index(g) == old(Index(g))
      ensures poll.pollfds == old(poll.pollfds) && (poll.unused == old(poll.unused) || fresh(poll.unused))
    {
      if fd !in fdarray {
        return ndx;
      }
      if usePoll {
        assert fd in poll.slot ==> Placed(poll.slots, poll.contents, poll.slot, fd);
        var ok;
        ok, ndx' := poll.EventDel(ndx, fd);
      } else {
        ndx' := select.EventDel(ndx, fd);
      }
      fdarray := fdarray[fd := 0];
    }
  }

  method RegisterAll(ev: Events, fds: set<nat>)
    requires ev.Valid()
    modifies ev`fdarray
    ensures ev.Valid() && fds <= ev.fdarray.Keys
  {
    var left := fds;
    while left != {}
      invariant ev.Valid() && forall fd | fd in fds && fd !in left :: fd in ev.fdarray
      decreases |left|
    {
      var fd :| fd in left;
      ev.Register(fd);
      left := left - {fd};
    }
  }

  /** A caller that keeps the index of each descriptor: either back end comes to hold what the operations say. */
  method Run(usePoll: bool, fds: set<nat>, ops: seq<Op>) returns (ev: Events)
    requires forall i | 0 <= i < |ops| :: ops[i].fd in fds && (!usePoll && ops[i].SetOp? ==> ops[i].fd < FD_SETSIZE)
    ensures ev.Valid() && ev.usePoll == usePoll && ev.Contents() == Effects(ops)
  {
    ev := new Events(usePoll);
    RegisterAll(ev, fds);
    hide TableOk, StackOk, SlotOk, EntryOk, FreeOk, Placed;
    var kept: map<int, int> := map[];
    assert ops[..0] == [];
    for n := 0 to |ops|
      invariant ev.Valid() && fresh(ev) && fresh(ev.poll) && fresh(ev.poll.pollfds) && fresh(ev.poll.unused) &&
                fresh(ev.select)
      invariant ev.usePoll == usePoll && fds <= ev.fdarray.Keys && ev.Contents() == Effects(ops[..n])
      invariant forall g :: ev.Index(g) == if g in kept then kept[g] else -1
    {
      assert ops[..n + 1][..n] == ops[..n];
      var fd := ops[n].fd;
      var ndx := if fd in kept then kept[fd] else -1;
      match ops[n] {
        case SetOp(_, events) => ndx := ev.EventSet(ndx, fd, events);
        case DelOp(_) => ndx := ev.EventDel(ndx, fd);
      }
      kept := kept[fd := ndx];
    }
    assert ops[..|ops|] == ops;
  }
}
