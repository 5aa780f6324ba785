/**
 The action table under construction in the LEMON parser generator: every
 state's set of (lookahead, action) pairs is overlaid on one shared array, at
 an offset chosen so that no set disturbs another.

 A reader of the finished table knows only the array and an offset. The main
 result is that such a reader sees, at the offset of each inserted set, that set
 and nothing else, whatever was inserted before or after it.
 */
module ActTab {
  import opened Wrappers

  datatype Entry = Entry(lookahead: int, action: int)

  /** What an unused slot of the table holds. */
  const EMPTY := Entry(-1, -1)

  /** A set of actions together with the offset at which it was inserted. */
  datatype Placed = Placed(offset: int, actions: seq<Entry>)

  /** The action a transaction set gives to a lookahead. */
  function Find(actions: seq<Entry>, la: int): (r: Option<int>)
    ensures r.Some? ==> Entry(la, r.value) in actions
    ensures r.None? ==> forall e | e in actions :: e.lookahead != la
  {
    if actions == [] then None
    else if actions[0].lookahead == la then Some(actions[0].action)
    else Find(actions[1..], la)
  }

  /** What a reader of the table finds for a lookahead at an offset. */
  function Lookup(tab: seq<Entry>, offset: int, la: int): Option<int> {
    var i := offset + la;
    if 0 <= i < |tab| && tab[i].lookahead == la then Some(tab[i].action) else None
  }

  predicate DistinctLookaheads(actions: seq<Entry>) {
    && (forall j | 0 <= j < |actions| :: actions[j].lookahead >= 0)
    && (forall j, k | 0 <= j < k < |actions| :: actions[j].lookahead != actions[k].lookahead)
  }

  /** A reader at the given offset sees exactly the given actions. */
  ghost predicate Agrees(tab: seq<Entry>, offset: int, actions: seq<Entry>) {
    forall la: nat :: Lookup(tab, offset, la) == Find(actions, la)
  }

  /** Slot k of the table answers some lookahead of a reader at the given offset. */
  predicate Answers(tab: seq<Entry>, k: int, offset: int)
    requires 0 <= k < |tab|
  {
    tab[k].lookahead >= 0 && tab[k].lookahead == k - offset
  }

  /** Slot i + offset holds every action of the transaction. */
  predicate Holds(tab: seq<Entry>, offset: int, actions: seq<Entry>) {
    forall j | 0 <= j < |actions| ::
      && 0 <= actions[j].lookahead + offset < |tab|
      && tab[actions[j].lookahead + offset] == actions[j]
  }

  lemma FindMember(actions: seq<Entry>, j: nat)
    requires DistinctLookaheads(actions) && j < |actions|
    ensures Find(actions, actions[j].lookahead) == Some(actions[j].action)
  {}

  lemma LookupFinds(tab: seq<Entry>, offset: int, actions: seq<Entry>, la: nat)
    requires Holds(tab, offset, actions) && forall k | 0 <= k < |tab| && Answers(tab, k, offset) :: tab[k] in actions
    ensures Lookup(tab, offset, la) == Find(actions, la)
  {
    var r := Find(actions, la);
    if Lookup(tab, offset, la).Some? {
      assert Answers(tab, offset + la, offset);
    }
    if r.Some? {
      var j :| 0 <= j < |actions| && actions[j] == Entry(la, r.value);
    }
  }

  /** Agreement seen from the table: the actions are present and no other slot answers. */
  lemma AgreesIff(tab: seq<Entry>, offset: int, actions: seq<Entry>)
    requires DistinctLookaheads(actions)
    ensures Agrees(tab, offset, actions) <==>
            && Holds(tab, offset, actions)
            && forall k | 0 <= k < |tab| && Answers(tab, k, offset) :: tab[k] in actions
  {
    if Agrees(tab, offset, actions) {
      forall j | 0 <= j < |actions|
        ensures 0 <= actions[j].lookahead + offset < |tab|
        ensures tab[actions[j].lookahead + offset] == actions[j]
      {
        FindMember(actions, j);
        var la: nat := actions[j].lookahead;
        assert Lookup(tab, offset, la) == Find(actions, la);
      }
      forall k | 0 <= k < |tab| && Answers(tab, k, offset)
        ensures tab[k] in actions
      {
        var la: nat := tab[k].lookahead;
        assert Lookup(tab, offset, la) == Find(actions, la);
      }
    }
    if Holds(tab, offset, actions) && (forall k | 0 <= k < |tab| && Answers(tab, k, offset) :: tab[k] in actions) {
      forall la: nat
        ensures Lookup(tab, offset, la) == Find(actions, la)
      {
        LookupFinds(tab, offset, actions, la);
      }
    }
  }

  /** How many of the first n slots answer a reader at the given offset. */
  function AnswerCount(tab: seq<Entry>, n: nat, offset: int): nat
    requires n <= |tab|
  {
    if n == 0 then 0
    else AnswerCount(tab, n - 1, offset) + if Answers(tab, n - 1, offset) then 1 else 0
  }

  lemma {:induction false} AnswerCountIsSize(tab: seq<Entry>, n: nat, offset: int)
    requires n <= |tab|
    ensures AnswerCount(tab, n, offset) == |set k | 0 <= k < n && Answers(tab, k, offset)|
  {
    if n == 0 {
    } else {
      AnswerCountIsSize(tab, n - 1, offset);
      var before := set k | 0 <= k < n - 1 && Answers(tab, k, offset);
      var now := set k | 0 <= k < n && Answers(tab, k, offset);
      assert now == if Answers(tab, n - 1, offset) then before + {n - 1} else before;
    }
  }

  /** The slots that the first m actions of a transaction occupy at an offset. */
  ghost function SlotsOf(actions: seq<Entry>, m: nat, offset: int): set<int>
    requires m <= |actions|
  {
    if m == 0 then {} else SlotsOf(actions, m - 1, offset) + {actions[m - 1].lookahead + offset}
  }

  lemma {:induction false} SlotsOfMember(actions: seq<Entry>, m: nat, offset: int, k: int)
    requires m <= |actions|
    ensures k in SlotsOf(actions, m, offset) <==> exists j :: 0 <= j < m && k == actions[j].lookahead + offset
  {
    if m == 0 {
    } else {
      SlotsOfMember(actions, m - 1, offset, k);
    }
  }

  lemma {:induction false} SlotsOfSize(actions: seq<Entry>, m: nat, offset: int)
    requires m <= |actions| && DistinctLookaheads(actions)
    ensures |SlotsOf(actions, m, offset)| == m
  {
    if m == 0 {
    } else {
      SlotsOfSize(actions, m - 1, offset);
      SlotsOfMember(actions, m - 1, offset, actions[m - 1].lookahead + offset);
    }
  }

  lemma SubsetOfSameSize(a: set<int>, b: set<int>)
    requires a <= b && |a| == |b|
    ensures a == b
  {
    var rest := b - a;
    assert b == a + rest && a !! rest;
  }

  /** Only the actions answer exactly when as many slots answer as there are actions. */
  lemma NoOtherAnswers(tab: seq<Entry>, offset: int, actions: seq<Entry>)
    requires DistinctLookaheads(actions) && Holds(tab, offset, actions)
    ensures AnswerCount(tab, |tab|, offset) == |actions| <==> Agrees(tab, offset, actions)
  {
    hide Agrees, AnswerCount, SlotsOf;
    var answering := set k | 0 <= k < |tab| && Answers(tab, k, offset);
    AnswerCountIsSize(tab, |tab|, offset);
    var wanted := SlotsOf(actions, |actions|, offset);
    SlotsOfSize(actions, |actions|, offset);
    forall k | k in wanted
      ensures k in answering && tab[k] in actions
    {
      SlotsOfMember(actions, |actions|, offset, k);
      var j :| 0 <= j < |actions| && k == actions[j].lookahead + offset;
      assert tab[k] == actions[j];
    }
    AgreesIff(tab, offset, actions);
    if |answering| == |actions| {
      SubsetOfSameSize(wanted, answering);
    }
    if Agrees(tab, offset, actions) {
      forall k | k in answering
        ensures k in wanted
      {
        var j :| 0 <= j < |actions| && actions[j] == tab[k];
        SlotsOfMember(actions, |actions|, offset, k);
      }
      assert answering == wanted;
    }
  }

  /** A slot of a table, unused beyond its end. */
  function Slot(tab: seq<Entry>, k: nat): Entry {
    if k < |tab| then tab[k] else EMPTY
  }

  /** The later table is the earlier one with free slots filled from the transaction. */
  ghost predicate Overlaid(was: seq<Entry>, now: seq<Entry>, offset: int, actions: seq<Entry>) {
    && |was| <= |now|
    && forall k | 0 <= k < |now| ::
         || now[k] == Slot(was, k)
         || (Slot(was, k).lookahead < 0 && now[k] in actions && now[k].lookahead == k - offset)
  }

  /** The offset is new to the table, or already shows this very transaction. */
  ghost predicate Suits(tab: seq<Entry>, offset: int, actions: seq<Entry>) {
    (forall k | 0 <= k < |tab| :: !Answers(tab, k, offset)) || Agrees(tab, offset, actions)
  }

  /** The array after its slots for the first j actions have been written. */
  ghost function Written(prior: seq<Entry>, actions: seq<Entry>, j: nat, offset: int): (now: seq<Entry>)
    requires j <= |actions|
    requires forall m | 0 <= m < |actions| :: 0 <= actions[m].lookahead + offset < |prior|
    ensures |now| == |prior|
  {
    if j == 0 then prior
    else Written(prior, actions, j - 1, offset)[actions[j - 1].lookahead + offset := actions[j - 1]]
  }

  lemma {:induction false} WrittenSlots(prior: seq<Entry>, actions: seq<Entry>, j: nat, offset: int, k: nat)
    requires j <= |actions| && DistinctLookaheads(actions) && k < |prior|
    requires forall m | 0 <= m < |actions| :: 0 <= actions[m].lookahead + offset < |prior|
    ensures forall m | 0 <= m < j && k == actions[m].lookahead + offset ::
            Written(prior, actions, j, offset)[k] == actions[m]
    ensures (forall m | 0 <= m < j :: k != actions[m].lookahead + offset) ==>
            Written(prior, actions, j, offset)[k] == prior[k]
  {
    if j == 0 {
    } else {
      WrittenSlots(prior, actions, j - 1, offset, k);
    }
  }

  /** Writing a transaction into free slots, or over itself, overlays the table in use. */
  lemma WrittenOverlays(prior: seq<Entry>, used: nat, now: seq<Entry>, used': nat, offset: int, actions: seq<Entry>)
    requires DistinctLookaheads(actions) && used <= used' <= |prior|
    requires forall m | 0 <= m < |actions| :: 0 <= actions[m].lookahead + offset < used'
    requires now == Written(prior, actions, |actions|, offset)
    requires forall k | 0 <= k < |prior| :: prior[k] == EMPTY || prior[k].lookahead >= 0
    requires forall k | used <= k < |prior| :: prior[k] == EMPTY
    requires || (forall m | 0 <= m < |actions| :: prior[actions[m].lookahead + offset].lookahead < 0)
             || Holds(prior[..used], offset, actions)
    ensures Overlaid(prior[..used], now[..used'], offset, actions) && Holds(now[..used'], offset, actions)
    ensures forall k | 0 <= k < |now| :: now[k] == EMPTY || now[k].lookahead >= 0
    ensures forall k | used' <= k < |now| :: now[k] == EMPTY
  {
    forall k | 0 <= k < |now|
      ensures || now[k] == prior[k]
              || (prior[k].lookahead < 0 && now[k] in actions && now[k].lookahead == k - offset)
      ensures k >= used' ==> now[k] == EMPTY
    {
      WrittenSlots(prior, actions, |actions|, offset, k);
    }
    forall m | 0 <= m < |actions|
      ensures now[actions[m].lookahead + offset] == actions[m]
    {
      WrittenSlots(prior, actions, |actions|, offset, actions[m].lookahead + offset);
    }
  }

  /** Overlaying a transaction makes it readable at its offset. */
  lemma OverlayReads(was: seq<Entry>, now: seq<Entry>, offset: int, actions: seq<Entry>)
    requires DistinctLookaheads(actions) && Suits(was, offset, actions)
    requires Overlaid(was, now, offset, actions) && Holds(now, offset, actions)
    ensures Agrees(now, offset, actions)
  {
    AgreesIff(was, offset, actions);
    forall k | 0 <= k < |now| && Answers(now, k, offset)
      ensures now[k] in actions
    {
      if now[k] == Slot(was, k) {
        assert Answers(was, k, offset);
      }
    }
    AgreesIff(now, offset, actions);
  }

  /** Overlaying a transaction leaves every earlier one readable as before. */
  lemma OverlayKeeps(was: seq<Entry>, now: seq<Entry>, offset: int, actions: seq<Entry>, earlier: Placed)
    requires DistinctLookaheads(actions) && Suits(was, offset, actions)
    requires Overlaid(was, now, offset, actions)
    requires earlier.actions != [] && DistinctLookaheads(earlier.actions)
    requires Agrees(was, earlier.offset, earlier.actions)
    ensures Agrees(now, earlier.offset, earlier.actions)
  {
    AgreesIff(was, earlier.offset, earlier.actions);
    AgreesIff(was, offset, actions);
    assert Answers(was, earlier.actions[0].lookahead + earlier.offset, earlier.offset);
    forall k | 0 <= k < |now| && Answers(now, k, earlier.offset)
      ensures now[k] in earlier.actions
    {
      if now[k] == Slot(was, k) {
        assert Answers(was, k, earlier.offset);
      }
    }
    AgreesIff(now, earlier.offset, earlier.actions);
  }

  lemma SharedOffsetMember(tab: seq<Entry>, offset: int, a: seq<Entry>, b: seq<Entry>, e: Entry)
    requires DistinctLookaheads(a) && e in a
    requires Agrees(tab, offset, a) && Agrees(tab, offset, b)
    ensures e in b
  {
    var j :| 0 <= j < |a| && a[j] == e;
    FindMember(a, j);
    var la: nat := e.lookahead;
    assert Lookup(tab, offset, la) == Find(a, la) == Find(b, la);
  }

  /** Transactions that share an offset are the same set of actions. */
  lemma SharedOffsetSameActions(tab: seq<Entry>, offset: int, a: seq<Entry>, b: seq<Entry>)
    requires DistinctLookaheads(a) && DistinctLookaheads(b)
    requires Agrees(tab, offset, a) && Agrees(tab, offset, b)
    ensures forall e :: e in a <==> e in b
  {
    forall e | e in a
      ensures e in b
    {
      SharedOffsetMember(tab, offset, a, b, e);
    }
    forall e | e in b
      ensures e in a
    {
      SharedOffsetMember(tab, offset, b, a, e);
    }
  }

  class AcTab {
    var nAction: nat            // slots in use
    var aAction: array<Entry>   // the table; its length is nActionAlloc
    var aLookahead: seq<Entry>  // the transaction under construction
    var mnLookahead: int
    var mnAction: int
    var mxLookahead: int

    ghost var placed: seq<Placed>  // everything inserted so far

    /** The part of the table in use. */
    ghost function Table(): seq<Entry>
      reads this, aAction
      requires nAction <= aAction.Length
    {
      aAction[..nAction]
    }

    ghost predicate ValidPending()
      reads this
    {
      aLookahead != [] ==>
        && (forall j | 0 <= j < |aLookahead| :: mnLookahead <= aLookahead[j].lookahead <= mxLookahead)
        && Entry(mnLookahead, mnAction) in aLookahead
    }

    ghost predicate ValidPlaced()
      reads this, aAction
      requires nAction <= aAction.Length
    {
      forall t | 0 <= t < |placed| ::
        && placed[t].actions != []
        && DistinctLookaheads(placed[t].actions)
        && Agrees(Table(), placed[t].offset, placed[t].actions)
    }

    /** The table and the pending transaction, without the history. */
    ghost predicate ValidTable()
      reads this, aAction
    {
      && nAction <= aAction.Length
      && (forall k | 0 <= k < aAction.Length :: aAction[k] == EMPTY || aAction[k].lookahead >= 0)
      && (forall k | nAction <= k < aAction.Length :: aAction[k] == EMPTY)
      && ValidPending()
    }

    ghost predicate Valid()
      reads this, aAction
    {
      ValidTable() && ValidPlaced()
    }

    constructor ()
      ensures Valid() && fresh(aAction)
      ensures placed == [] && aLookahead == [] && nAction == 0
    {
      nAction, aLookahead, placed := 0, [], [];
      mnLookahead, mnAction, mxLookahead := 0, 0, 0;
      aAction := new Entry[0];
    }

    /** Adds an action to the transaction under construction. */
    method Action(lookahead: int, action: int)
      requires Valid()
      modifies this`aLookahead, this`mnLookahead, this`mnAction, this`mxLookahead
      ensures Valid()
      ensures aLookahead == old(aLookahead) + [Entry(lookahead, action)]
    {
      if aLookahead == [] {
        mxLookahead := lookahead;
        mnLookahead := lookahead;
        mnAction := action;
      } else {
        if mxLookahead < lookahead {
          mxLookahead := lookahead;
        }
        if mnLookahead > lookahead {
          mnLookahead := lookahead;
          mnAction := action;
        }
      }
      aLookahead := aLookahead + [Entry(lookahead, action)];
    }

    /** No slot of the table answers a reader at the given offset. */
    ghost predicate Unread(offset: int)
      reads this, aAction
      requires nAction <= aAction.Length
    {
      forall k | 0 <= k < nAction :: !Answers(aAction[..nAction], k, offset)
    }

    /** The slots wanted by the pending transaction are free. */
    ghost predicate Free(offset: int)
      reads this, aAction
    {
      forall j | 0 <= j < |aLookahead| ::
        && 0 <= aLookahead[j].lookahead + offset < aAction.Length
        && aAction[aLookahead[j].lookahead + offset].lookahead < 0
    }

    /** The slot before an offset is free; its mark -1 is taken for a lookahead that answers there. */
    ghost predicate Shadowed(offset: int)
      reads this, aAction
      requires nAction <= aAction.Length
    {
      0 < offset <= nAction && aAction[offset - 1].lookahead < 0
    }

    /** The scan passes over exactly the offsets that are not suitable, or shadowed. */
    ghost predicate PassedOver(offset: int)
      reads this, aAction
      requires nAction <= aAction.Length
    {
      !Agrees(Table(), offset, aLookahead) && (Free(offset) && Unread(offset) ==> Shadowed(offset))
    }

    /** Such an offset: with the lookaheads 0 and 2 in the table, lookahead 1 would fit at offset 2. */
    lemma FitPassedOver()
      requires ValidTable() && nAction == 3 < aAction.Length && aLookahead == [Entry(1, mnAction)] && mnLookahead == 1
      requires aAction[0].lookahead == 0 && aAction[1].lookahead < 0 && aAction[2].lookahead == 2
      ensures Free(2) && Unread(2) && PassedOver(2)
    {
      AgreesIff(Table(), 2, aLookahead);
    }

    /** What the slot for the least lookahead rules out. */
    lemma NotHere(i: nat)
      requires ValidTable() && aLookahead != [] && DistinctLookaheads(aLookahead) && i < aAction.Length
      ensures aAction[i].lookahead >= 0 ==> !Free(i - mnLookahead)
      ensures !(aAction[i].lookahead == mnLookahead && aAction[i].action == mnAction) ==>
              !Agrees(Table(), i - mnLookahead, aLookahead)
    {
      var j :| 0 <= j < |aLookahead| && aLookahead[j] == Entry(mnLookahead, mnAction);
      AgreesIff(Table(), i - mnLookahead, aLookahead);
      assert aLookahead[j].lookahead + (i - mnLookahead) == i;
    }

    /** Past the end of the table the pending transaction always fits. */
    lemma AppendSuits()
      requires ValidTable() && aLookahead != [] && DistinctLookaheads(aLookahead)
      requires nAction + mxLookahead + 1 < aAction.Length
      ensures Free(nAction) && Unread(nAction)
    {
    }

    method FitsEmpty(i: nat) returns (fits: bool)
      requires ValidTable() && aLookahead != []
      requires i < nAction + mnLookahead && nAction + mxLookahead + 1 < aAction.Length
      ensures fits <==> Free(i - mnLookahead) && Unread(i - mnLookahead) && !Shadowed(i - mnLookahead)
    {
      var j := 0;
      while j < |aLookahead|
        invariant 0 <= j <= |aLookahead|
        invariant forall m | 0 <= m < j ::
                    && 0 <= aLookahead[m].lookahead + (i - mnLookahead) < aAction.Length
                    && aAction[aLookahead[m].lookahead + (i - mnLookahead)].lookahead < 0
      {
        var k := aLookahead[j].lookahead - mnLookahead + i;
        if aAction[k].lookahead >= 0 {
          return false;
        }
        j := j + 1;
      }
      j := 0;
      while j < nAction
        invariant 0 <= j <= nAction
        invariant forall m | 0 <= m < j :: aAction[m].lookahead != m - (i - mnLookahead)
      {
        if aAction[j].lookahead == j + mnLookahead - i {
          assert aAction[j].lookahead >= 0 ==> Answers(aAction[..nAction], j, i - mnLookahead);
          assert aAction[j].lookahead < 0 ==> j == i - mnLookahead - 1;
          return false;
        }
        j := j + 1;
      }
      return true;
    }

    /** Counts the slots that answer at an offset. */
    method CountAnswers(offset: int) returns (n: nat)
      requires nAction <= aAction.Length
      ensures n == AnswerCount(Table(), nAction, offset)
    {
      n := 0;
      for j := 0 to nAction
        invariant n == AnswerCount(Table(), j, offset)
      {
        if aAction[j].lookahead < 0 {
          continue;
        }
        if aAction[j].lookahead == j - offset {
          n := n + 1;
        }
      }
    }

    /** The pending transaction is already in the table, alone at this offset. */
    method SameAsPrior(offset: int) returns (same: bool)
      requires nAction <= aAction.Length && DistinctLookaheads(aLookahead)
      ensures same <==> Agrees(Table(), offset, aLookahead)
    {
      AgreesIff(Table(), offset, aLookahead);
      var j := 0;
      while j < |aLookahead|
        invariant 0 <= j <= |aLookahead|
        invariant forall m | 0 <= m < j ::
                    && 0 <= aLookahead[m].lookahead + offset < nAction
                    && aAction[aLookahead[m].lookahead + offset] == aLookahead[m]
      {
        var k := aLookahead[j].lookahead + offset;
        if k < 0 || k >= nAction || aLookahead[j].lookahead != aAction[k].lookahead ||
            aLookahead[j].action != aAction[k].action {
          return false;
        }
        j := j + 1;
      }
      assert Holds(Table(), offset, aLookahead);
      var n := CountAnswers(offset);
      NoOtherAnswers(Table(), offset, aLookahead);
      same := n == |aLookahead|;
    }

    /** Scans for the first offset that suits the pending transaction. */
    method FindOffset() returns (offset: int)
      requires ValidTable() && aLookahead != [] && DistinctLookaheads(aLookahead)
      requires nAction + mxLookahead + 1 < aAction.Length
      ensures -mnLookahead <= offset <= nAction
      ensures (Free(offset) && Unread(offset)) || Agrees(Table(), offset, aLookahead)
      ensures forall o | -mnLookahead <= o < offset :: PassedOver(o)
      ensures offset < nAction ==> !PassedOver(offset)
    {
      hide Agrees, Free, Unread, Shadowed;
      var i := 0;
      while i < nAction + mnLookahead
        invariant 0 <= i <= nAction + mnLookahead
        invariant forall o | -mnLookahead <= o < i - mnLookahead :: PassedOver(o)
      {
        NotHere(i);
        if aAction[i].lookahead < 0 {
          var fits := FitsEmpty(i);
          if fits {
            return i - mnLookahead;
          }
        } else if aAction[i].lookahead == mnLookahead && aAction[i].action == mnAction {
          var same := SameAsPrior(i - mnLookahead);
          if same {
            return i - mnLookahead;
          }
        }
        i := i + 1;
      }
      AppendSuits();
      return nAction;
    }

    /** Grows the table so that the pending transaction fits after its end. */
    method Reserve()
      requires Valid()
      requires aLookahead != [] && DistinctLookaheads(aLookahead)
      modifies this`aAction
      ensures Valid() && (aAction == old(aAction) || fresh(aAction))
      ensures nAction + mxLookahead + 1 < aAction.Length
      ensures Table() == old(Table())
    {
      assert 0 <= aLookahead[0].lookahead <= mxLookahead;
      var n := mxLookahead + 1;
      if nAction + n >= aAction.Length {
        var before := aAction;
        var bigger := new Entry[nAction + n + before.Length + 20](_ => EMPTY);
        forall k | 0 <= k < before.Length {
          bigger[k] := before[k];
        }
        aAction := bigger;
        assert Table() == old(Table());
      }
    }

    method WriteSlots(offset: int)
      requires nAction <= aAction.Length
      requires forall m | 0 <= m < |aLookahead| :: 0 <= aLookahead[m].lookahead + offset < aAction.Length
      modifies this`nAction, aAction
      ensures aAction[..] == Written(old(aAction[..]), aLookahead, |aLookahead|, offset)
      ensures old(nAction) <= nAction <= aAction.Length
      ensures forall m | 0 <= m < |aLookahead| :: aLookahead[m].lookahead + offset < nAction
    {
      var j := 0;
      while j < |aLookahead|
        invariant 0 <= j <= |aLookahead|
        invariant aAction[..] == Written(old(aAction[..]), aLookahead, j, offset)
        invariant old(nAction) <= nAction <= aAction.Length
        invariant forall m | 0 <= m < j :: aLookahead[m].lookahead + offset < nAction
      {
        var k := aLookahead[j].lookahead + offset;
        aAction[k] := aLookahead[j];
        if k >= nAction {
          nAction := k + 1;
        }
        j := j + 1;
      }
    }

    /** Writes the pending transaction into the table at the given offset. */
    method Write(offset: int)
      requires ValidTable() && aLookahead != [] && DistinctLookaheads(aLookahead)
      requires Free(offset) || Holds(Table(), offset, aLookahead)
      modifies this`aLookahead, this`nAction, aAction
      ensures ValidTable() && aLookahead == [] && nAction >= old(nAction)
      ensures Overlaid(old(Table()), Table(), offset, old(aLookahead))
      ensures Holds(Table(), offset, old(aLookahead))
    {
      hide Overlaid, Written;
      ghost var prior := aAction[..];
      ghost var actions := aLookahead;
      assert Table() == prior[..nAction];
      WriteSlots(offset);
      aLookahead := [];
      WrittenOverlays(prior, old(nAction), aAction[..], nAction, offset, actions);
    }

    /** Records the pending transaction at the given offset. */
    method Place(offset: int)
      requires Valid() && aLookahead != [] && DistinctLookaheads(aLookahead)
      requires nAction + mxLookahead + 1 < aAction.Length
      requires offset <= nAction
      requires (Free(offset) && Unread(offset)) || Agrees(Table(), offset, aLookahead)
      modifies this`aLookahead, this`nAction, this`placed, aAction
      ensures Valid()
      ensures aLookahead == [] && nAction >= old(nAction)
      ensures placed == old(placed) + [Placed(offset, old(aLookahead))]
    {
      ghost var was := Table();
      ghost var actions := aLookahead;
      AgreesIff(was, offset, actions);
      Write(offset);
      ghost var now := Table();
      OverlayReads(was, now, offset, actions);
      forall t | 0 <= t < |placed|
        ensures Agrees(now, placed[t].offset, placed[t].actions)
      {
        OverlayKeeps(was, now, offset, actions, placed[t]);
      }
      placed := placed + [Placed(offset, actions)];
    }

    /** Inserts the pending transaction and returns the offset it is found at. */
    method Insert() returns (offset: int)
      requires Valid()
      requires aLookahead != [] && DistinctLookaheads(aLookahead)
      modifies this, aAction
      ensures Valid() && (aAction == old(aAction) || fresh(aAction))
      ensures aLookahead == []
      ensures placed == old(placed) + [Placed(offset, old(aLookahead))]
      ensures nAction >= old(nAction)
    {
      Reserve();
      offset := FindOffset();
      Place(offset);
    }
  }
}
