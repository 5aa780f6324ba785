/**
 From resolved actions to the tables of a generated parser (ReportTable in
 lemon.c) and back to actions (yy_find_shift_action, yy_find_reduce_action in
 lempar.c): what the driver looks up is what the generator decided.
 */
module GeneratedTables {
  import opened Wrappers
  import opened ParserActions
  import opened ActTab
  import LrDriver

  const NO_OFFSET := -2147483647

  /** The sizes that fix how actions are numbered. */
  datatype Sizes = Sizes(nterminal: nat, nsymbol: nat, nstate: nat, nrule: nat) {
    predicate Valid() {
      nterminal <= nsymbol < 2147483647
    }

    /** The number of an action, or -1 when it is not used. */
    function ComputeAction(a: Action): int {
      match a.kind
      case SHIFT => a.x
      case REDUCE => a.x + nstate
      case ERROR => nstate + nrule
      case ACCEPT => nstate + nrule + 1
      case _ => -1
    }

    /** The number of a decision; no decision is an error. */
    function Code(d: Option<(Kind, nat)>): int {
      match d
      case None => nstate + nrule
      case Some((k, x)) => ComputeAction(Action(0, k, x))
    }

    /** Tokens and nonterminals are kept in separate transactions. */
    predicate Belongs(sp: nat, isTkn: bool) {
      if isTkn then sp < nterminal else nterminal <= sp && sp != nsymbol
    }

    /** The transaction of a state. */
    function Entries(ap: seq<Action>, isTkn: bool): (es: seq<Entry>) {
      if ap == [] then []
      else
        var rest := Entries(ap[..|ap| - 1], isTkn);
        var a := ap[|ap| - 1];
        if Belongs(a.sp, isTkn) && ComputeAction(a) >= 0 then rest + [Entry(a.sp, ComputeAction(a))] else rest
    }

    /** The actions of a state, as the generator leaves them. */
    ghost predicate StateOk(ap: seq<Action>) {
      && OneLive(ap)
      && forall k | 0 <= k < |ap| :: ap[k].sp <= nsymbol && ap[k].kind != ERROR
    }
  }

  /** A state's token or nonterminal transaction. */
  datatype Axset = Axset(state: nat, isTkn: bool)

  /** All transactions, largest first, in some order. */
  ghost predicate Ordered(z: Sizes, states: seq<seq<Action>>, ax: seq<Axset>) {
    && (forall k | 0 <= k < |ax| :: ax[k].state < |states|)
    && (forall s, isTkn | 0 <= s < |states| :: Axset(s, isTkn) in ax)
    && (forall i, k | 0 <= i < k < |ax| :: ax[i] != ax[k])
    && (forall i, k | 0 <= i < k < |ax| ::
          |z.Entries(states[ax[i].state], ax[i].isTkn)| >= |z.Entries(states[ax[k].state], ax[k].isTkn)|)
  }

  // ----- a state's transaction says what the state's actions say

  lemma {:induction false} EntriesMember(z: Sizes, ap: seq<Action>, isTkn: bool, e: Entry)
    requires forall k | 0 <= k < |ap| :: ap[k].kind != ERROR
    ensures e in z.Entries(ap, isTkn) <==>
            exists k :: 0 <= k < |ap| && ap[k].Live() && z.Belongs(ap[k].sp, isTkn) &&
                e == Entry(ap[k].sp, z.ComputeAction(ap[k]))
  {
    if ap == [] {
    } else {
      var n := |ap| - 1;
      EntriesMember(z, ap[..n], isTkn, e);
      assert forall k | 0 <= k < n :: ap[..n][k] == ap[k];
    }
  }

  lemma {:induction false} EntriesDistinct(z: Sizes, ap: seq<Action>, isTkn: bool)
    requires z.StateOk(ap)
    ensures DistinctLookaheads(z.Entries(ap, isTkn))
  {
    if ap == [] {
    } else {
      var n := |ap| - 1;
      var init, a := ap[..n], ap[n];
      assert forall k | 0 <= k < n :: init[k] == ap[k];
      EntriesDistinct(z, init, isTkn);
      forall e | e in z.Entries(init, isTkn) && a.Live()
        ensures e.lookahead != a.sp
      {
        EntriesMember(z, init, isTkn, e);
      }
      var es := z.Entries(init, isTkn);
      assert forall j | 0 <= j < |es| :: es[j] in es;
    }
  }

  lemma EntriesFind(z: Sizes, ap: seq<Action>, isTkn: bool, sp: nat)
    requires z.StateOk(ap) && z.Belongs(sp, isTkn)
    ensures ActTab.Find(z.Entries(ap, isTkn), sp) ==
            match ParserActions.Find(ap, sp) case Some(a) => Some(z.ComputeAction(a)) case None => None
  {
    var es := z.Entries(ap, isTkn);
    EntriesDistinct(z, ap, isTkn);
    match ParserActions.Find(ap, sp)
    case Some(a) =>
      EntriesMember(z, ap, isTkn, Entry(sp, z.ComputeAction(a)));
      var j :| 0 <= j < |es| && es[j] == Entry(sp, z.ComputeAction(a));
      FindMember(es, j);
    case None =>
      var r := ActTab.Find(es, sp);
      if r.Some? {
        EntriesMember(z, ap, isTkn, Entry(sp, r.value));
      }
  }

  // ----- building the tables

  /** Adds a state's transaction action by action. */
  method FillTransaction(z: Sizes, ap: seq<Action>, isTkn: bool, tab: AcTab)
    requires tab.Valid() && tab.aLookahead == []
    modifies tab`aLookahead, tab`mnLookahead, tab`mnAction, tab`mxLookahead
    ensures tab.Valid() && tab.aLookahead == z.Entries(ap, isTkn)
  {
    for i := 0 to |ap|
      invariant tab.Valid() && tab.aLookahead == z.Entries(ap[..i], isTkn)
    {
      assert ap[..i + 1][..i] == ap[..i];
      if !z.Belongs(ap[i].sp, isTkn) {
        continue;
      }
      var action := z.ComputeAction(ap[i]);
      if action < 0 {
        continue;
      }
      tab.Action(ap[i].sp, action);
    }
    assert ap[..|ap|] == ap;
  }

  /** The transaction was inserted at this offset. */
  ghost predicate InsertedAt(z: Sizes, ap: seq<Action>, isTkn: bool, placed: seq<Placed>, offset: int) {
    Placed(offset, z.Entries(ap, isTkn)) in placed
  }

  /** Offsets of one kind of transaction, with the least of them. */
  ghost predicate OffsetsOk(z: Sizes, states: seq<seq<Action>>, isTkn: bool, placed: seq<Placed>, ofst: seq<int>,
                            mn: int) {
    && |ofst| == |states| && mn <= 0
    && forall s | 0 <= s < |states| && ofst[s] != NO_OFFSET ::
         InsertedAt(z, states[s], isTkn, placed, ofst[s]) && mn <= ofst[s]
  }

  /** An offset at which a transaction is readable is never the missing-offset mark. */
  lemma OffsetInRange(z: Sizes, ap: seq<Action>, isTkn: bool, tab: seq<Entry>, offset: int)
    requires z.Valid() && z.StateOk(ap) && z.Entries(ap, isTkn) != []
    requires Agrees(tab, offset, z.Entries(ap, isTkn))
    ensures offset != NO_OFFSET
  {
    var es := z.Entries(ap, isTkn);
    EntriesDistinct(z, ap, isTkn);
    AgreesIff(tab, offset, es);
    EntriesMember(z, ap, isTkn, es[0]);
  }

  /** Inserts one transaction of a state. */
  method InsertOne(z: Sizes, ap: seq<Action>, isTkn: bool, tab: AcTab) returns (ofst: int)
    requires z.Valid() && z.StateOk(ap) && z.Entries(ap, isTkn) != []
    requires tab.Valid() && tab.aLookahead == []
    modifies tab, tab.aAction
    ensures tab.Valid() && tab.aLookahead == []
    ensures tab.aAction == old(tab.aAction) || fresh(tab.aAction)
    ensures tab.placed == old(tab.placed) + [Placed(ofst, z.Entries(ap, isTkn))]
    ensures ofst != NO_OFFSET
  {
    EntriesDistinct(z, ap, isTkn);
    FillTransaction(z, ap, isTkn, tab);
    ofst := tab.Insert();
    ghost var last := tab.placed[|tab.placed| - 1];
    assert last == Placed(ofst, z.Entries(ap, isTkn));
    OffsetInRange(z, ap, isTkn, tab.Table(), ofst);
  }

  lemma OffsetsKept(z: Sizes, states: seq<seq<Action>>, isTkn: bool, placed: seq<Placed>, more: seq<Placed>,
                    ofst: seq<int>, mn: int)
    requires OffsetsOk(z, states, isTkn, placed, ofst, mn)
    ensures OffsetsOk(z, states, isTkn, placed + more, ofst, mn)
  {
  }

  lemma OffsetsExtended(z: Sizes, states: seq<seq<Action>>, isTkn: bool, placed: seq<Placed>, ofst: seq<int>, mn: int,
                        s: nat, o: int)
    requires OffsetsOk(z, states, isTkn, placed, ofst, mn) && s < |states|
    requires InsertedAt(z, states[s], isTkn, placed, o)
    ensures OffsetsOk(z, states, isTkn, placed, ofst[s := o], if o < mn then o else mn)
  {
  }

  /** Every transaction of the ordered list that is not empty has been given an offset. */
  ghost predicate AllInserted(z: Sizes, states: seq<seq<Action>>, isTkn: bool, ofst: seq<int>)
    requires |ofst| == |states|
  {
    forall s | 0 <= s < |states| && ofst[s] == NO_OFFSET :: z.Entries(states[s], isTkn) == []
  }

  lemma NoOffsets(z: Sizes, states: seq<seq<Action>>, isTkn: bool, ofst: seq<int>)
    requires |ofst| == |states| && forall s | 0 <= s < |states| :: ofst[s] == NO_OFFSET
    ensures OffsetsOk(z, states, isTkn, [], ofst, 0)
  {}

  /** The first i transactions have their offsets. */
  predicate Recorded(ax: seq<Axset>, i: nat, tkn: seq<int>, nt: seq<int>)
    requires i <= |ax| && |tkn| == |nt| && forall k | 0 <= k < |ax| :: ax[k].state < |tkn|
  {
    forall k | 0 <= k < i :: (if ax[k].isTkn then tkn else nt)[ax[k].state] != NO_OFFSET
  }

  lemma Unrecorded(ax: seq<Axset>, tkn: seq<int>, nt: seq<int>)
    requires |tkn| == |nt| && forall k | 0 <= k < |ax| :: ax[k].state < |tkn|
    ensures Recorded(ax, 0, tkn, nt)
  {}

  lemma RecordedNext(ax: seq<Axset>, i: nat, tkn: seq<int>, nt: seq<int>, ofst: int)
    requires i < |ax| && |tkn| == |nt| && forall k | 0 <= k < |ax| :: ax[k].state < |tkn|
    requires Recorded(ax, i, tkn, nt) && ofst != NO_OFFSET
    ensures var s := ax[i].state;
            if ax[i].isTkn then Recorded(ax, i + 1, tkn[s := ofst], nt) else Recorded(ax, i + 1, tkn, nt[s := ofst])
  {}

  /** The list being sorted by size, the transactions after the first empty one are empty too. */
  lemma RestEmpty(z: Sizes, states: seq<seq<Action>>, ax: seq<Axset>, i: nat, tkn: seq<int>, nt: seq<int>)
    requires Ordered(z, states, ax) && i <= |ax| && |tkn| == |nt| == |states|
    requires i < |ax| ==> z.Entries(states[ax[i].state], ax[i].isTkn) == []
    requires Recorded(ax, i, tkn, nt)
    ensures AllInserted(z, states, true, tkn) && AllInserted(z, states, false, nt)
  {
    forall s, isTkn | 0 <= s < |states| && (if isTkn then tkn else nt)[s] == NO_OFFSET
      ensures z.Entries(states[s], isTkn) == []
    {
      var k :| 0 <= k < |ax| && ax[k] == Axset(s, isTkn);
      assert k >= i;
    }
    assert forall s | 0 <= s < |states| ::
           (if true then tkn else nt)[s] == tkn[s] && (if false then tkn else nt)[s] == nt[s];
  }

  method InsertAll(z: Sizes, states: seq<seq<Action>>, ax: seq<Axset>, tab: AcTab)
    returns (tkn: seq<int>, nt: seq<int>, mnTkn: int, mnNt: int)
    requires z.Valid() && Ordered(z, states, ax)
    requires forall s | 0 <= s < |states| :: z.StateOk(states[s])
    requires tab.Valid() && tab.placed == [] && tab.aLookahead == []
    modifies tab, tab.aAction
    ensures tab.Valid()
    ensures OffsetsOk(z, states, true, tab.placed, tkn, mnTkn) && AllInserted(z, states, true, tkn)
    ensures OffsetsOk(z, states, false, tab.placed, nt, mnNt) && AllInserted(z, states, false, nt)
  {
    hide OffsetsOk, Recorded;
    Unrecorded(ax, seq(|states|, _ => NO_OFFSET), seq(|states|, _ => NO_OFFSET));
    tkn, nt := seq(|states|, _ => NO_OFFSET), seq(|states|, _ => NO_OFFSET);
    mnTkn, mnNt := 0, 0;
    NoOffsets(z, states, true, tkn);
    NoOffsets(z, states, false, nt);
    var i := 0;
    while i < |ax| && |z.Entries(states[ax[i].state], ax[i].isTkn)| > 0
      invariant 0 <= i <= |ax| && tab.Valid() && tab.aLookahead == [] && |tkn| == |nt| == |states|
      invariant tab.aAction == old(tab.aAction) || fresh(tab.aAction)
      invariant OffsetsOk(z, states, true, tab.placed, tkn, mnTkn) && OffsetsOk(z, states, false, tab.placed, nt, mnNt)
      invariant Recorded(ax, i, tkn, nt)
    {
      var s := ax[i].state;
      ghost var before := tab.placed;
      var ofst := InsertOne(z, states[s], ax[i].isTkn, tab);
      ghost var added := [Placed(ofst, z.Entries(states[s], ax[i].isTkn))];
      OffsetsKept(z, states, true, before, added, tkn, mnTkn);
      OffsetsKept(z, states, false, before, added, nt, mnNt);
      RecordedNext(ax, i, tkn, nt, ofst);
      if ax[i].isTkn {
        OffsetsExtended(z, states, true, tab.placed, tkn, mnTkn, s, ofst);
        tkn := tkn[s := ofst];
        if ofst < mnTkn { mnTkn := ofst; }
      } else {
        OffsetsExtended(z, states, false, tab.placed, nt, mnNt, s, ofst);
        nt := nt[s := ofst];
        if ofst < mnNt { mnNt := ofst; }
      }
      i := i + 1;
    }
    RestEmpty(z, states, ax, i, tkn, nt);
  }

  lemma FindStep(ap: seq<Action>, i: nat, sp: nat)
    requires OneLive(ap) && i < |ap|
    ensures ParserActions.Find(ap[..i + 1], sp) ==
            if ap[i].Live() && ap[i].sp == sp then Some(ap[i]) else ParserActions.Find(ap[..i], sp)
  {}

  /** The default of a state: the last action on the default symbol, else an error. */
  method DefaultOf(z: Sizes, ap: seq<Action>) returns (iDflt: int)
    requires z.StateOk(ap)
    ensures iDflt == match ParserActions.Find(ap, z.nsymbol) case Some(a) => z.ComputeAction(a)
            case None => z.nstate + z.nrule
  {
    iDflt := z.nstate + z.nrule;
    for i := 0 to |ap|
      invariant iDflt == match ParserActions.Find(ap[..i], z.nsymbol) case Some(a) => z.ComputeAction(a)
                case None => z.nstate + z.nrule
    {
      FindStep(ap, i, z.nsymbol);
      if z.ComputeAction(ap[i]) >= 0 && ap[i].sp == z.nsymbol {
        iDflt := z.ComputeAction(ap[i]);
      }
    }
    assert ap[..|ap|] == ap;
  }

  /** The tables as they are written out: unused slots hold values no lookahead has. */
  function Printed(z: Sizes, tab: seq<Entry>, tkn: seq<int>, nt: seq<int>, mnTkn: int, mnNt: int, dflt: seq<int>,
                   fallback: seq<nat>, ruleInfo: seq<LrDriver.RuleInfo>): LrDriver.Tables {
    LrDriver.Tables(
      z.nstate, z.nrule, z.nsymbol,
      seq(|tab|, i requires 0 <= i < |tab| => if tab[i].action < 0 then z.nsymbol + z.nrule + 2 else tab[i].action),
      seq(|tab|, i requires 0 <= i < |tab| => if tab[i].lookahead < 0 then z.nsymbol else tab[i].lookahead),
      seq(|tkn|, s requires 0 <= s < |tkn| => if tkn[s] == NO_OFFSET then mnTkn - 1 else tkn[s]), mnTkn - 1,
      seq(|nt|, s requires 0 <= s < |nt| => if nt[s] == NO_OFFSET then mnNt - 1 else nt[s]), mnNt - 1,
      dflt, fallback, ruleInfo)
  }

  /** The tokens that the driver tries in turn: the token itself, then its fallbacks. */
  function Chain(T: LrDriver.Tables, la: nat, hops: nat): (tokens: seq<nat>)
    requires T.EndsWithin(la, hops)
    ensures tokens != [] && tokens[0] == la
    decreases hops
  {
    [la] + if la < |T.fallback| && T.fallback[la] != 0 then Chain(T, T.fallback[la], hops - 1) else []
  }

  /** The action of the first token that has one. */
  function FirstAction(ap: seq<Action>, tokens: seq<nat>): Option<Action> {
    if tokens == [] then None
    else
      match ParserActions.Find(ap, tokens[0])
      case Some(a) => Some(a)
      case None => FirstAction(ap, tokens[1..])
  }

  /** What a state does on a token: the action of the first token of its chain that has one, else the default. */
  function DecideToken(ap: seq<Action>, tokens: seq<nat>, dflt: nat): Option<(Kind, nat)> {
    match FirstAction(ap, tokens)
    case Some(a) => Some((a.kind, a.x))
    case None =>
      match ParserActions.Find(ap, dflt)
      case Some(a) => Some((a.kind, a.x))
      case None => None
  }

  /** A token has an entry of its own exactly if the state has an action on it, and it is that action. */
  ghost predicate EntryFaithful(z: Sizes, ap: seq<Action>, T: LrDriver.Tables, s: nat, sp: nat)
    requires T.Shaped() && s < T.nstate
  {
    match ParserActions.Find(ap, sp)
    case Some(a) => T.HasShiftEntry(s, sp) && T.action[T.shiftOfst[s] + sp] == z.ComputeAction(a)
    case None => !T.HasShiftEntry(s, sp)
  }

  /** The tables hold the decisions of the state's actions. */
  ghost predicate Faithful(z: Sizes, ap: seq<Action>, T: LrDriver.Tables, s: nat)
    requires T.Shaped() && s < T.nstate
  {
    && T.dflt[s] == z.Code(DecideToken(ap, [], z.nsymbol))
    && (forall sp: nat | sp < z.nterminal :: EntryFaithful(z, ap, T, s, sp))
    && (forall sp: nat | z.nterminal <= sp < z.nsymbol ::
        T.FindReduceAction(s, sp) == z.Code(Decide(ap, sp, z.nsymbol)))
  }

  /** Fallbacks are tokens. */
  predicate FallbacksAreTokens(z: Sizes, T: LrDriver.Tables) {
    z.nsymbol == T.nsymbol && forall t | 0 <= t < |T.fallback| :: T.fallback[t] < z.nterminal
  }

  /** A state without a token transaction has no action on any token. */
  lemma {:induction false} NoEntries(z: Sizes, ap: seq<Action>, T: LrDriver.Tables, s: nat, tokens: seq<nat>, sp: nat,
                                     hops: nat)
    requires T.Shaped() && s < T.nstate && Faithful(z, ap, T, s) && FallbacksAreTokens(z, T)
    requires T.shiftOfst[s] == T.shiftUseDflt && sp < z.nterminal && T.EndsWithin(sp, hops) &&
             tokens == Chain(T, sp, hops)
    ensures FirstAction(ap, tokens) == None
    decreases hops
  {
    assert EntryFaithful(z, ap, T, s, sp);
    if sp >= |T.fallback| || T.fallback[sp] == 0 {
    } else {
      NoEntries(z, ap, T, s, tokens[1..], T.fallback[sp], hops - 1);
    }
  }

  /** Whatever the fallbacks of a token, the driver finds for it what the state decides. */
  lemma {:induction false} TokenFaithful(z: Sizes, ap: seq<Action>, T: LrDriver.Tables, s: nat, sp: nat, hops: nat)
    requires T.Shaped() && s < T.nstate && z.Valid() && Faithful(z, ap, T, s) && FallbacksAreTokens(z, T)
    requires sp < z.nterminal && T.EndsWithin(sp, hops)
    ensures T.FindShiftAction(s, sp, hops) == z.Code(DecideToken(ap, Chain(T, sp, hops), z.nsymbol))
    decreases hops
  {
    assert EntryFaithful(z, ap, T, s, sp);
    var tokens := Chain(T, sp, hops);
    if sp < |T.fallback| && T.fallback[sp] != 0 {
      TokenFaithful(z, ap, T, s, T.fallback[sp], hops - 1);
      assert tokens[1..] == Chain(T, T.fallback[sp], hops - 1);
    } else {
      assert tokens[1..] == [];
    }
    if T.shiftOfst[s] == T.shiftUseDflt {
      NoEntries(z, ap, T, s, tokens, sp, hops);
    }
  }

  /** The slot read and the value found, for one kind of transaction. */
  lemma LookupFaithful(z: Sizes, ap: seq<Action>, isTkn: bool, tab: seq<Entry>, ofst: int, sp: nat)
    requires z.Valid() && z.StateOk(ap) && z.Belongs(sp, isTkn) && sp < z.nsymbol
    requires Agrees(tab, ofst, z.Entries(ap, isTkn))
    ensures var j := ofst + sp;
            match ParserActions.Find(ap, sp)
            case Some(a) => 0 <= j < |tab| && tab[j].lookahead == sp && tab[j].action == z.ComputeAction(a) >= 0
            case None => j < 0 || j >= |tab| || tab[j].lookahead != sp
  {
    EntriesFind(z, ap, isTkn, sp);
    assert Lookup(tab, ofst, sp) == ActTab.Find(z.Entries(ap, isTkn), sp);
  }

  lemma EmptyFaithful(z: Sizes, ap: seq<Action>, isTkn: bool, sp: nat)
    requires z.StateOk(ap) && z.Belongs(sp, isTkn) && z.Entries(ap, isTkn) == []
    ensures ParserActions.Find(ap, sp) == None
  {
    EntriesFind(z, ap, isTkn, sp);
  }

  lemma EntryKept(z: Sizes, states: seq<seq<Action>>, tab: seq<Entry>, placed: seq<Placed>, T: LrDriver.Tables,
                  tkn: seq<int>, nt: seq<int>, mnTkn: int, mnNt: int, dflt: seq<int>, s: nat, sp: nat)
    requires z.Valid() && z.nstate == |states| == |dflt| && s < |states| && z.StateOk(states[s]) && sp < z.nterminal
    requires forall t | t in placed :: Agrees(tab, t.offset, t.actions)
    requires OffsetsOk(z, states, true, placed, tkn, mnTkn) && AllInserted(z, states, true, tkn)
    requires T == Printed(z, tab, tkn, nt, mnTkn, mnNt, dflt, T.fallback, T.ruleInfo) && T.Shaped()
    ensures EntryFaithful(z, states[s], T, s, sp)
  {
    if tkn[s] == NO_OFFSET {
      EmptyFaithful(z, states[s], true, sp);
    } else {
      assert InsertedAt(z, states[s], true, placed, tkn[s]);
      LookupFaithful(z, states[s], true, tab, tkn[s], sp);
    }
  }

  lemma GotoKept(z: Sizes, states: seq<seq<Action>>, tab: seq<Entry>, placed: seq<Placed>, T: LrDriver.Tables,
                 tkn: seq<int>, nt: seq<int>, mnTkn: int, mnNt: int, dflt: seq<int>, s: nat, sp: nat)
    requires z.Valid() && z.nstate == |states| == |dflt| && s < |states| && z.StateOk(states[s]) &&
             z.nterminal <= sp < z.nsymbol
    requires forall t | t in placed :: Agrees(tab, t.offset, t.actions)
    requires OffsetsOk(z, states, false, placed, nt, mnNt) && AllInserted(z, states, false, nt)
    requires T == Printed(z, tab, tkn, nt, mnTkn, mnNt, dflt, T.fallback, T.ruleInfo) && T.Shaped()
    requires dflt[s] == z.Code(DecideToken(states[s], [], z.nsymbol))
    ensures T.FindReduceAction(s, sp) == z.Code(Decide(states[s], sp, z.nsymbol))
  {
    if nt[s] == NO_OFFSET {
      EmptyFaithful(z, states[s], false, sp);
    } else {
      assert InsertedAt(z, states[s], false, placed, nt[s]);
      LookupFaithful(z, states[s], false, tab, nt[s], sp);
    }
  }

  /** Builds the parser's tables from the actions of its states. */
  method ReportTable(z: Sizes, states: seq<seq<Action>>, ax: seq<Axset>, fallback: seq<nat>,
                     ruleInfo: seq<LrDriver.RuleInfo>)
    returns (T: LrDriver.Tables)
    requires z.Valid() && Ordered(z, states, ax) && z.nstate == |states| && z.nrule == |ruleInfo|
    requires forall s | 0 <= s < |states| :: z.StateOk(states[s])
    ensures T.Shaped() && T.nstate == |states| && T.nsymbol == z.nsymbol && T.fallback == fallback &&
            T.ruleInfo == ruleInfo
    ensures forall s | 0 <= s < |states| :: Faithful(z, states[s], T, s)
  {
    var dflt := [];
    for s := 0 to |states|
      invariant |dflt| == s
      invariant forall k | 0 <= k < s :: dflt[k] == z.Code(DecideToken(states[k], [], z.nsymbol))
    {
      var d := DefaultOf(z, states[s]);
      dflt := dflt + [d];
    }
    var tab := new AcTab();
    var tkn, nt, mnTkn, mnNt := InsertAll(z, states, ax, tab);
    T := Printed(z, tab.aAction[..tab.nAction], tkn, nt, mnTkn, mnNt, dflt, fallback, ruleInfo);
    ghost var table, placed := tab.Table(), tab.placed;
    forall s | 0 <= s < |states|
      ensures Faithful(z, states[s], T, s)
    {
      forall sp: nat | sp < z.nterminal
        ensures EntryFaithful(z, states[s], T, s, sp)
      {
        EntryKept(z, states, table, placed, T, tkn, nt, mnTkn, mnNt, dflt, s, sp);
      }
      forall sp: nat | z.nterminal <= sp < z.nsymbol
        ensures T.FindReduceAction(s, sp) == z.Code(Decide(states[s], sp, z.nsymbol))
      {
        GotoKept(z, states, table, placed, T, tkn, nt, mnTkn, mnNt, dflt, s, sp);
      }
    }
  }

  // ----- the whole pipeline

  /** A state's actions through conflict resolution, compression and the last sort. */
  ghost predicate Processed(z: Sizes, p: Precedence, s: seq<Action>, resolved: seq<Action>, packed: seq<Action>,
                            ap: seq<Action>, best: Option<nat>) {
    && Unresolved(s) && (forall k | 0 <= k < |s| :: s[k].sp < z.nsymbol)
    && MarkedFrom(s, resolved) && (forall k | 0 <= k < |s| :: Decided(p, s, resolved, k))
    && Compressed(resolved, packed, z.nsymbol, best)
    && multiset(packed) == multiset(ap)
  }

  /** The first action on a symbol, or the end. */
  function FirstOn(s: seq<Action>, sp: nat): (k: nat)
    ensures k <= |s| && (k < |s| ==> s[k].sp == sp) && forall i | 0 <= i < k :: s[i].sp != sp
  {
    if s == [] || s[0].sp == sp then 0 else 1 + FirstOn(s[1..], sp)
  }

  /** What the conflicts of a state leave for a symbol. */
  function Decision(p: Precedence, s: seq<Action>, sp: nat): Option<Action> {
    var k := FirstOn(s, sp);
    if k < |s| && Decider(p, s, k) < |s| then Some(s[Decider(p, s, k)]) else None
  }

  /** What remains of it as an entry of its own: the default reduction is not entered. */
  function Entered(p: Precedence, s: seq<Action>, best: Option<nat>, sp: nat): Option<Action> {
    match Decision(p, s, sp)
    case Some(a) => if a.kind == REDUCE && best == Some(a.x) then None else Some(a)
    case None => None
  }

  /** The first token that has an entry. */
  function FirstEntered(p: Precedence, s: seq<Action>, best: Option<nat>, tokens: seq<nat>): Option<Action> {
    if tokens == [] then None
    else
      match Entered(p, s, best, tokens[0])
      case Some(a) => Some(a)
      case None => FirstEntered(p, s, best, tokens[1..])
  }

  function DefaultCode(z: Sizes, best: Option<nat>): int {
    if best.Some? then z.nstate + best.value else z.nstate + z.nrule
  }

  /** The decision on a symbol does not depend on which of its actions one starts from. */
  lemma DecisionOf(p: Precedence, s: seq<Action>, k: nat)
    requires Unresolved(s) && k < |s|
    ensures Decision(p, s, s[k].sp) == Some(s[Decider(p, s, k)]) && s[Decider(p, s, k)].sp == s[k].sp
  {
    var f := FirstOn(s, s[k].sp);
    GroupStartSame(s, f, k);
    GroupStartInGroup(s, k);
    SurvivorInGroup(p, s, GroupStart(s, k), GroupStart(s, k) + 1);
  }

  lemma ResolvedFinds(p: Precedence, s: seq<Action>, resolved: seq<Action>, sp: nat)
    requires Unresolved(s) && MarkedFrom(s, resolved) && forall k | 0 <= k < |s| :: Decided(p, s, resolved, k)
    ensures OneLive(resolved) && ParserActions.Find(resolved, sp) == Decision(p, s, sp)
  {
    ExactlyOneLive(p, s, resolved);
    var k := FirstOn(s, sp);
    if k < |s| {
      DeciderIsLive(p, s, resolved, k);
      FindThe(resolved, Decider(p, s, k));
      DecisionOf(p, s, k);
    } else {
      FindNone(resolved, sp);
    }
  }

  /** The actions that are written out, symbol by symbol. */
  lemma ProcessedFinds(z: Sizes, p: Precedence, s: seq<Action>, resolved: seq<Action>, packed: seq<Action>,
                       ap: seq<Action>, best: Option<nat>, sp: nat)
    requires Processed(z, p, s, resolved, packed, ap, best) && sp < z.nsymbol
    ensures ParserActions.Find(ap, sp) == Entered(p, s, best, sp)
    ensures z.Code(DecideToken(ap, [], z.nsymbol)) == DefaultCode(z, best)
    ensures z.Code(Decide(ap, sp, z.nsymbol)) ==
            match Decision(p, s, sp) case Some(a) => z.ComputeAction(a) case None => DefaultCode(z, best)
  {
    hide Unresolved, Decided, Compressed, OneLive, ParserActions.Find, Decision;
    ResolvedFinds(p, s, resolved, sp);
    CompressedFind(resolved, packed, z.nsymbol, best, sp);
    SortKeepsLookup(packed, ap, sp);
    SortKeepsLookup(packed, ap, z.nsymbol);
  }

  lemma {:induction false} FirstEnteredFinds(z: Sizes, p: Precedence, s: seq<Action>, resolved: seq<Action>,
                                             packed: seq<Action>,
                                             ap: seq<Action>, best: Option<nat>, tokens: seq<nat>)
    requires Processed(z, p, s, resolved, packed, ap, best) && forall i | 0 <= i < |tokens| :: tokens[i] < z.nsymbol
    ensures FirstAction(ap, tokens) == FirstEntered(p, s, best, tokens)
  {
    if tokens == [] {
    } else {
      ProcessedFinds(z, p, s, resolved, packed, ap, best, tokens[0]);
      FirstEnteredFinds(z, p, s, resolved, packed, ap, best, tokens[1..]);
    }
  }

  lemma {:induction false} ChainOfTokens(z: Sizes, T: LrDriver.Tables, la: nat, hops: nat)
    requires FallbacksAreTokens(z, T) && la < z.nterminal && T.EndsWithin(la, hops)
    ensures forall i | 0 <= i < |Chain(T, la, hops)| :: Chain(T, la, hops)[i] < z.nterminal
    decreases hops
  {
    if la >= |T.fallback| || T.fallback[la] == 0 {
    } else {
      ChainOfTokens(z, T, T.fallback[la], hops - 1);
    }
  }

  /**
   From unresolved actions to the generated lookup of a token: the driver finds the decision
   on the first token of the chain that has one which is not the default reduction; else
   the default, or an error if the state has none.
   */
  lemma GeneratorFindsToken(z: Sizes, p: Precedence, s: seq<Action>, resolved: seq<Action>, packed: seq<Action>,
                            ap: seq<Action>, best: Option<nat>, T: LrDriver.Tables, state: nat, sp: nat, hops: nat)
    requires z.Valid() && Processed(z, p, s, resolved, packed, ap, best)
    requires T.Shaped() && state < T.nstate && Faithful(z, ap, T, state) && FallbacksAreTokens(z, T)
    requires sp < z.nterminal && T.EndsWithin(sp, hops)
    ensures T.FindShiftAction(state, sp, hops) ==
            match FirstEntered(p, s, best, Chain(T, sp, hops)) case Some(a) => z.ComputeAction(a)
                case None => DefaultCode(z, best)
  {
    hide Processed, Faithful, FallbacksAreTokens, FirstEntered, ParserActions.Find, LrDriver.Tables.FindShiftAction;
    TokenFaithful(z, ap, T, state, sp, hops);
    ChainOfTokens(z, T, sp, hops);
    FirstEnteredFinds(z, p, s, resolved, packed, ap, best, Chain(T, sp, hops));
    ProcessedFinds(z, p, s, resolved, packed, ap, best, sp);
  }

  /** The same for a nonterminal: the driver finds the decision, or the default. */
  lemma GeneratorFindsGoto(z: Sizes, p: Precedence, s: seq<Action>, resolved: seq<Action>, packed: seq<Action>,
                           ap: seq<Action>, best: Option<nat>, T: LrDriver.Tables, state: nat, sp: nat)
    requires Processed(z, p, s, resolved, packed, ap, best)
    requires T.Shaped() && state < T.nstate && Faithful(z, ap, T, state) && z.nterminal <= sp < z.nsymbol
    ensures T.FindReduceAction(state, sp) ==
            match Decision(p, s, sp) case Some(a) => z.ComputeAction(a) case None => DefaultCode(z, best)
  {
    ProcessedFinds(z, p, s, resolved, packed, ap, best, sp);
  }

  /** The numbers of states and rules are in range. */
  predicate Numbered(z: Sizes, s: seq<Action>) {
    forall k | 0 <= k < |s| :: (s[k].kind == SHIFT ==> s[k].x < z.nstate) &&
        (s[k].kind == REDUCE ==> s[k].x < z.nrule) && s[k].kind != ERROR
  }

  /** An action with an entry of its own is never numbered like the default reduction. */
  lemma {:induction false} EnteredIsNoDefault(z: Sizes, p: Precedence, s: seq<Action>, best: Option<nat>,
                                              tokens: seq<nat>)
    requires Unresolved(s) && Numbered(z, s) && best.Some? && best.value < z.nrule
    ensures FirstEntered(p, s, best, tokens).Some? ==>
              z.ComputeAction(FirstEntered(p, s, best, tokens).value) != DefaultCode(z, best)
  {
    if tokens == [] {
    } else {
      EnteredIsNoDefault(z, p, s, best, tokens[1..]);
    }
  }

  /**
   Where a state had actions on a token, the driver finds their decider, whatever the
   fallbacks of the token, exactly unless that is the default reduction and a fallback
   token has an entry: fallbacks are tried before the default.
   */
  lemma GeneratorKeepsDecision(z: Sizes, p: Precedence, s: seq<Action>, resolved: seq<Action>, packed: seq<Action>,
                               ap: seq<Action>, best: Option<nat>, T: LrDriver.Tables, state: nat, k: nat, hops: nat)
    requires z.Valid() && Processed(z, p, s, resolved, packed, ap, best) && Numbered(z, s) && k < |s|
    requires T.Shaped() && state < T.nstate && Faithful(z, ap, T, state) && FallbacksAreTokens(z, T)
    requires s[k].sp < z.nterminal && T.EndsWithin(s[k].sp, hops)
    ensures var a := s[Decider(p, s, k)];
            T.FindShiftAction(state, s[k].sp, hops) == z.ComputeAction(a) <==>
            !(a.kind == REDUCE && best == Some(a.x) && FirstEntered(p, s, best, Chain(T, s[k].sp, hops)[1..]).Some?)
  {
    var sp := s[k].sp;
    GeneratorFindsToken(z, p, s, resolved, packed, ap, best, T, state, sp, hops);
    DecisionOf(p, s, k);
    var a := s[Decider(p, s, k)];
    if a.kind == REDUCE && best == Some(a.x) {
      EnteredIsNoDefault(z, p, s, best, Chain(T, sp, hops)[1..]);
    }
  }

  /** On a nonterminal the driver always finds the decider. */
  lemma GeneratorKeepsGoto(z: Sizes, p: Precedence, s: seq<Action>, resolved: seq<Action>, packed: seq<Action>,
                           ap: seq<Action>, best: Option<nat>, T: LrDriver.Tables, state: nat, k: nat)
    requires Processed(z, p, s, resolved, packed, ap, best) && k < |s| && z.nterminal <= s[k].sp
    requires T.Shaped() && state < T.nstate && Faithful(z, ap, T, state)
    ensures T.FindReduceAction(state, s[k].sp) == z.ComputeAction(s[Decider(p, s, k)])
  {
    GeneratorFindsGoto(z, p, s, resolved, packed, ap, best, T, state, s[k].sp);
    DecisionOf(p, s, k);
  }

  lemma TwiceReduced(s: seq<Action>, r: nat, q: nat, t: nat, u: nat, v: nat)
    requires s == [Action(t, REDUCE, r), Action(u, REDUCE, r), Action(v, SHIFT, q)]
    ensures MostFrequent(s, r)
  {
    forall o: nat
      ensures CountFrom(s, 0, o) == if o == r then 2 else 0
    {
      assert CountFrom(s, 3, o) == 0;
      assert CountFrom(s, 2, o) == 0;
    }
  }

  /** Two tokens on which the state reduces by r and a third that it shifts: on the first, with the third as its
      fallback, the state's decision is to reduce, but the driver finds the shift. */
  lemma FallbackBeforeDefault(p: Precedence, s: seq<Action>, r: nat, q: nat, t: nat, u: nat, v: nat)
    requires t < u < v && s == [Action(t, REDUCE, r), Action(u, REDUCE, r), Action(v, SHIFT, q)]
    ensures Unresolved(s) && MostFrequent(s, r)
    ensures Decision(p, s, t) == Some(s[0]) && FirstEntered(p, s, Some(r), [t, v]) == Some(s[2])
  {
    TwiceReduced(s, r, q, t, u, v);
    assert FirstOn(s, t) == 0;
    assert FirstOn(s[2..], v) == 0 && s[1..][1..] == s[2..] && FirstOn(s[1..], v) == 1;
    assert FirstOn(s, v) == 2;
    assert [t, v][1..] == [v];
    assert FirstEntered(p, s, Some(r), [v]) == Entered(p, s, Some(r), v);
  }

  lemma {:induction false} NoneEntered(p: Precedence, s: seq<Action>, best: Option<nat>, tokens: seq<nat>)
    requires forall k | 0 <= k < |s| :: s[k].sp !in tokens
    ensures FirstEntered(p, s, best, tokens) == None
  {
    if tokens == [] {
    } else {
      assert FirstOn(s, tokens[0]) == |s|;
      NoneEntered(p, s, best, tokens[1..]);
    }
  }

  /** Where no token of the chain had an action, the driver finds an error or the state's most frequent reduction. */
  lemma GeneratorAddsOnlyDefaults(z: Sizes, p: Precedence, s: seq<Action>, resolved: seq<Action>, packed: seq<Action>,
                                  ap: seq<Action>, best: Option<nat>, T: LrDriver.Tables, state: nat, sp: nat,
                                      hops: nat)
    requires z.Valid() && Processed(z, p, s, resolved, packed, ap, best)
    requires T.Shaped() && state < T.nstate && Faithful(z, ap, T, state) && FallbacksAreTokens(z, T)
    requires sp < z.nterminal && T.EndsWithin(sp, hops)
    requires forall k | 0 <= k < |s| :: s[k].sp !in Chain(T, sp, hops)
    ensures T.FindShiftAction(state, sp, hops) == DefaultCode(z, best)
  {
    GeneratorFindsToken(z, p, s, resolved, packed, ap, best, T, state, sp, hops);
    NoneEntered(p, s, best, Chain(T, sp, hops));
  }
}
