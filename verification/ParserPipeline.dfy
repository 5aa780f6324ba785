/**
 From the LR(0) automaton of a grammar to a parser for it: the actions that
 FindActions gives each state, resolved, compressed, written out by ReportTable
 and read by the driver, make a parser that accepts only sentences (lemon.c, lempar.c).
 */
module ParserPipeline {
  import opened Wrappers
  import opened Grammar
  import opened ParserActions
  import opened GeneratedTables
  import opened LrDriver
  import opened SortSpec
  import ListSort

  // ----- the automaton and its actions

  /** The items of a state after a move over x: those with the mark before x, with the mark behind it. */
  ghost function Kernel(g: Grammar, state: set<Item>, x: nat): set<Item> {
    set it | it in state && it.rule < |g.rules| && it.dot < |g.rules[it.rule].rhs| &&
        g.rules[it.rule].rhs[it.dot] == x ::
      Item(it.rule, it.dot + 1)
  }

  /** State s' is where state s goes over x. */
  ghost predicate Successor(g: Grammar, items: seq<set<Item>>, s: nat, x: nat, s': nat) {
    && s < |items| && s' < |items| && Kernel(g, items[s], x) != {}
    && forall it :: it in items[s'] && it.dot > 0 <==> it in Kernel(g, items[s], x)
  }

  /** The rule r is in state s at its beginning for a reason: it is wanted by an item, or begins the parse. */
  ghost predicate Wanted(g: Grammar, items: seq<set<Item>>, start: nat, s: nat, r: nat)
    requires s < |items| && r < |g.rules|
  {
    (s == 0 && g.rules[r].lhs == start) || Kernel(g, items[s], g.rules[r].lhs) != {}
  }

  /** LR(0) item sets: the first is a closure of the start rules, the others of their kernels. */
  ghost predicate Automaton(g: Grammar, items: seq<set<Item>>, start: nat) {
    && items != [] && (forall it | it in items[0] :: it.dot == 0)
    && (forall s, r: nat | 0 <= s < |items| && r < |g.rules| && Item(r, 0) in items[s] :: Wanted(g, items, start, s, r))
  }

  /**
   What an action of state s may be: a move, the reduction of a complete item on a
   token, that of a start rule only on the end marker, or the acceptance in state 0.
   */
  ghost predicate ActionOk(g: Grammar, items: seq<set<Item>>, start: nat, s: nat, a: Action) {
    match a.kind
    case SHIFT => Successor(g, items, s, a.sp, a.x)
    case REDUCE => a.sp < g.nterminal && Complete(g, items, s, a.x) && (g.rules[a.x].lhs == start ==> a.sp == 0)
    case ACCEPT => s == 0 && a.sp == start
    case _ => false
  }

  ghost predicate HasAction(actions: seq<Action>, sp: nat) {
    exists k :: 0 <= k < |actions| && actions[k].sp == sp
  }

  /**
   The actions that FindActions gives to state s: only such, a move for every symbol behind a mark, and the
   acceptance.
   */
  ghost predicate ActionsOf(g: Grammar, items: seq<set<Item>>, start: nat, s: nat, actions: seq<Action>)
    requires s < |items|
  {
    && (forall k | 0 <= k < |actions| :: ActionOk(g, items, start, s, actions[k]))
    && (forall x: nat | Kernel(g, items[s], x) != {} :: HasAction(actions, x))
    && (s == 0 ==> HasAction(actions, start))
  }

  /** A state's actions on their way to the tables. */
  datatype Stages = Stages(raw: seq<Action>, resolved: seq<Action>, packed: seq<Action>, final: seq<Action>,
      best: Option<nat>)

  ghost predicate StateMade(z: Sizes, p: Precedence, g: Grammar, items: seq<set<Item>>, start: nat, s: nat, m: Stages) {
    && s < |items| && Processed(z, p, m.raw, m.resolved, m.packed, m.final, m.best)
    && ActionsOf(g, items, start, s, m.raw)
  }

  // ----- the tables are LR tables

  lemma SuccessorLinked(g: Grammar, items: seq<set<Item>>, s: nat, x: nat, s': nat)
    requires Successor(g, items, s, x, s')
    ensures Linked(g, items, s, x, s')
  {
    var it :| it in Kernel(g, items[s], x);
    assert it in items[s'] && it.dot > 0;
    forall jt | jt in items[s'] && jt.dot > 0
      ensures jt.rule < |g.rules| && jt.dot <= |g.rules[jt.rule].rhs|
      ensures g.rules[jt.rule].rhs[jt.dot - 1] == x && Item(jt.rule, jt.dot - 1) in items[s]
    {
      assert jt in Kernel(g, items[s], x);
    }
  }

  /**
   A rule that is reduced twice among actions with different lookaheads is reduced on one that is not the end
   marker.
   */
  lemma ReducedBeforeEnd(s: seq<Action>, r: nat) returns (k: nat)
    requires OneLive(s) && CountFrom(s, 0, r) >= 2
    ensures k < |s| && Reduces(s[k], r) && s[k].sp != 0
  {
    var i := FirstReduction(s, 0, r);
    CountFromSkip(s, 0, i, r);
    k := FirstReduction(s, i + 1, r);
    CountFromSkip(s, i + 1, k, r);
    if s[k].sp == 0 {
      k := i;
    }
  }

  /** The default of a state reduces a complete item, never of a start rule. */
  lemma DefaultReduces(z: Sizes, p: Precedence, g: Grammar, items: seq<set<Item>>, start: nat, s: nat, m: Stages)
    requires StateMade(z, p, g, items, start, s, m) && m.best.Some?
    ensures Complete(g, items, s, m.best.value) && g.rules[m.best.value].lhs != start
  {
    ExactlyOneLive(p, m.raw, m.resolved);
    var k := ReducedBeforeEnd(m.resolved, m.best.value);
    assert ActionOk(g, items, start, s, m.raw[k]);
  }

  /** A decision is one of the state's actions. */
  lemma DecisionOk(p: Precedence, g: Grammar, items: seq<set<Item>>, start: nat, s: nat, actions: seq<Action>, sp: nat)
    requires Unresolved(actions) && s < |items| && ActionsOf(g, items, start, s, actions)
    ensures HasAction(actions, sp) <==> Decision(p, actions, sp).Some?
    ensures Decision(p, actions, sp).Some? ==>
              Decision(p, actions, sp).value.sp == sp && ActionOk(g, items, start, s, Decision(p, actions, sp).value)
  {
    var k := FirstOn(actions, sp);
    if k < |actions| {
      DecisionOf(p, actions, k);
    }
  }

  /** The sizes and the other conditions on the tables that do not concern single states. */
  ghost predicate Framed(z: Sizes, g: Grammar, items: seq<set<Item>>, T: Tables) {
    && g.Valid() && z == Sizes(g.nterminal, g.nsymbol, |items|, |g.rules|) && z.Valid()
    && (forall r | 0 <= r < |g.rules| :: 0 !in g.rules[r].rhs)
    && T.Shaped() && T.nstate == |items| && T.nrule == |g.rules| && FallbacksAreTokens(z, T)
    && T.FallbacksEnd() && (|T.fallback| > 0 ==> T.fallback[0] == 0)
    && (forall r | 0 <= r < T.nrule :: T.ruleInfo[r] == RuleInfo(g.rules[r].lhs, |g.rules[r].rhs|))
  }

  lemma EntryIsOk(z: Sizes, p: Precedence, g: Grammar, items: seq<set<Item>>, start: nat, T: Tables, s: nat, m: Stages,
                  x: nat)
    requires Framed(z, g, items, T) && StateMade(z, p, g, items, start, s, m) && Faithful(z, m.final, T, s)
    requires g.nterminal <= start && x < g.nterminal && T.HasShiftEntry(s, x)
    ensures EntryOk(g, T, items, start, s, x, T.action[T.shiftOfst[s] + x])
  {
    assert EntryFaithful(z, m.final, T, s, x);
    ProcessedFinds(z, p, m.raw, m.resolved, m.packed, m.final, m.best, x);
    DecisionOk(p, g, items, start, s, m.raw, x);
    var a := Decision(p, m.raw, x).value;
    if a.kind == SHIFT {
      SuccessorLinked(g, items, s, x, a.x);
    }
  }

  lemma DefaultIsOk(z: Sizes, p: Precedence, g: Grammar, items: seq<set<Item>>, start: nat, T: Tables, s: nat,
                    m: Stages)
    requires Framed(z, g, items, T) && StateMade(z, p, g, items, start, s, m) && Faithful(z, m.final, T, s) &&
             0 < z.nsymbol
    ensures DefaultOk(g, T, items, start, s, T.dflt[s])
  {
    hide Unresolved, Decided, Compressed, MarkedFrom, ActionsOf, EntryFaithful, DecideToken, Complete;
    ProcessedFinds(z, p, m.raw, m.resolved, m.packed, m.final, m.best, 0);
    if m.best.Some? {
      DefaultReduces(z, p, g, items, start, s, m);
    }
  }

  lemma GotoIsOk(z: Sizes, p: Precedence, g: Grammar, items: seq<set<Item>>, start: nat, T: Tables, s: nat, m: Stages,
                 r: nat)
    requires Framed(z, g, items, T) && StateMade(z, p, g, items, start, s, m) && Faithful(z, m.final, T, s)
    requires Automaton(g, items, start) && r < |g.rules| && Item(r, 0) in items[s]
    ensures GotoOk(g, T, items, start, s, r)
  {
    var x := g.rules[r].lhs;
    assert Wanted(g, items, start, s, r);
    DecisionOk(p, g, items, start, s, m.raw, x);
    GeneratorFindsGoto(z, p, m.raw, m.resolved, m.packed, m.final, m.best, T, s, x);
    var a := Decision(p, m.raw, x).value;
    if a.kind == SHIFT {
      SuccessorLinked(g, items, s, x, a.x);
    }
  }

  /** Tables made from the automaton of a grammar meet the conditions under which the driver is sound. */
  lemma GeneratedTablesAreLr(z: Sizes, p: Precedence, g: Grammar, items: seq<set<Item>>, start: nat, T: Tables,
                             made: seq<Stages>)
    requires Framed(z, g, items, T) && Automaton(g, items, start) && g.nterminal <= start < g.nsymbol
    requires |made| == |items| && forall s | 0 <= s < |made| :: StateMade(z, p, g, items, start, s, made[s])
    requires forall s | 0 <= s < |made| :: Faithful(z, made[s].final, T, s)
    ensures LrTables(g, T, items, start)
  {
    forall s, x: nat | 0 <= s < T.nstate && x < g.nterminal && T.HasShiftEntry(s, x)
      ensures EntryOk(g, T, items, start, s, x, T.action[T.shiftOfst[s] + x])
    {
      EntryIsOk(z, p, g, items, start, T, s, made[s], x);
    }
    forall s | 0 <= s < T.nstate
      ensures DefaultOk(g, T, items, start, s, T.dflt[s])
    {
      DefaultIsOk(z, p, g, items, start, T, s, made[s]);
    }
    forall s, r: nat | 0 <= s < T.nstate && r < |g.rules| && Item(r, 0) in items[s]
      ensures GotoOk(g, T, items, start, s, r)
    {
      GotoIsOk(z, p, g, items, start, T, s, made[s], r);
    }
  }

  // ----- the final actions are what ReportTable expects

  lemma TwiceInMultiset<T>(t: seq<T>, i: nat, k: nat)
    requires i < k < |t| && t[i] == t[k]
    ensures multiset(t)[t[i]] >= 2
  {
    assert t == t[..k] + ([t[k]] + t[k + 1..]);
    assert t[..k][i] == t[i];
  }

  lemma TwiceInSeq<T>(s: seq<T>, e: T) returns (i: nat, k: nat)
    requires multiset(s)[e] >= 2
    ensures i < k < |s| && s[i] == e && s[k] == e
  {
    assert e in multiset(s);
    k :| 0 <= k < |s| && s[k] == e;
    var u, v := s[..k], s[k + 1..];
    assert multiset(s) == multiset(u) + multiset{e} + multiset(v) by { assert s == u + [e] + v; }
    if e in u {
      i :| 0 <= i < |u| && u[i] == e;
    } else {
      assert e in multiset(v);
      var m :| 0 <= m < |v| && v[m] == e;
      i, k := k, k + 1 + m;
    }
  }

  lemma SameMembers<T>(s: seq<T>, t: seq<T>)
    requires multiset(s) == multiset(t)
    ensures forall e :: e in s <==> e in t
  {
    forall e: T
      ensures e in s <==> e in t
    {
      assert e in s <==> e in multiset(s);
      assert e in t <==> e in multiset(t);
    }
  }

  /** Two members of a sequence stand at two places of a permutation of it. */
  lemma TwoPlaces<T>(s: seq<T>, t: seq<T>, i: nat, k: nat) returns (i': nat, k': nat)
    requires multiset(s) == multiset(t) && i < k < |t|
    ensures i' < |s| && k' < |s| && i' != k' && s[i'] == t[i] && s[k'] == t[k]
  {
    if t[i] == t[k] {
      TwiceInMultiset(t, i, k);
      i', k' := TwiceInSeq(s, t[i]);
    } else {
      assert t[i] in multiset(s) && t[k] in multiset(s);
      i' :| 0 <= i' < |s| && s[i'] == t[i];
      k' :| 0 <= k' < |s| && s[k'] == t[k];
    }
  }

  lemma OneLivePermuted(s: seq<Action>, t: seq<Action>)
    requires OneLive(s) && multiset(s) == multiset(t)
    ensures OneLive(t)
  {
    forall i, k | 0 <= i < k < |t| && t[i].Live() && t[k].Live()
      ensures t[i].sp != t[k].sp
    {
      var i', k' := TwoPlaces(s, t, i, k);
    }
  }

  lemma FromActions(g: Grammar, items: seq<set<Item>>, start: nat, s: nat, actions: seq<Action>, i: nat)
    requires s < |items| && ActionsOf(g, items, start, s, actions) && i < |actions|
    ensures ActionOk(g, items, start, s, actions[i])
  {}

  lemma PackedOk(z: Sizes, p: Precedence, g: Grammar, items: seq<set<Item>>, start: nat, s: nat, m: Stages, i: nat)
    requires StateMade(z, p, g, items, start, s, m) && i < |m.packed|
    ensures m.packed[i].sp <= z.nsymbol && m.packed[i].kind != ERROR
  {
    hide Unresolved, Decided, ActionsOf, MostFrequent;
    assert ActionOk(g, items, start, s, m.raw[i]) by { FromActions(g, items, start, s, m.raw, i); }
    assert SameButKind(m.resolved[i], m.raw[i]);
    assert m.resolved[i].kind != ERROR && m.resolved[i].sp < z.nsymbol;
    if m.best.Some? {
      var first :| Defaulted(m.resolved, m.packed, z.nsymbol, m.best.value, first);
    }
  }

  lemma FinalStateOk(z: Sizes, p: Precedence, g: Grammar, items: seq<set<Item>>, start: nat, s: nat, m: Stages)
    requires StateMade(z, p, g, items, start, s, m)
    ensures z.StateOk(m.final)
  {
    hide OneLive, Compressed, Decided, Unresolved, ActionsOf;
    ExactlyOneLive(p, m.raw, m.resolved);
    CompressedFind(m.resolved, m.packed, z.nsymbol, m.best, z.nsymbol + 1);
    OneLivePermuted(m.packed, m.final);
    forall k | 0 <= k < |m.final|
      ensures m.final[k].sp <= z.nsymbol && m.final[k].kind != ERROR
    {
      assert m.final[k] in multiset(m.packed);
      var i :| 0 <= i < |m.packed| && m.packed[i] == m.final[k];
      PackedOk(z, p, g, items, start, s, m, i);
    }
  }

  // ----- the actions of a state, sorted, resolved and compressed

  function KindNumber(k: Kind): nat {
    match k
    case SHIFT => 0
    case ACCEPT => 1
    case REDUCE => 2
    case ERROR => 3
    case CONFLICT => 4
    case SH_RESOLVED => 5
    case RD_RESOLVED => 6
    case NOT_USED => 7
  }

  /** Actions are sorted by lookahead, then kind, then rule. */
  function ActionCmp(a: Action, b: Action): int {
    if a.sp != b.sp then a.sp - b.sp
    else if a.kind != b.kind then KindNumber(a.kind) - KindNumber(b.kind)
    else a.x - b.x
  }

  lemma ActionOrdering()
    ensures Ordering(ActionCmp)
  {}

  /**
   Actions as they are collected, in any order: on a lookahead with several, one may be a shift, the others
   are reductions.
   */
  ghost predicate Collected(s: seq<Action>) {
    && (forall k | 0 <= k < |s| :: s[k].Live())
    && (forall i, k | 0 <= i < |s| && 0 <= k < |s| && i != k && s[i].sp == s[k].sp ::
          (s[i].kind == SHIFT || s[i].kind == REDUCE) && (s[i].kind == SHIFT ==> s[k].kind == REDUCE))
  }

  /** Sorted, they are ready for the pairwise pass, and still the same actions. */
  lemma SortedCollected(raw: seq<Action>, s: seq<Action>)
    requires Collected(raw) && |raw| < Pow2(ListSort.LISTSIZE) && s == MSort(ActionCmp, ListSort.LISTSIZE, raw)
    ensures Unresolved(s) && multiset(s) == multiset(raw)
    ensures forall i, k | 0 <= i < k < |s| && s[i].sp == s[k].sp && s[i].kind == s[k].kind :: s[i].x <= s[k].x
  {
    ActionOrdering();
    MSortExact(ActionCmp, ListSort.LISTSIZE, raw);
    forall k | 0 <= k < |s|
      ensures s[k].Live()
    {
      assert s[k] in multiset(raw);
      var k' :| 0 <= k' < |raw| && raw[k'] == s[k];
    }
    forall i, k | 0 <= i < k < |s|
      ensures s[i].sp <= s[k].sp
      ensures s[i].sp == s[k].sp ==> (s[i].kind == SHIFT || s[i].kind == REDUCE) && s[k].kind == REDUCE
      ensures s[i].sp == s[k].sp && s[i].kind == s[k].kind ==> s[i].x <= s[k].x
    {
      assert ActionCmp(s[i], s[k]) <= 0;
      var i', k' := TwoPlaces(raw, s, i, k);
    }
  }

  lemma ActionsPermuted(g: Grammar, items: seq<set<Item>>, start: nat, s: nat, raw: seq<Action>, sorted: seq<Action>)
    requires s < |items| && ActionsOf(g, items, start, s, raw) && multiset(raw) == multiset(sorted)
    ensures ActionsOf(g, items, start, s, sorted)
  {
    forall k | 0 <= k < |sorted|
      ensures ActionOk(g, items, start, s, sorted[k])
    {
      assert sorted[k] in multiset(raw);
      var k' :| 0 <= k' < |raw| && raw[k'] == sorted[k];
    }
    forall x: nat | HasAction(raw, x)
      ensures HasAction(sorted, x)
    {
      var k :| 0 <= k < |raw| && raw[k].sp == x;
      assert raw[k] in multiset(sorted);
      var k' :| 0 <= k' < |sorted| && sorted[k'] == raw[k];
    }
  }

  lemma DefaultFound(z: Sizes, p: Precedence, m: Stages, sp: nat)
    requires Processed(z, p, m.raw, m.resolved, m.packed, m.final, m.best) && sp < z.nsymbol
    ensures ParserActions.Find(m.final, z.nsymbol) ==
            if m.best.Some? then Some(Action(z.nsymbol, REDUCE, m.best.value)) else None
    ensures Decision(p, m.raw, sp) == None ==> ParserActions.Find(m.final, sp) == None
  {
    hide Unresolved, Decided, Compressed, OneLive, ParserActions.Find, Decision;
    ResolvedFinds(p, m.raw, m.resolved, sp);
    CompressedFind(m.resolved, m.packed, z.nsymbol, m.best, sp);
    SortKeepsLookup(m.packed, m.final, sp);
    SortKeepsLookup(m.packed, m.final, z.nsymbol);
  }

  /** What is looked up in the actions that are left. */
  lemma FinalDecides(z: Sizes, p: Precedence, m: Stages)
    requires Processed(z, p, m.raw, m.resolved, m.packed, m.final, m.best)
    ensures forall sp: nat | sp < z.nsymbol ::
              match Decision(p, m.raw, sp)
              case Some(a) => z.Code(Decide(m.final, sp, z.nsymbol)) == z.ComputeAction(a)
              case None => Decide(m.final, sp, z.nsymbol) == None || Decide(m.final, sp, z.nsymbol).value.0 == REDUCE
  {
    hide Unresolved, Decided, MarkedFrom, Decision, ParserActions.Find, Compressed;
    forall sp: nat | sp < z.nsymbol
      ensures match Decision(p, m.raw, sp)
              case Some(a) => z.Code(Decide(m.final, sp, z.nsymbol)) == z.ComputeAction(a)
              case None => Decide(m.final, sp, z.nsymbol) == None || Decide(m.final, sp, z.nsymbol).value.0 == REDUCE
    {
      ProcessedFinds(z, p, m.raw, m.resolved, m.packed, m.final, m.best, sp);
      DefaultFound(z, p, m, sp);
    }
  }

  lemma BelowKept(raw: seq<Action>, sorted: seq<Action>, n: nat)
    requires multiset(sorted) == multiset(raw) && forall k | 0 <= k < |raw| :: raw[k].sp < n
    ensures forall k | 0 <= k < |sorted| :: sorted[k].sp < n
  {
    forall k | 0 <= k < |sorted|
      ensures sorted[k].sp < n
    {
      assert sorted[k] in multiset(raw);
      var k' :| 0 <= k' < |raw| && raw[k'] == sorted[k];
    }
  }

  /** Sorts, resolves and compresses the actions of a state. */
  method ProcessState(z: Sizes, p: Precedence, raw: seq<Action>) returns (final: seq<Action>, ghost m: Stages)
    requires p.Valid() && Collected(raw) && |raw| < Pow2(ListSort.LISTSIZE) &&
             forall k | 0 <= k < |raw| :: raw[k].sp < z.nsymbol
    ensures m.final == final && multiset(m.raw) == multiset(raw)
    ensures Processed(z, p, m.raw, m.resolved, m.packed, m.final, m.best)
    ensures forall i, k | 0 <= i < k < |m.raw| && m.raw[i].sp == m.raw[k].sp && m.raw[i].kind == m.raw[k].kind ::
              m.raw[i].x <= m.raw[k].x
    ensures forall sp: nat | sp < z.nsymbol ::
              match Decision(p, MSort(ActionCmp, ListSort.LISTSIZE, raw), sp)
              case Some(a) => z.Code(Decide(final, sp, z.nsymbol)) == z.ComputeAction(a)
              case None => Decide(final, sp, z.nsymbol) == None || Decide(final, sp, z.nsymbol).value.0 == REDUCE
  {
    hide Unresolved, Collected, MarkedFrom, Decided, Compressed, MSort, Ordering, StableSortOf, ActionCmp, Pow2;
    var sorted := MSort(ActionCmp, ListSort.LISTSIZE, raw);
    SortedCollected(raw, sorted);
    var ap := new Action[|sorted|](i requires 0 <= i < |sorted| => sorted[i]);
    assert ap[..] == sorted;
    var _ := ResolveAll(p, ap);
    ghost var resolved := ap[..];
    var best := CompressState(ap, z.nsymbol);
    final := ap[..];
    ghost var packed := final;
    if best.Some? {
      ActionOrdering();
      assert |packed| == |raw| by { assert |multiset(sorted)| == |multiset(raw)|; }
      MSortExact(ActionCmp, ListSort.LISTSIZE, packed);
      final := MSort(ActionCmp, ListSort.LISTSIZE, final);
    }
    m := Stages(sorted, resolved, packed, final, best);
    BelowKept(raw, sorted, z.nsymbol);
    FinalDecides(z, p, m);
  }

  /** What is needed of the actions that FindActions has collected for state s. */
  ghost predicate RawOk(z: Sizes, g: Grammar, items: seq<set<Item>>, start: nat, s: nat, raw: seq<Action>) {
    && s < |items| && Collected(raw) && ActionsOf(g, items, start, s, raw)
    && |raw| < Pow2(ListSort.LISTSIZE) && forall k | 0 <= k < |raw| :: raw[k].sp < z.nsymbol
  }

  /** Of two actions of the same kind on a symbol the one with the lesser rule comes first. */
  predicate RulesInOrder(s: seq<Action>) {
    forall i, k | 0 <= i < k < |s| && s[i].sp == s[k].sp && s[i].kind == s[k].kind :: s[i].x <= s[k].x
  }

  /** The stages are those of the actions collected, in order, resolved by these precedences. */
  ghost predicate MadeFrom(z: Sizes, p: Precedence, raw: seq<Action>, m: Stages)
    ensures MadeFrom(z, p, raw, m) ==>
              && multiset(m.raw) == multiset(raw) && RulesInOrder(m.raw)
              && Processed(z, p, m.raw, m.resolved, m.packed, m.final, m.best)
  {
    && multiset(m.raw) == multiset(raw) && RulesInOrder(m.raw)
    && Processed(z, p, m.raw, m.resolved, m.packed, m.final, m.best)
  }

  method MakeState(z: Sizes, p: Precedence, ghost g: Grammar, ghost items: seq<set<Item>>, ghost start: nat,
                   ghost s: nat, raw: seq<Action>)
    returns (final: seq<Action>, ghost m: Stages)
    requires p.Valid() && RawOk(z, g, items, start, s, raw)
    ensures m.final == final && StateMade(z, p, g, items, start, s, m) && z.StateOk(final)
    ensures MadeFrom(z, p, raw, m)
  {
    hide Collected, ActionsOf, Decided, Compressed, MarkedFrom;
    final, m := ProcessState(z, p, raw);
    ActionsPermuted(g, items, start, s, raw, m.raw);
    FinalStateOk(z, p, g, items, start, s, m);
  }

  // ----- the order of the transactions

  function AxSize(z: Sizes, states: seq<seq<Action>>, a: Axset): nat {
    if a.state < |states| then |z.Entries(states[a.state], a.isTkn)| else 0
  }

  function AllAxsets(n: nat): (ax: seq<Axset>)
    ensures |ax| == 2 * n
    ensures forall i | 0 <= i < |ax| :: ax[i] == Axset(i / 2, i % 2 == 0)
  {
    if n == 0 then [] else AllAxsets(n - 1) + [Axset(n - 1, true), Axset(n - 1, false)]
  }

  lemma AllListed(n: nat)
    ensures forall a :: a in AllAxsets(n) <==> a.state < n
  {
    forall a: Axset | a.state < n
      ensures a in AllAxsets(n)
    {
      assert AllAxsets(n)[2 * a.state + if a.isTkn then 0 else 1] == a;
    }
  }

  /** Larger transactions come first. */
  function AxCmp(z: Sizes, states: seq<seq<Action>>): Compare<Axset> {
    (a, b) => AxSize(z, states, b) - AxSize(z, states, a)
  }

  lemma AxOrdering(z: Sizes, states: seq<seq<Action>>)
    ensures Ordering(AxCmp(z, states))
  {
    hide AxSize;
  }

  /** All transactions, sorted. */
  function SortedAxsets(z: Sizes, states: seq<seq<Action>>): seq<Axset> {
    MSort(AxCmp(z, states), ListSort.LISTSIZE, AllAxsets(|states|))
  }

  lemma SortedAxsetsOrdered(z: Sizes, states: seq<seq<Action>>)
    requires 2 * |states| < Pow2(ListSort.LISTSIZE)
    ensures Ordered(z, states, SortedAxsets(z, states))
  {
    hide MSort, Ordering, AllAxsets, Equals, Pow2, Sizes.Entries;
    var all, ax := AllAxsets(|states|), SortedAxsets(z, states);
    AxOrdering(z, states);
    MSortExact(AxCmp(z, states), ListSort.LISTSIZE, all);
    SameMembers(all, ax);
    AllListed(|states|);
    forall i, k | 0 <= i < k < |ax|
      ensures ax[i] != ax[k] && AxSize(z, states, ax[i]) >= AxSize(z, states, ax[k])
    {
      var i', k' := TwoPlaces(all, ax, i, k);
      assert AxCmp(z, states)(ax[i], ax[k]) <= 0;
    }
  }

  /** A grammar, its automaton and what the generator is told about its rules and fallbacks. */
  ghost predicate Given(z: Sizes, g: Grammar, items: seq<set<Item>>, start: nat, fallback: seq<nat>,
                        ruleInfo: seq<RuleInfo>) {
    && g.Valid() && z == Sizes(g.nterminal, g.nsymbol, |items|, |g.rules|) && z.Valid()
    && (forall r | 0 <= r < |g.rules| :: 0 !in g.rules[r].rhs) && g.nterminal <= start < g.nsymbol
    && Automaton(g, items, start)
    && |ruleInfo| == |g.rules| &&
        (forall r | 0 <= r < |g.rules| :: ruleInfo[r] == RuleInfo(g.rules[r].lhs, |g.rules[r].rhs|))
    && (forall t | 0 <= t < |fallback| :: fallback[t] < g.nterminal)
    && (|fallback| > 0 ==> fallback[0] == 0) && forall la: nat :: FallbackStops(fallback, la)
  }

  /** What is given makes a frame for the tables. */
  lemma GivenFramed(z: Sizes, g: Grammar, items: seq<set<Item>>, start: nat, fallback: seq<nat>,
                    ruleInfo: seq<RuleInfo>, T: Tables)
    requires Given(z, g, items, start, fallback, ruleInfo) && T.Shaped() && T.nstate == |items|
    requires T.nsymbol == z.nsymbol && T.fallback == fallback && T.ruleInfo == ruleInfo
    ensures Framed(z, g, items, T)
  {
    assert forall la: nat :: FallbackStops(fallback, la) ==> T.Ends(la);
  }

  /** Makes the tables of a grammar from the actions of its states. */
  method Generate(z: Sizes, p: Precedence, ghost g: Grammar, ghost items: seq<set<Item>>, ghost start: nat,
                  raw: seq<seq<Action>>, fallback: seq<nat>, ruleInfo: seq<RuleInfo>)
    returns (T: Tables, ghost made: seq<Stages>)
    requires Given(z, g, items, start, fallback, ruleInfo) && p.Valid() && |raw| == |items| &&
             2 * |raw| < Pow2(ListSort.LISTSIZE)
    requires forall s | 0 <= s < |raw| :: RawOk(z, g, items, start, s, raw[s])
    ensures LrTables(g, T, items, start) && T.fallback == fallback && |made| == |raw|
    ensures forall s | 0 <= s < |raw| ::
              && Faithful(z, made[s].final, T, s)
              && multiset(made[s].raw) == multiset(raw[s]) && RulesInOrder(made[s].raw)
              && Processed(z, p, made[s].raw, made[s].resolved, made[s].packed, made[s].final, made[s].best)
  {
    hide StateMade, MadeFrom, Processed, RawOk, Automaton, LrTables, Ordered, SortedAxsets, Framed, Faithful, Pow2,
        Tables.Shaped;
    var states: seq<seq<Action>> := [];
    made := [];
    for s := 0 to |raw|
      invariant |states| == |made| == s && forall k | 0 <= k < s :: states[k] == made[k].final
      invariant forall k | 0 <= k < s :: StateMade(z, p, g, items, start, k, made[k]) && MadeFrom(z, p, raw[k], made[k])
      invariant forall k | 0 <= k < s :: z.StateOk(states[k])
    {
      var final;
      ghost var m;
      final, m := MakeState(z, p, g, items, start, s, raw[s]);
      states, made := states + [final], made + [m];
    }
    SortedAxsetsOrdered(z, states);
    T := ReportTable(z, states, SortedAxsets(z, states), fallback, ruleInfo);
    GivenFramed(z, g, items, start, fallback, ruleInfo, T);
    GeneratedTablesAreLr(z, p, g, items, start, T, made);
  }
}
