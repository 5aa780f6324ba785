/**
 How the LEMON generator collects the actions of its states (FindActions in lemon.c):
 a move for every symbol behind a mark, a reduction of every complete item on the
 terminals that follow it, and the acceptance. The follow sets decide where a start
 rule is reduced: on the end marker only.
 */
module FindActions {
  import opened Wrappers
  import opened Grammar
  import opened TreeBounds
  import opened ParserActions
  import opened LrDriver
  import opened LrComplete
  import opened ParserPipeline
  import FollowSets
  import GeneratedTables
  import ListSort

  // ----- follow sets of configurations

  /** From a configuration to the one behind the next symbol. */
  predicate Advances(b: Item, c: Item) {
    c == Item(b.rule, b.dot + 1)
  }

  /** From a configuration with the mark before a nonterminal to the beginning of a rule for it. */
  predicate Opens(g: Grammar, b: Item, c: Item) {
    && b.rule < |g.rules| && c.rule < |g.rules| && c.dot == 0
    && b.dot < |g.rules[b.rule].rhs| && g.rules[b.rule].rhs[b.dot] == g.rules[c.rule].lhs
  }

  /** Sets are passed on to the next configuration of a rule, or into the rules of the symbol behind the mark. */
  ghost predicate LinksOk(g: Grammar, configs: seq<Item>, links: FollowSets.Links) {
    && FollowSets.ValidLinks(links) && |links| == |configs|
    && (forall c | 0 <= c < |configs| :: configs[c].rule < |g.rules|)
    && forall b, c | 0 <= b < |links| && c in links[b] ::
         Advances(configs[b], configs[c]) || Opens(g, configs[b], configs[c])
  }

  /**
   Terminal t is put into the set of c at the start: the end marker for a start rule, else what may come after
   a symbol.
   */
  ghost predicate InitOk(g: Grammar, start: nat, configs: seq<Item>, c: Item, t: nat) {
    && t < g.nterminal
    && ((c.rule < |g.rules| && g.rules[c.rule].lhs == start && t == 0)
        || exists b :: 0 <= b < |configs| && Opens(g, configs[b], c))
  }

  ghost predicate InitsOk(g: Grammar, start: nat, configs: seq<Item>, init: seq<set<nat>>) {
    |init| == |configs| && forall c, t | 0 <= c < |init| && t in init[c] :: InitOk(g, start, configs, configs[c], t)
  }

  /** The start symbol is on no right-hand side. */
  predicate StartOnLeft(g: Grammar, start: nat) {
    forall r, i | 0 <= r < |g.rules| && 0 <= i < |g.rules[r].rhs| :: g.rules[r].rhs[i] != start
  }

  /** Every configuration from which one of a start rule is reached belongs to a start rule. */
  lemma {:induction false} StartReached(g: Grammar, start: nat, configs: seq<Item>, links: FollowSets.Links, d: nat,
                                        c: nat, n: nat)
    requires LinksOk(g, configs, links) && StartOnLeft(g, start) && d < |configs| && c < |configs|
    requires FollowSets.ReachesIn(links, d, c, n) && g.rules[configs[c].rule].lhs == start
    ensures g.rules[configs[d].rule].lhs == start
    decreases n
  {
    if n == 0 {
    } else {
      var b: nat :| FollowSets.ReachesIn(links, d, b, n - 1) && b < |links| && c in links[b];
      StartReached(g, start, configs, links, d, b, n - 1);
    }
  }

  /** Only the end marker follows a start rule. */
  lemma StartFollows(g: Grammar, start: nat, configs: seq<Item>, links: FollowSets.Links, init: seq<set<nat>>, c: nat,
                     t: nat)
    requires LinksOk(g, configs, links) && InitsOk(g, start, configs, init) && StartOnLeft(g, start)
    requires c < |configs| && FollowSets.Follows(links, init, c, t)
    ensures t < g.nterminal && (g.rules[configs[c].rule].lhs == start ==> t == 0)
  {
    var d: nat :| d < |init| && t in init[d] && FollowSets.Reaches(links, d, c);
    var n: nat :| FollowSets.ReachesIn(links, d, c, n);
    assert InitOk(g, start, configs, configs[d], t);
    if g.rules[configs[c].rule].lhs == start {
      StartReached(g, start, configs, links, d, c, n);
    }
  }

  // ----- the actions of one state

  /** The moves of a state, as FindStates has added them: one for each symbol behind a mark. */
  ghost predicate ShiftsOk(g: Grammar, items: seq<set<Item>>, s: nat, shifts: seq<Action>)
    requires s < |items|
  {
    && (forall k | 0 <= k < |shifts| :: shifts[k].kind == SHIFT && Successor(g, items, s, shifts[k].sp, shifts[k].x))
    && (forall i, k | 0 <= i < k < |shifts| :: shifts[i].sp != shifts[k].sp)
    && (forall x: nat | Kernel(g, items[s], x) != {} :: HasAction(shifts, x))
  }

  /** What a terminal may be that is in the follow set of a complete item. */
  ghost predicate FollowOk(g: Grammar, start: nat, it: Item, t: nat) {
    t < g.nterminal && it.rule < |g.rules| && (g.rules[it.rule].lhs == start ==> t == 0)
  }

  /** While the actions are collected: those there are may be there, and the moves are among them. */
  ghost predicate Collecting(g: Grammar, items: seq<set<Item>>, start: nat, s: nat, shifts: seq<Action>,
                             actions: seq<Action>)
    requires s < |items|
  {
    && Collected(actions) && |shifts| <= |actions| && actions[|actions| - |shifts|..] == shifts
    && (forall k | 0 <= k < |actions| :: ActionOk(g, items, start, s, actions[k]))
    && (forall k | 0 <= k < |actions| :: actions[k].kind == SHIFT || actions[k].kind == REDUCE)
  }

  lemma ShiftsCollected(g: Grammar, items: seq<set<Item>>, start: nat, s: nat, shifts: seq<Action>)
    requires s < |items| && ShiftsOk(g, items, s, shifts)
    ensures Collecting(g, items, start, s, shifts, shifts)
  {}

  lemma ReductionCollected(g: Grammar, items: seq<set<Item>>, start: nat, s: nat, shifts: seq<Action>,
                           actions: seq<Action>, it: Item, t: nat)
    requires s < |items| && Collecting(g, items, start, s, shifts, actions)
    requires it in items[s] && it.rule < |g.rules| && it.dot == |g.rules[it.rule].rhs| && FollowOk(g, start, it, t)
    ensures Collecting(g, items, start, s, shifts, [Action(t, REDUCE, it.rule)] + actions)
  {
    var now := [Action(t, REDUCE, it.rule)] + actions;
    assert now[|now| - |shifts|..] == actions[|actions| - |shifts|..];
  }

  /** The reductions of one item, on every terminal that follows it. */
  method AddReductions(g: Grammar, ghost items: seq<set<Item>>, ghost start: nat, ghost s: nat,
                       ghost shifts: seq<Action>,
                       it: Item, fws: set<nat>, actions0: seq<Action>)
    returns (actions: seq<Action>)
    requires s < |items| && Collecting(g, items, start, s, shifts, actions0)
    requires it in items[s] && it.rule < |g.rules| && it.dot == |g.rules[it.rule].rhs|
    requires forall t | t in fws :: FollowOk(g, start, it, t)
    ensures Collecting(g, items, start, s, shifts, actions) && |actions| <= |actions0| + g.nterminal
    ensures forall a :: a in actions <==> a in actions0 || (a.kind == REDUCE && a.x == it.rule && a.sp in fws)
  {
    hide Collecting;
    actions := actions0;
    for j := 0 to g.nterminal
      invariant Collecting(g, items, start, s, shifts, actions) && |actions| <= |actions0| + j
      invariant forall a :: a in actions <==>
                a in actions0 || (a.kind == REDUCE && a.x == it.rule && a.sp in fws && a.sp < j)
    {
      if j in fws {
        ReductionCollected(g, items, start, s, shifts, actions, it, j);
        actions := [Action(j, REDUCE, it.rule)] + actions;
      }
    }
  }

  predicate CompleteIn(g: Grammar, it: Item) {
    it.rule < |g.rules| && it.dot == |g.rules[it.rule].rhs|
  }

  /** Action a reduces one of the first n configurations, complete, on a terminal of its set. */
  ghost predicate ReducesOne(g: Grammar, configs: seq<Item>, fws: seq<set<nat>>, n: nat, a: Action)
    requires n <= |configs| == |fws|
  {
    exists c :: 0 <= c < n && CompleteIn(g, configs[c]) && a == Action(a.sp, REDUCE, configs[c].rule) && a.sp in fws[c]
  }

  /** The configurations of a state are its items, and their follow sets are in order. */
  ghost predicate ConfigsOk(g: Grammar, items: seq<set<Item>>, start: nat, s: nat, configs: seq<Item>,
                            fws: seq<set<nat>>)
    requires s < |items|
  {
    && |configs| == |fws| && (forall it :: it in configs <==> it in items[s])
    && forall c, t | 0 <= c < |configs| && t in fws[c] :: FollowOk(g, start, configs[c], t)
  }

  /** A move or a reduction is not on the start symbol, which is on no right-hand side. */
  lemma ActionSymbol(g: Grammar, items: seq<set<Item>>, start: nat, s: nat, a: Action)
    requires g.Valid() && g.nterminal <= start && StartOnLeft(g, start) && s < |items|
    requires ActionOk(g, items, start, s, a) && (a.kind == SHIFT || a.kind == REDUCE)
    ensures a.sp < g.nsymbol && a.sp != start
  {
    if a.kind == SHIFT {
      var it :| it in Kernel(g, items[s], a.sp);
    }
  }

  /** The acceptance is the only action on its symbol. */
  lemma AcceptCollected(start: nat, actions: seq<Action>)
    requires Collected(actions) && forall k | 0 <= k < |actions| :: actions[k].sp != start
    ensures Collected([Action(start, ACCEPT, 0)] + actions)
  {}

  lemma AcceptFirst(start: nat, actions: seq<Action>)
    ensures HasAction([Action(start, ACCEPT, 0)] + actions, start)
  {
    assert ([Action(start, ACCEPT, 0)] + actions)[0].sp == start;
  }

  lemma MovesAmong(shifts: seq<Action>, all: seq<Action>, x: nat)
    requires |shifts| <= |all| && all[|all| - |shifts|..] == shifts && HasAction(shifts, x)
    ensures HasAction(all, x)
  {
    var k :| 0 <= k < |shifts| && shifts[k].sp == x;
    assert all[|all| - |shifts| + k] == shifts[k];
  }

  /** With the acceptance, in the first state, the actions are what the tables are made from. */
  lemma AllCollected(g: Grammar, items: seq<set<Item>>, start: nat, s: nat, shifts: seq<Action>, actions: seq<Action>,
                     all: seq<Action>)
    requires g.Valid() && g.nterminal <= start < g.nsymbol && StartOnLeft(g, start)
    requires s < |items| && ShiftsOk(g, items, s, shifts) && Collecting(g, items, start, s, shifts, actions)
    requires all == if s == 0 then [Action(start, ACCEPT, 0)] + actions else actions
    ensures Collected(all) && ActionsOf(g, items, start, s, all) && forall k | 0 <= k < |all| :: all[k].sp < g.nsymbol
  {
    hide Collected, Kernel, Successor, StartOnLeft, HasAction, Complete;
    forall k | 0 <= k < |actions|
      ensures actions[k].sp < g.nsymbol && actions[k].sp != start
    {
      ActionSymbol(g, items, start, s, actions[k]);
    }
    AcceptCollected(start, actions);
    assert all[|all| - |shifts|..] == actions[|actions| - |shifts|..];
    forall x: nat | HasAction(shifts, x)
      ensures HasAction(all, x)
    {
      MovesAmong(shifts, all, x);
    }
    assert s == 0 ==> HasAction(all, start) by { AcceptFirst(start, actions); }
  }

  /** Collects the actions of state s: its moves, its reductions, and the acceptance in the first state. */
  method StateActions(g: Grammar, ghost items: seq<set<Item>>, start: nat, s: nat, shifts: seq<Action>,
                      configs: seq<Item>, fws: seq<set<nat>>)
    returns (raw: seq<Action>)
    requires g.Valid() && g.nterminal <= start < g.nsymbol && StartOnLeft(g, start) && s < |items|
    requires ShiftsOk(g, items, s, shifts) && ConfigsOk(g, items, start, s, configs, fws)
    ensures Collected(raw) && ActionsOf(g, items, start, s, raw) && forall k | 0 <= k < |raw| :: raw[k].sp < g.nsymbol
    ensures |raw| <= |shifts| + |configs| * g.nterminal + 1
    ensures forall a :: a in raw <==>
            a in shifts || ReducesOne(g, configs, fws, |configs|, a) || (s == 0 && a == Action(start, ACCEPT, 0))
  {
    hide Collecting, ShiftsOk, Collected, ActionsOf;
    ShiftsCollected(g, items, start, s, shifts);
    var actions := shifts;
    for c := 0 to |configs|
      invariant Collecting(g, items, start, s, shifts, actions) && |actions| <= |shifts| + c * g.nterminal
      invariant forall a :: a in actions <==> a in shifts || ReducesOne(g, configs, fws, c, a)
    {
      assert configs[c] in configs;
      ghost var before := actions;
      if CompleteIn(g, configs[c]) {
        actions := AddReductions(g, items, start, s, shifts, configs[c], fws[c], actions);
      }
      assert (c + 1) * g.nterminal == c * g.nterminal + g.nterminal;
      forall a
        ensures ReducesOne(g, configs, fws, c + 1, a) <==>
                ReducesOne(g, configs, fws, c, a) ||
                (CompleteIn(g, configs[c]) && a == Action(a.sp, REDUCE, configs[c].rule) && a.sp in fws[c])
      {
      }
    }
    raw := if s == 0 then [Action(start, ACCEPT, 0)] + actions else actions;
    AllCollected(g, items, start, s, shifts, actions, raw);
  }

  // ----- all states

  function ConfigsOf(configs: seq<Item>, state: seq<nat>): (its: seq<Item>)
    requires forall j | 0 <= j < |state| :: state[j] < |configs|
    ensures |its| == |state| && forall j | 0 <= j < |state| :: its[j] == configs[state[j]]
  {
    seq(|state|, j requires 0 <= j < |state| => configs[state[j]])
  }

  /** The configurations of all states, with their links and first sets, and the moves between the states. */
  ghost predicate StatesOk(g: Grammar, items: seq<set<Item>>, start: nat, states: seq<seq<nat>>, configs: seq<Item>,
                           links: FollowSets.Links, shifts: seq<seq<Action>>)
  {
    && |states| == |items| == |shifts| && |links| == |configs|
    && FollowSets.Covers(states, links) && LinksOk(g, configs, links)
    && (forall s | 0 <= s < |items| :: ShiftsOk(g, items, s, shifts[s]))
    && forall s | 0 <= s < |items| :: forall it :: it in ConfigsOf(configs, states[s]) <==> it in items[s]
  }

  /** The follow sets that have been computed decide nothing else than they may. */
  lemma FollowsOk(g: Grammar, start: nat, configs: seq<Item>, links: FollowSets.Links, init: seq<set<nat>>,
                  fws: seq<set<nat>>, c: nat)
    requires LinksOk(g, configs, links) && InitsOk(g, start, configs, init) && StartOnLeft(g, start) &&
             |fws| == |configs|
    requires forall c, t: nat | 0 <= c < |links| :: t in fws[c] <==> FollowSets.Follows(links, init, c, t)
    requires c < |configs|
    ensures forall t | t in fws[c] :: FollowOk(g, start, configs[c], t)
  {
    forall t | t in fws[c]
      ensures FollowOk(g, start, configs[c], t)
    {
      StartFollows(g, start, configs, links, init, c, t);
    }
  }

  function SetsOf(fws: seq<set<nat>>, state: seq<nat>): (sets: seq<set<nat>>)
    requires forall j | 0 <= j < |state| :: state[j] < |fws|
    ensures |sets| == |state| && forall j | 0 <= j < |state| :: sets[j] == fws[state[j]]
  {
    seq(|state|, j requires 0 <= j < |state| => fws[state[j]])
  }

  /** A bound on the number of actions of a state. */
  predicate Small(g: Grammar, states: seq<seq<nat>>, shifts: seq<seq<Action>>)
    requires |states| == |shifts|
  {
    forall s | 0 <= s < |states| :: |shifts[s]| + |states[s]| * g.nterminal + 1 < Pow2(ListSort.LISTSIZE)
  }

  lemma InitsInRange(g: Grammar, start: nat, configs: seq<Item>, init: seq<set<nat>>)
    requires InitsOk(g, start, configs, init)
    ensures FollowSets.InRange(init, g.nterminal) && |init| == |configs|
  {
    forall c, t | 0 <= c < |init| && t in init[c]
      ensures t < g.nterminal
    {
      assert InitOk(g, start, configs, configs[c], t);
    }
  }

  /** What FindStates and FindLinks leave: configurations, their links and first sets, and the moves of the states. */
  datatype Skeleton = Skeleton(states: seq<seq<nat>>, configs: seq<Item>, links: FollowSets.Links, init: seq<set<nat>>,
      shifts: seq<seq<Action>>)
  {
    predicate InTable() {
      |states| == |shifts| && forall s, j | 0 <= s < |states| && 0 <= j < |states[s]| :: states[s][j] < |configs|
    }

    /** Terminal t follows the item in state s. */
    ghost predicate FollowsItem(s: nat, it: Item, t: nat)
      requires InTable()
    {
      s < |states| && exists j :: 0 <= j < |states[s]| && configs[states[s][j]] == it
                                  && FollowSets.Follows(links, init, states[s][j], t)
    }

    /** What state s may do: a move, the reduction of a complete item on what follows it, or the acceptance. */
    ghost predicate Candidate(g: Grammar, start: nat, s: nat, a: Action)
      requires InTable() && s < |states|
    {
      || a in shifts[s]
      || (a.kind == REDUCE && a.x < |g.rules| && FollowsItem(s, Item(a.x, |g.rules[a.x].rhs|), a.sp))
      || (s == 0 && a == Action(start, ACCEPT, 0))
    }
  }

  method OneState(g: Grammar, ghost items: seq<set<Item>>, start: nat, states: seq<seq<nat>>, configs: seq<Item>,
                  ghost links: FollowSets.Links, ghost init: seq<set<nat>>, fws: seq<set<nat>>,
                      shifts: seq<seq<Action>>, s: nat)
    returns (raw: seq<Action>)
    requires g.Valid() && g.nterminal <= start < g.nsymbol && StartOnLeft(g, start)
    requires StatesOk(g, items, start, states, configs, links, shifts) && Small(g, states, shifts) && s < |states|
    requires InitsOk(g, start, configs, init) && |fws| == |links|
    requires forall c, t: nat | 0 <= c < |links| :: t in fws[c] <==> FollowSets.Follows(links, init, c, t)
    ensures Collected(raw) && ActionsOf(g, items, start, s, raw) && |raw| < Pow2(ListSort.LISTSIZE)
    ensures forall k | 0 <= k < |raw| :: raw[k].sp < g.nsymbol
    ensures var k := Skeleton(states, configs, links, init, shifts);
            k.InTable() && forall a :: a in raw <==> k.Candidate(g, start, s, a)
  {
    hide Collected, ActionsOf, ShiftsOk, LinksOk, InitsOk, FollowSets.Follows, Pow2, StartOnLeft;
    var its, sets := ConfigsOf(configs, states[s]), SetsOf(fws, states[s]);
    forall c, t | 0 <= c < |its| && t in sets[c]
      ensures FollowOk(g, start, its[c], t)
    {
      FollowsOk(g, start, configs, links, init, fws, states[s][c]);
    }
    raw := StateActions(g, items, start, s, shifts[s], its, sets);
  }

  lemma RawIsOk(z: GeneratedTables.Sizes, g: Grammar, items: seq<set<Item>>, start: nat, s: nat, raw: seq<Action>)
    requires s < |items| && Collected(raw) && ActionsOf(g, items, start, s, raw) && |raw| < Pow2(ListSort.LISTSIZE)
    requires z.nsymbol == g.nsymbol && forall k | 0 <= k < |raw| :: raw[k].sp < g.nsymbol
    ensures RawOk(z, g, items, start, s, raw)
  {}

  /** Computes the follow sets and collects the actions of all states. */
  method FindActions(z: GeneratedTables.Sizes, g: Grammar, ghost items: seq<set<Item>>, start: nat,
                     states: seq<seq<nat>>,
                     configs: seq<Item>, links: FollowSets.Links, fws: array<set<nat>>, shifts: seq<seq<Action>>)
    returns (raw: seq<seq<Action>>)
    requires g.Valid() && z.nsymbol == g.nsymbol && g.nterminal <= start < g.nsymbol && StartOnLeft(g, start)
    requires StatesOk(g, items, start, states, configs, links, shifts) && Small(g, states, shifts)
    requires InitsOk(g, start, configs, fws[..])
    modifies fws
    ensures |raw| == |items| && forall s | 0 <= s < |raw| :: RawOk(z, g, items, start, s, raw[s])
    ensures var k := Skeleton(states, configs, links, old(fws[..]), shifts);
            k.InTable() && |raw| == |states|
            && forall s, a | 0 <= s < |raw| :: a in raw[s] <==> k.Candidate(g, start, s, a)
  {
    hide RawOk, InitsOk, FollowSets.Follows, Pow2, StartOnLeft, Small, Skeleton.Candidate, FollowSets.InRange;
    ghost var init := fws[..];
    InitsInRange(g, start, configs, init);
    FollowSets.FindFollowSets(states, links, fws, g.nterminal);
    var sets := fws[..];
    ghost var skeleton := Skeleton(states, configs, links, init, shifts);
    assert skeleton.InTable();
    raw := [];
    for s := 0 to |states|
      invariant fws[..] == sets && |raw| == s && forall k | 0 <= k < s :: RawOk(z, g, items, start, k, raw[k])
      invariant forall k, a | 0 <= k < s :: a in raw[k] <==> skeleton.Candidate(g, start, k, a)
    {
      var actions := OneState(g, items, start, states, configs, links, init, sets, shifts, s);
      assert RawOk(z, g, items, start, s, actions) by { RawIsOk(z, g, items, start, s, actions); }
      raw := raw + [actions];
    }
  }

  // ----- complete skeletons make complete tables

  /** Configuration d begins the rule, with all that may come after it from configuration c. */
  ghost predicate OpenedAs(g: Grammar, k: Skeleton, c: nat, d: nat, r: nat)
    requires c < |k.configs| && d < |k.configs| && |k.init| == |k.links| == |k.configs|
    requires k.configs[c].rule < |g.rules| && k.configs[c].dot < |g.rules[k.configs[c].rule].rhs|
  {
    var rest := g.rules[k.configs[c].rule].rhs[k.configs[c].dot + 1..];
    && k.configs[d] == Item(r, 0)
    && (forall t: nat | t < g.nterminal && Starts(g, rest, t) :: t in k.init[d])
    && (AllNullable(g, rest) ==> d in k.links[c])
  }

  /** From configuration c of state s the rule begins in the same state, with all that may come after it. */
  ghost predicate Opened(g: Grammar, k: Skeleton, s: nat, c: nat, r: nat)
    requires k.InTable() && s < |k.states| && c < |k.configs| && |k.init| == |k.links| == |k.configs|
    requires k.configs[c].rule < |g.rules| && k.configs[c].dot < |g.rules[k.configs[c].rule].rhs|
  {
    exists j :: 0 <= j < |k.states[s]| && OpenedAs(g, k, c, k.states[s][j], r)
  }

  /** From configuration c a link goes to the one behind the next symbol, in state s. */
  predicate Advanced(k: Skeleton, c: nat, s: nat)
    requires k.InTable() && s < |k.states| && c < |k.configs| == |k.links|
  {
    exists j :: 0 <= j < |k.states[s]| && Advances(k.configs[c], k.configs[k.states[s][j]])
                && k.states[s][j] in k.links[c]
  }

  /** Nothing is missing: start rules, closures with their first sets, links into closures and over moves. */
  ghost predicate NothingMissing(g: Grammar, start: nat, k: Skeleton) {
    && k.InTable() && 0 < |k.states| && |k.init| == |k.links| == |k.configs| && FollowSets.ValidLinks(k.links)
    && (forall r: nat | r < |g.rules| && g.rules[r].lhs == start ::
          exists j :: 0 <= j < |k.states[0]| && k.configs[k.states[0][j]] == Item(r, 0) && 0 in k.init[k.states[0][j]])
    && (forall s, j, r: nat | 0 <= s < |k.states| && 0 <= j < |k.states[s]| && r < |g.rules| &&
                              Before(g, k.configs[k.states[s][j]], g.rules[r].lhs) ::
          Opened(g, k, s, k.states[s][j], r))
    && (forall s, j, a | 0 <= s < |k.states| && 0 <= j < |k.states[s]| && a in k.shifts[s] && a.kind == SHIFT &&
                         Before(g, k.configs[k.states[s][j]], a.sp) ::
          a.x < |k.states| && Advanced(k, k.states[s][j], a.x))
  }

  /** No state may do two things on one symbol. */
  ghost predicate NoConflict(g: Grammar, start: nat, k: Skeleton)
    requires k.InTable()
  {
    forall s: nat, a, b | s < |k.states| && k.Candidate(g, start, s, a) && k.Candidate(g, start, s, b) &&
        a.sp == b.sp ::
      a == b
  }

  /** No token has a fallback. */
  predicate NoFallback(fallback: seq<nat>) {
    forall t | 0 <= t < |fallback| :: fallback[t] == 0
  }

  /** The tables were made from the candidates of the skeleton. */
  ghost predicate MadeFor(z: GeneratedTables.Sizes, p: Precedence, g: Grammar, items: seq<set<Item>>, start: nat,
                          k: Skeleton, T: Tables, made: seq<Stages>) {
    && k.InTable() && GeneratedTables.FallbacksAreTokens(z, T) && z.Valid() && T.Shaped() && T.FallbacksEnd()
    && z == GeneratedTables.Sizes(g.nterminal, g.nsymbol, |items|, |g.rules|)
    && |made| == |k.states| == |items| == T.nstate && T.nrule == |g.rules|
    && forall s: nat | s < |made| ::
         && (forall a :: a in made[s].raw <==> k.Candidate(g, start, s, a))
         && GeneratedTables.Processed(z, p, made[s].raw, made[s].resolved, made[s].packed, made[s].final, made[s].best)
         && GeneratedTables.Faithful(z, made[s].final, T, s)
  }

  lemma DeciderAmong(p: Precedence, s: seq<Action>, i: nat)
    requires i < |s|
    ensures Decider(p, s, i) < |s|
  {}

  /** On a symbol on which a state has actions the driver looks up what precedence leaves of them. */
  lemma DecisionFound(z: GeneratedTables.Sizes, p: Precedence, g: Grammar, items: seq<set<Item>>, start: nat,
                      k: Skeleton, T: Tables, made: seq<Stages>, s: nat, i: nat)
    requires MadeFor(z, p, g, items, start, k, T, made) && s < |k.states| && i < |made[s].raw|
    requires NoFallback(T.fallback)
    ensures var sp, d := made[s].raw[i].sp, Decider(p, made[s].raw, i);
            && d < |made[s].raw| && made[s].raw[d].sp == sp
            && if sp >= g.nterminal then T.FindReduceAction(s, sp) == z.ComputeAction(made[s].raw[d])
               else T.Ends(sp) && T.FindShiftAction(s, sp, |T.fallback| + 1) == z.ComputeAction(made[s].raw[d])
  {
    hide Decider, GeneratedTables.Faithful, GeneratedTables.Decision, Skeleton.Candidate, GroupStart, Decided,
         Compressed, MarkedFrom;
    var m := made[s];
    var sp := m.raw[i].sp;
    DeciderAmong(p, m.raw, i);
    GeneratedTables.DecisionOf(p, m.raw, i);
    hide Unresolved;
    if sp >= g.nterminal {
      GeneratedTables.GeneratorKeepsGoto(z, p, m.raw, m.resolved, m.packed, m.final, m.best, T, s, i);
    } else {
      var hops := |T.fallback| + 1;
      assert T.Ends(sp);
      GeneratedTables.GeneratorFindsToken(z, p, m.raw, m.resolved, m.packed, m.final, m.best, T, s, sp, hops);
      assert GeneratedTables.Chain(T, sp, hops) == [sp];
    }
  }

  /** What a state may do, and nothing else on the same symbol, is what the driver looks up. */
  lemma CandidateFound(z: GeneratedTables.Sizes, p: Precedence, g: Grammar, items: seq<set<Item>>, start: nat,
                       k: Skeleton, T: Tables, made: seq<Stages>, s: nat, a: Action)
    requires MadeFor(z, p, g, items, start, k, T, made) && s < |k.states|
    requires NoConflict(g, start, k) && NoFallback(T.fallback) && k.Candidate(g, start, s, a)
    ensures a.sp < g.nterminal ==>
              T.Ends(a.sp) && T.FindShiftAction(s, a.sp, |T.fallback| + 1) == z.ComputeAction(a)
    ensures a.sp >= g.nterminal ==> T.FindReduceAction(s, a.sp) == z.ComputeAction(a)
  {
    hide Decider, GeneratedTables.Faithful, GeneratedTables.Processed, Skeleton.Candidate, NoFallback;
    var raw := made[s].raw;
    var i :| 0 <= i < |raw| && raw[i] == a;
    DecisionFound(z, p, g, items, start, k, T, made, s, i);
    assert raw[Decider(p, raw, i)] in raw;
  }

  /** What follows an item in a state, as the follow sets say. */
  ghost function Following(k: Skeleton): Lookaheads {
    (s: nat, it, t: nat) => k.InTable() && k.FollowsItem(s, it, t)
  }

  /** The configurations of the states are the items of the automaton. */
  ghost predicate ItemsListed(items: seq<set<Item>>, k: Skeleton)
    requires k.InTable()
  {
    && |items| == |k.states|
    && forall s: nat, it | s < |items| ::
         it in items[s] <==> exists j :: 0 <= j < |k.states[s]| && k.configs[k.states[s][j]] == it
  }

  /** What is in the first set of a configuration follows it. */
  lemma InitFollows(k: Skeleton, c: nat, t: nat)
    requires c < |k.init| && t in k.init[c]
    ensures FollowSets.Follows(k.links, k.init, c, t)
  {
    assert FollowSets.ReachesIn(k.links, c, c, 0);
  }

  lemma FollowsOn(k: Skeleton, b: nat, c: nat, t: nat)
    requires FollowSets.ValidLinks(k.links) && |k.init| == |k.links| && b < |k.links| && c in k.links[b]
    requires FollowSets.Follows(k.links, k.init, b, t)
    ensures FollowSets.Follows(k.links, k.init, c, t)
  {
    var i :| 0 <= i < |k.links[b]| && k.links[b][i] == c;
    FollowSets.FollowsOverLink(k.links, k.init, b, i, t);
  }

  /** What may come after the symbol behind the mark of configuration c follows the rule begun from it. */
  lemma BegunFollowed(g: Grammar, k: Skeleton, s: nat, c: nat, d: nat, r: nat, t: nat)
    requires |k.init| == |k.links| == |k.configs| && FollowSets.ValidLinks(k.links)
    requires c < |k.configs| && d < |k.configs| && t < g.nterminal
    requires k.configs[c].rule < |g.rules| && k.configs[c].dot < |g.rules[k.configs[c].rule].rhs|
    requires OpenedAs(g, k, c, d, r)
    requires var rest := g.rules[k.configs[c].rule].rhs[k.configs[c].dot + 1..];
             Starts(g, rest, t) || (AllNullable(g, rest) && FollowSets.Follows(k.links, k.init, c, t))
    ensures k.configs[d] == Item(r, 0) && FollowSets.Follows(k.links, k.init, d, t)
  {
    hide FollowSets.Follows, Starts, AllNullable, FollowSets.ValidLinks;
    if Starts(g, g.rules[k.configs[c].rule].rhs[k.configs[c].dot + 1..], t) {
      InitFollows(k, d, t);
    } else {
      FollowsOn(k, c, d, t);
    }
  }

  /** What may come after the symbol behind a mark follows the rules of that symbol. */
  lemma RuleFollowed(g: Grammar, start: nat, k: Skeleton, s: nat, it: Item, r: nat, t: nat)
    requires NothingMissing(g, start, k) && s < |k.states| && t < g.nterminal
    requires exists j :: 0 <= j < |k.states[s]| && k.configs[k.states[s][j]] == it
    requires r < |g.rules| && Before(g, it, g.rules[r].lhs) && MayFollow(g, Following(k), s, it, t)
    ensures Following(k)(s, Item(r, 0), t)
  {
    hide FollowSets.Follows, Starts, AllNullable, FollowSets.ValidLinks, OpenedAs, Advanced;
    var rest := g.rules[it.rule].rhs[it.dot + 1..];
    var j0: nat :| j0 < |k.states[s]| && k.configs[k.states[s][j0]] == it &&
                   (Starts(g, rest, t) ||
                    (AllNullable(g, rest) && FollowSets.Follows(k.links, k.init, k.states[s][j0], t)));
    var c := k.states[s][j0];
    assert Opened(g, k, s, c, r);
    var j :| 0 <= j < |k.states[s]| && OpenedAs(g, k, c, k.states[s][j], r);
    BegunFollowed(g, k, s, c, k.states[s][j], r, t);
  }

  lemma RuleBegun(g: Grammar, items: seq<set<Item>>, start: nat, k: Skeleton, s: nat, it: Item, r: nat)
    requires NothingMissing(g, start, k) && ItemsListed(items, k)
    requires s < |items| && it in items[s] && r < |g.rules| && Before(g, it, g.rules[r].lhs)
    ensures Begun(g, items, Following(k), s, it, r)
  {
    hide FollowSets.Follows, Starts, AllNullable, FollowSets.ValidLinks;
    var j0 :| 0 <= j0 < |k.states[s]| && k.configs[k.states[s][j0]] == it;
    assert Opened(g, k, s, k.states[s][j0], r);
    forall t: nat | t < g.nterminal && MayFollow(g, Following(k), s, it, t)
      ensures Following(k)(s, Item(r, 0), t)
    {
      RuleFollowed(g, start, k, s, it, r, t);
    }
  }

  /** Over a move what follows an item follows the one behind the symbol. */
  lemma MoveFollowed(g: Grammar, start: nat, k: Skeleton, s: nat, it: Item, a: Action, t: nat)
    requires NothingMissing(g, start, k) && s < |k.states|
    requires a in k.shifts[s] && a.kind == SHIFT && Before(g, it, a.sp) && Following(k)(s, it, t)
    ensures Following(k)(a.x, Item(it.rule, it.dot + 1), t)
  {
    hide FollowSets.Follows, FollowSets.ValidLinks;
    var j0 :| 0 <= j0 < |k.states[s]| && k.configs[k.states[s][j0]] == it &&
              FollowSets.Follows(k.links, k.init, k.states[s][j0], t);
    var c := k.states[s][j0];
    assert Advanced(k, c, a.x);
    var j :| 0 <= j < |k.states[a.x]| && Advances(k.configs[c], k.configs[k.states[a.x][j]])
             && k.states[a.x][j] in k.links[c];
    FollowsOn(k, c, k.states[a.x][j], t);
  }

  /** The move over the symbol behind a mark. */
  lemma MoveBehind(g: Grammar, items: seq<set<Item>>, s: nat, shifts: seq<Action>, it: Item) returns (a: Action)
    requires s < |items| && ShiftsOk(g, items, s, shifts)
    requires it in items[s] && it.rule < |g.rules| && it.dot < |g.rules[it.rule].rhs|
    ensures a in shifts && a.kind == SHIFT && Before(g, it, a.sp)
    ensures a.x < |items| && Item(it.rule, it.dot + 1) in items[a.x]
  {
    var x, next := g.rules[it.rule].rhs[it.dot], Item(it.rule, it.dot + 1);
    assert next in Kernel(g, items[s], x);
    var i :| 0 <= i < |shifts| && shifts[i].sp == x;
    a := shifts[i];
    assert Successor(g, items, s, x, a.x);
  }

  lemma ItemMoves(z: GeneratedTables.Sizes, p: Precedence, g: Grammar, items: seq<set<Item>>, start: nat, k: Skeleton,
                  T: Tables, made: seq<Stages>, s: nat, it: Item)
    requires MadeFor(z, p, g, items, start, k, T, made) && NothingMissing(g, start, k) && ItemsListed(items, k)
    requires NoConflict(g, start, k) && NoFallback(T.fallback)
    requires s < |items| && ShiftsOk(g, items, s, k.shifts[s])
    requires it in items[s] && it.rule < |g.rules| && it.dot < |g.rules[it.rule].rhs|
    ensures Moves(g, T, items, Following(k), s, it)
  {
    hide NoConflict, Skeleton.FollowsItem, ShiftsOk, ItemsListed, Following, NoFallback, NothingMissing;
    var a := MoveBehind(g, items, s, k.shifts[s], it);
    CandidateFound(z, p, g, items, start, k, T, made, s, a);
    forall t: nat | t < g.nterminal && Following(k)(s, it, t)
      ensures Following(k)(a.x, Item(it.rule, it.dot + 1), t)
    {
      MoveFollowed(g, start, k, s, it, a, t);
    }
  }

  lemma ItemReduced(z: GeneratedTables.Sizes, p: Precedence, g: Grammar, items: seq<set<Item>>, start: nat,
                    k: Skeleton, T: Tables, made: seq<Stages>, s: nat, it: Item)
    requires MadeFor(z, p, g, items, start, k, T, made) && s < |items|
    requires NoConflict(g, start, k) && NoFallback(T.fallback)
    requires it.rule < |g.rules| && it.dot == |g.rules[it.rule].rhs|
    ensures Reduced(g, T, Following(k), s, it)
  {
    forall t: nat | t < g.nterminal && Following(k)(s, it, t)
      ensures T.Ends(t) && T.FindShiftAction(s, t, |T.fallback| + 1) == T.nstate + it.rule
    {
      CandidateFound(z, p, g, items, start, k, T, made, s, Action(t, REDUCE, it.rule));
    }
  }

  /** The acceptance is found in the first state. */
  lemma AcceptFound(z: GeneratedTables.Sizes, p: Precedence, g: Grammar, items: seq<set<Item>>, start: nat,
                    k: Skeleton, T: Tables, made: seq<Stages>)
    requires MadeFor(z, p, g, items, start, k, T, made) && g.nterminal <= start && 0 < |k.states|
    requires NoConflict(g, start, k) && NoFallback(T.fallback)
    ensures T.FindReduceAction(0, start) == T.AcceptAction()
  {
    CandidateFound(z, p, g, items, start, k, T, made, 0, Action(start, ACCEPT, 0));
  }

  lemma StartBegun(g: Grammar, items: seq<set<Item>>, start: nat, k: Skeleton, r: nat)
    requires NothingMissing(g, start, k) && ItemsListed(items, k) && r < |g.rules| && g.rules[r].lhs == start
    ensures Item(r, 0) in items[0] && Following(k)(0, Item(r, 0), 0)
  {
    var j :| 0 <= j < |k.states[0]| && k.configs[k.states[0][j]] == Item(r, 0) && 0 in k.init[k.states[0][j]];
    InitFollows(k, k.states[0][j], 0);
  }

  /** Without conflicts and fallbacks the tables made from a complete skeleton are complete. */
  lemma GeneratedTablesComplete(z: GeneratedTables.Sizes, p: Precedence, g: Grammar, items: seq<set<Item>>,
                                start: nat, k: Skeleton, T: Tables, made: seq<Stages>)
    requires g.Valid() && 0 < g.nterminal <= start && MadeFor(z, p, g, items, start, k, T, made)
    requires NothingMissing(g, start, k) && ItemsListed(items, k) && forall s | 0 <= s < |items| ::
             ShiftsOk(g, items, s, k.shifts[s])
    requires NoConflict(g, start, k) && NoFallback(T.fallback)
    requires forall r | 0 <= r < T.nrule :: T.ruleInfo[r] == RuleInfo(g.rules[r].lhs, |g.rules[r].rhs|)
    ensures CompleteTables(g, T, items, start, Following(k))
  {
    hide Begun, Moves, Reduced, Following, NoConflict, NoFallback, ShiftsOk;
    AcceptFound(z, p, g, items, start, k, T, made);
    forall r: nat | r < |g.rules| && g.rules[r].lhs == start
      ensures Item(r, 0) in items[0] && Following(k)(0, Item(r, 0), 0)
    {
      StartBegun(g, items, start, k, r);
    }
    forall s: nat, it, r: nat | s < |items| && it in items[s] && r < |g.rules| && Before(g, it, g.rules[r].lhs)
      ensures Begun(g, items, Following(k), s, it, r)
    {
      RuleBegun(g, items, start, k, s, it, r);
    }
    forall s: nat, it | s < |items| && it in items[s] && it.rule < |g.rules| && it.dot < |g.rules[it.rule].rhs|
      ensures Moves(g, T, items, Following(k), s, it)
    {
      ItemMoves(z, p, g, items, start, k, T, made, s, it);
    }
    forall s: nat, it | s < |items| && it in items[s] && it.rule < |g.rules| && it.dot == |g.rules[it.rule].rhs|
      ensures Reduced(g, T, Following(k), s, it)
    {
      ItemReduced(z, p, g, items, start, k, T, made, s, it);
    }
  }

  /** The input is a sentence, with a tree that fits on the stack. */
  ghost predicate FittingSentence(g: Grammar, start: nat, depth: nat, input: seq<nat>) {
    exists t: Tree :: && t.Node? && ValidTree(g, t) && Root(g, t) == start && Frontier(t) == input
                      && 1 + NeedAll(t.kids) <= depth
  }

  /** Without fallbacks tokens stand for themselves only. */
  lemma StandsAlone(T: Tables, raw: seq<nat>, used: seq<nat>)
    requires NoFallback(T.fallback) && T.Substitutes(raw, used)
    ensures raw == used
  {
    forall i | 0 <= i < |raw|
      ensures raw[i] == used[i]
    {
      assert T.StandsFor(raw[i], used[i]);
      var hops: nat :| T.StandsForIn(raw[i], used[i], hops);
    }
  }

  /** A sound verdict by complete tables is exact. */
  lemma VerdictExact(g: Grammar, T: Tables, items: seq<set<Item>>, start: nat, la: Lookaheads, depth: nat,
                     input: seq<nat>)
    requires CompleteTables(g, T, items, start, la) && 0 < depth && Terminals(g, input) && NoFallback(T.fallback)
    requires T.Shaped() && T.FallbacksEnd() && StatesOf(T, depth, [0])
    requires MachineVerdict(T, depth, [0], input) == Accepting && input != [] ==>
               exists used :: T.Substitutes(input, used) && Derives(g, [start], used)
    ensures input != [] ==> (MachineVerdict(T, depth, [0], input) == Accepting <==>
            FittingSentence(g, start, depth, input))
  {
    if input != [] && MachineVerdict(T, depth, [0], input) == Accepting {
      var used :| T.Substitutes(input, used) && Derives(g, [start], used);
      StandsAlone(T, input, used);
      DerivesIffTree(g, start, input);
      var t :| ValidTree(g, t) && Root(g, t) == start && Frontier(t) == input;
      SentenceVerdict(g, T, items, start, la, depth, t);
    }
    if FittingSentence(g, start, depth, input) {
      var t: Tree :| && t.Node? && ValidTree(g, t) && Root(g, t) == start && Frontier(t) == input
                     && 1 + NeedAll(t.kids) <= depth;
      SentenceVerdict(g, T, items, start, la, depth, t);
    }
  }

  /** What the skeleton is, from the conditions on its parts. */
  lemma SkeletonListed(g: Grammar, items: seq<set<Item>>, start: nat, k: Skeleton)
    requires StatesOk(g, items, start, k.states, k.configs, k.links, k.shifts)
    ensures k.InTable() && ItemsListed(items, k)
    ensures forall s | 0 <= s < |items| :: ShiftsOk(g, items, s, k.shifts[s])
  {
    hide ShiftsOk, LinksOk;
    forall s: nat, it | s < |items|
      ensures it in items[s] <==> exists j :: 0 <= j < |k.states[s]| && k.configs[k.states[s][j]] == it
    {
      var its := ConfigsOf(k.configs, k.states[s]);
      assert it in its <==> exists j :: 0 <= j < |its| && its[j] == it;
    }
  }

  /** What the generator has promised of its tables. */
  lemma TablesMadeFor(z: GeneratedTables.Sizes, p: Precedence, g: Grammar, items: seq<set<Item>>, start: nat,
                      k: Skeleton, raw: seq<seq<Action>>, T: Tables, made: seq<Stages>)
    requires k.InTable() && |raw| == |made| == |k.states| == |items| && LrTables(g, T, items, start)
    requires z == GeneratedTables.Sizes(g.nterminal, g.nsymbol, |items|, |g.rules|) && z.Valid()
    requires forall s, a | 0 <= s < |raw| :: a in raw[s] <==> k.Candidate(g, start, s, a)
    requires forall s | 0 <= s < |raw| ::
               && GeneratedTables.Faithful(z, made[s].final, T, s) && multiset(made[s].raw) == multiset(raw[s])
               && GeneratedTables.Processed(z, p, made[s].raw, made[s].resolved, made[s].packed, made[s].final,
                                            made[s].best)
    ensures MadeFor(z, p, g, items, start, k, T, made) && |made| == T.nstate
    ensures forall s, a | 0 <= s < |made| :: a in made[s].raw <==> k.Candidate(g, start, s, a)
    ensures forall r | 0 <= r < T.nrule :: T.ruleInfo[r] == RuleInfo(g.rules[r].lhs, |g.rules[r].rhs|)
  {
    hide GeneratedTables.Faithful, GeneratedTables.Processed, Skeleton.Candidate;
    forall s, a | 0 <= s < |raw|
      ensures a in made[s].raw <==> k.Candidate(g, start, s, a)
    {
      SameMembers(made[s].raw, raw[s]);
    }
  }

  /**
   From the item sets of a grammar, with their links, to a parser for it. What is accepted
   is a sentence of the grammar, tokens standing for themselves or for their fallbacks, and
   unless some symbol derives itself the parser always comes to rest. Without conflicts and
   fallbacks it accepts exactly the sentences that have a tree for which the stack is deep
   enough; with them the tables hold what precedence leaves of the actions of each state.
   */
  method GenerateAndParse(p: Precedence, g: Grammar, ghost items: seq<set<Item>>, start: nat, states: seq<seq<nat>>,
                          configs: seq<Item>, links: FollowSets.Links, fws: array<set<nat>>, shifts: seq<seq<Action>>,
                          fallback: seq<nat>, ruleInfo: seq<RuleInfo>, depth: nat, input: seq<nat>)
    returns (T: Tables, verdict: LrDriver.Verdict, ghost made: seq<Stages>)
    requires Given(GeneratedTables.Sizes(g.nterminal, g.nsymbol, |states|, |g.rules|), g, items, start, fallback,
             ruleInfo)
    requires StartOnLeft(g, start) && p.Valid() && 2 * |states| < Pow2(ListSort.LISTSIZE)
    requires StatesOk(g, items, start, states, configs, links, shifts) && Small(g, states, shifts)
    requires InitsOk(g, start, configs, fws[..])
    requires 0 < depth && 0 < g.nterminal && forall i | 0 <= i < |input| :: 0 < input[i] < g.nterminal
    modifies fws
    ensures LrTables(g, T, items, start) && T.fallback == fallback
    ensures verdict == Accepting ==> exists used :: T.Substitutes(input, used) && Derives(g, [start], used)
    ensures Acyclic(g) ==> verdict != NoVerdict
    ensures var k := Skeleton(states, configs, links, old(fws[..]), shifts);
            && k.InTable() && |made| == |states| == T.nstate && T.Shaped()
            && (forall s, a | 0 <= s < |made| :: a in made[s].raw <==> k.Candidate(g, start, s, a))
            && forall s | 0 <= s < |made| ::
                 var z := GeneratedTables.Sizes(g.nterminal, g.nsymbol, |states|, |g.rules|);
                 && GeneratedTables.Faithful(z, made[s].final, T, s) && RulesInOrder(made[s].raw)
                 && GeneratedTables.Processed(z, p, made[s].raw, made[s].resolved, made[s].packed, made[s].final,
                                              made[s].best)
    ensures var k := Skeleton(states, configs, links, old(fws[..]), shifts);
            k.InTable() && NothingMissing(g, start, k) && NoConflict(g, start, k) && NoFallback(fallback) ==>
              (verdict == Accepting <==> input != [] && FittingSentence(g, start, depth, input))
  {
    hide RawOk, LrTables, Pow2, Acyclic, InitsOk, Small, Automaton, FallbackStops, MachineVerdict, NothingMissing;
    hide NoConflict, NoFallback, FittingSentence, GeneratedTables.Faithful, GeneratedTables.Processed, RulesInOrder;
    hide Skeleton.Candidate, MadeFor, ItemsListed, ShiftsOk, CompleteTables, Following;
    ghost var k := Skeleton(states, configs, links, fws[..], shifts);
    var z := GeneratedTables.Sizes(g.nterminal, g.nsymbol, |states|, |g.rules|);
    var raw := FindActions(z, g, items, start, states, configs, links, fws, shifts);
    SkeletonListed(g, items, start, k);
    hide StatesOk;
    T, made := Generate(z, p, g, items, start, raw, fallback, ruleInfo);
    TablesMadeFor(z, p, g, items, start, k, raw, T, made);
    var parser := new Parser(T, depth, g, start, items);
    verdict := parser.ParseAll(input);
    if NothingMissing(g, start, k) && NoConflict(g, start, k) && NoFallback(fallback) {
      GeneratedTablesComplete(z, p, g, items, start, k, T, made);
      VerdictExact(g, T, items, start, Following(k), depth, input);
    }
  }
}
