/**
 The table-driven parser that LEMON emits (lempar.c): a stack machine over the
 shared action table. For tables built from LR(0) item sets the driver is sound:
 a token sequence it accepts is derivable from the start symbol.
 */
module LrDriver {
  import opened Wrappers
  import opened Grammar
  import opened TreeBounds

  datatype RuleInfo = RuleInfo(lhs: nat, nrhs: nat)

  /** Following fallbacks from a token stops within the given number of tokens. */
  predicate FallbackEnds(fallback: seq<nat>, la: nat, hops: nat)
    decreases hops
  {
    hops > 0 && (la < |fallback| && fallback[la] != 0 ==> FallbackEnds(fallback, fallback[la], hops - 1))
  }

  predicate FallbackStops(fallback: seq<nat>, la: nat) {
    FallbackEnds(fallback, la, |fallback| + 1)
  }

  /** The constants and tables of a generated parser. */
  datatype Tables = Tables(
    nstate: nat, nrule: nat, nsymbol: nat,
    action: seq<int>, lookahead: seq<int>,
    shiftOfst: seq<int>, shiftUseDflt: int,
    reduceOfst: seq<int>, reduceUseDflt: int,
    dflt: seq<int>,
    fallback: seq<nat>,  // empty when the grammar declares no fallback
    ruleInfo: seq<RuleInfo>)
  {
    function NoCode(): nat { nsymbol + 1 }
    function ErrorAction(): nat { nstate + nrule }
    function AcceptAction(): nat { nstate + nrule + 1 }
    function NoAction(): nat { nstate + nrule + 2 }

    predicate Shaped() {
      && |lookahead| == |action|
      && |shiftOfst| == |reduceOfst| == |dflt| == nstate
      && |ruleInfo| == nrule
    }

    predicate EndsWithin(la: nat, hops: nat) {
      FallbackEnds(fallback, la, hops)
    }

    /** No chain of fallbacks is cyclic. */
    ghost predicate FallbacksEnd() {
      forall la: nat :: Ends(la)
    }

    predicate Ends(la: nat) {
      FallbackStops(fallback, la)
    }

    /** The entry of the shift table for exactly this token. */
    predicate HasShiftEntry(state: nat, la: nat)
      requires Shaped() && state < nstate
    {
      && shiftOfst[state] != shiftUseDflt && la != NoCode()
      && 0 <= shiftOfst[state] + la < |action| && lookahead[shiftOfst[state] + la] == la
    }

    /** The action for a terminal look-ahead, trying fallback tokens before the default. */
    function FindShiftAction(state: nat, la: nat, ghost hops: nat): int
      requires Shaped() && state < nstate && EndsWithin(la, hops)
      decreases hops
    {
      var i := shiftOfst[state];
      if i == shiftUseDflt then dflt[state]
      else if la == NoCode() then NoAction()
      else
        var j := i + la;
        if j < 0 || j >= |action| || lookahead[j] != la then
          if la < |fallback| && fallback[la] != 0 then FindShiftAction(state, fallback[la], hops - 1)
          else dflt[state]
        else action[j]
    }

    /** The token, la or one of its fallbacks, whose entry FindShiftAction uses. */
    ghost function ActsAs(state: nat, la: nat, hops: nat): (token: nat)
      requires Shaped() && state < nstate && EndsWithin(la, hops)
      ensures StandsFor(la, token)
      decreases hops
    {
      assert StandsForIn(la, la, 0);
      if shiftOfst[state] == shiftUseDflt || la == NoCode() || HasShiftEntry(state, la) then la
      else if la < |fallback| && fallback[la] != 0 then
        var token := ActsAs(state, fallback[la], hops - 1);
        StandsForStep(la, token);
        token
      else la
    }

    /** The action for a nonterminal after a reduction. */
    function FindReduceAction(state: nat, la: nat): int
      requires Shaped() && state < nstate
    {
      var i := reduceOfst[state];
      if i == reduceUseDflt then dflt[state]
      else if la == NoCode() then NoAction()
      else
        var j := i + la;
        if j < 0 || j >= |action| || lookahead[j] != la then dflt[state] else action[j]
    }

    ghost predicate StandsForIn(la: nat, token: nat, hops: nat)
      decreases hops
    {
      || la == token
      || (hops > 0 && la < |fallback| && fallback[la] != 0 && StandsForIn(fallback[la], token, hops - 1))
    }

    /** The token is la itself or lies on its chain of fallbacks. */
    ghost predicate StandsFor(la: nat, token: nat) {
      exists hops: nat :: StandsForIn(la, token, hops)
    }

    lemma StandsForStep(la: nat, token: nat)
      requires la < |fallback| && fallback[la] != 0 && StandsFor(fallback[la], token)
      ensures StandsFor(la, token)
    {
      var hops: nat :| StandsForIn(fallback[la], token, hops);
      assert StandsForIn(la, token, hops + 1);
    }

    /** Only the end marker stands for the end marker. */
    lemma {:induction false} EndMarkerStandsAlone(la: nat, hops: nat)
      requires StandsForIn(la, 0, hops)
      ensures la == 0
      decreases hops
    {
      if la == 0 {
      } else {
        EndMarkerStandsAlone(fallback[la], hops - 1);
      }
    }

    /** The second sequence is the first with some tokens replaced by fallbacks. */
    ghost predicate Substitutes(raw: seq<nat>, used: seq<nat>) {
      |raw| == |used| && forall i | 0 <= i < |raw| :: StandsFor(raw[i], used[i])
    }

    /**
     A token with an entry is given that; without, one that has a fallback is treated as its
     fallback, whatever the default; only then comes the default.
     */
    lemma FallbackBeforeDefault(state: nat, la: nat, hops: nat)
      requires Shaped() && state < nstate && EndsWithin(la, hops) && la != NoCode()
      ensures var ofst := shiftOfst[state];
              FindShiftAction(state, la, hops) ==
              if ofst == shiftUseDflt then dflt[state]
              else if 0 <= ofst + la < |action| && lookahead[ofst + la] == la then action[ofst + la]
              else if la < |fallback| && fallback[la] != 0 then FindShiftAction(state, fallback[la], hops - 1)
              else dflt[state]
    {}

    /** How far the chain of fallbacks may be followed does not matter, as long as it ends. */
    lemma {:induction false} HopsDoNotMatter(state: nat, la: nat, hops: nat, more: nat)
      requires Shaped() && state < nstate && EndsWithin(la, hops) && EndsWithin(la, more)
      ensures FindShiftAction(state, la, hops) == FindShiftAction(state, la, more)
      decreases hops
    {
      if la < |fallback| && fallback[la] != 0 {
        HopsDoNotMatter(state, fallback[la], hops - 1, more - 1);
      }
    }

    /** The action found is the entry of the token acted on, or the default. */
    lemma {:induction false} ShiftActionCases(state: nat, la: nat, hops: nat)
      requires Shaped() && state < nstate && EndsWithin(la, hops) && la != NoCode()
      requires forall t | 0 <= t < |fallback| :: fallback[t] != NoCode()
      ensures var token := ActsAs(state, la, hops);
              var a := FindShiftAction(state, la, hops);
              || a == dflt[state]
              || (HasShiftEntry(state, token) && a == action[shiftOfst[state] + token])
      decreases hops
    {
      if shiftOfst[state] != shiftUseDflt && !HasShiftEntry(state, la) && la < |fallback| && fallback[la] != 0 {
        ShiftActionCases(state, fallback[la], hops - 1);
      }
    }
  }

  // ----- what the generator guarantees about its tables

  /** A rule with a mark: the first `dot` symbols of its right-hand side are on the stack. */
  datatype Item = Item(rule: nat, dot: nat)

  /** Moving from state s over symbol x leads to state s'. */
  ghost predicate Linked(g: Grammar, items: seq<set<Item>>, s: nat, x: nat, s': nat) {
    && s < |items| && s' < |items|
    && (exists it :: it in items[s'] && it.dot > 0)
    && forall it | it in items[s'] && it.dot > 0 ::
         && it.rule < |g.rules| && it.dot <= |g.rules[it.rule].rhs|
         && g.rules[it.rule].rhs[it.dot - 1] == x
         && Item(it.rule, it.dot - 1) in items[s]
  }

  ghost predicate Complete(g: Grammar, items: seq<set<Item>>, s: nat, r: nat) {
    s < |items| && r < |g.rules| && Item(r, |g.rules[r].rhs|) in items[s]
  }

  /** What an entry for token x may be: a move, a reduction that is complete, or an error. */
  ghost predicate EntryOk(g: Grammar, T: Tables, items: seq<set<Item>>, start: nat, s: nat, x: nat, a: int) {
    && 0 <= a <= T.ErrorAction()
    && (a < T.nstate ==> Linked(g, items, s, x, a))
    && (T.nstate <= a < T.ErrorAction() ==>
          && Complete(g, items, s, a - T.nstate)
          && (g.rules[a - T.nstate].lhs == start ==> x == 0))
  }

  /** What the default of a state may be: a complete reduction, not to the start symbol, or an error. */
  ghost predicate DefaultOk(g: Grammar, T: Tables, items: seq<set<Item>>, start: nat, s: nat, a: int) {
    && T.nstate <= a <= T.ErrorAction()
    && (a < T.ErrorAction() ==> Complete(g, items, s, a - T.nstate) && g.rules[a - T.nstate].lhs != start)
  }

  /** After a reduction to a rule that starts in state s, there is a move, or the parse is accepted. */
  ghost predicate GotoOk(g: Grammar, T: Tables, items: seq<set<Item>>, start: nat, s: nat, r: nat)
    requires T.Shaped() && s < T.nstate && r < |g.rules|
  {
    var a := T.FindReduceAction(s, g.rules[r].lhs);
    || (0 <= a < T.nstate && Linked(g, items, s, g.rules[r].lhs, a))
    || (a == T.AcceptAction() && s == 0 && g.rules[r].lhs == start)
  }

  /** The tables belong to LR(0) item sets of the grammar, as FindStates builds them. */
  ghost predicate LrTables(g: Grammar, T: Tables, items: seq<set<Item>>, start: nat) {
    && g.Valid() && T.Shaped() && T.FallbacksEnd()
    && T.nsymbol == g.nsymbol && 0 < T.nstate == |items| && T.nrule == |g.rules|
    && (forall t | 0 <= t < |T.fallback| :: T.fallback[t] < g.nterminal)
    && (|T.fallback| > 0 ==> T.fallback[0] == 0)
    && (forall r | 0 <= r < T.nrule :: T.ruleInfo[r] == RuleInfo(g.rules[r].lhs, |g.rules[r].rhs|))
    && (forall r | 0 <= r < |g.rules| :: 0 !in g.rules[r].rhs)
    && (forall it | it in items[0] :: it.dot == 0)
    && (forall s, x: nat | 0 <= s < T.nstate && x < g.nterminal && T.HasShiftEntry(s, x) ::
          EntryOk(g, T, items, start, s, x, T.action[T.shiftOfst[s] + x]))
    && (forall s | 0 <= s < T.nstate :: DefaultOk(g, T, items, start, s, T.dflt[s]))
    && (forall s, r: nat | 0 <= s < T.nstate && r < |g.rules| && Item(r, 0) in items[s] ::
          GotoOk(g, T, items, start, s, r))
  }

  /** A path through the automaton: the states visited and the symbols between them. */
  ghost predicate Path(g: Grammar, items: seq<set<Item>>, states: seq<nat>, symbols: seq<nat>) {
    && |states| == |symbols| + 1 && states[0] == 0 && 0 < |items|
    && forall k | 0 <= k < |symbols| :: Linked(g, items, states[k], symbols[k], states[k + 1])
  }

  /** Back over a link: the item whose mark has not yet passed the symbol. */
  lemma LinkedBack(g: Grammar, items: seq<set<Item>>, s: nat, x: nat, s': nat, r: nat, d: nat)
    requires Linked(g, items, s, x, s') && 0 < d && Item(r, d) in items[s']
    ensures s < |items| && r < |g.rules| && d <= |g.rules[r].rhs| && g.rules[r].rhs[d - 1] == x &&
            Item(r, d - 1) in items[s]
  {}

  /**
   On every path, the symbols before the mark of an item are the last symbols of
   the path, so reducing by a complete item never reaches below the first state.
   */
  lemma {:induction false} ItemSpelled(g: Grammar, items: seq<set<Item>>, states: seq<nat>, symbols: seq<nat>, r: nat,
                                       d: nat)
    requires Path(g, items, states, symbols)
    requires forall it | it in items[0] :: it.dot == 0
    requires states[|symbols|] < |items| && Item(r, d) in items[states[|symbols|]]
    requires r < |g.rules| && d <= |g.rules[r].rhs|
    ensures d <= |symbols| && symbols[|symbols| - d..] == g.rules[r].rhs[..d]
    ensures states[|symbols| - d] < |items| && Item(r, 0) in items[states[|symbols| - d]]
    decreases d
  {
    hide Linked;
    if d == 0 {
    } else {
      assert symbols != [];
      var n := |symbols| - 1;
      var rhs, last := g.rules[r].rhs, symbols[n];
      LinkedBack(g, items, states[n], last, states[n + 1], r, d);
      ItemSpelled(g, items, states[..n + 1], symbols[..n], r, d - 1);
      var k := |symbols| - d;
      assert symbols[k..] == symbols[..n][k..] + [last];
      assert rhs[..d] == rhs[..d - 1] + [last];
    }
  }

  /** A path, with a tree for each symbol, goes on over the root of another tree. */
  lemma PathExtended(g: Grammar, items: seq<set<Item>>, states: seq<nat>, trees: seq<Tree>, s: nat, tree: Tree)
    requires ValidForest(g, trees) && ValidTree(g, tree) && Path(g, items, states, Roots(g, trees))
    requires Linked(g, items, states[|trees|], Root(g, tree), s)
    ensures ValidForest(g, trees + [tree]) && Path(g, items, states + [s], Roots(g, trees + [tree])) && s < |items|
  {
    ValidForestAppend(g, trees, [tree]);
    RootsAppend(g, trees, [tree]);
  }

  /** The initial state occurs on a path only at its start. */
  lemma InitialStateFirst(g: Grammar, items: seq<set<Item>>, states: seq<nat>, symbols: seq<nat>, k: nat)
    requires Path(g, items, states, symbols) && 0 < k <= |symbols|
    requires forall it | it in items[0] :: it.dot == 0
    ensures states[k] != 0
  {
    assert Linked(g, items, states[k - 1], symbols[k - 1], states[k]);
  }

  /** A stack of states with a tree for each but the first: a path of the automaton. */
  ghost predicate Carried(g: Grammar, items: seq<set<Item>>, states: seq<nat>, trees: seq<Tree>) {
    && |states| == |trees| + 1 && ValidForest(g, trees)
    && Path(g, items, states, Roots(g, trees))
    && forall k | 0 <= k < |states| :: states[k] < |items|
  }

  /** The trees on the stack before and after they are gathered under a new node. */
  lemma PopKids(g: Grammar, rest: seq<Tree>, kids: seq<Tree>, node: Tree)
    requires node.Node? && node.kids == kids && node.rule < |g.rules|
    requires ValidForest(g, rest + kids)
    requires |kids| == |g.rules[node.rule].rhs|
    requires Roots(g, rest + kids)[|rest|..] == g.rules[node.rule].rhs
    ensures ValidForest(g, rest) && ValidTree(g, node)
    ensures Roots(g, rest) == Roots(g, rest + kids)[..|rest|]
    ensures Frontiers(rest + [node]) == Frontiers(rest + kids)
    ensures ForestSize(rest + [node]) == ForestSize(rest + kids) + 1
  {
    ValidForestAppend(g, rest, kids);
    RootsAppend(g, rest, kids);
    FrontiersAppend(rest, kids);
    FrontiersAppend(rest, [node]);
    FrontiersSingle(node);
    ForestSizeAppend(rest, kids);
    ForestSizeAppend(rest, [node]);
  }

  /** The right-hand side of a complete rule lies above the first state; its trees become one node. */
  lemma Gathered(g: Grammar, items: seq<set<Item>>, states: seq<nat>, trees: seq<Tree>, r: nat)
    returns (rest: seq<Tree>, node: Tree)
    requires Carried(g, items, states, trees) && (forall it | it in items[0] :: it.dot == 0)
    requires Complete(g, items, states[|trees|], r)
    ensures |g.rules[r].rhs| + |rest| == |trees| && rest == trees[..|rest|]
    ensures Carried(g, items, states[..|rest| + 1], rest) && Item(r, 0) in items[states[|rest|]]
    ensures ValidTree(g, node) && Root(g, node) == g.rules[r].lhs
    ensures Frontiers(rest + [node]) == Frontiers(trees) && ForestSize(rest + [node]) == ForestSize(trees) + 1
  {
    hide Frontiers, ValidForest, ForestSize, Linked;
    var n := |g.rules[r].rhs|;
    ItemSpelled(g, items, states, Roots(g, trees), r, n);
    var kids := trees[|trees| - n..];
    rest := trees[..|trees| - n];
    node := Node(r, kids);
    assert trees == rest + kids;
    PopKids(g, rest, kids, node);
  }

  // ----- the stack machine, on the states alone

  datatype Status = Ready | Running | Accepted | SyntaxError | StackOverflow

  /** Whether the machine has come to rest, how, and the states on its stack. */
  datatype Outcome = Outcome(done: bool, status: Status, states: seq<nat>)

  predicate StatesOf(T: Tables, depth: nat, states: seq<nat>) {
    0 < |states| <= depth && forall k | 0 <= k < |states| :: states[k] < T.nstate
  }

  /** A reduction by rule r: its right-hand side goes, and the move over its left-hand side is made. */
  function ReduceStep(T: Tables, depth: nat, states: seq<nat>, r: nat): (o: Outcome)
    requires T.Shaped() && StatesOf(T, depth, states) && r < T.nrule && T.ruleInfo[r].nrhs < |states|
    ensures !o.done ==> o.status == Running
    ensures o.status == Running ==> StatesOf(T, depth, o.states)
  {
    var popped := states[..|states| - T.ruleInfo[r].nrhs];
    var act := T.FindReduceAction(popped[|popped| - 1], T.ruleInfo[r].lhs);
    if 0 <= act < T.nstate then
      if |popped| >= depth then Outcome(true, StackOverflow, []) else Outcome(false, Running, popped + [act])
    else if act == T.AcceptAction() then Outcome(true, Accepted, [])
    else Outcome(false, Running, popped)
  }

  /** One action on a token: it is shifted or refused, or a reduction is made. */
  function TokenStep(T: Tables, depth: nat, states: seq<nat>, la: nat): (o: Outcome)
    requires T.Shaped() && T.Ends(la) && StatesOf(T, depth, states)
    ensures !o.done ==> o.status == Running
    ensures o.status == Running ==> StatesOf(T, depth, o.states)
  {
    var act := T.FindShiftAction(states[|states| - 1], la, |T.fallback| + 1);
    if 0 <= act < T.nstate then
      if |states| >= depth then Outcome(true, StackOverflow, []) else Outcome(true, Running, states + [act])
    else if T.nstate <= act < T.ErrorAction() && T.ruleInfo[act - T.nstate].nrhs < |states| then
      ReduceStep(T, depth, states, act - T.nstate)
    else Outcome(true, SyntaxError, states)
  }

  /** At most `fuel` actions on one token, until it is shifted, refused, or the parse accepted. */
  function Machine(T: Tables, depth: nat, states: seq<nat>, la: nat, fuel: nat): (o: Outcome)
    requires T.Shaped() && T.Ends(la) && StatesOf(T, depth, states)
    ensures !o.done ==> o.status == Running
    ensures o.status == Running ==> StatesOf(T, depth, o.states)
    decreases fuel
  {
    if fuel == 0 then Outcome(false, Running, states)
    else
      var o := TokenStep(T, depth, states, la);
      if o.done then o else Machine(T, depth, o.states, la, fuel - 1)
  }

  // ----- coming to rest

  /** After its first k actions the machine goes on from the stack they leave. */
  lemma {:induction false} MachineSplit(T: Tables, depth: nat, states: seq<nat>, la: nat, k: nat, n: nat)
    requires T.Shaped() && T.Ends(la) && StatesOf(T, depth, states) && !Machine(T, depth, states, la, k).done
    ensures Machine(T, depth, states, la, k + n) == Machine(T, depth, Machine(T, depth, states, la, k).states, la, n)
    decreases k
  {
    hide TokenStep;
    if k == 0 {
    } else {
      MachineSplit(T, depth, TokenStep(T, depth, states, la).states, la, k - 1, n);
    }
  }

  /** Once at rest it stays so. */
  lemma {:induction false} MachineStays(T: Tables, depth: nat, states: seq<nat>, la: nat, k: nat, n: nat)
    requires T.Shaped() && T.Ends(la) && StatesOf(T, depth, states) && Machine(T, depth, states, la, k).done && k <= n
    ensures Machine(T, depth, states, la, n) == Machine(T, depth, states, la, k)
    decreases k
  {
    hide TokenStep;
    if k == 0 {
    } else {
      var o := TokenStep(T, depth, states, la);
      if !o.done {
        MachineStays(T, depth, o.states, la, k - 1, n - 1);
      }
    }
  }

  /** A stack that occurs again occurs for ever. */
  lemma {:induction false} Cycles(T: Tables, depth: nat, states: seq<nat>, la: nat, i: nat, k: nat, n: nat)
    requires T.Shaped() && T.Ends(la) && StatesOf(T, depth, states) && i < k
    requires !Machine(T, depth, states, la, i).done && !Machine(T, depth, states, la, k).done
    requires Machine(T, depth, states, la, i).states == Machine(T, depth, states, la, k).states
    ensures !Machine(T, depth, states, la, n).done
    decreases n
  {
    hide Machine, TokenStep;
    if n <= k {
      if Machine(T, depth, states, la, n).done {
        MachineStays(T, depth, states, la, n, k);
      }
    } else {
      MachineSplit(T, depth, states, la, k, n - k);
      MachineSplit(T, depth, states, la, i, n - k);
      Cycles(T, depth, states, la, i, k, i + (n - k));
    }
  }

  function Power(base: nat, n: nat): nat {
    if n == 0 then 1 else base * Power(base, n - 1)
  }

  /** A stack as a number in base `base`, with its states, plus one, as digits. */
  function StackNumber(base: nat, states: seq<nat>): nat {
    if states == [] then 0 else 1 + states[0] + base * StackNumber(base, states[1..])
  }

  lemma {:induction false} PowerPositive(base: nat, n: nat)
    requires 0 < base
    ensures Power(base, n) > 0
  {
    if n == 0 {
    } else {
      PowerPositive(base, n - 1);
    }
  }

  lemma {:induction false} StackNumberBelow(base: nat, states: seq<nat>, n: nat)
    requires 0 < base && |states| <= n && forall k | 0 <= k < |states| :: states[k] + 1 < base
    ensures StackNumber(base, states) < Power(base, n)
    decreases n
  {
    if states == [] {
      PowerPositive(base, n);
    } else {
      StackNumberBelow(base, states[1..], n - 1);
      Times(base, StackNumber(base, states[1..]) + 1, Power(base, n - 1));
      assert base * (StackNumber(base, states[1..]) + 1) == base * StackNumber(base, states[1..]) + base;
    }
  }

  lemma SameDigit(base: nat, a: nat, b: nat, m: nat, n: nat)
    requires a < base && b < base && a + base * m == b + base * n
    ensures a == b && m == n
  {
    if m < n {
      Times(base, m + 1, n);
    } else if n < m {
      Times(base, n + 1, m);
    }
  }

  /** Different stacks have different numbers. */
  lemma {:induction false} StackNumberUnique(base: nat, s: seq<nat>, t: seq<nat>)
    requires forall k | 0 <= k < |s| :: s[k] + 1 < base
    requires forall k | 0 <= k < |t| :: t[k] + 1 < base
    requires StackNumber(base, s) == StackNumber(base, t)
    ensures s == t
  {
    if s == [] || t == [] {
      assert s == t;
    } else {
      SameDigit(base, 1 + s[0], 1 + t[0], StackNumber(base, s[1..]), StackNumber(base, t[1..]));
      StackNumberUnique(base, s[1..], t[1..]);
      assert s == [s[0]] + s[1..] && t == [t[0]] + t[1..];
    }
  }

  /** As many actions as there are stacks. */
  function Limit(T: Tables, depth: nat): nat {
    Power(T.nstate + 1, depth)
  }

  /** What becomes of a token: the machine has come to rest by then, or never does. */
  function Settle(T: Tables, depth: nat, states: seq<nat>, la: nat): (o: Outcome)
    requires T.Shaped() && T.Ends(la) && StatesOf(T, depth, states)
    ensures !o.done ==> o.status == Running
    ensures o.status == Running ==> StatesOf(T, depth, o.states)
  {
    Machine(T, depth, states, la, Limit(T, depth))
  }

  /** Without rest within the limit some stack has occurred twice. */
  lemma StackTwice(T: Tables, depth: nat, states: seq<nat>, la: nat) returns (i: nat, k: nat)
    requires T.Shaped() && T.Ends(la) && StatesOf(T, depth, states) && !Settle(T, depth, states, la).done
    ensures i < k && !Machine(T, depth, states, la, i).done && !Machine(T, depth, states, la, k).done
    ensures Machine(T, depth, states, la, i).states == Machine(T, depth, states, la, k).states
  {
    hide Machine, TokenStep;
    var base, limit := T.nstate + 1, Limit(T, depth);
    forall n: nat | n <= limit
      ensures !Machine(T, depth, states, la, n).done
    {
      if Machine(T, depth, states, la, n).done {
        MachineStays(T, depth, states, la, n, limit);
      }
    }
    var numbers := seq(limit + 1,
        n requires 0 <= n <= limit => StackNumber(base, Machine(T, depth, states, la, n).states));
    forall n | 0 <= n < |numbers|
      ensures numbers[n] < limit
    {
      StackNumberBelow(base, Machine(T, depth, states, la, n).states, depth);
    }
    i, k := Pigeonhole(numbers, limit);
    StackNumberUnique(base, Machine(T, depth, states, la, i).states, Machine(T, depth, states, la, k).states);
  }

  /** The machine comes to rest, with whatever number of actions, exactly if it does within the limit. */
  lemma SettleExact(T: Tables, depth: nat, states: seq<nat>, la: nat, n: nat)
    requires T.Shaped() && T.Ends(la) && StatesOf(T, depth, states)
    ensures Machine(T, depth, states, la, n).done ==> Machine(T, depth, states, la, n) == Settle(T, depth, states, la)
  {
    hide Machine;
    if Machine(T, depth, states, la, n).done {
      if !Settle(T, depth, states, la).done {
        var i, k := StackTwice(T, depth, states, la);
        Cycles(T, depth, states, la, i, k, n);
      } else if n <= Limit(T, depth) {
        MachineStays(T, depth, states, la, n, Limit(T, depth));
      } else {
        MachineStays(T, depth, states, la, Limit(T, depth), n);
      }
    }
  }

  /** The machine never comes to rest on this token. */
  ghost predicate Endless(T: Tables, depth: nat, states: seq<nat>, la: nat)
    requires T.Shaped() && T.Ends(la) && StatesOf(T, depth, states)
  {
    forall n: nat :: !Machine(T, depth, states, la, n).done
  }

  lemma EndlessIff(T: Tables, depth: nat, states: seq<nat>, la: nat)
    requires T.Shaped() && T.Ends(la) && StatesOf(T, depth, states)
    ensures Endless(T, depth, states, la) <==> !Settle(T, depth, states, la).done
  {
    forall n: nat
      ensures Machine(T, depth, states, la, n).done ==> Settle(T, depth, states, la).done
    {
      SettleExact(T, depth, states, la, n);
    }
  }

  // ----- whole inputs

  datatype Verdict = Accepting | Rejecting | NoVerdict

  /** The machine on a whole input, from the given states, and then on the end marker. */
  function MachineVerdict(T: Tables, depth: nat, states: seq<nat>, input: seq<nat>): Verdict
    requires T.Shaped() && T.FallbacksEnd() && StatesOf(T, depth, states)
    decreases input
  {
    if input == [] then
      var o := Settle(T, depth, states, 0);
      if !o.done then NoVerdict else if o.status == Accepted then Accepting else Rejecting
    else
      var o := Settle(T, depth, states, input[0]);
      if !o.done then NoVerdict
      else if o.status == Running then MachineVerdict(T, depth, o.states, input[1..])
      else Rejecting
  }

  lemma VerdictAtEnd(T: Tables, depth: nat, states: seq<nat>)
    requires T.Shaped() && T.FallbacksEnd() && StatesOf(T, depth, states)
    ensures var o := Settle(T, depth, states, 0);
            MachineVerdict(T, depth, states, []) ==
            if !o.done then NoVerdict else if o.status == Accepted then Accepting else Rejecting
  {}

  lemma VerdictStep(T: Tables, depth: nat, states: seq<nat>, input: seq<nat>, i: nat)
    requires T.Shaped() && T.FallbacksEnd() && StatesOf(T, depth, states) && i < |input|
    ensures var o := Settle(T, depth, states, input[i]);
            MachineVerdict(T, depth, states, input[i..]) ==
            if !o.done then NoVerdict
            else if o.status == Running then MachineVerdict(T, depth, o.states, input[i + 1..])
            else Rejecting
  {
    assert input[i..][0] == input[i] && input[i..][1..] == input[i + 1..];
  }

  // ----- what the generator's conditions say about the action found for a token

  lemma {:induction false} StandsForTerminalIn(g: Grammar, T: Tables, items: seq<set<Item>>, start: nat, la: nat,
                                               token: nat, hops: nat)
    requires LrTables(g, T, items, start) && la < g.nterminal && T.StandsForIn(la, token, hops)
    ensures token < g.nterminal && (token == 0 <==> la == 0)
    decreases hops
  {
    if la == token {
    } else {
      StandsForTerminalIn(g, T, items, start, T.fallback[la], token, hops - 1);
    }
  }

  lemma StandsForTerminal(g: Grammar, T: Tables, items: seq<set<Item>>, start: nat, la: nat, token: nat)
    requires LrTables(g, T, items, start) && la < g.nterminal && T.StandsFor(la, token)
    ensures token < g.nterminal && (token == 0 <==> la == 0)
  {
    var hops: nat :| T.StandsForIn(la, token, hops);
    StandsForTerminalIn(g, T, items, start, la, token, hops);
  }

  lemma ShiftActionOk(g: Grammar, T: Tables, items: seq<set<Item>>, start: nat, stateno: nat, major: nat)
    requires LrTables(g, T, items, start) && stateno < T.nstate && major < g.nterminal
    requires T.EndsWithin(major, |T.fallback| + 1)
    ensures var token := T.ActsAs(stateno, major, |T.fallback| + 1);
            var a := T.FindShiftAction(stateno, major, |T.fallback| + 1);
            && 0 <= a <= T.ErrorAction()
            && (a < T.nstate ==> Linked(g, items, stateno, token, a) && token != 0 && major != 0)
            && (T.nstate <= a < T.ErrorAction() ==>
                  && Complete(g, items, stateno, a - T.nstate)
                  && (g.rules[a - T.nstate].lhs == start ==> major == 0))
  {
    hide Complete, Tables.FallbacksEnd, Tables.StandsFor;
    T.ShiftActionCases(stateno, major, |T.fallback| + 1);
    var token := T.ActsAs(stateno, major, |T.fallback| + 1);
    StandsForTerminal(g, T, items, start, major, token);
    assert DefaultOk(g, T, items, start, stateno, T.dflt[stateno]);
  }

  // ----- grammars in which no symbol derives itself

  /** A reduction after which the machine goes on puts one more node over the same leaves. */
  lemma ReductionGrows(g: Grammar, T: Tables, items: seq<set<Item>>, start: nat, depth: nat, states: seq<nat>,
                       trees: seq<Tree>, r: nat)
    returns (trees': seq<Tree>)
    requires LrTables(g, T, items, start) && Carried(g, items, states, trees) && StatesOf(T, depth, states)
    requires r < T.nrule && Complete(g, items, states[|trees|], r)
    ensures T.ruleInfo[r].nrhs < |states|
    ensures var o := ReduceStep(T, depth, states, r);
            !o.done ==> Carried(g, items, o.states, trees')
                        && Frontiers(trees') == Frontiers(trees) && ForestSize(trees') == ForestSize(trees) + 1
  {
    hide Frontiers, ForestSize, ValidForest, Path, Roots, Linked;
    var rest, node := Gathered(g, items, states, trees, r);
    trees' := rest + [node];
    var popped := states[..|rest| + 1];
    assert GotoOk(g, T, items, start, states[|rest|], r);
    var o := ReduceStep(T, depth, states, r);
    if !o.done {
      PathExtended(g, items, popped, rest, o.states[|rest| + 1], node);
    }
  }

  /** The machine comes to rest before its trees outgrow what their leaves allow. */
  lemma {:induction false} ComesToRest(g: Grammar, T: Tables, items: seq<set<Item>>, start: nat, depth: nat,
                                       states: seq<nat>, trees: seq<Tree>, la: nat, n: nat)
    requires LrTables(g, T, items, start) && Acyclic(g) && Carried(g, items, states, trees) &&
             StatesOf(T, depth, states)
    requires la < g.nterminal && T.Ends(la)
    requires n + ForestSize(trees) > StackBound(g, depth, |Frontiers(trees)|)
    ensures Machine(T, depth, states, la, n).done
    decreases n
  {
    hide Frontiers, ForestSize, ValidForest, Path, Roots, Linked, StackBound, Acyclic, ReduceStep;
    StackBounded(g, trees, depth);
    var o := TokenStep(T, depth, states, la);
    if !o.done {
      var stateno := states[|states| - 1];
      ShiftActionOk(g, T, items, start, stateno, la);
      var r := T.FindShiftAction(stateno, la, |T.fallback| + 1) - T.nstate;
      var trees' := ReductionGrows(g, T, items, start, depth, states, trees, r);
      ComesToRest(g, T, items, start, depth, o.states, trees', la, n - 1);
    }
  }

  // ----- the parser

  datatype StackEntry = StackEntry(stateno: nat, major: nat)

  class Parser {
    const T: Tables
    const yystack: array<StackEntry>  // its length is YYSTACKDEPTH
    var yyidx: int                    // index of the top entry, -1 when empty
    var yyerrcnt: int
    var status: Status                // which of the grammar's callbacks ran last

    ghost const g: Grammar
    ghost const start: nat
    ghost const items: seq<set<Item>>
    ghost var trees: seq<Tree>        // one tree for each stack entry above the bottom
    ghost var tokens: seq<nat>        // tokens shifted since the stack was last initialised

    ghost function States(): (states: seq<nat>)
      reads `yyidx, yystack
      requires -1 <= yyidx < yystack.Length
      ensures |states| == yyidx + 1
    {
      seq(yyidx + 1, k requires 0 <= k < yystack.Length reads yystack => yystack[k].stateno)
    }

    /** The stack is a path of the automaton and carries a parse tree for each symbol. */
    ghost predicate StackOk()
      reads `yyidx, `trees, yystack
    {
      && 0 <= yyidx < yystack.Length && Carried(g, items, States(), trees)
      && forall k | 0 <= k <= yyidx :: yystack[k].stateno < |items|
    }

    /** The tokens, some replaced by their fallbacks, are derivable from the start symbol. */
    ghost predicate Accepts(input: seq<nat>) {
      exists used :: T.Substitutes(input, used) && Derives(g, [start], used)
    }

    ghost predicate Valid()
      reads `yyidx, `status, `trees, `tokens, yystack
    {
      && 0 < yystack.Length && -1 <= yyidx < yystack.Length
      && LrTables(g, T, items, start)
      && (status == Running ==> yyidx >= 0)
      && (yyidx >= 0 ==> status == Running || status == SyntaxError)
      && (yyidx >= 0 ==> StackOk() && T.Substitutes(tokens, Frontiers(trees)))
      && (status == Accepted ==> Accepts(tokens))
    }

    constructor (T: Tables, depth: nat, ghost g: Grammar, ghost start: nat, ghost items: seq<set<Item>>)
      requires 0 < depth && LrTables(g, T, items, start)
      ensures Valid() && fresh(yystack) && yystack.Length == depth && status == Ready && yyidx == -1
      ensures this.T == T && this.g == g && this.start == start && this.items == items
    {
      this.T, this.g, this.start, this.items := T, g, start, items;
      yystack := new StackEntry[depth](_ => StackEntry(0, 0));
      yyidx, yyerrcnt, status := -1, -1, Ready;
      trees, tokens := [], [];
    }

    /** Pushes an entry, or empties the stack when there is no room. */
    method Shift(yyNewState: nat, yyMajor: nat, ghost tree: Tree)
      requires StackOk() && status == Running
      requires ValidTree(g, tree) && Linked(g, items, yystack[yyidx].stateno, Root(g, tree), yyNewState)
      modifies this`yyidx, this`status, this`trees, yystack
      ensures status == (if old(yyidx) + 1 >= yystack.Length then StackOverflow else Running)
      ensures status == StackOverflow ==> yyidx == -1
      ensures status != StackOverflow ==> StackOk() && trees == old(trees) + [tree]
      ensures status != StackOverflow ==> States() == old(States()) + [yyNewState] && yystack[yyidx].major == yyMajor
    {
      hide Path, Linked, ValidForest, ValidTree, Roots;
      ghost var states := States();
      yyidx := yyidx + 1;
      if yyidx >= yystack.Length {
        yyidx := yyidx - 1;
        yyidx := -1;
        status := StackOverflow;
        return;
      }
      yystack[yyidx] := StackEntry(yyNewState, yyMajor);
      assert States() == states + [yyNewState];
      PathExtended(g, items, states, trees, yyNewState, tree);
      trees := trees + [tree];
    }

    lemma ItemsAtStart()
      requires LrTables(g, T, items, start)
      ensures T.nrule == |g.rules| && forall it | it in items[0] :: it.dot == 0
    {}

    /** Pops the right-hand side of a rule; the trees popped become one node. */
    method Pop(yyruleno: nat, yysize: nat) returns (ghost node: Tree)
      requires LrTables(g, T, items, start) && StackOk()
      requires yyruleno < T.nrule && Complete(g, items, yystack[yyidx].stateno, yyruleno)
      requires yysize == |g.rules[yyruleno].rhs|
      modifies this`yyidx, this`trees
      ensures StackOk() && Item(yyruleno, 0) in items[yystack[yyidx].stateno]
      ensures ValidTree(g, node) && Root(g, node) == g.rules[yyruleno].lhs
      ensures Frontiers(trees + [node]) == old(Frontiers(trees))
      ensures yysize < |old(States())| && States() == old(States())[..|old(States())| - yysize]
    {
      hide Frontiers, ValidForest, LrTables, Path, Roots;
      ItemsAtStart();
      ghost var states := States();
      ghost var rest;
      rest, node := Gathered(g, items, states, trees, yyruleno);
      yyidx := yyidx - yysize;
      trees := rest;
      assert States() == states[..yyidx + 1];
    }

    /** When the bottom entry is all that is left, the node popped is a derivation of the input. */
    lemma AcceptSound(node: Tree)
      requires LrTables(g, T, items, start) && StackOk() && yystack[yyidx].stateno == 0
      requires ValidTree(g, node) && Root(g, node) == start
      requires T.Substitutes(tokens, Frontiers(trees + [node]))
      ensures Accepts(tokens)
    {
      if yyidx > 0 {
        InitialStateFirst(g, items, States(), Roots(g, trees), yyidx);
      }
      assert trees + [node] == [node];
      FrontiersSingle(node);
      DerivesIffTree(g, start, Frontier(node));
    }

    /** Empties the stack and reports acceptance. */
    method Accept()
      modifies this`yyidx, this`status
      ensures yyidx == -1 && status == Accepted
    {
      yyidx := -1;
      status := Accepted;
    }

    /** Pops the right-hand side of a rule and moves over its left-hand side. */
    method Reduce(yyruleno: nat)
      requires Valid() && status == Running
      requires yyruleno < T.nrule && Complete(g, items, yystack[yyidx].stateno, yyruleno)
      modifies this`yyidx, this`status, this`trees, yystack
      ensures Valid() && (status == Running || status == StackOverflow || status == Accepted)
      ensures status == Accepted ==> g.rules[yyruleno].lhs == start
      ensures |g.rules[yyruleno].rhs| < |old(States())| && StatesOf(T, yystack.Length, old(States()))
      ensures Outcome(status != Running, status, States()) == ReduceStep(T, yystack.Length, old(States()), yyruleno)
    {
      hide Frontiers, ValidForest, Roots;
      var yygoto := T.ruleInfo[yyruleno].lhs;
      var yysize := T.ruleInfo[yyruleno].nrhs;
      ghost var node := Pop(yyruleno, yysize);
      var yyact := T.FindReduceAction(yystack[yyidx].stateno, yygoto);
      assert GotoOk(g, T, items, start, yystack[yyidx].stateno, yyruleno);
      if yyact < T.nstate {
        Shift(yyact, yygoto, node);
      } else if yyact == T.nstate + T.nrule + 1 {
        AcceptSound(node);
        Accept();
      }
    }

    /** Sets up the bottom of the stack. */
    method Initialise()
      requires Valid() && yyidx < 0
      modifies this`yyidx, this`yyerrcnt, this`status, this`trees, this`tokens, yystack
      ensures Valid() && status == Running && tokens == [] && States() == [0]
    {
      yyidx := 0;
      yyerrcnt := -1;
      yystack[0] := StackEntry(0, 0);
      status := Running;
      trees, tokens := [], [];
      assert States() == [0];
    }

    /** The conditions under which the machine on states is defined. */
    lemma RunsOn(major: nat)
      requires Valid()
      ensures T.Shaped() && T.Ends(major) && 0 < T.nstate && (yyidx >= 0 ==> StatesOf(T, yystack.Length, States()))
    {}

    /** Shifts a token acting as itself or as one of its fallbacks. */
    method ShiftToken(yyNewState: nat, yyMajor: nat, ghost token: nat)
      requires Valid() && status == Running
      requires T.StandsFor(yyMajor, token)
      requires Linked(g, items, yystack[yyidx].stateno, token, yyNewState)
      modifies this`yyidx, this`status, this`trees, this`tokens, yystack
      ensures Valid() && tokens == old(tokens) + [yyMajor]
      ensures status == (if old(yyidx) + 1 >= yystack.Length then StackOverflow else Running)
      ensures States() == if status == Running then old(States()) + [yyNewState] else []
    {
      FrontiersAppend(trees, [Leaf(token)]);
      FrontiersSingle(Leaf(token));
      Shift(yyNewState, yyMajor, Leaf(token));
      tokens := tokens + [yyMajor];
    }

    /** Takes one action on a token; reports whether that brought the parser to rest. */
    method Act(major: nat) returns (rest: bool)
      requires Valid() && status == Running && major < g.nterminal
      modifies this, yystack
      ensures Valid()
      ensures !rest ==> status == Running && tokens == old(tokens)
      ensures rest && status == Running ==> major != 0 && tokens == old(tokens) + [major]
      ensures status == Accepted ==> major == 0 && tokens == old(tokens)
      ensures T.Shaped() && T.Ends(major) && StatesOf(T, yystack.Length, old(States()))
      ensures Outcome(rest, status, States()) == TokenStep(T, yystack.Length, old(States()), major)
    {
      hide Frontiers, ValidForest, Roots, ReduceStep;
      RunsOn(major);
      var yymajor: int := major;
      var yyendofinput := major == 0;
      var stateno := yystack[yyidx].stateno;
      var yyact := T.FindShiftAction(stateno, yymajor, |T.fallback| + 1);
      ghost var token := T.ActsAs(stateno, yymajor, |T.fallback| + 1);
      ShiftActionOk(g, T, items, start, stateno, yymajor);
      if yyact < T.nstate {
        ShiftToken(yyact, yymajor, token);
        yyerrcnt := yyerrcnt - 1;
        if yyendofinput && yyidx >= 0 {
          yymajor := 0;
        } else {
          yymajor := T.NoCode();
        }
      } else if yyact < T.nstate + T.nrule {
        Reduce(yyact - T.nstate);
      } else if yyact == T.ErrorAction() {
        status := SyntaxError;
        return true;
      } else {
        assert false;  // accepting is never the action for a token
      }
      return yymajor == T.NoCode() || yyidx < 0;
    }

    /** In a grammar in which no symbol derives itself every token brings the parser to rest. */
    lemma RestsIfAcyclic(major: nat)
      requires Valid() && status == Running && major < g.nterminal
      ensures T.Shaped() && T.Ends(major) && StatesOf(T, yystack.Length, States())
      ensures Acyclic(g) ==> Settle(T, yystack.Length, States(), major).done
    {
      hide Frontiers, ForestSize, ValidForest, Path, Roots, Linked, StackBound, Acyclic, TokenStep, Machine, Settle,
          Accepts;
      RunsOn(major);
      if Acyclic(g) {
        var n := StackBound(g, yystack.Length, |Frontiers(trees)|) + 1;
        ComesToRest(g, T, items, start, yystack.Length, States(), trees, major, n);
        SettleExact(T, yystack.Length, States(), major, n);
      }
    }

    /**
     Feeds one token to the parser. Token 0 is the end marker. The loop in the C code has no
     counter: it goes on for ever if as many actions as there are stacks do not bring it to
     rest, which needs a symbol of the grammar that derives itself.
     */
    method Parse(major: nat) returns (rests: bool)
      requires Valid() && status != SyntaxError && major < g.nterminal
      modifies this, yystack
      ensures Valid() && (Acyclic(g) ==> rests)
      ensures old(yyidx) < 0 && major == 0 ==> rests && status == old(status) && tokens == old(tokens)
      ensures rests && status == Running ==>
              major != 0 && tokens == (if old(yyidx) < 0 then [] else old(tokens)) + [major]
      ensures status == Accepted && !(old(yyidx) < 0 && major == 0) ==> major == 0 && tokens == old(tokens)
      ensures var from := if old(yyidx) < 0 then [0] else old(States());
              && T.Shaped() && T.Ends(major) && StatesOf(T, yystack.Length, from)
              && ((old(yyidx) < 0 && major == 0)
                  || (&& Outcome(rests, status, States()) == Settle(T, yystack.Length, from, major)
                      && (!rests <==> Endless(T, yystack.Length, from, major))))
    {
      hide LrTables, StackOk, Accepts, TokenStep, Acyclic, Endless;
      RunsOn(major);
      if yyidx < 0 {
        if major == 0 {
          return true;
        }
        Initialise();
      }
      ghost var base, from := tokens, States();
      RestsIfAcyclic(major);
      EndlessIff(T, yystack.Length, from, major);
      var n := Limit(T, yystack.Length);
      while n > 0
        invariant Valid() && status == Running && tokens == base && StatesOf(T, yystack.Length, States())
        invariant Machine(T, yystack.Length, States(), major, n) == Settle(T, yystack.Length, from, major)
        decreases n
      {
        n := n - 1;
        rests := Act(major);
        if rests {
          return true;
        }
      }
      return false;
    }

    /** The tokens have been consumed and the machine on states is where the parser is. */
    ghost predicate Reached(consumed: seq<nat>, states: seq<nat>)
      reads `yyidx, `status, `tokens, yystack
    {
      if consumed == [] then status == Ready && yyidx < 0 && states == [0]
      else 0 <= yyidx < yystack.Length && status == Running && tokens == consumed && States() == states
    }

    /** Feeds a token that is not the end marker. */
    method Feed(major: nat, ghost consumed: seq<nat>, ghost states: seq<nat>)
      returns (rests: bool, ghost states': seq<nat>)
      requires Valid() && 0 < major < g.nterminal && Reached(consumed, states)
      requires T.Shaped() && T.Ends(major) && StatesOf(T, yystack.Length, states)
      modifies this, yystack
      ensures Valid() && (Acyclic(g) ==> rests)
      ensures rests && status == Running ==>
              StatesOf(T, yystack.Length, states') && Reached(consumed + [major], states')
      ensures Settle(T, yystack.Length, states, major) == Outcome(rests, status, states')
    {
      hide Settle, LrTables, StackOk, Accepts, Acyclic, Endless;
      rests := Parse(major);
      states' := States();
      RunsOn(major);
    }

    lemma TablesRun()
      requires Valid()
      ensures T.Shaped() && T.FallbacksEnd() && 0 < T.nstate
    {}

    /** Feeds all tokens of an input, as long as the machine on states goes on. */
    method FeedAll(input: seq<nat>) returns (stopped: Option<Verdict>, ghost states: seq<nat>)
      requires Valid() && status == Ready && yyidx < 0
      requires forall i | 0 <= i < |input| :: 0 < input[i] < g.nterminal
      modifies this, yystack
      ensures Valid() && T.Shaped() && T.FallbacksEnd() && 0 < T.nstate && StatesOf(T, yystack.Length, states)
      ensures stopped != Some(Accepting) && (Acyclic(g) ==> stopped != Some(NoVerdict))
      ensures if stopped == None then Reached(input, states) else input != []
      ensures MachineVerdict(T, yystack.Length, [0], input) ==
              if stopped.Some? then stopped.value else MachineVerdict(T, yystack.Length, states, [])
    {
      TablesRun();
      hide Settle, MachineVerdict, LrTables, StackOk, Accepts, Acyclic, Tables.Shaped, Tables.Substitutes;
      states := [0];
      assert input[0..] == input;
      for i := 0 to |input|
        invariant Valid() && StatesOf(T, yystack.Length, states) && Reached(input[..i], states)
        invariant MachineVerdict(T, yystack.Length, states, input[i..]) == MachineVerdict(T, yystack.Length, [0], input)
      {
        VerdictStep(T, yystack.Length, states, input, i);
        assert input[..i + 1] == input[..i] + [input[i]];
        ghost var next;
        var rests;
        rests, next := Feed(input[i], input[..i], states);
        if !rests {
          return Some(NoVerdict), states;
        }
        if status != Running {
          return Some(Rejecting), states;
        }
        states := next;
      }
      assert input == input[..|input|] && input[|input|..] == [];
      return None, states;
    }

    /**
     Parses a whole token sequence followed by the end marker. If the parser
     accepts, the sequence is derivable from the start symbol, up to fallbacks.
     An end marker alone starts nothing: the empty sequence is not accepted.
     */
    method ParseAll(input: seq<nat>) returns (verdict: Verdict)
      requires Valid() && status == Ready && yyidx < 0
      requires forall i | 0 <= i < |input| :: 0 < input[i] < g.nterminal
      requires 0 < g.nterminal
      modifies this, yystack
      ensures Valid()
      ensures verdict == Accepting ==> Accepts(input)
      ensures Acyclic(g) ==> verdict != NoVerdict
      ensures T.Shaped() && T.FallbacksEnd() && 0 < T.nstate
      ensures verdict == if input == [] then Rejecting else MachineVerdict(T, yystack.Length, [0], input)
    {
      hide Settle, MachineVerdict, LrTables, StackOk, Accepts, Acyclic, Tables.Shaped, Tables.Substitutes;
      ghost var states;
      var stopped;
      stopped, states := FeedAll(input);
      if stopped.Some? {
        return stopped.value;
      }
      VerdictAtEnd(T, yystack.Length, states);
      var rests := Parse(0);
      verdict := if !rests then NoVerdict else if status == Accepted then Accepting else Rejecting;
    }
  }
}
