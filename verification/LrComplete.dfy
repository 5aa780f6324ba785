/**
 When the driver accepts. For tables that are complete for an automaton the driver follows
 every parse tree of a sentence, leaf by leaf and node by node: the sentence is accepted if
 and only if the tree fits on the stack.
 */
module LrComplete {
  import opened Grammar
  import opened FirstSets
  import opened LrDriver

  // ----- what may come behind the mark of an item

  ghost predicate AllNullable(g: Grammar, symbols: seq<nat>) {
    forall i | 0 <= i < |symbols| :: Nullable(g, symbols[i])
  }

  /** Terminal t begins what the symbols derive. */
  ghost predicate Starts(g: Grammar, symbols: seq<nat>, t: nat) {
    exists i :: 0 <= i < |symbols| && Begins(g, symbols[i], t) && AllNullable(g, symbols[..i])
  }

  lemma TreeStarts(g: Grammar, t: Tree)
    requires ValidTree(g, t)
    ensures if Frontier(t) == [] then Nullable(g, Root(g, t)) else Begins(g, Root(g, t), Frontier(t)[0])
  {
    DerivesIffTree(g, Root(g, t), Frontier(t));
  }

  /** The symbols that the leaves of a forest begin with, or nothing. */
  lemma {:induction false} ForestStarts(g: Grammar, ts: seq<Tree>)
    requires ValidForest(g, ts)
    ensures if Frontiers(ts) == [] then AllNullable(g, Roots(g, ts)) else Starts(g, Roots(g, ts), Frontiers(ts)[0])
  {
    hide Nullable, Begins;
    if ts == [] {
    } else {
      var first, rest := Root(g, ts[0]), Roots(g, ts[1..]);
      ForestStarts(g, ts[1..]);
      assert Roots(g, ts) == [first] + rest;
      TreeStarts(g, ts[0]);
      if Frontier(ts[0]) != [] {
        assert Begins(g, Roots(g, ts)[0], Frontiers(ts)[0]) && Roots(g, ts)[..0] == [];
      } else if Frontiers(ts[1..]) != [] {
        var i :| 0 <= i < |rest| && Begins(g, rest[i], Frontiers(ts)[0]) && AllNullable(g, rest[..i]);
        assert Roots(g, ts)[..i + 1] == [first] + rest[..i] && Roots(g, ts)[i + 1] == rest[i];
      }
    }
  }

  predicate Before(g: Grammar, it: Item, x: nat) {
    it.rule < |g.rules| && it.dot < |g.rules[it.rule].rhs| && g.rules[it.rule].rhs[it.dot] == x
  }

  /** The terminals that may come after an item's rule, in a state. */
  type Lookaheads = (nat, Item, nat) -> bool

  /** Terminal t may come after the symbol behind the mark. */
  ghost predicate MayFollow(g: Grammar, la: Lookaheads, s: nat, it: Item, t: nat)
    requires it.rule < |g.rules| && it.dot < |g.rules[it.rule].rhs|
  {
    var rest := g.rules[it.rule].rhs[it.dot + 1..];
    Starts(g, rest, t) || (AllNullable(g, rest) && la(s, it, t))
  }

  // ----- complete tables

  /** The rule begins in the state, with everything that may come after it. */
  ghost predicate Begun(g: Grammar, items: seq<set<Item>>, la: Lookaheads, s: nat, it: Item, r: nat)
    requires s < |items| && it.rule < |g.rules| && it.dot < |g.rules[it.rule].rhs|
  {
    Item(r, 0) in items[s] && forall t: nat | t < g.nterminal && MayFollow(g, la, s, it, t) :: la(s, Item(r, 0), t)
  }

  /** Where the driver goes over a symbol. */
  ghost function Target(g: Grammar, T: Tables, s: nat, x: nat): int
    requires T.Shaped() && s < T.nstate && T.Ends(x)
  {
    if x < g.nterminal then T.FindShiftAction(s, x, |T.fallback| + 1) else T.FindReduceAction(s, x)
  }

  /** The driver goes over the symbol behind the mark, to a state that has the item with its mark moved. */
  ghost predicate Moves(g: Grammar, T: Tables, items: seq<set<Item>>, la: Lookaheads, s: nat, it: Item)
    requires T.Shaped() && T.FallbacksEnd() && s < T.nstate == |items|
    requires it.rule < |g.rules| && it.dot < |g.rules[it.rule].rhs|
  {
    assert T.Ends(g.rules[it.rule].rhs[it.dot]);
    var s' := Target(g, T, s, g.rules[it.rule].rhs[it.dot]);
    && 0 <= s' < T.nstate && Item(it.rule, it.dot + 1) in items[s']
    && forall t: nat | t < g.nterminal && la(s, it, t) :: la(s', Item(it.rule, it.dot + 1), t)
  }

  /** The reduction of a complete item is found on every terminal that may come after it. */
  ghost predicate Reduced(g: Grammar, T: Tables, la: Lookaheads, s: nat, it: Item)
    requires T.Shaped() && T.FallbacksEnd() && s < T.nstate
  {
    forall t: nat | t < g.nterminal && la(s, it, t) ::
      T.Ends(t) && T.FindShiftAction(s, t, |T.fallback| + 1) == T.nstate + it.rule
  }

  ghost predicate CompleteTables(g: Grammar, T: Tables, items: seq<set<Item>>, start: nat, la: Lookaheads) {
    && g.Valid() && 0 < g.nterminal <= start
    && T.Shaped() && T.FallbacksEnd() && 0 < T.nstate == |items| && T.nrule == |g.rules|
    && (forall r | 0 <= r < T.nrule :: T.ruleInfo[r] == RuleInfo(g.rules[r].lhs, |g.rules[r].rhs|))
    && T.FindReduceAction(0, start) == T.AcceptAction()
    && (forall r: nat | r < |g.rules| && g.rules[r].lhs == start :: Item(r, 0) in items[0] && la(0, Item(r, 0), 0))
    && (forall s: nat, it, r: nat | s < |items| && it in items[s] && r < |g.rules| && Before(g, it, g.rules[r].lhs) ::
          Begun(g, items, la, s, it, r))
    && (forall s: nat, it | s < |items| && it in items[s] && it.rule < |g.rules| && it.dot < |g.rules[it.rule].rhs| ::
          Moves(g, T, items, la, s, it))
    && (forall s: nat, it | s < |items| && it in items[s] && it.rule < |g.rules| && it.dot == |g.rules[it.rule].rhs| ::
          Reduced(g, T, la, s, it))
  }

  // ----- single actions

  function Next(input: seq<nat>): nat {
    if input == [] then 0 else input[0]
  }

  lemma MachineAfter(T: Tables, depth: nat, states: seq<nat>, la: nat, n: nat)
    requires T.Shaped() && T.Ends(la) && StatesOf(T, depth, states) && !TokenStep(T, depth, states, la).done
    ensures Machine(T, depth, states, la, n + 1) == Machine(T, depth, TokenStep(T, depth, states, la).states, la, n)
  {}

  /** An action after which the token is still to be read. */
  lemma GoesOn(T: Tables, depth: nat, states: seq<nat>, input: seq<nat>)
    requires T.Shaped() && T.FallbacksEnd() && StatesOf(T, depth, states) && T.Ends(Next(input))
    ensures var o := TokenStep(T, depth, states, Next(input));
            !o.done ==> MachineVerdict(T, depth, states, input) == MachineVerdict(T, depth, o.states, input)
  {
    var la, n := Next(input), Limit(T, depth);
    var o := TokenStep(T, depth, states, la);
    if !o.done {
      hide Machine, TokenStep;
      MachineAfter(T, depth, states, la, n);
      if Machine(T, depth, o.states, la, n).done {
        SettleExact(T, depth, states, la, n + 1);
      } else if Settle(T, depth, states, la).done {
        MachineStays(T, depth, states, la, n, n + 1);
      }
    }
  }

  /** An action after which the token has been read, or the parse has ended. */
  lemma ComesToEnd(T: Tables, depth: nat, states: seq<nat>, input: seq<nat>)
    requires T.Shaped() && T.FallbacksEnd() && StatesOf(T, depth, states) && T.Ends(Next(input))
    ensures var o := TokenStep(T, depth, states, Next(input));
            o.done ==> MachineVerdict(T, depth, states, input) ==
                       if o.status == Running && input != [] then MachineVerdict(T, depth, o.states, input[1..])
                       else if o.status == Accepted && input == [] then Accepting
                       else Rejecting
  {
    var la := Next(input);
    var o := TokenStep(T, depth, states, la);
    if o.done {
      assert Machine(T, depth, states, la, 1) == o;
      hide Machine, TokenStep;
      SettleExact(T, depth, states, la, 1);
    }
  }

  // ----- how much of the stack a tree takes

  /** The entries that a tree takes, at most, while it is parsed. */
  function Need(t: Tree): (n: nat)
    ensures n > 0
    decreases t
  {
    match t
    case Leaf(_) => 1
    case Node(_, kids) => if NeedAll(kids) > 0 then NeedAll(kids) else 1
  }

  function NeedAll(ts: seq<Tree>): nat
    decreases ts
  {
    if ts == [] then 0
    else
      var first, rest := Need(ts[0]), 1 + NeedAll(ts[1..]);
      if first > rest then first else rest
  }

  // ----- a tree is followed

  predicate Terminals(g: Grammar, w: seq<nat>) {
    forall i | 0 <= i < |w| :: w[i] < g.nterminal
  }

  /** The stack when the parse has come to an item. */
  ghost predicate At(g: Grammar, T: Tables, items: seq<set<Item>>, la: Lookaheads, depth: nat, states: seq<nat>,
                     it: Item) {
    && StatesOf(T, depth, states) && T.nstate == |items| && it in items[states[|states| - 1]]
    && it.rule < |g.rules| && it.dot <= |g.rules[it.rule].rhs|
  }

  lemma RootsOfRest(g: Grammar, ts: seq<Tree>)
    requires ts != []
    ensures Roots(g, ts)[0] == Root(g, ts[0]) && Roots(g, ts[1..]) == Roots(g, ts)[1..]
  {}

  /** When the mark is moved over the first of some trees, what comes after it may follow. */
  lemma RestMayFollow(g: Grammar, la: Lookaheads, s: nat, it: Item, ts: seq<Tree>, rest: seq<nat>)
    requires it.rule < |g.rules| && it.dot < |g.rules[it.rule].rhs| && la(s, it, Next(rest))
    requires ValidForest(g, ts) && Roots(g, ts) == g.rules[it.rule].rhs[it.dot..]
    ensures MayFollow(g, la, s, it, Next(Frontiers(ts[1..]) + rest))
  {
    hide Frontiers, Starts, AllNullable, ValidTree;
    ForestStarts(g, ts[1..]);
    RootsOfRest(g, ts);
    if Frontiers(ts[1..]) == [] {
      assert [] + rest == rest;
    }
  }

  /** The first of some trees behind the mark. */
  lemma FirstTree(g: Grammar, it: Item, ts: seq<Tree>, rest: seq<nat>)
    requires it.rule < |g.rules| && it.dot <= |g.rules[it.rule].rhs| && ts != []
    requires ValidForest(g, ts) && Roots(g, ts) == g.rules[it.rule].rhs[it.dot..]
    requires Terminals(g, Frontiers(ts)) && Terminals(g, rest)
    ensures Before(g, it, Root(g, ts[0])) && ValidTree(g, ts[0]) && ValidForest(g, ts[1..])
    ensures Roots(g, ts[1..]) == g.rules[it.rule].rhs[it.dot + 1..]
    ensures Frontiers(ts) + rest == Frontier(ts[0]) + (Frontiers(ts[1..]) + rest)
    ensures Terminals(g, Frontier(ts[0])) && Terminals(g, Frontiers(ts[1..])) &&
            Terminals(g, Frontiers(ts[1..]) + rest)
  {
    var w, u, v := Frontiers(ts), Frontier(ts[0]), Frontiers(ts[1..]);
    RootsOfRest(g, ts);
    assert w == u + v;
    hide Frontier, Frontiers, ValidTree, Roots;
    assert forall i | 0 <= i < |u| :: u[i] == w[i];
    assert forall i | 0 <= i < |v| :: v[i] == w[|u| + i];
    assert w + rest == u + (v + rest);
  }

  lemma NoLeaves(rest: seq<nat>)
    ensures Frontiers([]) + rest == rest
  {}

  lemma NextTerminal(g: Grammar, T: Tables, items: seq<set<Item>>, start: nat, la: Lookaheads, rest: seq<nat>)
    requires CompleteTables(g, T, items, start, la) && Terminals(g, rest)
    ensures Next(rest) < g.nterminal
  {}

  /** Over the symbol behind the mark to the same item with its mark moved. */
  lemma MarkMoved(g: Grammar, T: Tables, items: seq<set<Item>>, start: nat, la: Lookaheads, depth: nat,
                  states: seq<nat>, it: Item, t: nat)
    requires CompleteTables(g, T, items, start, la) && At(g, T, items, la, depth, states, it)
    requires it.dot < |g.rules[it.rule].rhs| && t < g.nterminal && la(states[|states| - 1], it, t)
    ensures T.Shaped() && T.FallbacksEnd() && T.Ends(g.rules[it.rule].rhs[it.dot])
    ensures var s' := Target(g, T, states[|states| - 1], g.rules[it.rule].rhs[it.dot]);
            && 0 <= s' < T.nstate && la(s', Item(it.rule, it.dot + 1), t)
            && (|states| < depth ==> At(g, T, items, la, depth, states + [s'], Item(it.rule, it.dot + 1)))
  {
    assert Moves(g, T, items, la, states[|states| - 1], it);
  }

  /** On a terminal that may come after a complete item the machine reduces. */
  lemma ReductionFound(g: Grammar, T: Tables, items: seq<set<Item>>, start: nat, la: Lookaheads, depth: nat,
                       states: seq<nat>, r: nat, t: nat)
    requires CompleteTables(g, T, items, start, la) && r < |g.rules| && t < g.nterminal && T.Ends(t)
    requires At(g, T, items, la, depth, states, Item(r, |g.rules[r].rhs|)) && |g.rules[r].rhs| < |states|
    requires la(states[|states| - 1], Item(r, |g.rules[r].rhs|), t)
    ensures T.Shaped() && r < T.nrule && T.ruleInfo[r] == RuleInfo(g.rules[r].lhs, |g.rules[r].rhs|)
    ensures TokenStep(T, depth, states, t) == ReduceStep(T, depth, states, r)
  {
    hide ReduceStep;
    var s := states[|states| - 1];
    assert Reduced(g, T, la, s, Item(r, |g.rules[r].rhs|));
    assert T.FindShiftAction(s, t, |T.fallback| + 1) == T.nstate + r;
  }

  /** A reduction from a stack on which the right-hand side has been put on other states. */
  lemma Popped(T: Tables, depth: nat, states: seq<nat>, states': seq<nat>, r: nat)
    requires T.Shaped() && StatesOf(T, depth, states) && StatesOf(T, depth, states') && r < T.nrule
    requires |states'| == |states| + T.ruleInfo[r].nrhs && states'[..|states|] == states
    ensures var act := T.FindReduceAction(states[|states| - 1], T.ruleInfo[r].lhs);
            0 <= act < T.nstate ==>
              ReduceStep(T, depth, states', r) ==
              if |states| < depth then Outcome(false, Running, states + [act]) else Outcome(true, StackOverflow, [])
  {}

  lemma NodeReduced(g: Grammar, T: Tables, items: seq<set<Item>>, start: nat, la: Lookaheads, depth: nat,
                    states: seq<nat>, states': seq<nat>, it: Item, r: nat, rest: seq<nat>)
    requires CompleteTables(g, T, items, start, la) && At(g, T, items, la, depth, states, it)
    requires r < |g.rules| && Before(g, it, g.rules[r].lhs) && Terminals(g, rest)
    requires At(g, T, items, la, depth, states', Item(r, |g.rules[r].rhs|))
    requires la(states'[|states'| - 1], Item(r, |g.rules[r].rhs|), Next(rest))
    requires |states'| == |states| + |g.rules[r].rhs| && states'[..|states|] == states
    requires T.Ends(g.rules[r].lhs)
    ensures var s' := Target(g, T, states[|states| - 1], g.rules[r].lhs);
            MachineVerdict(T, depth, states', rest) ==
            if |states| + 1 <= depth && 0 <= s' < T.nstate then MachineVerdict(T, depth, states + [s'], rest)
            else Rejecting
  {
    ReductionFound(g, T, items, start, la, depth, states', r, Next(rest));
    assert Moves(g, T, items, la, states[|states| - 1], it);
    Popped(T, depth, states, states', r);
    hide CompleteTables, Reduced, Moves, TokenStep, MachineVerdict, At, ReduceStep;
    GoesOn(T, depth, states', rest);
    ComesToEnd(T, depth, states', rest);
  }

  /** The machine goes over the root of a tree. */
  lemma {:induction false} DriveTree(g: Grammar, T: Tables, items: seq<set<Item>>, start: nat, la: Lookaheads,
                                     depth: nat, states: seq<nat>, it: Item, t: Tree, rest: seq<nat>)
    requires CompleteTables(g, T, items, start, la) && At(g, T, items, la, depth, states, it)
    requires ValidTree(g, t) && Before(g, it, Root(g, t)) && Terminals(g, Frontier(t)) && Terminals(g, rest)
    requires MayFollow(g, la, states[|states| - 1], it, Next(rest)) && T.Ends(Root(g, t))
    ensures var s' := Target(g, T, states[|states| - 1], Root(g, t));
            MachineVerdict(T, depth, states, Frontier(t) + rest) ==
            if |states| + Need(t) <= depth && 0 <= s' < T.nstate then MachineVerdict(T, depth, states + [s'], rest)
            else Rejecting
    decreases t
  {
    var s := states[|states| - 1];
    var input := Frontier(t) + rest;
    assert Moves(g, T, items, la, s, it);
    match t
    case Leaf(x) =>
      assert input[0] == x && input[1..] == rest;
      ComesToEnd(T, depth, states, input);
    case Node(r, kids) =>
      assert Begun(g, items, la, s, it, r);
      var states' := DriveForest(g, T, items, start, la, depth, states, Item(r, 0), kids, rest);
      if |states| + NeedAll(kids) <= depth {
        NodeReduced(g, T, items, start, la, depth, states, states', it, r, rest);
      }
  }

  /** The machine goes over the roots of the trees behind the mark; it ends with the mark at the end. */
  lemma {:induction false} DriveForest(g: Grammar, T: Tables, items: seq<set<Item>>, start: nat, la: Lookaheads,
                                       depth: nat, states: seq<nat>, it: Item, ts: seq<Tree>, rest: seq<nat>)
    returns (states': seq<nat>)
    requires CompleteTables(g, T, items, start, la) && At(g, T, items, la, depth, states, it)
    requires ValidForest(g, ts) && Roots(g, ts) == g.rules[it.rule].rhs[it.dot..]
    requires Terminals(g, Frontiers(ts)) && Terminals(g, rest) && la(states[|states| - 1], it, Next(rest))
    ensures |states| + NeedAll(ts) <= depth ==>
              && At(g, T, items, la, depth, states', Item(it.rule, |g.rules[it.rule].rhs|))
              && la(states'[|states'| - 1], Item(it.rule, |g.rules[it.rule].rhs|), Next(rest))
              && |states'| == |states| + |ts| && states'[..|states|] == states
              && MachineVerdict(T, depth, states, Frontiers(ts) + rest) == MachineVerdict(T, depth, states', rest)
    ensures |states| + NeedAll(ts) > depth ==> MachineVerdict(T, depth, states, Frontiers(ts) + rest) == Rejecting
    decreases ts
  {
    hide CompleteTables, Frontiers, Roots, MachineVerdict, Target, MayFollow, Need, ValidTree;
    if ts == [] {
      states' := states;
      NoLeaves(rest);
    } else {
      var s, more := states[|states| - 1], Frontiers(ts[1..]) + rest;
      FirstTree(g, it, ts, rest);
      NextTerminal(g, T, items, start, la, rest);
      RestMayFollow(g, la, s, it, ts, rest);
      MarkMoved(g, T, items, start, la, depth, states, it, Next(rest));
      DriveTree(g, T, items, start, la, depth, states, it, ts[0], more);
      states' := [];
      if |states| + Need(ts[0]) <= depth {
        var s' := Target(g, T, s, Root(g, ts[0]));
        states' := DriveForest(g, T, items, start, la, depth, states + [s'], Item(it.rule, it.dot + 1), ts[1..], rest);
      }
    }
  }

  /** With the right-hand side of a start rule on the stack the end marker is accepted. */
  lemma LastReduction(g: Grammar, T: Tables, items: seq<set<Item>>, start: nat, la: Lookaheads, depth: nat,
                      states: seq<nat>, r: nat)
    requires CompleteTables(g, T, items, start, la) && r < |g.rules| && g.rules[r].lhs == start
    requires At(g, T, items, la, depth, states, Item(r, |g.rules[r].rhs|)) && states[0] == 0
    requires la(states[|states| - 1], Item(r, |g.rules[r].rhs|), 0) && |states| == |g.rules[r].rhs| + 1
    ensures MachineVerdict(T, depth, states, []) == Accepting
  {
    ReductionFound(g, T, items, start, la, depth, states, r, 0);
    ComesToEnd(T, depth, states, []);
  }

  /** A sentence is accepted if and only if its tree fits on the stack. */
  lemma SentenceVerdict(g: Grammar, T: Tables, items: seq<set<Item>>, start: nat, la: Lookaheads, depth: nat, t: Tree)
    requires CompleteTables(g, T, items, start, la) && 0 < depth
    requires ValidTree(g, t) && Root(g, t) == start && Terminals(g, Frontier(t))
    ensures T.Shaped() && T.FallbacksEnd() && StatesOf(T, depth, [0])
    ensures t.Node? && MachineVerdict(T, depth, [0], Frontier(t)) ==
                       if 1 + NeedAll(t.kids) <= depth then Accepting else Rejecting
  {
    assert Frontier(t) != [] ==> Frontier(t)[0] < g.nterminal;
    if t.Node? {
      var r, kids := t.rule, t.kids;
      var states' := DriveForest(g, T, items, start, la, depth, [0], Item(r, 0), kids, []);
      assert Frontiers(kids) + [] == Frontier(t);
      if 1 + NeedAll(kids) <= depth {
        LastReduction(g, T, items, start, la, depth, states', r);
      }
    }
  }
}
