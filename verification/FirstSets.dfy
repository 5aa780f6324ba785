/**
 The first pass of the LEMON generator over a grammar (FindFirstSets): which
 nonterminals derive the empty string, and which terminals can begin what a
 nonterminal derives. Both are least fixpoints computed by repeated sweeps over
 the rules; both are shown to be exactly what the derivation relation says.
 */
module FirstSets {
  import opened Grammar

  /** The symbol derives the empty string. */
  ghost predicate Nullable(g: Grammar, s: nat) {
    Derives(g, [s], [])
  }

  /** The symbol derives a sentential form that starts with t. */
  ghost predicate Begins(g: Grammar, s: nat, t: nat) {
    exists w: seq<nat> :: w != [] && w[0] == t && Derives(g, [s], w)
  }

  // ----- one rule at a time

  lemma {:induction false} NullableForest(g: Grammar, symbols: seq<nat>) returns (ts: seq<Tree>)
    requires forall i | 0 <= i < |symbols| :: Nullable(g, symbols[i])
    ensures ValidForest(g, ts) && Roots(g, ts) == symbols && Frontiers(ts) == []
  {
    if symbols == [] {
      ts := [];
    } else {
      DerivesIffTree(g, symbols[0], []);
      var t :| ValidTree(g, t) && Root(g, t) == symbols[0] && Frontier(t) == [];
      var us := NullableForest(g, symbols[1..]);
      ts := [t] + us;
      assert ts[1..] == us;
      RootsAppend(g, [t], us);
    }
  }

  /** A rule whose right-hand side is nullable throughout makes its left-hand side nullable. */
  lemma NullableByRule(g: Grammar, r: nat)
    requires r < |g.rules|
    requires forall i | 0 <= i < |g.rules[r].rhs| :: Nullable(g, g.rules[r].rhs[i])
    ensures Nullable(g, g.rules[r].lhs)
  {
    var kids := NullableForest(g, g.rules[r].rhs);
    var t := Node(r, kids);
    assert ValidTree(g, t) && Root(g, t) == g.rules[r].lhs && Frontier(t) == [];
    DerivesIffTree(g, g.rules[r].lhs, []);
  }

  lemma GraftBetween(g: Grammar, left: seq<Tree>, u: Tree, right: seq<Tree>)
    requires ValidForest(g, left) && ValidTree(g, u) && ValidForest(g, right)
    requires Frontiers(left) == []
    ensures ValidForest(g, left + ([u] + right))
    ensures Roots(g, left + ([u] + right)) == Roots(g, left) + ([Root(g, u)] + Roots(g, right))
    ensures Frontiers(left + ([u] + right)) == Frontier(u) + Frontiers(right)
  {
    ValidForestAppend(g, [u], right);
    ValidForestAppend(g, left, [u] + right);
    RootsAppend(g, [u], right);
    RootsAppend(g, left, [u] + right);
    FrontiersAppend([u], right);
    FrontiersAppend(left, [u] + right);
    FrontiersSingle(u);
  }

  /** A tree for the rule whose i-th subtree is u, all earlier ones being empty. */
  lemma GraftAt(g: Grammar, r: nat, i: nat, u: Tree) returns (node: Tree)
    requires r < |g.rules| && i < |g.rules[r].rhs|
    requires forall j | 0 <= j < i :: Nullable(g, g.rules[r].rhs[j])
    requires ValidTree(g, u) && Root(g, u) == g.rules[r].rhs[i]
    ensures ValidTree(g, node) && Root(g, node) == g.rules[r].lhs
    ensures Frontier(u) <= Frontier(node)
  {
    var rhs := g.rules[r].rhs;
    var left := NullableForest(g, rhs[..i]);
    var right := LeavesForest(g, rhs[i + 1..]);
    assert rhs == rhs[..i] + ([rhs[i]] + rhs[i + 1..]);
    GraftBetween(g, left, u, right);
    node := Node(r, left + ([u] + right));
  }

  /** A symbol preceded only by nullable symbols passes on the terminals it begins with. */
  lemma BeginsByRule(g: Grammar, r: nat, i: nat, t: nat)
    requires r < |g.rules| && i < |g.rules[r].rhs|
    requires forall j | 0 <= j < i :: Nullable(g, g.rules[r].rhs[j])
    requires Begins(g, g.rules[r].rhs[i], t)
    ensures Begins(g, g.rules[r].lhs, t)
  {
    var w :| w != [] && w[0] == t && Derives(g, [g.rules[r].rhs[i]], w);
    DerivesIffTree(g, g.rules[r].rhs[i], w);
    var u :| ValidTree(g, u) && Root(g, u) == g.rules[r].rhs[i] && Frontier(u) == w;
    var node := GraftAt(g, r, i, u);
    DerivesIffTree(g, g.rules[r].lhs, Frontier(node));
  }

  lemma TerminalBeginsItself(g: Grammar, t: nat)
    ensures Begins(g, t, t)
  {
    DerivesIffTree(g, t, [t]);
    assert ValidTree(g, Leaf(t)) && Root(g, Leaf(t)) == t && Frontier(Leaf(t)) == [t];
  }

  /** A terminal derives nothing but itself. */
  lemma TerminalAlone(g: Grammar, t: nat, w: seq<nat>)
    requires g.Valid() && g.IsTerminal(t)
    ensures Derives(g, [t], w) <==> w == [t]
  {
    DerivesIffTree(g, t, w);
    assert ValidTree(g, Leaf(t)) && Root(g, Leaf(t)) == t && Frontier(Leaf(t)) == [t];
    if tree :| ValidTree(g, tree) && Root(g, tree) == t && Frontier(tree) == w {
      assert tree.Leaf?;
    }
  }

  // ----- fixpoints are complete

  /** No rule can add a nullable symbol. */
  ghost predicate RuleNullClosed(g: Grammar, lambda: seq<bool>, r: nat)
    requires g.Valid() && |lambda| == g.nsymbol && r < |g.rules|
  {
    (forall i | 0 <= i < |g.rules[r].rhs| :: lambda[g.rules[r].rhs[i]]) ==> lambda[g.rules[r].lhs]
  }

  ghost predicate NullClosed(g: Grammar, lambda: seq<bool>)
    requires g.Valid() && |lambda| == g.nsymbol
  {
    forall r | 0 <= r < |g.rules| :: RuleNullClosed(g, lambda, r)
  }

  lemma KidRoots(g: Grammar, t: Tree)
    requires g.Valid() && t.Node? && ValidTree(g, t)
    ensures |t.kids| == |g.rules[t.rule].rhs|
    ensures forall i | 0 <= i < |t.kids| :: Root(g, t.kids[i]) == g.rules[t.rule].rhs[i] < g.nsymbol
  {}

  lemma {:induction false} EmptyTreeMarked(g: Grammar, lambda: seq<bool>, t: Tree)
    requires g.Valid() && |lambda| == g.nsymbol && NullClosed(g, lambda)
    requires ValidTree(g, t) && Root(g, t) < g.nsymbol && Frontier(t) == []
    ensures lambda[Root(g, t)]
    decreases t
  {
    KidRoots(g, t);
    EmptyForestMarked(g, lambda, t.kids);
    assert RuleNullClosed(g, lambda, t.rule);
  }

  lemma {:induction false} EmptyForestMarked(g: Grammar, lambda: seq<bool>, ts: seq<Tree>)
    requires g.Valid() && |lambda| == g.nsymbol && NullClosed(g, lambda)
    requires ValidForest(g, ts) && Frontiers(ts) == []
    requires forall i | 0 <= i < |ts| :: Root(g, ts[i]) < g.nsymbol
    ensures forall i | 0 <= i < |ts| :: lambda[Root(g, ts[i])]
    decreases ts
  {
    if ts == [] {
    } else {
      EmptyTreeMarked(g, lambda, ts[0]);
      EmptyForestMarked(g, lambda, ts[1..]);
      assert ts == [ts[0]] + ts[1..];
    }
  }

  /** The rule can add no terminal to the first set of its left-hand side by its i-th symbol. */
  ghost predicate FirstClosedAt(g: Grammar, lambda: seq<bool>, first: seq<set<nat>>, r: nat, i: nat)
    requires g.Valid() && |lambda| == |first| == g.nsymbol
    requires r < |g.rules| && i < |g.rules[r].rhs|
  {
    var rule := g.rules[r];
    (forall j | 0 <= j < i :: lambda[rule.rhs[j]]) ==>
      if g.IsTerminal(rule.rhs[i]) then rule.rhs[i] in first[rule.lhs] else first[rule.rhs[i]] <= first[rule.lhs]
  }

  ghost predicate RuleFirstClosed(g: Grammar, lambda: seq<bool>, first: seq<set<nat>>, r: nat)
    requires g.Valid() && |lambda| == |first| == g.nsymbol && r < |g.rules|
  {
    forall i | 0 <= i < |g.rules[r].rhs| :: FirstClosedAt(g, lambda, first, r, i)
  }

  ghost predicate FirstClosed(g: Grammar, lambda: seq<bool>, first: seq<set<nat>>)
    requires g.Valid() && |lambda| == |first| == g.nsymbol
  {
    forall r | 0 <= r < |g.rules| :: RuleFirstClosed(g, lambda, first, r)
  }

  /** The tree that supplies the first leaf of a forest; all trees before it are empty. */
  lemma {:induction false} ForestBegin(g: Grammar, lambda: seq<bool>, ts: seq<Tree>) returns (i: nat)
    requires g.Valid() && |lambda| == g.nsymbol && NullClosed(g, lambda)
    requires ValidForest(g, ts) && Frontiers(ts) != []
    requires forall k | 0 <= k < |ts| :: Root(g, ts[k]) < g.nsymbol
    ensures i < |ts| && Frontier(ts[i]) != [] && Frontier(ts[i])[0] == Frontiers(ts)[0]
    ensures forall k | 0 <= k < i :: lambda[Root(g, ts[k])]
  {
    if Frontier(ts[0]) != [] {
      i := 0;
    } else {
      EmptyTreeMarked(g, lambda, ts[0]);
      var j := ForestBegin(g, lambda, ts[1..]);
      i := j + 1;
      assert forall k | 0 < k < i :: ts[k] == ts[1..][k - 1];
    }
  }

  lemma {:induction false} TreeBeginMarked(g: Grammar, lambda: seq<bool>, first: seq<set<nat>>, t: Tree)
    requires g.Valid() && |lambda| == |first| == g.nsymbol
    requires NullClosed(g, lambda) && FirstClosed(g, lambda, first)
    requires ValidTree(g, t) && t.Node? && Frontier(t) != [] && g.IsTerminal(Frontier(t)[0])
    ensures Frontier(t)[0] in first[Root(g, t)]
    decreases t
  {
    KidRoots(g, t);
    var i := ForestBegin(g, lambda, t.kids);
    var kid := t.kids[i];
    ValidForestIff(g, t.kids);
    if kid.Node? {
      TreeBeginMarked(g, lambda, first, kid);
    }
    assert RuleFirstClosed(g, lambda, first, t.rule);
    assert FirstClosedAt(g, lambda, first, t.rule, i);
  }

  // ----- what is still missing, for termination

  ghost function Unmarked(lambda: seq<bool>): set<nat> {
    set s: nat | s < |lambda| && !lambda[s]
  }

  ghost function Missing(first: seq<set<nat>>, nterminal: nat): set<(nat, nat)> {
    set s: nat, t: nat | s < |first| && t < nterminal && t !in first[s] :: (s, t)
  }

  // ----- the sweeps

  /** One sweep over the rules; reports whether any symbol was newly marked. */
  method SweepLambda(g: Grammar, lambda: array<bool>) returns (progress: bool)
    requires g.Valid() && lambda.Length == g.nsymbol
    requires forall s | 0 <= s < g.nsymbol && lambda[s] :: Nullable(g, s)
    modifies lambda
    ensures forall s | 0 <= s < g.nsymbol && lambda[s] :: Nullable(g, s)
    ensures progress ==> Unmarked(lambda[..]) < old(Unmarked(lambda[..]))
    ensures !progress ==> lambda[..] == old(lambda[..]) && NullClosed(g, lambda[..])
  {
    progress := false;
    ghost var start := lambda[..];
    for r := 0 to |g.rules|
      invariant forall s | 0 <= s < g.nsymbol && lambda[s] :: Nullable(g, s)
      invariant forall s | 0 <= s < g.nsymbol && start[s] :: lambda[s]
      invariant progress ==> exists s :: 0 <= s < g.nsymbol && lambda[s] && !start[s]
      invariant !progress ==> lambda[..] == start
      invariant !progress ==> forall q | 0 <= q < r :: RuleNullClosed(g, start, q)
    {
      var rule := g.rules[r];
      if lambda[rule.lhs] {
        continue;
      }
      var i := 0;
      while i < |rule.rhs| && lambda[rule.rhs[i]]
        invariant 0 <= i <= |rule.rhs|
        invariant forall j | 0 <= j < i :: lambda[rule.rhs[j]]
      {
        i := i + 1;
      }
      if i == |rule.rhs| {
        NullableByRule(g, r);
        lambda[rule.lhs] := true;
        progress := true;
      }
    }
    if progress {
      ghost var s :| 0 <= s < g.nsymbol && lambda[s] && !start[s];
      assert s in Unmarked(start) && s !in Unmarked(lambda[..]);
    }
  }

  /** Computes the symbols that derive the empty string. */
  method FindLambda(g: Grammar, lambda: array<bool>)
    requires g.Valid() && lambda.Length == g.nsymbol
    modifies lambda
    ensures NullClosed(g, lambda[..])
    ensures forall s | 0 <= s < g.nsymbol :: lambda[s] <==> Nullable(g, s)
  {
    for i := 0 to g.nsymbol
      invariant forall s | 0 <= s < i :: !lambda[s]
    {
      lambda[i] := false;
    }
    var progress := true;
    while progress
      invariant forall s | 0 <= s < g.nsymbol && lambda[s] :: Nullable(g, s)
      invariant !progress ==> NullClosed(g, lambda[..])
      decreases Unmarked(lambda[..]), progress
    {
      progress := SweepLambda(g, lambda);
    }
    forall s: nat | s < g.nsymbol && Nullable(g, s)
      ensures lambda[s]
    {
      DerivesIffTree(g, s, []);
      var t :| ValidTree(g, t) && Root(g, t) == s && Frontier(t) == [];
      EmptyTreeMarked(g, lambda[..], t);
    }
  }

  /** Every member of a first set really begins something its symbol derives. */
  ghost predicate FirstSound(g: Grammar, first: seq<set<nat>>) {
    && |first| == g.nsymbol
    && forall s, t | 0 <= s < |first| && t in first[s] :: g.IsTerminal(t) && Begins(g, s, t)
  }

  /** Adds what one rule contributes to the first set of its left-hand side. */
  method AddFirstOfRule(g: Grammar, r: nat, lambda: array<bool>, firstset: array<set<nat>>) returns (progress: int)
    requires g.Valid() && r < |g.rules| && lambda.Length == firstset.Length == g.nsymbol
    requires forall s | 0 <= s < g.nsymbol && lambda[s] :: Nullable(g, s)
    requires FirstSound(g, firstset[..])
    modifies firstset
    ensures FirstSound(g, firstset[..]) && progress >= 0
    ensures forall s | 0 <= s < g.nsymbol :: old(firstset[s]) <= firstset[s]
    ensures progress > 0 ==> exists t ::
            t in firstset[g.rules[r].lhs] && t !in old(firstset[g.rules[r].lhs]) && g.IsTerminal(t)
    ensures progress == 0 ==> firstset[..] == old(firstset[..]) && RuleFirstClosed(g, lambda[..], firstset[..], r)
  {
    hide Begins;
    progress := 0;
    var s1 := g.rules[r].lhs;
    var rhs := g.rules[r].rhs;
    ghost var start := firstset[..];
    for i := 0 to |rhs|
      invariant FirstSound(g, firstset[..]) && progress >= 0
      invariant forall s | 0 <= s < g.nsymbol && s != s1 :: firstset[s] == start[s]
      invariant start[s1] <= firstset[s1]
      invariant progress > 0 ==> exists t :: t in firstset[s1] && t !in start[s1] && g.IsTerminal(t)
      invariant progress == 0 ==> firstset[..] == start
      invariant forall j | 0 <= j < i :: lambda[rhs[j]]
      invariant progress == 0 ==> forall j | 0 <= j < i :: FirstClosedAt(g, lambda[..], start, r, j)
    {
      var s2 := rhs[i];
      if g.IsTerminal(s2) {
        TerminalBeginsItself(g, s2);
        BeginsByRule(g, r, i, s2);
        progress := progress + if s2 in firstset[s1] then 0 else 1;
        assert s2 in firstset[s1] ==> firstset[s1] + {s2} == firstset[s1];
        firstset[s1] := firstset[s1] + {s2};
        break;
      } else if s1 == s2 {
        if !lambda[s1] {
          break;
        }
      } else {
        forall t | t in firstset[s2]
          ensures g.IsTerminal(t) && Begins(g, s1, t)
        {
          BeginsByRule(g, r, i, t);
        }
        progress := progress + if firstset[s2] <= firstset[s1] then 0 else 1;
        assert firstset[s2] <= firstset[s1] ==> firstset[s1] + firstset[s2] == firstset[s1];
        firstset[s1] := firstset[s1] + firstset[s2];
        if !lambda[s2] {
          break;
        }
      }
    }
  }

  /** Computes the terminals that can begin what each symbol derives. */
  method FindFirst(g: Grammar, lambda: array<bool>, firstset: array<set<nat>>)
    requires g.Valid() && lambda.Length == firstset.Length == g.nsymbol
    requires NullClosed(g, lambda[..])
    requires forall s | 0 <= s < g.nsymbol :: lambda[s] <==> Nullable(g, s)
    modifies firstset
    ensures forall s, t: nat | g.nterminal <= s < g.nsymbol && g.IsTerminal(t) :: t in firstset[s] <==> Begins(g, s, t)
    ensures FirstSound(g, firstset[..])
  {
    for i := 0 to g.nsymbol
      invariant forall s | 0 <= s < i :: firstset[s] == {}
    {
      firstset[i] := {};
    }
    var progress := 1;
    while progress != 0
      invariant FirstSound(g, firstset[..])
      invariant progress == 0 ==> FirstClosed(g, lambda[..], firstset[..])
      decreases Missing(firstset[..], g.nterminal), progress != 0
    {
      progress := 0;
      ghost var start := firstset[..];
      for r := 0 to |g.rules|
        invariant FirstSound(g, firstset[..]) && progress >= 0
        invariant forall s | 0 <= s < g.nsymbol :: start[s] <= firstset[s]
        invariant progress > 0 ==> exists s, t ::
                  0 <= s < g.nsymbol && t in firstset[s] && t !in start[s] && g.IsTerminal(t)
        invariant progress == 0 ==> firstset[..] == start
        invariant progress == 0 ==> forall q | 0 <= q < r :: RuleFirstClosed(g, lambda[..], start, q)
      {
        var p := AddFirstOfRule(g, r, lambda, firstset);
        progress := progress + p;
      }
      if progress > 0 {
        ghost var s, t :| 0 <= s < g.nsymbol && t in firstset[s] && t !in start[s] && g.IsTerminal(t);
        assert (s, t) in Missing(start, g.nterminal) && (s, t) !in Missing(firstset[..], g.nterminal);
      }
    }
    forall s: nat, t: nat | g.nterminal <= s < g.nsymbol && g.IsTerminal(t) && Begins(g, s, t)
      ensures t in firstset[s]
    {
      var w :| w != [] && w[0] == t && Derives(g, [s], w);
      DerivesIffTree(g, s, w);
      var u :| ValidTree(g, u) && Root(g, u) == s && Frontier(u) == w;
      TreeBeginMarked(g, lambda[..], firstset[..], u);
    }
  }

  /** Both passes: nullable symbols first, then first sets. */
  method FindFirstSets(g: Grammar) returns (lambda: array<bool>, firstset: array<set<nat>>)
    requires g.Valid()
    ensures lambda.Length == firstset.Length == g.nsymbol
    ensures forall s | 0 <= s < g.nsymbol :: lambda[s] <==> Nullable(g, s)
    ensures forall s, t: nat | g.nterminal <= s < g.nsymbol && g.IsTerminal(t) :: t in firstset[s] <==> Begins(g, s, t)
    ensures forall s, t | 0 <= s < g.nsymbol && t in firstset[s] :: g.IsTerminal(t)
  {
    lambda := new bool[g.nsymbol];
    firstset := new set<nat>[g.nsymbol];
    FindLambda(g, lambda);
    FindFirst(g, lambda, firstset);
  }
}
