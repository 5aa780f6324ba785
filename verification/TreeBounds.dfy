/**
 How large the parse trees over a given string can be: in a grammar in which no
 symbol derives itself, the string and the sizes of the grammar bound them.
 */
module TreeBounds {
  import opened Wrappers
  import opened Grammar

  /** No symbol can be rewritten, in one or more steps, to itself. */
  ghost predicate Acyclic(g: Grammar) {
    forall a: nat, n: nat :: n > 0 ==> !DerivesIn(g, [a], [a], n)
  }

  /** No rule is empty, and a rule with a single symbol leads to one of lesser rank. */
  predicate Ranked(g: Grammar, rank: nat -> nat) {
    forall r | 0 <= r < |g.rules| ::
      g.rules[r].rhs != [] && (|g.rules[r].rhs| == 1 ==> rank(g.rules[r].rhs[0]) < rank(g.rules[r].lhs))
  }

  lemma OneStepFalls(g: Grammar, rank: nat -> nat, a: seq<nat>, b: seq<nat>)
    requires Ranked(g, rank) && Step(g, a, b)
    ensures |a| <= |b| && (|a| == |b| == 1 ==> rank(b[0]) < rank(a[0]))
  {
    var p: nat, r: nat :| StepAt(g, a, b, p, r);
    assert |b| == |a| - 1 + |g.rules[r].rhs|;
  }

  lemma {:induction false} RanksFall(g: Grammar, rank: nat -> nat, a: seq<nat>, b: seq<nat>, n: nat)
    requires Ranked(g, rank) && DerivesIn(g, a, b, n)
    ensures |a| <= |b|
    ensures |a| == |b| == 1 ==> if n > 0 then rank(b[0]) < rank(a[0]) else a == b
    decreases n
  {
    if n == 0 {
    } else {
      var c :| Step(g, a, c) && DerivesIn(g, c, b, n - 1);
      hide DerivesIn, Ranked, Step;
      OneStepFalls(g, rank, a, c);
      RanksFall(g, rank, c, b, n - 1);
    }
  }

  /** In such a grammar no symbol derives itself. */
  lemma RankedIsAcyclic(g: Grammar, rank: nat -> nat)
    requires Ranked(g, rank)
    ensures Acyclic(g)
  {
    forall a: nat, n: nat | n > 0 && DerivesIn(g, [a], [a], n)
      ensures false
    {
      RanksFall(g, rank, [a], [a], n);
    }
  }

  /** The nodes on the longest way down a tree. */
  function Height(t: Tree): nat
    decreases t
  {
    match t
    case Leaf(_) => 0
    case Node(_, kids) => 1 + ForestHeight(kids)
  }

  function ForestHeight(ts: seq<Tree>): nat
    decreases ts
  {
    if ts == [] then 0
    else
      var first, rest := Height(ts[0]), ForestHeight(ts[1..]);
      if first > rest then first else rest
  }

  /** The nodes of a tree. */
  function Size(t: Tree): nat
    decreases t
  {
    match t
    case Leaf(_) => 0
    case Node(_, kids) => 1 + ForestSize(kids)
  }

  function ForestSize(ts: seq<Tree>): nat
    decreases ts
  {
    if ts == [] then 0 else Size(ts[0]) + ForestSize(ts[1..])
  }

  lemma {:induction false} ForestSizeAppend(ts: seq<Tree>, us: seq<Tree>)
    ensures ForestSize(ts + us) == ForestSize(ts) + ForestSize(us)
  {
    if ts == [] {
      assert ts + us == us;
    } else {
      assert (ts + us)[1..] == ts[1..] + us;
      ForestSizeAppend(ts[1..], us);
    }
  }

  // ----- the height

  /** A symbol derives b in one or more steps. */
  ghost predicate Above(g: Grammar, a: nat, b: nat) {
    exists n: nat :: n > 0 && DerivesIn(g, [a], [b], n)
  }

  lemma NotAboveItself(g: Grammar, a: nat)
    requires Acyclic(g)
    ensures !Above(g, a, a)
  {}

  /** A tree among others that have no leaves: their roots derive its root. */
  lemma EmptyAround(g: Grammar, pre: seq<Tree>, kid: Tree, post: seq<Tree>) returns (n: nat)
    requires ValidForest(g, pre) && ValidForest(g, post) && Frontiers(pre) == Frontiers(post) == []
    ensures DerivesIn(g, Roots(g, pre) + [Root(g, kid)] + Roots(g, post), [Root(g, kid)], n)
  {
    hide Step;
    var x := [Root(g, kid)];
    var k := ForestDerives(g, pre);
    var m := ForestDerives(g, post);
    assert DerivesIn(g, x, x, 0);
    hide DerivesIn;
    DerivesInAppend(g, Roots(g, pre), [], k, x, x, 0);
    DerivesInAppend(g, Roots(g, pre) + x, [] + x, k, Roots(g, post), [], m);
    assert [] + x + [] == x;
    n := k + m;
  }

  /** The leaves of a forest are those before a tree, its own, and those after it. */
  lemma LeavesAround(g: Grammar, ts: seq<Tree>, i: nat)
    requires i < |ts|
    ensures Frontiers(ts) == Frontiers(ts[..i]) + Frontier(ts[i]) + Frontiers(ts[i + 1..])
    ensures Roots(g, ts) == Roots(g, ts[..i]) + [Root(g, ts[i])] + Roots(g, ts[i + 1..])
    ensures ValidForest(g, ts) ==> ValidForest(g, ts[..i]) && ValidForest(g, ts[i + 1..])
  {
    hide Frontier, ValidTree;
    var pre, kid, post := ts[..i], ts[i], ts[i + 1..];
    assert ts == pre + [kid] + post;
    FrontiersAppend(pre + [kid], post);
    FrontiersAppend(pre, [kid]);
    FrontiersSingle(kid);
    ValidForestAppend(g, pre + [kid], post);
    ValidForestAppend(g, pre, [kid]);
    assert Roots(g, ts) == Roots(g, pre) + [Root(g, kid)] + Roots(g, post);
  }

  /** A kid over all the leaves of its parent has only empty siblings: the parent's symbol derives the kid's. */
  lemma KidBelow(g: Grammar, t: Tree, i: nat)
    requires t.Node? && ValidTree(g, t) && i < |t.kids| && |Frontier(t.kids[i])| == |Frontier(t)|
    ensures Above(g, Root(g, t), Root(g, t.kids[i]))
  {
    hide Roots, ValidForest;
    LeavesAround(g, t.kids, i);
    var pre, kid, post := t.kids[..i], t.kids[i], t.kids[i + 1..];
    assert |Frontiers(pre)| == |Frontiers(post)| == 0;
    var n := EmptyAround(g, pre, kid, post);
    var rhs := g.rules[t.rule].rhs;
    assert rhs == Roots(g, pre) + [Root(g, kid)] + Roots(g, post);
    assert StepAt(g, [Root(g, t)], rhs, 0, t.rule);
    assert Step(g, [Root(g, t)], rhs) && DerivesIn(g, rhs, [Root(g, kid)], n);
    assert DerivesIn(g, [Root(g, t)], [Root(g, kid)], n + 1);
  }

  lemma AboveTrans(g: Grammar, a: nat, b: nat, c: nat)
    requires Above(g, a, b) && Above(g, b, c)
    ensures Above(g, a, c)
  {
    var m: nat :| m > 0 && DerivesIn(g, [a], [b], m);
    var n: nat :| n > 0 && DerivesIn(g, [b], [c], n);
    DerivesInTrans(g, [a], [b], [c], m, n);
  }

  lemma {:induction false} FrontierOfKid(ts: seq<Tree>, i: nat)
    requires i < |ts|
    ensures |Frontier(ts[i])| <= |Frontiers(ts)|
  {
    if i == 0 {
    } else {
      FrontierOfKid(ts[1..], i - 1);
    }
  }

  lemma {:induction false} ForestHeightWithin(ts: seq<Tree>, h: nat)
    requires forall i | 0 <= i < |ts| :: Height(ts[i]) <= h
    ensures ForestHeight(ts) <= h
  {
    if ts == [] {
    } else {
      ForestHeightWithin(ts[1..], h);
    }
  }

  /** The height of a tree over n leaves, at most. */
  function Ceiling(g: Grammar, n: nat): (h: nat)
    ensures h >= g.nsymbol
  {
    n * g.nsymbol + g.nsymbol
  }

  /**
   Down a tree the leaves below get fewer, or the symbol is one that has not been met
   since they did: `seen` are the symbols met over the leaves of t.
   */
  lemma {:induction false} HeightBound(g: Grammar, t: Tree, seen: set<nat>)
    requires g.Valid() && Acyclic(g) && ValidTree(g, t)
    requires forall a | a in seen :: a < g.nsymbol && Above(g, a, Root(g, t))
    ensures Height(t) <= Ceiling(g, |Frontier(t)|) - |seen|
    decreases t
  {
    hide Ceiling, Above, Acyclic, Frontier;
    CountBelow(seen, g.nsymbol);
    if t.Leaf? {
    } else {
      var x, n := Root(g, t), g.nsymbol;
      NotAboveItself(g, x);
      CountBelow(seen + {x}, n);
      var h := Ceiling(g, |Frontier(t)|) - |seen| - 1;
      forall i | 0 <= i < |t.kids|
        ensures Height(t.kids[i]) <= h
      {
        KidBound(g, t, i, seen);
      }
      ForestHeightWithin(t.kids, h);
    }
  }

  lemma Times(m: nat, a: nat, b: nat)
    requires a <= b
    ensures m * a <= m * b && a * m <= b * m
  {}

  lemma CeilingGrows(g: Grammar, m: nat, n: nat)
    requires m <= n
    ensures Ceiling(g, m) <= Ceiling(g, n)
  {
    Times(g.nsymbol, m, n);
  }

  lemma FewerLeaves(g: Grammar, m: nat, n: nat)
    requires m < n
    ensures Ceiling(g, m) <= Ceiling(g, n) - g.nsymbol
  {
    Times(g.nsymbol, m + 1, n);
  }

  lemma LeavesOfNode(t: Tree)
    requires t.Node?
    ensures Frontier(t) == Frontiers(t.kids)
  {}

  lemma {:induction false} KidBound(g: Grammar, t: Tree, i: nat, seen: set<nat>)
    requires g.Valid() && Acyclic(g) && ValidTree(g, t) && t.Node? && i < |t.kids|
    requires forall a | a in seen :: a < g.nsymbol && Above(g, a, Root(g, t))
    requires Root(g, t) !in seen && |seen| + 1 <= g.nsymbol
    ensures Height(t.kids[i]) <= Ceiling(g, |Frontier(t)|) - |seen| - 1
    decreases t, 0
  {
    hide Acyclic, Above, Frontier, Height, Ceiling;
    var kid := t.kids[i];
    assert Frontier(t) == Frontiers(t.kids) by { LeavesOfNode(t); }
    ValidForestIff(g, t.kids);
    FrontierOfKid(t.kids, i);
    if |Frontier(kid)| == |Frontier(t)| {
      KidBelow(g, t, i);
      forall a | a in seen ensures Above(g, a, Root(g, kid)) {
        AboveTrans(g, a, Root(g, t), Root(g, kid));
      }
      HeightBound(g, kid, seen + {Root(g, t)});
    } else {
      HeightBound(g, kid, {});
      FewerLeaves(g, |Frontier(kid)|, |Frontier(t)|);
    }
  }

  // ----- the size

  /** The nodes of a tree of height h whose nodes have at most m kids, at most. */
  function Capacity(m: nat, h: nat): nat {
    if h == 0 then 0 else 1 + m * Capacity(m, h - 1)
  }

  lemma {:induction false} CapacityGrows(m: nat, h: nat, k: nat)
    requires h <= k
    ensures Capacity(m, h) <= Capacity(m, k)
    decreases k
  {
    if h == 0 {
    } else {
      CapacityGrows(m, h - 1, k - 1);
      Times(m, Capacity(m, h - 1), Capacity(m, k - 1));
    }
  }

  lemma OneMore(n: nat, m: nat)
    requires n > 0
    ensures n * m == m + (n - 1) * m
  {}

  /** The greatest length of a right-hand side. */
  function Widest(rules: seq<Rule>): (m: nat)
    ensures forall r | 0 <= r < |rules| :: |rules[r].rhs| <= m
  {
    if rules == [] then 0
    else
      var m := Widest(rules[1..]);
      if |rules[0].rhs| > m then |rules[0].rhs| else m
  }

  lemma {:induction false} SizeBound(g: Grammar, t: Tree, h: nat)
    requires ValidTree(g, t) && Height(t) <= h
    ensures Size(t) <= Capacity(Widest(g.rules), h)
    decreases t
  {
    if t.Leaf? {
    } else {
      hide Widest, ForestSize, ValidForest, ForestHeight;
      ForestSizeBound(g, t.kids, h - 1);
      Times(Capacity(Widest(g.rules), h - 1), |t.kids|, Widest(g.rules));
    }
  }

  lemma {:induction false} ForestSizeBound(g: Grammar, ts: seq<Tree>, h: nat)
    requires ValidForest(g, ts) && ForestHeight(ts) <= h
    ensures ForestSize(ts) <= |ts| * Capacity(Widest(g.rules), h)
    decreases ts
  {
    if ts == [] {
    } else {
      hide Widest, Size, ValidTree, Height, Capacity;
      SizeBound(g, ts[0], h);
      ForestSizeBound(g, ts[1..], h);
      OneMore(|ts|, Capacity(Widest(g.rules), h));
    }
  }

  /** The nodes of a stack of at most `depth` trees over n leaves, at most. */
  function StackBound(g: Grammar, depth: nat, n: nat): nat {
    depth * Capacity(Widest(g.rules), Ceiling(g, n))
  }

  /** In a grammar in which no symbol derives itself the trees over n leaves are bounded. */
  lemma StackBounded(g: Grammar, ts: seq<Tree>, depth: nat)
    requires g.Valid() && Acyclic(g) && ValidForest(g, ts) && |ts| <= depth
    ensures ForestSize(ts) <= StackBound(g, depth, |Frontiers(ts)|)
  {
    hide Ceiling, Height, ForestHeight, Capacity, Frontiers, ForestSize, ValidForest, ValidTree, Widest;
    var h := Ceiling(g, |Frontiers(ts)|);
    ValidForestIff(g, ts);
    forall i | 0 <= i < |ts|
      ensures Height(ts[i]) <= h
    {
      HeightBound(g, ts[i], {});
      FrontierOfKid(ts, i);
      CeilingGrows(g, |Frontier(ts[i])|, |Frontiers(ts)|);
    }
    ForestHeightWithin(ts, h);
    ForestSizeBound(g, ts, h);
    Times(Capacity(Widest(g.rules), h), |ts|, depth);
  }
}
