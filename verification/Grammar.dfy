/**
 Context-free grammars as the LEMON generator numbers them: terminals are the
 symbols below `nterminal`, nonterminals the rest, and symbol 0 is the end marker
 "$". Derivations are given twice, as rewriting of sentential forms and as parse
 trees, and the two are shown to agree.
 */
module Grammar {
  datatype Rule = Rule(lhs: nat, rhs: seq<nat>)

  datatype Grammar = Grammar(nterminal: nat, nsymbol: nat, rules: seq<Rule>) {
    predicate IsTerminal(s: nat) {
      s < nterminal
    }

    predicate Valid() {
      && nterminal <= nsymbol
      && forall r | 0 <= r < |rules| ::
           && nterminal <= rules[r].lhs < nsymbol
           && forall i | 0 <= i < |rules[r].rhs| :: rules[r].rhs[i] < nsymbol
    }
  }

  // ----- rewriting

  /** One nonterminal of a sentential form is replaced by the right-hand side of a rule. */
  ghost predicate StepAt(g: Grammar, a: seq<nat>, b: seq<nat>, p: nat, r: nat) {
    && p < |a| && r < |g.rules|
    && a[p] == g.rules[r].lhs
    && b == a[..p] + g.rules[r].rhs + a[p + 1..]
  }

  ghost predicate Step(g: Grammar, a: seq<nat>, b: seq<nat>) {
    exists p: nat, r: nat :: StepAt(g, a, b, p, r)
  }

  ghost predicate DerivesIn(g: Grammar, a: seq<nat>, b: seq<nat>, n: nat)
    decreases n
  {
    if n == 0 then a == b else exists c :: Step(g, a, c) && DerivesIn(g, c, b, n - 1)
  }

  /** The sentential form a can be rewritten to b. */
  ghost predicate Derives(g: Grammar, a: seq<nat>, b: seq<nat>) {
    exists n: nat :: DerivesIn(g, a, b, n)
  }

  // ----- parse trees

  datatype Tree = Leaf(symbol: nat) | Node(rule: nat, kids: seq<Tree>)

  function Root(g: Grammar, t: Tree): nat {
    match t
    case Leaf(s) => s
    case Node(r, _) => if r < |g.rules| then g.rules[r].lhs else 0
  }

  function Roots(g: Grammar, ts: seq<Tree>): (roots: seq<nat>)
    ensures |roots| == |ts|
  {
    seq(|ts|, i requires 0 <= i < |ts| => Root(g, ts[i]))
  }

  ghost predicate ValidTree(g: Grammar, t: Tree)
    decreases t
  {
    t.Node? ==> t.rule < |g.rules| && Roots(g, t.kids) == g.rules[t.rule].rhs && ValidForest(g, t.kids)
  }

  ghost predicate ValidForest(g: Grammar, ts: seq<Tree>)
    decreases ts
  {
    ts == [] || (ValidTree(g, ts[0]) && ValidForest(g, ts[1..]))
  }

  /** The leaves of a tree, from left to right. */
  function Frontier(t: Tree): seq<nat>
    decreases t
  {
    match t
    case Leaf(s) => [s]
    case Node(_, kids) => Frontiers(kids)
  }

  function Frontiers(ts: seq<Tree>): seq<nat>
    decreases ts
  {
    if ts == [] then [] else Frontier(ts[0]) + Frontiers(ts[1..])
  }

  lemma {:induction false} ValidForestIff(g: Grammar, ts: seq<Tree>)
    ensures ValidForest(g, ts) <==> forall i | 0 <= i < |ts| :: ValidTree(g, ts[i])
  {
    if ts == [] {
    } else {
      ValidForestIff(g, ts[1..]);
      assert ts == [ts[0]] + ts[1..];
    }
  }

  lemma {:induction false} ValidForestAppend(g: Grammar, ts: seq<Tree>, us: seq<Tree>)
    ensures ValidForest(g, ts + us) <==> ValidForest(g, ts) && ValidForest(g, us)
  {
    if ts == [] {
      assert ts + us == us;
    } else {
      assert (ts + us)[1..] == ts[1..] + us;
      ValidForestAppend(g, ts[1..], us);
    }
  }

  lemma RootsAppend(g: Grammar, ts: seq<Tree>, us: seq<Tree>)
    ensures Roots(g, ts + us) == Roots(g, ts) + Roots(g, us)
  {
  }

  lemma RootsSlice(g: Grammar, ts: seq<Tree>, i: nat, j: nat)
    requires i <= j <= |ts|
    ensures Roots(g, ts[i..j]) == Roots(g, ts)[i..j]
  {
  }

  lemma {:induction false} FrontiersAppend(ts: seq<Tree>, us: seq<Tree>)
    ensures Frontiers(ts + us) == Frontiers(ts) + Frontiers(us)
  {
    if ts == [] {
      assert ts + us == us;
    } else {
      assert (ts + us)[1..] == ts[1..] + us;
      FrontiersAppend(ts[1..], us);
    }
  }

  lemma FrontiersSingle(t: Tree)
    ensures Frontiers([t]) == Frontier(t)
  {
  }

  // ----- the two notions agree

  lemma StepInContext(g: Grammar, pre: seq<nat>, a: seq<nat>, b: seq<nat>, post: seq<nat>)
    requires Step(g, a, b)
    ensures Step(g, pre + a + post, pre + b + post)
  {
    var p: nat, r: nat :| StepAt(g, a, b, p, r);
    var whole := pre + a + post;
    assert whole[..|pre| + p] == pre + a[..p];
    assert whole[|pre| + p + 1..] == a[p + 1..] + post;
    assert StepAt(g, whole, pre + b + post, |pre| + p, r);
  }

  /** Rewriting inside a context. */
  lemma {:induction false} DerivesInContext(g: Grammar, pre: seq<nat>, a: seq<nat>, b: seq<nat>, post: seq<nat>, n: nat)
    requires DerivesIn(g, a, b, n)
    ensures DerivesIn(g, pre + a + post, pre + b + post, n)
    decreases n
  {
    if n == 0 {
    } else {
      var c :| Step(g, a, c) && DerivesIn(g, c, b, n - 1);
      StepInContext(g, pre, a, c, post);
      DerivesInContext(g, pre, c, b, post, n - 1);
    }
  }

  lemma {:induction false} DerivesInTrans(g: Grammar, a: seq<nat>, b: seq<nat>, c: seq<nat>, m: nat, n: nat)
    requires DerivesIn(g, a, b, m) && DerivesIn(g, b, c, n)
    ensures DerivesIn(g, a, c, m + n)
    decreases m
  {
    if m == 0 {
    } else {
      var d :| Step(g, a, d) && DerivesIn(g, d, b, m - 1);
      DerivesInTrans(g, d, b, c, m - 1, n);
    }
  }

  lemma DerivesInAppend(g: Grammar, a: seq<nat>, a': seq<nat>, m: nat, b: seq<nat>, b': seq<nat>, n: nat)
    requires DerivesIn(g, a, a', m) && DerivesIn(g, b, b', n)
    ensures DerivesIn(g, a + b, a' + b', m + n)
  {
    DerivesInContext(g, [], a, a', b, m);
    DerivesInContext(g, a', b, b', [], n);
    assert [] + a + b == a + b && [] + a' + b == a' + b && a' + b + [] == a' + b && a' + b' + [] == a' + b';
    DerivesInTrans(g, a + b, a' + b, a' + b', m, n);
  }

  lemma {:induction false} TreeDerives(g: Grammar, t: Tree) returns (n: nat)
    requires ValidTree(g, t)
    ensures DerivesIn(g, [Root(g, t)], Frontier(t), n)
    decreases t
  {
    match t
    case Leaf(_) => n := 0;
    case Node(r, kids) =>
      var m := ForestDerives(g, kids);
      var rhs := g.rules[r].rhs;
      assert StepAt(g, [Root(g, t)], rhs, 0, r);
      n := m + 1;
      assert Step(g, [Root(g, t)], rhs) && DerivesIn(g, rhs, Frontier(t), n - 1);
  }

  lemma {:induction false} ForestDerives(g: Grammar, ts: seq<Tree>) returns (n: nat)
    requires ValidForest(g, ts)
    ensures DerivesIn(g, Roots(g, ts), Frontiers(ts), n)
    decreases ts
  {
    hide Step, StepAt;
    if ts == [] {
      n := 0;
    } else {
      var h := TreeDerives(g, ts[0]);
      var m := ForestDerives(g, ts[1..]);
      RootsAppend(g, [ts[0]], ts[1..]);
      assert ts == [ts[0]] + ts[1..] && Roots(g, [ts[0]]) == [Root(g, ts[0])];
      DerivesInAppend(g, [Root(g, ts[0])], Frontier(ts[0]), h, Roots(g, ts[1..]), Frontiers(ts[1..]), m);
      n := h + m;
    }
  }

  lemma {:induction false} LeavesForest(g: Grammar, a: seq<nat>) returns (ts: seq<Tree>)
    ensures ValidForest(g, ts) && Roots(g, ts) == a && Frontiers(ts) == a
  {
    if a == [] {
      ts := [];
    } else {
      var rest := LeavesForest(g, a[1..]);
      ts := [Leaf(a[0])] + rest;
      assert ts[1..] == rest;
      assert Roots(g, ts) == [a[0]] + Roots(g, rest);
    }
  }

  lemma OneNode(g: Grammar, node: Tree)
    requires node.Node? && node.rule < |g.rules| && ValidForest(g, node.kids) &&
             Roots(g, node.kids) == g.rules[node.rule].rhs
    ensures ValidForest(g, [node]) && Roots(g, [node]) == [g.rules[node.rule].lhs]
  {
    assert [node][1..] == [] && Root(g, node) == g.rules[node.rule].lhs;
  }

  lemma RegroupFrontier(left: seq<Tree>, mid: seq<Tree>, right: seq<Tree>, node: Tree)
    requires node.Node? && node.kids == mid
    ensures Frontiers(left + [node] + right) == Frontiers(left + mid + right)
  {
    FrontiersAppend(left + [node], right);
    FrontiersAppend(left, [node]);
    FrontiersAppend(left + mid, right);
    FrontiersAppend(left, mid);
    FrontiersSingle(node);
  }

  /** The trees below one rewriting step, regrouped under the rewritten symbol. */
  lemma Regroup(g: Grammar, a: seq<nat>, c: seq<nat>, p: nat, r: nat, us: seq<Tree>) returns (ts: seq<Tree>)
    requires StepAt(g, a, c, p, r)
    requires ValidForest(g, us) && Roots(g, us) == c
    ensures ValidForest(g, ts) && Roots(g, ts) == a && Frontiers(ts) == Frontiers(us)
  {
    hide Frontiers, ValidForest, Roots;
    var q := p + |g.rules[r].rhs|;
    var left, mid, right := us[..p], us[p..q], us[q..];
    var node := Node(r, mid);
    ts := left + [node] + right;
    assert us == left + mid + right;
    ValidForestAppend(g, left + mid, right);
    ValidForestAppend(g, left, mid);
    RootsSlice(g, us, p, q);
    assert c[p..q] == g.rules[r].rhs;
    OneNode(g, node);
    ValidForestAppend(g, left + [node], right);
    ValidForestAppend(g, left, [node]);
    RootsSlice(g, us, 0, p);
    RootsSlice(g, us, q, |us|);
    RootsAppend(g, left + [node], right);
    RootsAppend(g, left, [node]);
    assert a == a[..p] + [a[p]] + a[p + 1..];
    RegroupFrontier(left, mid, right, node);
    assert us[0..p] == left && us[q..|us|] == right && c[0..p] == a[..p] && c[q..|us|] == a[p + 1..];
  }

  lemma {:induction false} DerivationForest(g: Grammar, a: seq<nat>, b: seq<nat>, n: nat) returns (ts: seq<Tree>)
    requires DerivesIn(g, a, b, n)
    ensures ValidForest(g, ts) && Roots(g, ts) == a && Frontiers(ts) == b
    decreases n
  {
    if n == 0 {
      ts := LeavesForest(g, a);
    } else {
      var c :| Step(g, a, c) && DerivesIn(g, c, b, n - 1);
      var p: nat, r: nat :| StepAt(g, a, c, p, r);
      var us := DerivationForest(g, c, b, n - 1);
      ts := Regroup(g, a, c, p, r, us);
    }
  }

  /** A symbol rewrites to a sentential form exactly when some parse tree has it as frontier. */
  lemma DerivesIffTree(g: Grammar, s: nat, w: seq<nat>)
    ensures Derives(g, [s], w) <==> exists t :: ValidTree(g, t) && Root(g, t) == s && Frontier(t) == w
  {
    if t :| ValidTree(g, t) && Root(g, t) == s && Frontier(t) == w {
      var n := TreeDerives(g, t);
    }
    if n: nat :| DerivesIn(g, [s], w, n) {
      var ts := DerivationForest(g, [s], w, n);
      ValidForestIff(g, ts);
      assert ts == [ts[0]] && Roots(g, ts)[0] == s;
      FrontiersSingle(ts[0]);
    }
  }
}
