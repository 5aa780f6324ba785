/**
 A grammar that goes through the generator and the driver: sums of the token NUM, grouped
 to the left. Its skeleton meets every condition of FindActions.GenerateAndParse, and every
 sum is accepted on a stack of four entries.
 */
module SumParse {
  import opened Wrappers
  import opened Grammar
  import opened TreeBounds
  import opened FirstSets
  import opened ParserActions
  import opened LrDriver
  import opened LrComplete
  import opened ParserPipeline
  import opened FindActions
  import FollowSets
  import GeneratedTables
  import ListSort

  const PLUS := 1
  const NUM := 2
  const SUMS := Grammar(3, 5, [Rule(4, [3]), Rule(3, [3, PLUS, NUM]), Rule(3, [NUM])])

  const CONFIGS: seq<Item> :=
    [Item(0, 0), Item(1, 0), Item(2, 0), Item(0, 1), Item(1, 1), Item(2, 1), Item(1, 2), Item(1, 3)]
  const STATES: seq<seq<nat>> := [[0, 1, 2], [3, 4], [5], [6], [7]]
  const ITEMS: seq<set<Item>> :=
    [{Item(0, 0), Item(1, 0), Item(2, 0)}, {Item(0, 1), Item(1, 1)}, {Item(2, 1)}, {Item(1, 2)}, {Item(1, 3)}]
  const LINKS: seq<seq<nat>> := [[3, 1, 2], [4], [5], [], [6], [], [7], []]
  const INIT: seq<set<nat>> := [{0}, {PLUS}, {PLUS}, {}, {}, {}, {}, {}]
  const SHIFTS: seq<seq<Action>> :=
    [[Action(3, SHIFT, 1), Action(NUM, SHIFT, 2)], [Action(PLUS, SHIFT, 3)], [], [Action(NUM, SHIFT, 4)], []]
  const SKELETON := Skeleton(STATES, CONFIGS, LINKS, INIT, SHIFTS)

  lemma Table()
    ensures SKELETON.InTable() && SUMS.Valid() && StartOnLeft(SUMS, 4)
  {}

  lemma SumsAcyclic()
    ensures Acyclic(SUMS)
  {
    RankedIsAcyclic(SUMS, x => x);
  }

  lemma KernelOf(s: nat, x: nat)
    requires s < 5
    ensures Kernel(SUMS, ITEMS[s], x) ==
            if s == 0 && x == 3 then {Item(0, 1), Item(1, 1)}
            else if s == 0 && x == NUM then {Item(2, 1)}
            else if s == 1 && x == PLUS then {Item(1, 2)}
            else if s == 3 && x == NUM then {Item(1, 3)}
            else {}
  {}

  lemma GrammarGiven()
    ensures Given(GeneratedTables.Sizes(3, 5, 5, 3), SUMS, ITEMS, 4, [],
                  [RuleInfo(4, 1), RuleInfo(3, 3), RuleInfo(3, 1)])
  {
    Table();
    forall s, r: nat | 0 <= s < 5 && r < 3 && Item(r, 0) in ITEMS[s]
      ensures Wanted(SUMS, ITEMS, 4, s, r)
    {
      KernelOf(s, 3);
    }
  }

  lemma SuccessorsOk()
    ensures Successor(SUMS, ITEMS, 0, 3, 1) && Successor(SUMS, ITEMS, 0, NUM, 2)
    ensures Successor(SUMS, ITEMS, 1, PLUS, 3) && Successor(SUMS, ITEMS, 3, NUM, 4)
  {
    KernelOf(0, 3);
    KernelOf(0, NUM);
    KernelOf(1, PLUS);
    KernelOf(3, NUM);
  }

  lemma MovesOk(s: nat)
    requires s < 5
    ensures ShiftsOk(SUMS, ITEMS, s, SHIFTS[s])
  {
    hide Kernel;
    SuccessorsOk();
    hide Successor;
    forall x: nat | Kernel(SUMS, ITEMS[s], x) != {}
      ensures HasAction(SHIFTS[s], x)
    {
      KernelOf(s, x);
      assert SHIFTS[0][0].sp == 3 && SHIFTS[0][1].sp == NUM && SHIFTS[1][0].sp == PLUS && SHIFTS[3][0].sp == NUM;
    }
  }

  lemma CoversOk()
    ensures FollowSets.Covers(STATES, LINKS)
  {
    forall c | 0 <= c < 8
      ensures FollowSets.Listed(STATES, 5, 0, c)
    {
      var a := if c < 3 then 0 else if c < 5 then 1 else c - 3;
      assert STATES[a][c - (if c < 3 then 0 else if c < 5 then 3 else c)] == c;
    }
  }

  /** Over each link the mark is moved, or a rule opened. */
  lemma LinkOk(b: nat, c: nat)
    requires b < 8 && c in LINKS[b]
    ensures c < 8 && (Advances(CONFIGS[b], CONFIGS[c]) || Opens(SUMS, CONFIGS[b], CONFIGS[c]))
  {}

  lemma LinksAreOk()
    ensures LinksOk(SUMS, CONFIGS, LINKS)
  {
    hide Advances, Opens;
    forall b, c | 0 <= b < 8 && c in LINKS[b]
      ensures c < 8 && (Advances(CONFIGS[b], CONFIGS[c]) || Opens(SUMS, CONFIGS[b], CONFIGS[c]))
    {
      LinkOk(b, c);
    }
  }

  lemma FirstSetsOk()
    ensures InitsOk(SUMS, 4, CONFIGS, INIT)
  {
    assert Opens(SUMS, CONFIGS[0], CONFIGS[1]) && Opens(SUMS, CONFIGS[0], CONFIGS[2]);
    forall c, t | 0 <= c < 8 && t in INIT[c]
      ensures InitOk(SUMS, 4, CONFIGS, CONFIGS[c], t)
    {
      assert c == 0 || c == 1 || c == 2;
    }
  }

  lemma ConfigsOfState(s: nat)
    requires s < 5
    ensures SKELETON.InTable() && forall it :: it in ConfigsOf(CONFIGS, STATES[s]) <==> it in ITEMS[s]
  {
    Table();
    var its := ConfigsOf(CONFIGS, STATES[s]);
    if s == 0 {
      assert its == [Item(0, 0), Item(1, 0), Item(2, 0)];
    } else if s == 1 {
      assert its == [Item(0, 1), Item(1, 1)];
    } else if s == 2 {
      assert its == [Item(2, 1)];
    } else if s == 3 {
      assert its == [Item(1, 2)];
    } else {
      assert its == [Item(1, 3)];
    }
  }

  lemma {:induction false} PowersGrow(j: nat, k: nat)
    requires j <= k
    ensures Pow2(j) <= Pow2(k)
    decreases k
  {
    if j < k {
      PowersGrow(j, k - 1);
    }
  }

  lemma SizesSmall()
    ensures Small(SUMS, STATES, SHIFTS) && 2 * |STATES| < Pow2(ListSort.LISTSIZE)
  {
    assert Pow2(4) == 16;
    assert Pow2(10) == 64 * Pow2(4);
    PowersGrow(10, ListSort.LISTSIZE);
    forall s | 0 <= s < 5
      ensures |SHIFTS[s]| + |STATES[s]| * 3 + 1 <= 12
    {
      assert s == 0 || s == 1 || s == 2 || s == 3 || s == 4;
    }
  }

  lemma SkeletonOk()
    ensures StatesOk(SUMS, ITEMS, 4, STATES, CONFIGS, LINKS, SHIFTS) && Small(SUMS, STATES, SHIFTS)
    ensures InitsOk(SUMS, 4, CONFIGS, INIT) && 2 * |STATES| < Pow2(ListSort.LISTSIZE)
  {
    hide ShiftsOk, InitsOk, LinksOk, Small, Pow2;
    CoversOk();
    LinksAreOk();
    FirstSetsOk();
    SizesSmall();
    forall s | 0 <= s < 5
      ensures ShiftsOk(SUMS, ITEMS, s, SHIFTS[s])
      ensures forall it :: it in ConfigsOf(CONFIGS, STATES[s]) <==> it in ITEMS[s]
    {
      MovesOk(s);
      ConfigsOfState(s);
    }
  }

  // ----- nothing is missing

  lemma NotPast(g: Grammar, symbols: seq<nat>, i: nat)
    requires 0 < i <= |symbols| && !Nullable(g, symbols[0])
    ensures !AllNullable(g, symbols[..i])
  {
    assert symbols[..i][0] == symbols[0];
  }

  /** What may come behind the marks before a sum: nothing, or a plus. */
  lemma RestStarts(t: nat)
    ensures Starts(SUMS, [PLUS, NUM], t) ==> t == PLUS
    ensures !AllNullable(SUMS, [PLUS, NUM]) && AllNullable(SUMS, []) && !Starts(SUMS, [], t)
  {
    var rest := [PLUS, NUM];
    TerminalAlone(SUMS, PLUS, []);
    NotPast(SUMS, rest, 1);
    NotPast(SUMS, rest, 2);
    assert rest[..2] == rest;
    if Starts(SUMS, rest, t) {
      assert Begins(SUMS, PLUS, t);
      var w :| w != [] && w[0] == t && Derives(SUMS, [PLUS], w);
      TerminalAlone(SUMS, PLUS, w);
    }
  }

  /** Both rules of sums begin in the first state, from either configuration before a sum. */
  lemma SumsOpened(c: nat, r: nat)
    requires c < 2 && 1 <= r <= 2
    ensures SKELETON.InTable() && Opened(SUMS, SKELETON, 0, c, r)
  {
    hide Starts, AllNullable;
    Table();
    var it := SKELETON.configs[c];
    var rest := SUMS.rules[it.rule].rhs[it.dot + 1..];
    assert rest == if c == 0 then [] else [PLUS, NUM];
    RestStarts(0);
    forall t: nat | t < 3 && Starts(SUMS, rest, t)
      ensures t in SKELETON.init[r]
    {
      RestStarts(t);
      assert INIT[r] == {PLUS};
    }
    assert c == 0 ==> r in SKELETON.links[c];
    assert SKELETON.states[0][r] == r && SKELETON.configs[r] == Item(r, 0);
    assert OpenedAs(SUMS, SKELETON, c, SKELETON.states[0][r], r);
  }

  lemma MoveLinked(s: nat, j: nat, a: Action)
    requires s < 5 && j < |STATES[s]| && a in SHIFTS[s] && Before(SUMS, CONFIGS[STATES[s][j]], a.sp)
    ensures SKELETON.InTable() && a.x < 5 && Advanced(SKELETON, STATES[s][j], a.x)
  {
    Table();
    var c := STATES[s][j];
    assert STATES[1][0] == 3 && STATES[1][1] == 4 && STATES[2][0] == 5 && STATES[3][0] == 6 && STATES[4][0] == 7;
    var i := if c == 1 then 1 else 0;
    assert a.x < 5 && i < |STATES[a.x]|;
    assert Advances(SKELETON.configs[c], SKELETON.configs[SKELETON.states[a.x][i]]);
    assert SKELETON.states[a.x][i] in SKELETON.links[c];
  }

  lemma NothingIsMissing()
    ensures NothingMissing(SUMS, 4, SKELETON)
  {
    hide Opened, Advanced;
    Table();
    LinksAreOk();
    assert CONFIGS[STATES[0][0]] == Item(0, 0) && 0 in INIT[STATES[0][0]];
    forall s, j, r: nat | 0 <= s < 5 && 0 <= j < |STATES[s]| && r < 3 &&
                          Before(SUMS, CONFIGS[STATES[s][j]], SUMS.rules[r].lhs)
      ensures Opened(SUMS, SKELETON, s, STATES[s][j], r)
    {
      SumsOpened(STATES[s][j], r);
    }
    forall s, j, a | 0 <= s < 5 && 0 <= j < |STATES[s]| && a in SHIFTS[s] && a.kind == SHIFT &&
                     Before(SUMS, CONFIGS[STATES[s][j]], a.sp)
      ensures a.x < 5 && Advanced(SKELETON, STATES[s][j], a.x)
    {
      MoveLinked(s, j, a);
    }
  }

  // ----- no conflicts

  /** The reductions of a state are of the items with the mark at the end. */
  lemma ReductionOf(s: nat, a: Action)
    requires s < 5 && a.kind == REDUCE && a.x < 3
    requires SKELETON.InTable() && SKELETON.FollowsItem(s, Item(a.x, |SUMS.rules[a.x].rhs|), a.sp)
    ensures (s == 1 && a.x == 0 && a.sp == 0) || (s == 2 && a.x == 2) || (s == 4 && a.x == 1)
  {
    hide FollowSets.Follows;
    ConfigsOfState(s);
    var j :| 0 <= j < |STATES[s]| && CONFIGS[STATES[s][j]] == Item(a.x, |SUMS.rules[a.x].rhs|)
             && FollowSets.Follows(LINKS, INIT, STATES[s][j], a.sp);
    var its := ConfigsOf(CONFIGS, STATES[s]);
    assert its[j] in its && Item(a.x, |SUMS.rules[a.x].rhs|) in ITEMS[s];
    if s == 1 {
      Table();
      LinksAreOk();
      FirstSetsOk();
      StartFollows(SUMS, 4, CONFIGS, LINKS, INIT, STATES[s][j], a.sp);
    }
  }

  lemma OneChoice(s: nat, a: Action)
    requires SKELETON.InTable() && s < 5 && SKELETON.Candidate(SUMS, 4, s, a)
    ensures s == 0 ==> a == Action(3, SHIFT, 1) || a == Action(NUM, SHIFT, 2) || a == Action(4, ACCEPT, 0)
    ensures s == 1 ==> a == Action(PLUS, SHIFT, 3) || a == Action(0, REDUCE, 0)
    ensures s == 2 ==> a == Action(a.sp, REDUCE, 2)
    ensures s == 3 ==> a == Action(NUM, SHIFT, 4)
    ensures s == 4 ==> a == Action(a.sp, REDUCE, 1)
  {
    hide Skeleton.FollowsItem;
    if a !in SHIFTS[s] && a.kind == REDUCE {
      ReductionOf(s, a);
    }
  }

  lemma NoConflicts()
    ensures SKELETON.InTable() && NoConflict(SUMS, 4, SKELETON)
  {
    hide Skeleton.Candidate;
    Table();
    forall s: nat, a, b | s < 5 && SKELETON.Candidate(SUMS, 4, s, a) && SKELETON.Candidate(SUMS, 4, s, b) &&
        a.sp == b.sp
      ensures a == b
    {
      OneChoice(s, a);
      OneChoice(s, b);
    }
  }

  // ----- every sum is accepted

  /** A sum of n + 1 numbers. */
  function Sum(n: nat): seq<nat> {
    if n == 0 then [NUM] else Sum(n - 1) + [PLUS, NUM]
  }

  function SumTree(n: nat): Tree {
    if n == 0 then Node(2, [Leaf(NUM)]) else Node(1, [SumTree(n - 1), Leaf(PLUS), Leaf(NUM)])
  }

  /** A forest with one more tree before it. */
  lemma OneMoreTree(t: Tree, ts: seq<Tree>)
    ensures ValidForest(SUMS, [t] + ts) <==> ValidTree(SUMS, t) && ValidForest(SUMS, ts)
    ensures Roots(SUMS, [t] + ts) == [Root(SUMS, t)] + Roots(SUMS, ts)
    ensures Frontiers([t] + ts) == Frontier(t) + Frontiers(ts)
    ensures NeedAll([t] + ts) == if Need(t) > 1 + NeedAll(ts) then Need(t) else 1 + NeedAll(ts)
  {
    assert ([t] + ts)[1..] == ts;
  }

  lemma Tails()
    ensures var one, two := [Leaf(NUM)], [Leaf(PLUS), Leaf(NUM)];
            && ValidForest(SUMS, one) && Roots(SUMS, one) == Frontiers(one) == [NUM] && NeedAll(one) == 1
            && ValidForest(SUMS, two) && Roots(SUMS, two) == Frontiers(two) == [PLUS, NUM] && NeedAll(two) == 2
  {
    OneMoreTree(Leaf(NUM), []);
    assert [Leaf(NUM)] == [Leaf(NUM)] + [];
    OneMoreTree(Leaf(PLUS), [Leaf(NUM)]);
    assert [Leaf(PLUS), Leaf(NUM)] == [Leaf(PLUS)] + [Leaf(NUM)];
  }

  lemma {:induction false} SumTreeOk(n: nat)
    ensures ValidTree(SUMS, SumTree(n)) && Root(SUMS, SumTree(n)) == 3 && Frontier(SumTree(n)) == Sum(n)
    ensures Need(SumTree(n)) <= 3
  {
    hide ValidForest, Frontiers, NeedAll, Roots;
    Tails();
    if n == 0 {
    } else {
      SumTreeOk(n - 1);
      OneMoreTree(SumTree(n - 1), [Leaf(PLUS), Leaf(NUM)]);
      assert SumTree(n).kids == [SumTree(n - 1)] + [Leaf(PLUS), Leaf(NUM)];
      assert SUMS.rules[1].rhs == [3] + [PLUS, NUM];
    }
  }

  /** The tree of a sum, whatever its length, fits on a stack of four entries. */
  lemma SumsFit(n: nat, depth: nat)
    requires depth >= 4
    ensures FittingSentence(SUMS, 4, depth, Sum(n))
  {
    SumTreeOk(n);
    OneMoreTree(SumTree(n), []);
    var t := Node(0, [SumTree(n)]);
    assert t.kids == [SumTree(n)] + [];
    assert t.Node? && ValidTree(SUMS, t) && Root(SUMS, t) == 4 && Frontier(t) == Sum(n) && 1 + NeedAll(t.kids) <= depth;
  }

  lemma {:induction false} SumOfTokens(n: nat)
    ensures Sum(n) != [] && forall i | 0 <= i < |Sum(n)| :: 0 < Sum(n)[i] < 3
  {
    if n > 0 {
      SumOfTokens(n - 1);
    }
  }

  /** Generates the parser for sums and parses one. */
  method ParseSum(p: Precedence, n: nat, depth: nat) returns (verdict: LrDriver.Verdict)
    requires p.Valid() && depth >= 4
    ensures verdict == Accepting
  {
    hide Given, StatesOk, Small, InitsOk, NothingMissing, NoConflict, FittingSentence, LrTables, Acyclic, Sum, Pow2;
    hide StartOnLeft, Skeleton.Candidate, GeneratedTables.Faithful, GeneratedTables.Processed, Tables.Shaped;
    GrammarGiven();
    SkeletonOk();
    NothingIsMissing();
    NoConflicts();
    SumsFit(n, depth);
    SumOfTokens(n);
    Table();
    var fws := new set<nat>[8](i requires 0 <= i < 8 => INIT[i]);
    assert fws[..] == INIT;
    var T;
    ghost var made;
    T, verdict, made := GenerateAndParse(p, SUMS, ITEMS, 4, STATES, CONFIGS, LINKS, fws, SHIFTS, [],
                                         [RuleInfo(4, 1), RuleInfo(3, 3), RuleInfo(3, 1)], depth, Sum(n));
  }
}
