/**
 A grammar whose generated parser never comes to rest: S derives A, and A derives
 itself or the token 1. The reduction of A to A is declared first, so it is what is
 left of the conflict on the end marker.
 */
module EndlessParse {
  import opened Wrappers
  import opened Grammar
  import opened TreeBounds
  import opened LrDriver
  import ParserActions

  const CYCLIC := Grammar(2, 4, [Rule(2, [2]), Rule(2, [1]), Rule(3, [2])])
  const ITEMS: seq<set<Item>> := [{Item(0, 0), Item(1, 0), Item(2, 0)}, {Item(0, 1), Item(2, 1)}, {Item(1, 1)}]
  const TABLES := Tables(
    3, 3, 4,
    [3, 4, 9, 2, 1, 7], [0, 0, 4, 1, 2, 3],
    [2, 0, 1], -1, [2, -1, -1], -1, [6, 6, 6],
    [], [RuleInfo(2, 1), RuleInfo(2, 1), RuleInfo(3, 1)])

  lemma NotAcyclic()
    ensures !Acyclic(CYCLIC)
  {
    assert StepAt(CYCLIC, [2], [2], 0, 0);
    assert Step(CYCLIC, [2], [2]) && DerivesIn(CYCLIC, [2], [2], 0);
    assert DerivesIn(CYCLIC, [2], [2], 1);
  }

  /** Of the two reductions on the end marker the generator keeps that of A to A. */
  lemma LoopSurvives(p: ParserActions.Precedence)
    requires p.precsym(0) == p.precsym(2) == None
    ensures var s := [ParserActions.Action(0, ParserActions.REDUCE, 0),
            ParserActions.Action(0, ParserActions.REDUCE, 2)];
            ParserActions.Unresolved(s) && ParserActions.Decider(p, s, 0) == 0
  {
    var s := [ParserActions.Action(0, ParserActions.REDUCE, 0), ParserActions.Action(0, ParserActions.REDUCE, 2)];
    assert ParserActions.GroupStart(s, 0) == 0;
    assert ParserActions.Survivor(p, s, 0, 2) == 0;
  }

  lemma MovesOk()
    ensures Linked(CYCLIC, ITEMS, 0, 2, 1) && Linked(CYCLIC, ITEMS, 0, 1, 2)
    ensures Complete(CYCLIC, ITEMS, 1, 0) && Complete(CYCLIC, ITEMS, 2, 1)
  {
    assert Item(0, 1) in ITEMS[1] && Item(1, 1) in ITEMS[2];
  }

  lemma EntriesOk(s: nat, x: nat)
    requires s < 3 && x < 2 && TABLES.HasShiftEntry(s, x)
    ensures EntryOk(CYCLIC, TABLES, ITEMS, 3, s, x, TABLES.action[TABLES.shiftOfst[s] + x])
  {
    hide Linked, Complete;
    MovesOk();
  }

  lemma GotosOk(s: nat, r: nat)
    requires s < 3 && r < 3 && Item(r, 0) in ITEMS[s]
    ensures GotoOk(CYCLIC, TABLES, ITEMS, 3, s, r)
  {
    hide Linked, Complete;
    MovesOk();
  }

  /** These are tables of the grammar. */
  lemma TablesOk()
    ensures LrTables(CYCLIC, TABLES, ITEMS, 3)
  {
    hide EntryOk, GotoOk;
    assert forall la: nat :: FallbackStops([], la) ==> TABLES.Ends(la);
    forall s, x: nat | 0 <= s < 3 && x < 2 && TABLES.HasShiftEntry(s, x)
      ensures EntryOk(CYCLIC, TABLES, ITEMS, 3, s, x, TABLES.action[TABLES.shiftOfst[s] + x])
    {
      EntriesOk(s, x);
    }
    forall s, r: nat | 0 <= s < 3 && r < 3 && Item(r, 0) in ITEMS[s]
      ensures GotoOk(CYCLIC, TABLES, ITEMS, 3, s, r)
    {
      GotosOk(s, r);
    }
  }

  /** One action with A on the stack, before the end marker, and A is on the stack again. */
  lemma {:induction false} SameAgain(depth: nat, n: nat)
    requires depth >= 2 && TABLES.Shaped() && TABLES.Ends(0) && StatesOf(TABLES, depth, [0, 1])
    ensures !Machine(TABLES, depth, [0, 1], 0, n).done
    decreases n
  {
    if n == 0 {
    } else {
      assert [0, 1][..1] == [0] && [0] + [1] == [0, 1];
      assert TokenStep(TABLES, depth, [0, 1], 0) == Outcome(false, Running, [0, 1]);
      SameAgain(depth, n - 1);
    }
  }

  lemma ReadsOne(depth: nat)
    requires depth >= 2
    ensures TABLES.Shaped() && TABLES.Ends(1) && StatesOf(TABLES, depth, [0])
    ensures Settle(TABLES, depth, [0], 1) == Outcome(true, Running, [0, 2])
  {
    assert TABLES.Ends(1);
    assert TokenStep(TABLES, depth, [0], 1) == Outcome(true, Running, [0, 2]) by { assert [0] + [2] == [0, 2]; }
    assert Machine(TABLES, depth, [0], 1, 1) == Outcome(true, Running, [0, 2]);
    SettleExact(TABLES, depth, [0], 1, 1);
  }

  lemma NeverRests(depth: nat)
    requires depth >= 2
    ensures TABLES.Shaped() && TABLES.Ends(0) && StatesOf(TABLES, depth, [0, 2]) && Endless(TABLES, depth, [0, 2], 0)
  {
    assert TABLES.Ends(0);
    assert [0, 2][..1] == [0] && [0] + [1] == [0, 1];
    assert TokenStep(TABLES, depth, [0, 2], 0) == Outcome(false, Running, [0, 1]);
    forall n: nat
      ensures !Machine(TABLES, depth, [0, 2], 0, n).done
    {
      if n > 0 {
        SameAgain(depth, n - 1);
      }
    }
  }

  /** The parser reads the token 1, then never comes to rest on the end marker, however deep its stack may be. */
  lemma ReducesForEver(depth: nat)
    requires depth >= 2
    ensures LrTables(CYCLIC, TABLES, ITEMS, 3)
    ensures StatesOf(TABLES, depth, [0]) && StatesOf(TABLES, depth, [0, 2])
    ensures Settle(TABLES, depth, [0], 1) == Outcome(true, Running, [0, 2])
    ensures Endless(TABLES, depth, [0, 2], 0)
    ensures MachineVerdict(TABLES, depth, [0], [1]) == NoVerdict
  {
    TablesOk();
    ReadsOne(depth);
    NeverRests(depth);
    hide LrTables, Machine, Settle, Endless, TokenStep;
    EndlessIff(TABLES, depth, [0, 2], 0);
    VerdictAtEnd(TABLES, depth, [0, 2]);
    VerdictStep(TABLES, depth, [0], [1], 0);
    assert [1][0..] == [1] && [1][1..] == [];
  }
}
