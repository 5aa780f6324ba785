/**
 How the LEMON generator turns the conflicting actions of a state into one action
 for each lookahead (FindActions, resolve_conflict), and how it then replaces the
 most frequent reduction by a default (CompressTables). A state's actions are an
 array of records, in the order in which Action_sort leaves them.
 */
module ParserActions {
  import opened Wrappers

  datatype Kind = SHIFT | ACCEPT | REDUCE | ERROR | CONFLICT | SH_RESOLVED | RD_RESOLVED | NOT_USED

  /** An action on lookahead sp; x is the next state of a shift or the rule of a reduction. */
  datatype Action = Action(sp: nat, kind: Kind, x: nat) {
    predicate Live() {
      kind in {SHIFT, ACCEPT, REDUCE}
    }
  }

  datatype Assoc = LEFT | RIGHT | NONE | UNK

  /** Precedence of symbols (-1 when undefined) and the precedence symbol of each rule. */
  datatype Precedence = Precedence(prec: nat -> int, assoc: nat -> Assoc, precsym: nat -> Option<nat>) {
    /** A symbol with a precedence also has an associativity. */
    ghost predicate Valid() {
      forall s: nat :: prec(s) >= 0 ==> assoc(s) != UNK
    }

    /** The precedence of a rule, -1 when it has none. */
    function RulePrec(r: nat): (n: int)
      ensures n == if precsym(r) == None then -1 else prec(precsym(r).value)
    {
      match precsym(r)
      case None => -1
      case Some(s) => prec(s)
    }
  }

  // ----- which of two live actions on the same lookahead survives

  /** The later action y takes the place of the earlier action x. */
  predicate Beats(p: Precedence, y: Action, x: Action) {
    y.kind == REDUCE &&
    match x.kind
    case SHIFT =>
      var sx, ry := p.prec(x.sp), p.RulePrec(y.x);
      sx >= 0 && ry >= 0 && (sx < ry || (sx == ry && p.assoc(x.sp) == LEFT))
    case REDUCE =>
      var rx, ry := p.RulePrec(x.x), p.RulePrec(y.x);
      rx >= 0 && ry >= 0 && rx < ry
    case _ => false
  }

  /** No precedence settles which of the two is meant: a conflict, which the earlier action wins. */
  predicate Clash(p: Precedence, x: Action, y: Action) {
    var ry := p.RulePrec(y.x);
    match x.kind
    case SHIFT =>
      var sx := p.prec(x.sp);
      sx < 0 || ry < 0 || (sx == ry && p.assoc(x.sp) == NONE)
    case REDUCE =>
      var rx := p.RulePrec(x.x);
      rx < 0 || ry < 0 || rx == ry
    case _ => false
  }

  /** The survivor among the action at c and those from j on with the same lookahead. */
  function Survivor(p: Precedence, s: seq<Action>, c: nat, j: nat): (k: nat)
    requires c < j <= |s|
    ensures c <= k < |s|
    decreases |s| - j
  {
    if j == |s| || s[j].sp != s[c].sp then c
    else Survivor(p, s, if Beats(p, s[j], s[c]) then j else c, j + 1)
  }

  /** The first action with the same lookahead as the k-th, actions being grouped by lookahead. */
  function GroupStart(s: seq<Action>, k: nat): (lo: nat)
    requires k < |s|
    ensures lo <= k
  {
    if k > 0 && s[k - 1].sp == s[k].sp then GroupStart(s, k - 1) else k
  }

  /** The action that decides the lookahead of the k-th action. */
  function Decider(p: Precedence, s: seq<Action>, k: nat): nat
    requires k < |s|
  {
    Survivor(p, s, GroupStart(s, k), GroupStart(s, k) + 1)
  }

  /** The survivor among the actions on the lookahead of the k-th, up to that. */
  function Kept(p: Precedence, s: seq<Action>, k: nat): (c: nat)
    requires k < |s|
    ensures c <= k
  {
    if k == 0 || s[k - 1].sp != s[k].sp || Beats(p, s[k], s[Kept(p, s, k - 1)]) then k else Kept(p, s, k - 1)
  }

  /** No precedence settles between the k-th action and the survivor of those before it. */
  predicate Disputed(p: Precedence, s: seq<Action>, k: nat)
    requires k < |s|
  {
    k > 0 && s[k - 1].sp == s[k].sp && Clash(p, s[Kept(p, s, k - 1)], s[k])
  }

  /** The k-th action is live afterwards exactly when it decides its lookahead; a loser is a conflict or resolved. */
  ghost predicate Decided(p: Precedence, s: seq<Action>, now: seq<Action>, k: nat)
    requires k < |s| == |now|
  {
    (now[k].Live() <==> k == Decider(p, s, k)) && (now[k].kind == CONFLICT <==> Disputed(p, s, k))
  }

  /** What Action_sort and the LR(0) automaton provide: sorted, at most one shift and no other mixture. */
  ghost predicate Unresolved(s: seq<Action>) {
    && (forall k | 0 <= k < |s| :: s[k].Live())
    && (forall i, k | 0 <= i < k < |s| :: s[i].sp <= s[k].sp)
    && (forall i, k | 0 <= i < k < |s| && s[i].sp == s[k].sp ::
          (s[i].kind == SHIFT || s[i].kind == REDUCE) && s[k].kind == REDUCE)
  }

  ghost predicate SameButKind(a: Action, b: Action) {
    a.sp == b.sp && a.x == b.x && (a.Live() || a.kind == ERROR ==> a.kind == b.kind)
  }

  /** How many actions are marked as unresolved conflicts. */
  function Conflicts(s: seq<Action>): nat {
    if s == [] then 0 else Conflicts(s[1..]) + if s[0].kind == CONFLICT then 1 else 0
  }

  lemma {:induction false} NoConflicts(s: seq<Action>)
    requires forall k | 0 <= k < |s| :: s[k].Live()
    ensures Conflicts(s) == 0
  {
    if s == [] {
    } else {
      NoConflicts(s[1..]);
    }
  }

  lemma {:induction false} ConflictsUpdate(s: seq<Action>, i: nat, a: Action)
    requires i < |s|
    ensures Conflicts(s[i := a]) == Conflicts(s) - (if s[i].kind == CONFLICT then 1 else 0) +
            if a.kind == CONFLICT then 1 else 0
  {
    if i == 0 {
    } else {
      assert s[i := a][1..] == s[1..][i - 1 := a];
      ConflictsUpdate(s[1..], i - 1, a);
    }
  }

  method Mark(ap: array<Action>, k: nat, kind: Kind)
    requires k < ap.Length
    modifies ap
    ensures ap[..] == old(ap[..])[k := old(ap[k]).(kind := kind)]
    ensures old(ap[k]).kind != CONFLICT ==>
            Conflicts(ap[..]) == old(Conflicts(ap[..])) + if kind == CONFLICT then 1 else 0
  {
    ConflictsUpdate(ap[..], k, ap[k].(kind := kind));
    ap[k] := ap[k].(kind := kind);
    assert ap[..] == old(ap[..])[k := old(ap[k]).(kind := kind)];
  }

  /** What comparing the actions at x and y does: of two live actions one is marked as lost. */
  ghost predicate Compared(p: Precedence, was: seq<Action>, now: seq<Action>, x: nat, y: nat)
    requires x < y < |was|
  {
    && |now| == |was|
    && (forall k | 0 <= k < |was| && k != x && k != y :: now[k] == was[k])
    && SameButKind(now[x], was[x]) && SameButKind(now[y], was[y])
    && (if was[x].Live() && was[y].Live()
        then
          && (now[y].Live() <==> Beats(p, was[y], was[x])) && (now[x].Live() <==> !Beats(p, was[y], was[x]))
          && now[x].kind != CONFLICT && (now[y].kind == CONFLICT <==> Clash(p, was[x], was[y]))
        else now == was)
  }

  /** Marks the loser when both actions are still live; the result counts unresolved conflicts. */
  method ResolveConflict(p: Precedence, ap: array<Action>, x: nat, y: nat) returns (errcnt: nat)
    requires p.Valid()
    requires x < y < ap.Length && ap[x].sp == ap[y].sp
    requires ap[x].Live() && ap[y].Live() ==> (ap[x].kind == SHIFT || ap[x].kind == REDUCE) && ap[y].kind == REDUCE
    modifies ap
    ensures Compared(p, old(ap[..]), ap[..], x, y)
    ensures Conflicts(ap[..]) == old(Conflicts(ap[..])) + errcnt
    ensures var was, a, b := old(ap[..]), old(ap[x]), old(ap[y]);
            var u, v := if a.kind == SHIFT then p.prec(a.sp) else p.RulePrec(a.x), p.RulePrec(b.x);
            if !(a.Live() && b.Live()) then ap[..] == was && errcnt == 0
            else if u < 0 || v < 0 || (u == v && (a.kind == REDUCE || p.assoc(a.sp) == NONE)) then
              ap[..] == was[y := b.(kind := CONFLICT)] && errcnt == 1
            else if u > v || (u == v && p.assoc(a.sp) == RIGHT) then
              ap[..] == was[y := b.(kind := RD_RESOLVED)] && errcnt == 0
            else ap[..] == was[x := a.(kind := if a.kind == SHIFT then SH_RESOLVED else RD_RESOLVED)] && errcnt == 0
  {
    errcnt := 0;
    if ap[x].kind == SHIFT && ap[y].kind == REDUCE {
      var sx, ry := p.prec(ap[x].sp), p.RulePrec(ap[y].x);
      if p.precsym(ap[y].x) == None || sx < 0 || ry < 0 {
        Mark(ap, y, CONFLICT);
        errcnt := errcnt + 1;
      } else if sx > ry {
        Mark(ap, y, RD_RESOLVED);
      } else if sx < ry {
        Mark(ap, x, SH_RESOLVED);
      } else if sx == ry && p.assoc(ap[x].sp) == RIGHT {
        Mark(ap, y, RD_RESOLVED);
      } else if sx == ry && p.assoc(ap[x].sp) == LEFT {
        Mark(ap, x, SH_RESOLVED);
      } else {
        assert sx == ry && p.assoc(ap[x].sp) == NONE;
        Mark(ap, y, CONFLICT);
        errcnt := errcnt + 1;
      }
    } else if ap[x].kind == REDUCE && ap[y].kind == REDUCE {
      var rx, ry := p.RulePrec(ap[x].x), p.RulePrec(ap[y].x);
      if p.precsym(ap[x].x) == None || p.precsym(ap[y].x) == None || rx < 0 || ry < 0 || rx == ry {
        Mark(ap, y, CONFLICT);
        errcnt := errcnt + 1;
      } else if rx > ry {
        Mark(ap, y, RD_RESOLVED);
      } else if rx < ry {
        Mark(ap, x, RD_RESOLVED);
      }
    } else {
      assert !ap[x].Live() || !ap[y].Live();
    }
  }

  lemma {:induction false} GroupStartSame(s: seq<Action>, i: nat, k: nat)
    requires Unresolved(s) && i <= k < |s| && s[i].sp == s[k].sp
    ensures GroupStart(s, i) == GroupStart(s, k)
    decreases k
  {
    if i >= k {
    } else {
      assert s[i].sp <= s[k - 1].sp <= s[k].sp;
      GroupStartSame(s, i, k - 1);
    }
  }

  /** The actions of a group that are no longer live are conflicts or resolved. */
  ghost predicate Settled(p: Precedence, s: seq<Action>, now: seq<Action>, sp: nat)
    requires |now| == |s|
  {
    forall k | 0 <= k < |s| && s[k].sp == sp && !now[k].Live() :: now[k].kind == CONFLICT <==> Disputed(p, s, k)
  }

  /**
   The group of the i-th action once the actions before it have been compared with
   the rest: m is live, and so are all after m unless m has already prevailed.
   */
  ghost predicate Front(p: Precedence, s: seq<Action>, now: seq<Action>, i: nat, m: nat)
    requires |now| == |s| && i < |s|
  {
    && m < |s| && s[m].sp == s[i].sp
    && (forall k | 0 <= k < |s| && s[k].sp == s[i].sp :: now[k].Live() <==> k == m || (m >= i && k > m))
    && Decider(p, s, i) == (if m < i then m else Survivor(p, s, m, m + 1))
    && Kept(p, s, m) == m && Settled(p, s, now, s[i].sp)
  }

  ghost predicate MarkedFrom(s: seq<Action>, now: seq<Action>) {
    |now| == |s| && forall k | 0 <= k < |s| :: SameButKind(now[k], s[k])
  }

  /** The group of the i-th action while that action is compared with the others: those before j are done. */
  ghost predicate Contest(p: Precedence, s: seq<Action>, now: seq<Action>, i: nat, j: nat, m: nat)
    requires |now| == |s| && i < j <= |s|
  {
    if m != i then Front(p, s, now, i, m)
    else
      && Decider(p, s, i) == Survivor(p, s, i, j)
      && Kept(p, s, i) == i == Kept(p, s, j - 1) && Settled(p, s, now, s[i].sp)
      && forall k | 0 <= k < |s| && s[k].sp == s[i].sp :: now[k].Live() <==> k == i || k >= j
  }

  /** Actions on other lookaheads than sp are as they were. */
  ghost predicate OthersKept(s: seq<Action>, was: seq<Action>, now: seq<Action>, sp: nat) {
    |was| == |now| == |s| && forall k | 0 <= k < |s| && s[k].sp != sp :: now[k] == was[k]
  }

  /** The whole state of the inner loop before the i-th action meets the j-th. */
  ghost predicate Facing(p: Precedence, s: seq<Action>, was: seq<Action>, now: seq<Action>, i: nat, j: nat, m: nat) {
    && MarkedFrom(s, now) && i < j <= |s|
    && OthersKept(s, was, now, s[i].sp)
    && (forall k | i <= k < j :: s[k].sp == s[i].sp)
    && Contest(p, s, now, i, j, m)
  }

  lemma FacingStart(p: Precedence, s: seq<Action>, now: seq<Action>, i: nat, m: nat)
    requires i < |s| && MarkedFrom(s, now) && Front(p, s, now, i, m)
    ensures Facing(p, s, now, now, i, i + 1, m)
  {}

  /** The two actions that meet are on the same lookahead; if both are live the second is a reduction. */
  lemma FacingPair(p: Precedence, s: seq<Action>, was: seq<Action>, now: seq<Action>, i: nat, j: nat, m: nat)
    requires Unresolved(s) && Facing(p, s, was, now, i, j, m)
    ensures |now| == |s| && i < j <= |s| && now[i].sp == s[i].sp && (j < |s| ==> now[j].sp == s[j].sp)
    ensures j < |s| && now[i].sp == now[j].sp && now[i].Live() && now[j].Live() ==>
              (now[i].kind == SHIFT || now[i].kind == REDUCE) && now[j].kind == REDUCE
  {}

  /** Of two live actions that meet the loser is settled. */
  lemma SettledStep(p: Precedence, s: seq<Action>, now: seq<Action>, now': seq<Action>, i: nat, j: nat)
    requires i < j < |s| == |now| && s[j].sp == s[j - 1].sp == s[i].sp
    requires Settled(p, s, now, s[i].sp) && Kept(p, s, i) == i == Kept(p, s, j - 1)
    requires now[i] == s[i] && now[j] == s[j] && s[i].Live() && s[j].Live() && Compared(p, now, now', i, j)
    ensures Settled(p, s, now', s[i].sp)
    ensures Kept(p, s, j) == if Beats(p, s[j], s[i]) then j else i
  {
    forall k | 0 <= k < |s| && s[k].sp == s[i].sp && !now'[k].Live()
      ensures now'[k].kind == CONFLICT <==> Disputed(p, s, k)
    {
      if k != i && k != j {
        assert now'[k] == now[k];
      }
    }
  }

  lemma FacingStep(p: Precedence, s: seq<Action>, was: seq<Action>, now: seq<Action>, now': seq<Action>, i: nat,
                   j: nat, m: nat)
    requires Unresolved(s) && Facing(p, s, was, now, i, j, m)
    requires j < |s| && s[j].sp == s[i].sp && Compared(p, now, now', i, j)
    ensures Facing(p, s, was, now', i, j + 1, if m == i && Beats(p, s[j], s[i]) then j else m)
  {
    hide Beats, Kept, Settled;
    if m == i {
      assert now[i] == s[i] && now[j] == s[j];
      SettledStep(p, s, now, now', i, j);
    } else {
      assert !now[i].Live() && now' == now;
    }
  }

  /** When the i-th action has met its whole group, the group is ready for the next action, or decided. */
  ghost predicate Passed(p: Precedence, s: seq<Action>, was: seq<Action>, now: seq<Action>, i: nat, m: nat)
    requires i < |s|
  {
    && MarkedFrom(s, now)
    && OthersKept(s, was, now, s[i].sp)
    && if i + 1 < |s| && s[i + 1].sp == s[i].sp then Front(p, s, now, i + 1, m)
       else forall k | 0 <= k < |s| && s[k].sp == s[i].sp :: Decided(p, s, now, k)
  }

  /** A group that ends before the j-th action has one decider. */
  lemma GroupEnds(p: Precedence, s: seq<Action>, i: nat, j: nat)
    requires Unresolved(s) && i < j <= |s| && (forall k | i <= k < j :: s[k].sp == s[i].sp)
    requires j == |s| || s[j].sp != s[i].sp
    ensures forall k | 0 <= k < |s| && s[k].sp == s[i].sp :: k < j && Decider(p, s, k) == Decider(p, s, i)
    ensures Survivor(p, s, i, j) == i
  {
    forall k | 0 <= k < |s| && s[k].sp == s[i].sp
      ensures k < j && Decider(p, s, k) == Decider(p, s, i)
    {
      if k <= i {
        GroupStartSame(s, k, i);
      } else {
        GroupStartSame(s, i, k);
      }
    }
  }

  /** An action that prevails over those before it is in no conflict with them. */
  lemma KeptUndisputed(p: Precedence, s: seq<Action>, k: nat)
    ensures k < |s| && Kept(p, s, k) == k ==> !Disputed(p, s, k)
  {}

  lemma FacingEnd(p: Precedence, s: seq<Action>, was: seq<Action>, now: seq<Action>, i: nat, j: nat, m: nat)
    requires Unresolved(s) && Facing(p, s, was, now, i, j, m)
    requires j == |s| || s[j].sp != s[i].sp
    ensures Passed(p, s, was, now, i, m)
  {
    hide Beats, Clash, GroupStart, Disputed, Kept, SameButKind, Unresolved, Decider;
    KeptUndisputed(p, s, m);
    GroupEnds(p, s, i, j);
  }

  /** Compares the i-th action with the later ones of its group. */
  method CompareWithRest(p: Precedence, ap: array<Action>, i: nat, ghost s: seq<Action>, ghost m: nat)
    returns (errcnt: nat, ghost m': nat)
    requires p.Valid() && Unresolved(s) && i < |s| == ap.Length
    requires MarkedFrom(s, ap[..]) && Front(p, s, ap[..], i, m)
    modifies ap
    ensures Passed(p, s, old(ap[..]), ap[..], i, m')
    ensures Conflicts(ap[..]) == old(Conflicts(ap[..])) + errcnt
  {
    hide Passed, Conflicts, Beats, Facing, Front, MarkedFrom, Unresolved, Compared;
    FacingStart(p, s, ap[..], i, m);
    errcnt := 0;
    m' := m;
    var j := i + 1;
    while j < ap.Length && ap[j].sp == ap[i].sp
      invariant i < j <= ap.Length && Facing(p, s, old(ap[..]), ap[..], i, j, m')
      invariant Conflicts(ap[..]) == old(Conflicts(ap[..])) + errcnt
    {
      ghost var now := ap[..];
      FacingPair(p, s, old(ap[..]), now, i, j, m');
      var e := ResolveConflict(p, ap, i, j);
      errcnt := errcnt + e;
      FacingStep(p, s, old(ap[..]), now, ap[..], i, j, m');
      m' := if m' == i && Beats(p, s[j], s[i]) then j else m';
      j := j + 1;
    }
    FacingPair(p, s, old(ap[..]), ap[..], i, j, m');
    FacingEnd(p, s, old(ap[..]), ap[..], i, j, m');
  }

  /** The state of the pairwise pass before the i-th action is compared with its group. */
  ghost predicate Progress(p: Precedence, s: seq<Action>, now: seq<Action>, i: nat, m: nat)
    requires i <= |s|
  {
    && MarkedFrom(s, now)
    && (forall k {:trigger Decided(p, s, now, k)} | 0 <= k < i && (i == |s| || s[k].sp != s[i].sp) ::
        Decided(p, s, now, k))
    && (forall k | i <= k < |s| && (i == 0 || s[k].sp != s[i - 1].sp) :: now[k] == s[k])
    && (0 < i < |s| && s[i - 1].sp == s[i].sp ==> Front(p, s, now, i, m))
  }

  lemma ProgressStep(p: Precedence, s: seq<Action>, was: seq<Action>, now: seq<Action>, i: nat, m: nat, m': nat)
    requires Unresolved(s) && i < |s| && Progress(p, s, was, i, m) && Passed(p, s, was, now, i, m')
    ensures Progress(p, s, now, i + 1, m')
  {
    hide Decider, Survivor, Disputed, Kept, Settled, SameButKind, Beats;
    forall k | 0 <= k < i + 1 && (i + 1 == |s| || s[k].sp != s[i + 1].sp)
      ensures Decided(p, s, now, k)
    {
      if s[k].sp != s[i].sp {
        assert Decided(p, s, was, k);
        assert now[k] == was[k];
      }
    }
  }

  /** At the first action of a group the whole group is still live. */
  lemma NothingMarked(p: Precedence, s: seq<Action>, m: nat)
    requires Unresolved(s)
    ensures Progress(p, s, s, 0, m) && Conflicts(s) == 0
  {
    NoConflicts(s);
  }

  lemma ReadyToCompare(p: Precedence, s: seq<Action>, now: seq<Action>, i: nat, m: nat)
    requires Unresolved(s) && i < |s| && Progress(p, s, now, i, m)
    ensures MarkedFrom(s, now) && Front(p, s, now, i, if i == 0 || s[i - 1].sp != s[i].sp then i else m)
  {}

  lemma AllDecided(p: Precedence, s: seq<Action>, now: seq<Action>, m: nat)
    requires Progress(p, s, now, |s|, m)
    ensures MarkedFrom(s, now) && forall k | 0 <= k < |s| :: Decided(p, s, now, k)
  {}

  /** One round of the pass: the i-th action is compared with its group. */
  method ResolveOne(p: Precedence, ap: array<Action>, i: nat, ghost s: seq<Action>, ghost m: nat)
    returns (errcnt: nat, ghost m': nat)
    requires p.Valid() && Unresolved(s) && i < |s| == ap.Length && Progress(p, s, ap[..], i, m)
    modifies ap
    ensures Progress(p, s, ap[..], i + 1, m')
    ensures Conflicts(ap[..]) == old(Conflicts(ap[..])) + errcnt
  {
    hide *;
    ReadyToCompare(p, s, ap[..], i, m);
    errcnt, m' := CompareWithRest(p, ap, i, s, if i == 0 || s[i - 1].sp != s[i].sp then i else m);
    ProgressStep(p, s, old(ap[..]), ap[..], i, m, m');
  }

  /** The pairwise pass: afterwards the one live action of each group is its decider. */
  method ResolveAll(p: Precedence, ap: array<Action>) returns (nconflict: nat)
    requires p.Valid() && Unresolved(ap[..])
    modifies ap
    ensures MarkedFrom(old(ap[..]), ap[..])
    ensures forall k | 0 <= k < ap.Length :: Decided(p, old(ap[..]), ap[..], k)
    ensures nconflict == Conflicts(ap[..])
  {
    hide *;
    nconflict := 0;
    ghost var s := ap[..];
    ghost var m: nat := 0;
    NothingMarked(p, s, m);
    for i := 0 to ap.Length
      invariant Progress(p, s, ap[..], i, m)
      invariant nconflict == Conflicts(ap[..])
    {
      var e;
      e, m := ResolveOne(p, ap, i, s, m);
      nconflict := nconflict + e;
    }
    AllDecided(p, s, ap[..], m);
  }

  // ----- what the pass achieves

  /** Different live actions have different lookaheads. */
  ghost predicate OneLive(s: seq<Action>) {
    forall i, k | 0 <= i < |s| && 0 <= k < |s| && s[i].Live() && s[k].Live() && s[i].sp == s[k].sp :: i == k
  }

  lemma {:induction false} SurvivorInGroup(p: Precedence, s: seq<Action>, c: nat, j: nat)
    requires c < j <= |s|
    ensures s[Survivor(p, s, c, j)].sp == s[c].sp
    decreases |s| - j
  {
    if j >= |s| || s[j].sp != s[c].sp {
    } else {
      SurvivorInGroup(p, s, if Beats(p, s[j], s[c]) then j else c, j + 1);
    }
  }

  lemma {:induction false} GroupStartInGroup(s: seq<Action>, k: nat)
    requires k < |s|
    ensures s[GroupStart(s, k)].sp == s[k].sp
  {
    if k == 0 || s[k - 1].sp != s[k].sp {
    } else {
      GroupStartInGroup(s, k - 1);
    }
  }

  lemma DeciderIsLive(p: Precedence, s: seq<Action>, now: seq<Action>, k: nat)
    requires Unresolved(s) && MarkedFrom(s, now) && k < |s|
    requires forall i | 0 <= i < |s| :: Decided(p, s, now, i)
    ensures Decider(p, s, k) < |s| && now[Decider(p, s, k)].Live()
    ensures now[Decider(p, s, k)] == s[Decider(p, s, k)] && s[Decider(p, s, k)].sp == s[k].sp
  {
    hide Survivor, GroupStart, Disputed, Kept;
    var lo, d := GroupStart(s, k), Decider(p, s, k);
    GroupStartInGroup(s, k);
    SurvivorInGroup(p, s, lo, lo + 1);
    if d < k { GroupStartSame(s, d, k); } else { GroupStartSame(s, k, d); }
    assert Decided(p, s, now, d);
  }

  /** Some action on the lookahead is live. */
  ghost predicate HasLive(now: seq<Action>, sp: nat) {
    exists d :: 0 <= d < |now| && now[d].sp == sp && now[d].Live()
  }

  /** After the pairwise pass every lookahead that had an action has exactly one live action. */
  lemma ExactlyOneLive(p: Precedence, s: seq<Action>, now: seq<Action>)
    requires Unresolved(s) && MarkedFrom(s, now)
    requires forall k | 0 <= k < |s| :: Decided(p, s, now, k)
    ensures OneLive(now)
    ensures forall k | 0 <= k < |s| :: HasLive(now, s[k].sp)
  {
    hide Survivor, GroupStart, Disputed, Kept;
    forall i, k | 0 <= i < k < |s| && now[i].Live() && now[k].Live() && now[i].sp == now[k].sp
      ensures false
    {
      assert Decided(p, s, now, i) && Decided(p, s, now, k);
      GroupStartSame(s, i, k);
    }
    forall k | 0 <= k < |s|
      ensures HasLive(now, s[k].sp)
    {
      DeciderIsLive(p, s, now, k);
    }
  }

  /** The action at c is not outranked by the reduction at k, when that has a precedence. */
  predicate Outranks(p: Precedence, s: seq<Action>, c: nat, k: nat)
    requires c < |s| && k < |s|
  {
    s[k].kind == REDUCE && p.RulePrec(s[k].x) >= 0 ==>
      match s[c].kind
      case REDUCE => p.RulePrec(s[k].x) <= p.RulePrec(s[c].x) || p.RulePrec(s[c].x) < 0
      case _ => !Beats(p, s[k], s[c])
  }

  lemma {:induction false} SurvivorOutranks(p: Precedence, s: seq<Action>, lo: nat, c: nat, j: nat, k: nat)
    requires Unresolved(s) && lo <= c < j <= |s|
    requires forall i | lo <= i < j :: s[i].sp == s[c].sp && Outranks(p, s, c, i)
    requires lo <= k < |s| && s[k].sp == s[c].sp
    ensures Outranks(p, s, Survivor(p, s, c, j), k)
    decreases |s| - j
  {
    if j < |s| && s[j].sp == s[c].sp {
      SurvivorOutranks(p, s, lo, if Beats(p, s[j], s[c]) then j else c, j + 1, k);
    } else if j < |s| {
      assert s[c].sp < s[j].sp;
    }
  }

  /**
   No reduction that has a precedence outranks the decider of its lookahead: a
   deciding shift loses to none, a deciding reduction with a precedence has the highest.
   */
  lemma DeciderOutranks(p: Precedence, s: seq<Action>, i: nat, k: nat)
    requires Unresolved(s) && i < |s| && k < |s| && s[i].sp == s[k].sp
    ensures Outranks(p, s, Decider(p, s, i), k)
  {
    var lo := GroupStart(s, i);
    GroupStartInGroup(s, i);
    if k < i { GroupStartSame(s, k, i); } else { GroupStartSame(s, i, k); }
    SurvivorOutranks(p, s, lo, lo, lo + 1, k);
  }

  /** Within the first actions of a group, from f to j, the one at c would be kept. */
  ghost predicate Leads(p: Precedence, s: seq<Action>, f: nat, c: nat, j: nat)
    requires f <= c < j <= |s|
  {
    if s[f].kind == SHIFT && c == f then forall k | f < k < j :: !Beats(p, s[k], s[f])
    else if s[f].kind == REDUCE && p.RulePrec(s[f].x) < 0 then c == f
    else
      && s[c].kind == REDUCE && p.RulePrec(s[c].x) >= 0 && (s[f].kind == SHIFT ==> Beats(p, s[c], s[f]))
      && (forall k | f <= k < j && s[k].kind == REDUCE :: p.RulePrec(s[k].x) <= p.RulePrec(s[c].x))
      && (forall k | f <= k < c && s[k].kind == REDUCE :: p.RulePrec(s[k].x) < p.RulePrec(s[c].x))
  }

  lemma LeadsOn(p: Precedence, s: seq<Action>, f: nat, c: nat, j: nat)
    requires Unresolved(s) && f <= c < j < |s| && s[j].sp == s[f].sp && s[c].sp == s[f].sp
    requires (s[f].kind == SHIFT || s[f].kind == REDUCE) && Leads(p, s, f, c, j)
    ensures Leads(p, s, f, if Beats(p, s[j], s[c]) then j else c, j + 1)
  {}

  lemma {:induction false} LeadsToEnd(p: Precedence, s: seq<Action>, f: nat, c: nat, j: nat) returns (hi: nat)
    requires Unresolved(s) && f <= c < j <= |s| && (s[f].kind == SHIFT || s[f].kind == REDUCE)
    requires (forall k | f <= k < j :: s[k].sp == s[f].sp) && Leads(p, s, f, c, j)
    ensures j <= hi <= |s| && Survivor(p, s, c, j) < hi && Leads(p, s, f, Survivor(p, s, c, j), hi)
    ensures forall k | f <= k < |s| && s[k].sp == s[f].sp :: k < hi
    ensures forall k | f <= k < hi :: s[k].sp == s[f].sp
    decreases |s| - j
  {
    hide Leads, Beats;
    if j < |s| && s[j].sp == s[c].sp {
      LeadsOn(p, s, f, c, j);
      hi := LeadsToEnd(p, s, f, if Beats(p, s[j], s[c]) then j else c, j + 1);
    } else {
      hi := j;
      assert forall k | j < k < |s| :: s[f].sp < s[j].sp <= s[k].sp;
    }
  }

  /**
   Which of the actions on a lookahead is kept, f being the first of them: a shift unless a
   reduction has a higher precedence, or the same on a token that associates to the left;
   else the earliest reduction of the greatest precedence; but without a shift the first
   reduction, if it has no precedence.
   */
  lemma DeciderByPrecedence(p: Precedence, s: seq<Action>, f: nat, i: nat)
    requires Unresolved(s) && f < |s| && i < |s| && s[i].sp == s[f].sp && forall k | 0 <= k < f :: s[k].sp != s[f].sp
    ensures var sp, d := s[f].sp, Decider(p, s, i);
            && f <= d < |s| && s[d].sp == sp
            && (s[f].kind == SHIFT ==>
                  (d == f <==>
                   forall k | f < k < |s| && s[k].sp == sp ::
                     var r := p.RulePrec(s[k].x);
                     p.prec(sp) < 0 || r < 0 || r < p.prec(sp) || (r == p.prec(sp) && p.assoc(sp) != LEFT)))
            && (s[f].kind == REDUCE && p.RulePrec(s[f].x) < 0 ==> d == f)
            && ((s[f].kind == SHIFT && d != f) || (s[f].kind == REDUCE && p.RulePrec(s[f].x) >= 0) ==>
                  && s[d].kind == REDUCE && p.RulePrec(s[d].x) >= 0
                  && forall k | f <= k < |s| && s[k].sp == sp && s[k].kind == REDUCE ::
                       p.RulePrec(s[k].x) <= p.RulePrec(s[d].x) &&
                       (k < d ==> p.RulePrec(s[k].x) < p.RulePrec(s[d].x)))
  {
    GroupStartSame(s, f, i);
    assert GroupStart(s, i) == f;
    if s[f].kind == SHIFT || s[f].kind == REDUCE {
      var hi := LeadsToEnd(p, s, f, f, f + 1);
    } else {
      SurvivorInGroup(p, s, f, f + 1);
    }
  }

  // ----- which losers are conflicts

  /** Nothing that comes later changes which of the first actions is kept. */
  lemma {:induction false} KeptInPrefix(p: Precedence, s: seq<Action>, n: nat, k: nat)
    requires k < n <= |s|
    ensures Kept(p, s[..n], k) == Kept(p, s, k)
  {
    if k == 0 || s[k - 1].sp != s[k].sp {
    } else {
      KeptInPrefix(p, s, n, k - 1);
    }
  }

  lemma {:induction false} KeptInGroup(p: Precedence, s: seq<Action>, k: nat)
    requires k < |s|
    ensures s[Kept(p, s, k)].sp == s[k].sp
  {
    if k == 0 || s[k - 1].sp != s[k].sp {
    } else {
      KeptInGroup(p, s, k - 1);
    }
  }

  lemma {:induction false} SurvivorIsKept(p: Precedence, t: seq<Action>, i: nat)
    requires i < |t| && forall k | i <= k < |t| :: t[k].sp == t[i].sp
    ensures Survivor(p, t, Kept(p, t, i), i + 1) == Kept(p, t, |t| - 1)
    ensures t[Kept(p, t, i)].sp == t[i].sp
    decreases |t| - i
  {
    KeptInGroup(p, t, i);
    if i + 1 == |t| {
    } else {
      SurvivorIsKept(p, t, i + 1);
    }
  }

  lemma {:induction false} GroupTogether(s: seq<Action>, k: nat)
    requires k < |s|
    ensures forall i | GroupStart(s, k) <= i <= k :: s[i].sp == s[k].sp
    ensures var f := GroupStart(s, k); f == 0 || s[f - 1].sp != s[f].sp
  {
    if k == 0 || s[k - 1].sp != s[k].sp {
    } else {
      GroupTogether(s, k - 1);
    }
  }

  /** What is kept of the actions up to the k-th is what decides if there are no others. */
  lemma KeptIsDecider(p: Precedence, s: seq<Action>, k: nat)
    requires k < |s|
    ensures Kept(p, s, k) == Decider(p, s[..k + 1], k)
  {
    var t := s[..k + 1];
    var f := GroupStart(t, k);
    GroupTogether(t, k);
    SurvivorIsKept(p, t, f);
    KeptInPrefix(p, s, k + 1, k);
  }

  /**
   An action is counted as a conflict exactly if it or the action d that decides among those
   before it has no precedence, or both have the same and d is a reduction, or a shift of a
   token that does not associate.
   */
  lemma ConflictsExact(p: Precedence, s: seq<Action>, now: seq<Action>, k: nat)
    requires Unresolved(s) && 0 < k < |s| == |now| && s[k - 1].sp == s[k].sp && Decided(p, s, now, k)
    ensures Unresolved(s[..k]) && Decider(p, s[..k], k - 1) < k
    ensures var d := s[Decider(p, s[..k], k - 1)];
            var u, v := if d.kind == SHIFT then p.prec(d.sp) else p.RulePrec(d.x), p.RulePrec(s[k].x);
            now[k].kind == CONFLICT <==>
            u < 0 || v < 0 || (u == v && (d.kind == REDUCE || p.assoc(d.sp) == NONE))
  {
    hide Survivor, GroupStart, Decider, Kept, Beats;
    KeptIsDecider(p, s, k - 1);
    KeptInGroup(p, s, k - 1);
    assert Disputed(p, s, k) <==> Clash(p, s[Decider(p, s[..k], k - 1)], s[k]);
  }

  /** The first action on a lookahead is never counted. */
  lemma FirstUncounted(p: Precedence, s: seq<Action>, now: seq<Action>, k: nat)
    requires k < |s| == |now| && (k == 0 || s[k - 1].sp != s[k].sp) && Decided(p, s, now, k)
    ensures now[k].kind != CONFLICT
  {}

  // ----- default reductions

  predicate Reduces(a: Action, r: nat) {
    a.kind == REDUCE && a.x == r
  }

  /** How many actions from the k-th on reduce by rule r. */
  function CountFrom(s: seq<Action>, k: nat, r: nat): nat
    requires k <= |s|
    decreases |s| - k
  {
    if k == |s| then 0 else CountFrom(s, k + 1, r) + if Reduces(s[k], r) then 1 else 0
  }

  lemma {:induction false} CountFromSkip(s: seq<Action>, i: nat, k: nat, r: nat)
    requires i <= k <= |s|
    ensures CountFrom(s, k, r) <= CountFrom(s, i, r)
    ensures (forall j | i <= j < k :: !Reduces(s[j], r)) ==> CountFrom(s, i, r) == CountFrom(s, k, r)
    ensures (exists j :: i <= j < k && Reduces(s[j], r)) ==> CountFrom(s, k, r) < CountFrom(s, i, r)
    decreases k - i
  {
    if i >= k {
    } else {
      CountFromSkip(s, i + 1, k, r);
    }
  }

  /** The places from the k-th on at which the actions reduce by rule r. */
  ghost function PlacesOf(s: seq<Action>, k: nat, r: nat): set<nat> {
    set i: nat | k <= i < |s| && s[i].kind == REDUCE && s[i].x == r
  }

  lemma {:induction false} CountIsCardinality(s: seq<Action>, k: nat, r: nat)
    requires k <= |s|
    ensures CountFrom(s, k, r) == |PlacesOf(s, k, r)|
    decreases |s| - k
  {
    if k == |s| {
      assert PlacesOf(s, k, r) == {};
    } else {
      CountIsCardinality(s, k + 1, r);
      var here: set<nat> := if s[k].kind == REDUCE && s[k].x == r then {k} else {};
      assert PlacesOf(s, k, r) == PlacesOf(s, k + 1, r) + here;
    }
  }

  /** The first action that reduces by r becomes the default; the others are dropped. */
  ghost predicate Defaulted(s: seq<Action>, now: seq<Action>, dflt: nat, r: nat, first: nat) {
    && |now| == |s| && first < |s| && Reduces(s[first], r)
    && forall k | 0 <= k < |s| ::
         now[k] == if k == first then s[k].(sp := dflt) else if Reduces(s[k], r) then s[k].(kind := NOT_USED) else s[k]
  }

  /** Rule r is the most frequent reduction, and occurs at least twice. */
  ghost predicate MostFrequent(s: seq<Action>, r: nat) {
    CountFrom(s, 0, r) >= 2 && forall q: nat :: CountFrom(s, 0, q) <= CountFrom(s, 0, r)
  }

  ghost predicate Compressed(s: seq<Action>, now: seq<Action>, dflt: nat, best: Option<nat>) {
    match best
    case None => now == s && forall r: nat :: CountFrom(s, 0, r) < 2
    case Some(r) => MostFrequent(s, r) && exists first :: Defaulted(s, now, dflt, r, first)
  }

  lemma TwoPlacesCounted(s: seq<Action>, i: nat, k: nat)
    requires i < k < |s| && s[i].kind == REDUCE && s[k].kind == REDUCE && s[i].x == s[k].x
    ensures CountFrom(s, 0, s[i].x) >= 2
  {
    var r := s[i].x;
    CountFromSkip(s, 0, i, r);
    CountFromSkip(s, i, i + 1, r);
    CountFromSkip(s, i + 1, k, r);
    CountFromSkip(s, k, k + 1, r);
  }

  /** The position of the first reduction by r from k on, or the end. */
  function FirstReduction(s: seq<Action>, k: nat, r: nat): (f: nat)
    requires k <= |s|
    ensures k <= f <= |s| && forall j | k <= j < f :: !Reduces(s[j], r)
    ensures f < |s| ==> Reduces(s[f], r)
    decreases |s| - k
  {
    if k == |s| || Reduces(s[k], r) then k else FirstReduction(s, k + 1, r)
  }

  /**
   A state gets a default exactly if it has two reductions by one rule; then it is by a rule
   of which it has the most.
   */
  lemma DefaultExact(s: seq<Action>, now: seq<Action>, dflt: nat, best: Option<nat>)
    requires Compressed(s, now, dflt, best)
    ensures best.Some? <==>
            exists i, k :: 0 <= i < k < |s| && s[i].kind == REDUCE && s[k].kind == REDUCE && s[i].x == s[k].x
    ensures best.Some? ==> forall q: nat :: |PlacesOf(s, 0, q)| <= |PlacesOf(s, 0, best.value)|
  {
    if i: nat, k: nat :| i < k < |s| && s[i].kind == REDUCE && s[k].kind == REDUCE && s[i].x == s[k].x {
      TwoPlacesCounted(s, i, k);
    }
    if best.Some? {
      var r := best.value;
      var i := FirstReduction(s, 0, r);
      CountFromSkip(s, 0, i, r);
      var k := FirstReduction(s, i + 1, r);
      CountFromSkip(s, i + 1, k, r);
      forall q: nat
        ensures |PlacesOf(s, 0, q)| <= |PlacesOf(s, 0, r)|
      {
        CountIsCardinality(s, 0, q);
        CountIsCardinality(s, 0, r);
      }
    }
  }

  /** An action that beats all earlier counts is the first with its rule. */
  lemma FirstOfItsRule(s: seq<Action>, i: nat, nbest: nat)
    requires i < |s| && s[i].kind == REDUCE && CountFrom(s, i, s[i].x) > nbest
    requires forall k | 0 <= k < i && s[k].kind == REDUCE :: CountFrom(s, k, s[k].x) <= nbest
    ensures CountFrom(s, i, s[i].x) == CountFrom(s, 0, s[i].x)
  {
    forall k | 0 <= k < i
      ensures !Reduces(s[k], s[i].x)
    {
      CountFromSkip(s, k, i, s[i].x);
    }
    CountFromSkip(s, 0, i, s[i].x);
  }

  /** Finds the most frequent reduction. */
  method CountBest(ap: array<Action>) returns (nbest: nat, rbest: nat)
    ensures nbest > 0 ==> nbest == CountFrom(ap[..], 0, rbest)
    ensures forall r: nat :: CountFrom(ap[..], 0, r) <= nbest
  {
    nbest, rbest := 0, 0;
    ghost var s := ap[..];
    for i := 0 to ap.Length
      invariant nbest > 0 ==> nbest == CountFrom(s, 0, rbest)
      invariant forall k | 0 <= k < i && s[k].kind == REDUCE :: CountFrom(s, k, s[k].x) <= nbest
    {
      if ap[i].kind != REDUCE {
        continue;
      }
      var rp := ap[i].x;
      if nbest > 0 && rp == rbest {
        CountFromSkip(s, 0, i, rp);
        continue;
      }
      var n := 1;
      for j := i + 1 to ap.Length
        invariant n + CountFrom(s, j, rp) == CountFrom(s, i, rp)
      {
        if ap[j].kind != REDUCE || (nbest > 0 && ap[j].x == rbest) {
          continue;
        }
        if ap[j].x == rp {
          n := n + 1;
        }
      }
      if n > nbest {
        FirstOfItsRule(s, i, nbest);
        nbest := n;
        rbest := rp;
      }
    }
    forall r: nat
      ensures CountFrom(s, 0, r) <= nbest
    {
      var k := FirstReduction(s, 0, r);
      CountFromSkip(s, 0, k, r);
    }
  }

  /** Makes the most frequent reduction of a state its default, when it occurs at least twice. */
  method CompressState(ap: array<Action>, dflt: nat) returns (best: Option<nat>)
    modifies ap
    ensures Compressed(old(ap[..]), ap[..], dflt, best)
  {
    ghost var s := ap[..];
    var nbest, rbest := CountBest(ap);
    if nbest < 2 {
      return None;
    }
    var i := 0;
    while i < ap.Length && !(ap[i].kind == REDUCE && ap[i].x == rbest)
      invariant 0 <= i <= ap.Length
      invariant forall k | 0 <= k < i :: !Reduces(s[k], rbest)
    {
      i := i + 1;
    }
    CountFromSkip(s, 0, i, rbest);
    ap[i] := ap[i].(sp := dflt);
    var first := i;
    i := i + 1;
    while i < ap.Length
      invariant first < i <= ap.Length && Reduces(s[first], rbest)
      invariant forall k | 0 <= k < i ::
                  ap[k] == if k == first then s[k].(sp := dflt)
                      else if Reduces(s[k], rbest) then s[k].(kind := NOT_USED) else s[k]
      invariant forall k | i <= k < ap.Length :: ap[k] == s[k]
    {
      if ap[i].kind == REDUCE && ap[i].x == rbest {
        ap[i] := ap[i].(kind := NOT_USED);
      }
      i := i + 1;
    }
    best := Some(rbest);
    assert MostFrequent(s, rbest) && Defaulted(s, ap[..], dflt, rbest, first);
  }

  /** The live action for a lookahead. */
  function Find(s: seq<Action>, sp: nat): (a: Option<Action>)
    ensures a.Some? ==> a.value in s && a.value.Live() && a.value.sp == sp
    ensures a.None? ==> forall k | 0 <= k < |s| :: !(s[k].Live() && s[k].sp == sp)
  {
    if s == [] then None else if s[0].Live() && s[0].sp == sp then Some(s[0]) else Find(s[1..], sp)
  }

  /** What the parser does on a lookahead: its own action, else the default, else an error. */
  function Decide(s: seq<Action>, sp: nat, dflt: nat): Option<(Kind, nat)> {
    match Find(s, sp)
    case Some(a) => Some((a.kind, a.x))
    case None =>
      match Find(s, dflt)
      case Some(a) => Some((a.kind, a.x))
      case None => None
  }

  lemma FindNone(s: seq<Action>, sp: nat)
    requires forall k | 0 <= k < |s| :: !(s[k].Live() && s[k].sp == sp)
    ensures Find(s, sp) == None
  {
  }

  lemma FindThe(s: seq<Action>, k: nat)
    requires OneLive(s) && k < |s| && s[k].Live()
    ensures Find(s, s[k].sp) == Some(s[k])
  {}

  /** A lookahead whose reduction was dropped has no action of its own left. */
  lemma DroppedLookahead(s: seq<Action>, now: seq<Action>, dflt: nat, r: nat, first: nat, k: nat)
    requires OneLive(s) && Defaulted(s, now, dflt, r, first)
    requires k < |s| && Reduces(s[k], r) && s[k].sp != dflt
    ensures Find(now, s[k].sp) == None
  {}

  /** What is found after compression: the default is the most frequent reduction, which has no entries left. */
  lemma CompressedFind(s: seq<Action>, now: seq<Action>, dflt: nat, best: Option<nat>, sp: nat)
    requires OneLive(s) && Compressed(s, now, dflt, best)
    requires sp != dflt && forall k | 0 <= k < |s| :: s[k].sp != dflt
    ensures OneLive(now)
    ensures Find(now, sp) == match Find(s, sp)
                             case Some(a) => if a.kind == REDUCE && best == Some(a.x) then None else Some(a)
                             case None => None
    ensures Find(now, dflt) == if best.Some? then Some(Action(dflt, REDUCE, best.value)) else None
  {
    if best.Some? {
      var r := best.value;
      var first :| Defaulted(s, now, dflt, r, first);
      FindThe(now, first);
      if Find(s, sp).Some? {
        var k :| 0 <= k < |s| && s[k] == Find(s, sp).value;
        if Reduces(s[k], r) {
          DroppedLookahead(s, now, dflt, r, first, k);
        } else {
          FindThe(now, k);
        }
      } else {
        FindNone(now, sp);
      }
    } else {
      FindNone(now, dflt);
    }
  }

  /**
   Compression keeps every decision: where a lookahead had an action, the same action is
   taken; only lookaheads that had none, errors, now get the default reduction.
   */
  lemma CompressKeeps(s: seq<Action>, now: seq<Action>, dflt: nat, best: Option<nat>, sp: nat)
    requires OneLive(s) && Compressed(s, now, dflt, best)
    requires sp != dflt && forall k | 0 <= k < |s| :: s[k].sp != dflt
    ensures OneLive(now)
    ensures Find(s, sp).Some? ==> Decide(now, sp, dflt) == Some((Find(s, sp).value.kind, Find(s, sp).value.x))
    ensures Find(s, sp).None? ==> Decide(now, sp, dflt) == if best.Some? then Some((REDUCE, best.value)) else None
  {
    CompressedFind(s, now, dflt, best, sp);
  }

  /** Sorting the actions again does not change what is found for a lookahead. */
  lemma SortKeepsLookup(s: seq<Action>, t: seq<Action>, sp: nat)
    requires multiset(s) == multiset(t) && OneLive(s)
    ensures Find(t, sp) == Find(s, sp)
  {
    var a, b := Find(s, sp), Find(t, sp);
    if b.Some? {
      assert b.value in multiset(t);
      var k :| 0 <= k < |s| && s[k] == b.value;
      FindThe(s, k);
    } else {
      assert forall k | 0 <= k < |s| :: s[k] in multiset(t);
      FindNone(s, sp);
    }
  }
}
