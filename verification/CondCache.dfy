/**
 The memoised evaluation of nested if/else conditions (configfile-glue.c). Answers
 equal a declarative three-valued meaning as long as the set of known fields stays
 fixed after a reset; at most one branch of a chain is ever true.
 */
module CondCache {
  import opened Wrappers

  datatype Result = Unset | False | True

  /**
   A condition block. The parent is 0 for blocks at the top; prev and next are the
   neighbours in a chain of if, else if, else. The field is what the test looks at.
   */
  datatype Block = Block(parent: nat, prev: Option<nat>, next: Option<nat>, field: nat)

  predicate PrevOk(blocks: seq<Block>, x: nat, p: nat) {
    0 < p < x < |blocks| && blocks[p].parent == blocks[x].parent && blocks[p].next == Some(x)
  }

  /** Blocks are numbered as they appear: parents and earlier branches have smaller numbers. */
  predicate WellFormed(blocks: seq<Block>) {
    forall x | 0 <= x < |blocks| ::
      && (blocks[x].parent < x || blocks[x].parent == 0)
      && (blocks[x].prev.Some? ==> PrevOk(blocks, x, blocks[x].prev.value))
      && (blocks[x].next.Some? ==> blocks[x].next.value < |blocks| && blocks[blocks[x].next.value].prev == Some(x))
  }

  /** Branch e comes before branch x in the same chain. */
  predicate Earlier(blocks: seq<Block>, e: nat, x: nat)
    requires WellFormed(blocks) && x < |blocks|
    decreases x
  {
    blocks[x].prev.Some? && (blocks[x].prev.value == e || Earlier(blocks, e, blocks[x].prev.value))
  }

  lemma {:induction false} EarlierIsLess(blocks: seq<Block>, e: nat, x: nat)
    requires WellFormed(blocks) && x < |blocks| && Earlier(blocks, e, x)
    ensures 0 < e < x && blocks[e].parent == blocks[x].parent
    decreases x
  {
    var p := blocks[x].prev.value;
    if p == e {
    } else {
      EarlierIsLess(blocks, e, p);
    }
  }

  lemma {:induction false} EarlierTrans(blocks: seq<Block>, e: nat, x: nat, y: nat)
    requires WellFormed(blocks) && x < |blocks| && y < |blocks| && Earlier(blocks, e, x) && Earlier(blocks, x, y)
    ensures Earlier(blocks, e, y)
    decreases y
  {
    var p := blocks[y].prev.value;
    if p == x {
    } else {
      EarlierTrans(blocks, e, x, p);
    }
  }

  /** Two branches before the same one are one before the other. */
  lemma {:induction false} EarlierTotal(blocks: seq<Block>, e: nat, x: nat, y: nat)
    requires WellFormed(blocks) && y < |blocks| && Earlier(blocks, e, y) && Earlier(blocks, x, y) && e != x
    ensures x < |blocks| && e < |blocks| && (Earlier(blocks, e, x) || Earlier(blocks, x, e))
    decreases y
  {
    EarlierIsLess(blocks, e, y);
    EarlierIsLess(blocks, x, y);
    var p := blocks[y].prev.value;
    if p == x || p == e {
    } else {
      EarlierTotal(blocks, e, x, p);
    }
  }

  /** The branches after one are the next one and those after that. */
  lemma {:induction false} EarlierNext(blocks: seq<Block>, e: nat, y: nat)
    requires WellFormed(blocks) && e < |blocks| && y < |blocks|
    ensures Earlier(blocks, e, y) <==>
            blocks[e].next.Some? && (y == blocks[e].next.value || Earlier(blocks, blocks[e].next.value, y))
    decreases y
  {
    if blocks[y].prev.None? {
    } else {
      EarlierNext(blocks, e, blocks[y].prev.value);
    }
  }

  // ----- the meaning of a block

  /**
   What a block means when the fields in `known` are known: it needs its parent; a branch
   that is true excludes the later ones; the test of an unknown field decides nothing.
   */
  function Meaning(blocks: seq<Block>, test: nat -> bool, known: set<nat>, x: nat): Result
    requires WellFormed(blocks) && x < |blocks|
    decreases x
  {
    var p := blocks[x].parent;
    if p != 0 && Meaning(blocks, test, known, p) != True then Meaning(blocks, test, known, p)
    else if exists e | 0 <= e < x :: Earlier(blocks, e, x) && Meaning(blocks, test, known, e) == True then False
    else if blocks[x].field !in known then Unset
    else if test(x) then True else False
  }

  /** The plain meaning of if, else if and else. */
  predicate Holds(blocks: seq<Block>, test: nat -> bool, x: nat)
    requires WellFormed(blocks) && x < |blocks|
    decreases x
  {
    && (blocks[x].parent != 0 ==> Holds(blocks, test, blocks[x].parent))
    && (forall e | 0 <= e < x :: Earlier(blocks, e, x) ==> !Holds(blocks, test, e))
    && test(x)
  }

  /** Some branch up to one whose test succeeds holds. */
  lemma SomeHolds(blocks: seq<Block>, test: nat -> bool, x: nat) returns (e: nat)
    requires WellFormed(blocks) && x < |blocks| && test(x)
    requires blocks[x].parent == 0 || Holds(blocks, test, blocks[x].parent)
    ensures e < |blocks| && (e == x || Earlier(blocks, e, x)) && Holds(blocks, test, e)
  {
    if Holds(blocks, test, x) {
      e := x;
    } else {
      e :| 0 <= e < x && Earlier(blocks, e, x) && Holds(blocks, test, e);
    }
  }

  /** Of a chain inside a block that holds, the first branch whose test succeeds holds, and no other. */
  lemma HoldsExact(blocks: seq<Block>, test: nat -> bool, x: nat)
    requires WellFormed(blocks) && x < |blocks|
    ensures Holds(blocks, test, x) <==>
            && (blocks[x].parent == 0 || Holds(blocks, test, blocks[x].parent))
            && test(x) && forall e | 0 <= e < x && Earlier(blocks, e, x) :: !test(e)
  {
    if Holds(blocks, test, x) {
      forall e | 0 <= e < x && Earlier(blocks, e, x)
        ensures !test(e)
      {
        EarlierIsLess(blocks, e, x);
        if test(e) {
          var d := SomeHolds(blocks, test, e);
          EarlierIsLess(blocks, d, if d == e then x else e);
          if d != e { EarlierTrans(blocks, d, e, x); }
        }
      }
    }
  }

  /** With all fields known every block is decided, and true exactly if it plainly holds. */
  lemma {:induction false} MeaningIsHolds(blocks: seq<Block>, test: nat -> bool, known: set<nat>, x: nat)
    requires WellFormed(blocks) && x < |blocks| && forall i | 0 <= i < |blocks| :: blocks[i].field in known
    ensures Meaning(blocks, test, known, x) == if Holds(blocks, test, x) then True else False
    decreases x
  {
    if blocks[x].parent != 0 {
      MeaningIsHolds(blocks, test, known, blocks[x].parent);
    }
    forall e | 0 <= e < x
      ensures Meaning(blocks, test, known, e) == if Holds(blocks, test, e) then True else False
    {
      MeaningIsHolds(blocks, test, known, e);
    }
  }

  lemma OneTrue(blocks: seq<Block>, test: nat -> bool, known: set<nat>, e: nat, x: nat)
    requires WellFormed(blocks) && x < |blocks| && e < |blocks| && Earlier(blocks, e, x)
    requires Meaning(blocks, test, known, e) == True
    ensures Meaning(blocks, test, known, x) == False
  {
    EarlierIsLess(blocks, e, x);
  }

  // ----- answers while fields become known

  /** The branches before x are false. */
  predicate EarlierFalse(blocks: seq<Block>, test: nat -> bool, known: set<nat>, x: nat)
    requires WellFormed(blocks) && x < |blocks|
  {
    forall e | 0 <= e < x :: Earlier(blocks, e, x) ==> Meaning(blocks, test, known, e) == False
  }

  /** The fields of the branches before x are known. */
  predicate EarlierKnown(blocks: seq<Block>, known: set<nat>, x: nat)
    requires WellFormed(blocks) && x < |blocks|
  {
    forall e | 0 <= e < x :: Earlier(blocks, e, x) ==> blocks[e].field in known
  }

  /** So are those of the branches before each block that x is nested in. */
  predicate Firm(blocks: seq<Block>, known: set<nat>, x: nat)
    requires WellFormed(blocks) && x < |blocks|
    decreases x
  {
    EarlierKnown(blocks, known, x) && (blocks[x].parent != 0 ==> Firm(blocks, known, blocks[x].parent))
  }

  /** The tests agree where the field is known: an unknown one has not been looked at. */
  predicate SameWhereKnown(blocks: seq<Block>, test: nat -> bool, other: nat -> bool, known: set<nat>) {
    forall i | 0 <= i < |blocks| && blocks[i].field in known :: test(i) == other(i)
  }

  /** An else branch that is true has only false branches before it, if and only if all their fields are known. */
  lemma ElseAfterFalse(blocks: seq<Block>, test: nat -> bool, known: set<nat>, x: nat)
    requires WellFormed(blocks) && x < |blocks| && Meaning(blocks, test, known, x) == True
    ensures EarlierFalse(blocks, test, known, x) <==> EarlierKnown(blocks, known, x)
  {
    forall e | 0 <= e < x && Earlier(blocks, e, x)
      ensures Meaning(blocks, test, known, e) == False <==> blocks[e].field in known
    {
      EarlierIsLess(blocks, e, x);
      forall d | 0 <= d < e && Earlier(blocks, d, e) ensures Meaning(blocks, test, known, d) != True {
        EarlierTrans(blocks, d, e, x);
      }
    }
  }

  /** A decided block stays decided while fields become known, and a false one stays false. */
  lemma {:induction false} FalseStays(blocks: seq<Block>, test: nat -> bool, known: set<nat>, more: set<nat>, x: nat)
    requires WellFormed(blocks) && x < |blocks| && known <= more && Meaning(blocks, test, known, x) != Unset
    ensures Meaning(blocks, test, more, x) != Unset
    ensures Meaning(blocks, test, known, x) == False ==> Meaning(blocks, test, more, x) == False
    decreases x
  {
    var p := blocks[x].parent;
    if p != 0 {
      FalseStays(blocks, test, known, more, p);
    }
    if (p != 0 && Meaning(blocks, test, more, p) != True) || (p != 0 && Meaning(blocks, test, known, p) != True) {
      // The parent decides it.
    } else if e :| 0 <= e < x && Earlier(blocks, e, x) && Meaning(blocks, test, known, e) == True {
      FalseStays(blocks, test, known, more, e);
      EarlierIsLess(blocks, e, x);
      if Meaning(blocks, test, more, e) == True {
        OneTrue(blocks, test, more, e, x);
      } else {
        var d :| 0 <= d < e && Earlier(blocks, d, e) && Meaning(blocks, test, more, d) == True;
        EarlierTrans(blocks, d, e, x);
        OneTrue(blocks, test, more, d, x);
      }
    }
  }

  /** What rests on known fields alone keeps its meaning, whatever the unknown ones turn out to be. */
  lemma {:induction false} FirmStays(blocks: seq<Block>, test: nat -> bool, known: set<nat>, other: nat -> bool,
                                     more: set<nat>, x: nat)
    requires WellFormed(blocks) && x < |blocks| && known <= more && SameWhereKnown(blocks, test, other, known)
    requires Firm(blocks, known, x) && blocks[x].field in known
    requires blocks[x].parent == 0 || Meaning(blocks, test, known, blocks[x].parent) == True
    ensures Meaning(blocks, other, more, x) == Meaning(blocks, test, known, x)
    decreases x
  {
    if blocks[x].parent != 0 {
      FirmStays(blocks, test, known, other, more, blocks[x].parent);
    }
    forall e | 0 <= e < x && Earlier(blocks, e, x)
      ensures Meaning(blocks, other, more, e) == Meaning(blocks, test, known, e)
    {
      EarlierIsLess(blocks, e, x);
      forall d | 0 <= d < e && Earlier(blocks, d, e) ensures blocks[d].field in known {
        EarlierTrans(blocks, d, e, x);
      }
      FirmStays(blocks, test, known, other, more, e);
    }
  }

  /** What is unknown holds. */
  function Optimist(blocks: seq<Block>, test: nat -> bool, known: set<nat>): nat -> bool {
    (i: nat) => if i < |blocks| && blocks[i].field !in known then true else test(i)
  }

  /** With every field known, and the unknown ones satisfied, only firm blocks are true. */
  lemma {:induction false} OptimistFirm(blocks: seq<Block>, test: nat -> bool, known: set<nat>, x: nat)
    requires WellFormed(blocks) && x < |blocks| && Holds(blocks, Optimist(blocks, test, known), x)
    ensures Firm(blocks, known, x)
    decreases x
  {
    var all := Optimist(blocks, test, known);
    if blocks[x].parent != 0 {
      OptimistFirm(blocks, test, known, blocks[x].parent);
    }
    forall e | 0 <= e < x && Earlier(blocks, e, x) ensures blocks[e].field in known {
      EarlierIsLess(blocks, e, x);
      assert !Holds(blocks, all, e);
      forall d | 0 <= d < e && Earlier(blocks, d, e) ensures !Holds(blocks, all, d) {
        EarlierTrans(blocks, d, e, x);
      }
    }
  }

  /** A true answer outlasts every outcome of the unknown tests. */
  ghost predicate TrueForGood(blocks: seq<Block>, test: nat -> bool, known: set<nat>, x: nat)
    requires WellFormed(blocks) && x < |blocks|
  {
    forall other: nat -> bool, more: set<nat> | known <= more && SameWhereKnown(blocks, test, other, known) ::
      Meaning(blocks, other, more, x) == True
  }

  /**
   A true answer is final if and only if the branches before it, and before the blocks around it, have known
   fields.
   */
  lemma TrueForGoodIff(blocks: seq<Block>, test: nat -> bool, known: set<nat>, x: nat)
    requires WellFormed(blocks) && x < |blocks| && Meaning(blocks, test, known, x) == True
    ensures TrueForGood(blocks, test, known, x) <==> Firm(blocks, known, x)
  {
    if Firm(blocks, known, x) {
      forall other: nat -> bool, more: set<nat> | known <= more && SameWhereKnown(blocks, test, other, known)
        ensures Meaning(blocks, other, more, x) == True
      {
        FirmStays(blocks, test, known, other, more, x);
      }
    }
    if TrueForGood(blocks, test, known, x) {
      var other := Optimist(blocks, test, known);
      var more := known + set i | 0 <= i < |blocks| :: blocks[i].field;
      assert Meaning(blocks, other, more, x) == True;
      MeaningIsHolds(blocks, other, more, x);
      OptimistFirm(blocks, test, known, x);
    }
  }

  /** An if on field 0 and its else branch, on field 1. */
  const TWO_BRANCHES := [Block(0, None, None, 0), Block(0, None, Some(2), 0), Block(0, Some(1), None, 1)]

  lemma TwoBranches()
    ensures WellFormed(TWO_BRANCHES) && Earlier(TWO_BRANCHES, 1, 2)
    ensures forall e: nat, x: nat | e < 3 && x < 3 :: Earlier(TWO_BRANCHES, e, x) <==> e == 1 && x == 2
  {
    forall e: nat, x: nat | e < 3 && x < 3
      ensures Earlier(TWO_BRANCHES, e, x) <==> e == 1 && x == 2
    {
      assert x < 2 ==> TWO_BRANCHES[x].prev == None;
    }
  }

  /** Such a change, when all tests hold: the second branch is true, then the field of the first becomes known. */
  lemma EarlyAnswerCanChange(test: nat -> bool)
    requires test(1) && test(2)
    ensures WellFormed(TWO_BRANCHES)
    ensures Meaning(TWO_BRANCHES, test, {1}, 2) == True && Meaning(TWO_BRANCHES, test, {0, 1}, 2) == False
  {
    TwoBranches();
    hide Earlier, WellFormed;
    assert Meaning(TWO_BRANCHES, test, {1}, 1) == Unset && Meaning(TWO_BRANCHES, test, {0, 1}, 1) == True;
    OneTrue(TWO_BRANCHES, test, {0, 1}, 1, 2);
  }

  // ----- what a cache keeps

  /** A true branch makes all later ones of its chain false. */
  ghost predicate Exclusive(blocks: seq<Block>, cache: seq<Result>)
    requires WellFormed(blocks) && |cache| == |blocks|
  {
    forall e, x | 0 <= e < |blocks| && 0 <= x < |blocks| && cache[e] == True && Earlier(blocks, e, x) ::
        cache[x] == False
  }

  /** At most one branch of a chain is true. */
  ghost predicate OneTrueEach(blocks: seq<Block>, cache: seq<Result>)
    requires WellFormed(blocks) && |cache| == |blocks|
  {
    forall e, x | 0 <= e < |blocks| && 0 <= x < |blocks| && Earlier(blocks, e, x) ::
        !(cache[e] == True && cache[x] == True)
  }

  lemma ExclusiveOneTrue(blocks: seq<Block>, cache: seq<Result>)
    requires WellFormed(blocks) && |cache| == |blocks| && Exclusive(blocks, cache)
    ensures OneTrueEach(blocks, cache)
  {}

  /**
   Block x depends on the field, as far as the cache has noted it: it notes the field of a block that it has
   evaluated.
   */
  predicate DependsOn(blocks: seq<Block>, seen: seq<bool>, field: nat, x: nat)
    requires |seen| == |blocks| && x < |blocks|
  {
    seen[x] && blocks[x].field == field
  }

  /** The cache after the answers that depend on one field have been forgotten. */
  ghost predicate ItemReset(blocks: seq<Block>, seen: seq<bool>, was: seq<Result>, cache: seq<Result>, field: nat)
    requires |cache| == |was| == |seen| == |blocks|
  {
    forall x | 0 <= x < |blocks| :: cache[x] == if DependsOn(blocks, seen, field, x) then Unset else was[x]
  }

  /** The field is that of a branch which a true one, of another field, has made false. */
  ghost predicate Torn(blocks: seq<Block>, seen: seq<bool>, was: seq<Result>, field: nat)
    requires WellFormed(blocks) && |was| == |seen| == |blocks|
  {
    exists e, x | 0 <= e < |blocks| && 0 <= x < |blocks| ::
      Earlier(blocks, e, x) && was[e] == True && !DependsOn(blocks, seen, field, e) && DependsOn(blocks, seen, field, x)
  }

  /** Forgetting the answers of one field keeps chains exclusive if and only if it tears none apart. */
  lemma ItemResetExclusiveIff(blocks: seq<Block>, seen: seq<bool>, was: seq<Result>, cache: seq<Result>, field: nat)
    requires WellFormed(blocks) && |cache| == |was| == |seen| == |blocks|
    requires Exclusive(blocks, was) && ItemReset(blocks, seen, was, cache, field)
    ensures Exclusive(blocks, cache) <==> !Torn(blocks, seen, was, field)
  {
    if e, x :| 0 <= e < |blocks| && 0 <= x < |blocks| && Earlier(blocks, e, x) && was[e] == True
               && !DependsOn(blocks, seen, field, e) && DependsOn(blocks, seen, field, x) {
      assert cache[e] == True && cache[x] == Unset;
    }
  }

  /** The true branches up to x are in the cache. */
  ghost predicate Recorded(blocks: seq<Block>, test: nat -> bool, known: set<nat>, cache: seq<Result>, x: nat)
    requires WellFormed(blocks) && |cache| == |blocks| && x < |blocks|
  {
    (blocks[x].parent == 0 || Meaning(blocks, test, known, blocks[x].parent) == True) ==>
      forall e | 0 <= e <= x :: (e == x || Earlier(blocks, e, x)) && Meaning(blocks, test, known, e) == True ==>
          cache[e] == True
  }

  /** An answer in the cache is right, and the true branch that it may rest on is there too. */
  ghost predicate Right(blocks: seq<Block>, test: nat -> bool, known: set<nat>, cache: seq<Result>, x: nat)
    requires WellFormed(blocks) && |cache| == |blocks| && x < |blocks|
  {
    cache[x] != Unset ==> cache[x] == Meaning(blocks, test, known, x) && Recorded(blocks, test, known, cache, x)
  }

  ghost predicate AllRight(blocks: seq<Block>, test: nat -> bool, known: set<nat>, cache: seq<Result>)
    requires WellFormed(blocks) && |cache| == |blocks|
  {
    forall x | 0 <= x < |blocks| :: Right(blocks, test, known, cache, x)
  }

  /** The cache after the answer for x has been stored, and the later branches made false if it is true. */
  ghost predicate StoredAt(blocks: seq<Block>, was: seq<Result>, cache: seq<Result>, x: nat, r: Result)
    requires WellFormed(blocks) && |cache| == |was| == |blocks| && x < |blocks|
  {
    && cache[x] == r
    && forall y | 0 <= y < |blocks| && y != x :: cache[y] ==
        if r == True && Earlier(blocks, x, y) then False else was[y]
  }

  /** No branch before x is true. */
  ghost predicate NoneTrue(blocks: seq<Block>, cache: seq<Result>, x: nat)
    requires WellFormed(blocks) && |cache| == |blocks| && x < |blocks|
  {
    forall e | 0 <= e < |blocks| && Earlier(blocks, e, x) :: cache[e] != True
  }

  lemma StoredExclusive(blocks: seq<Block>, was: seq<Result>, cache: seq<Result>, x: nat, r: Result)
    requires WellFormed(blocks) && |cache| == |was| == |blocks| && x < |blocks| && StoredAt(blocks, was, cache, x, r)
    requires Exclusive(blocks, was)
    requires r != False ==> NoneTrue(blocks, was, x)
    ensures Exclusive(blocks, cache)
  {
    forall e, y | 0 <= e < |blocks| && 0 <= y < |blocks| && cache[e] == True && Earlier(blocks, e, y)
      ensures cache[y] == False
    {
      EarlierIsLess(blocks, e, y);
    }
  }

  lemma StoredRight(blocks: seq<Block>, test: nat -> bool, known: set<nat>, was: seq<Result>, cache: seq<Result>,
                    x: nat, r: Result)
    requires WellFormed(blocks) && |cache| == |was| == |blocks| && x < |blocks| && StoredAt(blocks, was, cache, x, r)
    requires AllRight(blocks, test, known, was) && r == Meaning(blocks, test, known, x)
    requires Recorded(blocks, test, known, was[x := r], x)
    ensures AllRight(blocks, test, known, cache) && Recorded(blocks, test, known, cache, x)
  {
    forall y | 0 <= y < |blocks| && Meaning(blocks, test, known, y) == True && was[x := r][y] == True
      ensures cache[y] == True
    {
      if y != x && r == True && Earlier(blocks, x, y) {
        OneTrue(blocks, test, known, x, y);
      }
    }
    assert Recorded(blocks, test, known, cache, x);
    forall y | 0 <= y < |blocks| && cache[y] != Unset && y != x
      ensures Right(blocks, test, known, cache, y)
    {
      assert Right(blocks, test, known, was, y);
      if r == True && Earlier(blocks, x, y) {
        OneTrue(blocks, test, known, x, y);
        EarlierIsLess(blocks, x, y);
        forall e | 0 <= e <= y && (e == y || Earlier(blocks, e, y)) && Meaning(blocks, test, known, e) == True
          ensures cache[e] == True
        {
          if e != x && e != y {
            EarlierTotal(blocks, e, x, y);
            if Earlier(blocks, e, x) {
              OneTrue(blocks, test, known, e, x);
            } else {
              OneTrue(blocks, test, known, x, e);
            }
          }
        }
      }
    }
  }

  /** Storing an answer for x changes nothing in chains below x or a later block. */
  lemma StoredElsewhere(blocks: seq<Block>, was: seq<Result>, cache: seq<Result>, x: nat, r: Result)
    requires WellFormed(blocks) && |cache| == |was| == |blocks| && x < |blocks| && StoredAt(blocks, was, cache, x, r)
    ensures forall y | 0 <= y < |blocks| && blocks[y].parent >= x > 0 :: cache[y] == was[y]
  {
    forall y | 0 <= y < |blocks| && blocks[y].parent >= x > 0
      ensures cache[y] == was[y]
    {
      if Earlier(blocks, x, y) {
        EarlierIsLess(blocks, x, y);
      }
    }
  }

  /** If no earlier branch has made x false, none of them is true, and x's own test counts. */
  lemma OwnTest(blocks: seq<Block>, test: nat -> bool, known: set<nat>, cache: seq<Result>, x: nat)
    requires WellFormed(blocks) && |cache| == |blocks| && x < |blocks| && Exclusive(blocks, cache)
    requires blocks[x].parent == 0 || Meaning(blocks, test, known, blocks[x].parent) == True
    requires blocks[x].prev.Some? ==> Recorded(blocks, test, known, cache, blocks[x].prev.value) && cache[x] != False
    ensures Meaning(blocks, test, known, x) ==
            if blocks[x].field !in known then Unset else if test(x) then True else False
    ensures Recorded(blocks, test, known, cache[x := Meaning(blocks, test, known, x)], x)
  {
    forall e | 0 <= e < x && Earlier(blocks, e, x)
      ensures Meaning(blocks, test, known, e) != True
    {
      var p := blocks[x].prev.value;
      assert Recorded(blocks, test, known, cache, p);
      if p != e { EarlierIsLess(blocks, e, p); }
    }
  }

  // ----- what one query does to any cache, also one that is not exclusive

  /** A branch before x has become true. */
  ghost predicate Rises(blocks: seq<Block>, was: seq<Result>, now: seq<Result>, x: nat)
    requires WellFormed(blocks) && |was| == |now| == |blocks| && x < |blocks|
  {
    exists e | 0 <= e < |blocks| :: Earlier(blocks, e, x) && was[e] != True && now[e] == True
  }

  /** The parent of x is true, no earlier branch has become true, the field of x is known and its test holds. */
  ghost predicate OwnTrue(blocks: seq<Block>, test: nat -> bool, known: set<nat>, was: seq<Result>, now: seq<Result>,
                          x: nat)
    requires WellFormed(blocks) && |was| == |now| == |blocks| && x < |blocks|
  {
    && (blocks[x].parent == 0 || now[blocks[x].parent] == True)
    && !Rises(blocks, was, now, x) && blocks[x].field in known && test(x)
  }

  /** When the parent is decided, or there is none, only the chain of x is touched. */
  ghost predicate SameElsewhere(blocks: seq<Block>, was: seq<Result>, now: seq<Result>, x: nat)
    requires WellFormed(blocks) && |was| == |now| == |blocks| && x < |blocks|
  {
    blocks[x].parent == 0 || was[blocks[x].parent] != Unset ==>
      forall y | 0 <= y < |blocks| && blocks[y].parent != blocks[x].parent :: now[y] == was[y]
  }

  /** What has become true has been tested. */
  ghost predicate OnlyTested(blocks: seq<Block>, test: nat -> bool, known: set<nat>, was: seq<Result>, now: seq<Result>)
    requires |was| == |now| == |blocks|
  {
    forall e | 0 <= e < |blocks| && was[e] != True && now[e] == True :: blocks[e].field in known && test(e)
  }

  /** Before the answer for x, unset so far, is stored: its chain, from the earlier branches, and what it is. */
  ghost predicate Evaluated(blocks: seq<Block>, test: nat -> bool, known: set<nat>, was: seq<Result>, now: seq<Result>,
                            x: nat, r: Result)
    requires WellFormed(blocks) && |was| == |now| == |blocks| && x < |blocks|
  {
    && SameElsewhere(blocks, was, now, x) && OnlyTested(blocks, test, known, was, now)
    && (forall e | 0 <= e < x && Earlier(blocks, e, x) && was[e] == True && !Rises(blocks, was, now, e) ::
        now[e] == True)
    && (forall y | 0 <= y < |blocks| && (y == x || Earlier(blocks, x, y)) ::
          now[y] == if Rises(blocks, was, now, x) then False else was[y])
    && (r == True <==> OwnTrue(blocks, test, known, was, now, x))
  }

  /**
   A query for x, whatever the cache holds: an answer that is there stays; else x is true exactly
   if it is by its own test. A true branch stays true unless an earlier one has become true, and
   the later ones become false exactly if x or an earlier one has become true.
   */
  ghost predicate Queried(blocks: seq<Block>, test: nat -> bool, known: set<nat>, was: seq<Result>, now: seq<Result>,
                          x: nat)
    requires WellFormed(blocks) && |was| == |now| == |blocks| && x < |blocks|
  {
    if was[x] != Unset then now == was
    else
      && SameElsewhere(blocks, was, now, x) && OnlyTested(blocks, test, known, was, now)
      && (forall e | 0 <= e < x && Earlier(blocks, e, x) && was[e] == True && !Rises(blocks, was, now, e) ::
          now[e] == True)
      && (now[x] == True <==> OwnTrue(blocks, test, known, was, now, x))
      && (forall y | 0 <= y < |blocks| && Earlier(blocks, x, y) ::
            now[y] == if Rises(blocks, was, now, x) || now[x] == True then False else was[y])
  }

  /** The chain of x, from its branches to those after it, is the same in both caches. */
  ghost predicate SameChain(blocks: seq<Block>, was: seq<Result>, now: seq<Result>, x: nat)
    requires |was| == |now| == |blocks| && x < |blocks|
  {
    forall y | 0 <= y < |blocks| && blocks[y].parent == blocks[x].parent :: now[y] == was[y]
  }

  lemma NoneRises(blocks: seq<Block>, was: seq<Result>, now: seq<Result>, x: nat)
    requires WellFormed(blocks) && |was| == |now| == |blocks| && x < |blocks| && SameChain(blocks, was, now, x)
    ensures !Rises(blocks, was, now, x)
  {
    forall e | 0 <= e < |blocks| && Earlier(blocks, e, x)
      ensures now[e] == was[e]
    {
      EarlierIsLess(blocks, e, x);
    }
  }

  /** While the parent is looked at, the chain of x is not. */
  lemma ParentQueried(blocks: seq<Block>, test: nat -> bool, known: set<nat>, was: seq<Result>, now: seq<Result>,
                      x: nat)
    requires WellFormed(blocks) && |was| == |now| == |blocks| && x < |blocks| && blocks[x].parent != 0
    requires Queried(blocks, test, known, was, now, blocks[x].parent) && SameChain(blocks, was, now, x)
    ensures SameElsewhere(blocks, was, now, x) && OnlyTested(blocks, test, known, was, now)
  {}

  /** With a parent that is not true nothing happens in the chain of x. */
  lemma ParentDecides(blocks: seq<Block>, test: nat -> bool, known: set<nat>, was: seq<Result>, now: seq<Result>,
                      x: nat, r: Result)
    requires WellFormed(blocks) && |was| == |now| == |blocks| && x < |blocks| && blocks[x].parent != 0
    requires Queried(blocks, test, known, was, now, blocks[x].parent) && SameChain(blocks, was, now, x)
    requires now[blocks[x].parent] != True && r != True
    ensures Evaluated(blocks, test, known, was, now, x, r)
  {
    ParentQueried(blocks, test, known, was, now, x);
    NoneRises(blocks, was, now, x);
    forall y | 0 <= y < |blocks| && Earlier(blocks, x, y)
      ensures now[y] == was[y]
    {
      EarlierIsLess(blocks, x, y);
    }
    forall e | 0 <= e < x && Earlier(blocks, e, x)
      ensures now[e] == was[e]
    {
      EarlierIsLess(blocks, e, x);
    }
  }

  /** What has risen since the chain was last the same. */
  lemma RisesSince(blocks: seq<Block>, was: seq<Result>, mid: seq<Result>, now: seq<Result>, x: nat)
    requires WellFormed(blocks) && |was| == |mid| == |now| == |blocks| && x < |blocks| && SameChain(blocks, was, mid, x)
    ensures Rises(blocks, was, now, x) <==> Rises(blocks, mid, now, x)
  {
    forall e | 0 <= e < |blocks| && Earlier(blocks, e, x)
      ensures mid[e] == was[e]
    {
      EarlierIsLess(blocks, e, x);
    }
  }

  /** The branches before x are the previous one and those before it. */
  lemma RisesBefore(blocks: seq<Block>, was: seq<Result>, now: seq<Result>, x: nat)
    requires WellFormed(blocks) && |was| == |now| == |blocks| && x < |blocks| && blocks[x].prev.Some?
    ensures var p := blocks[x].prev.value;
            Rises(blocks, was, now, x) <==> Rises(blocks, was, now, p) || (was[p] != True && now[p] == True)
  {
    var p := blocks[x].prev.value;
    assert Earlier(blocks, p, x);
    if Rises(blocks, was, now, p) {
      var e :| 0 <= e < |blocks| && Earlier(blocks, e, p) && was[e] != True && now[e] == True;
      assert Earlier(blocks, e, x);
    }
  }

  /** The previous branch has been looked at: what that means for x. */
  lemma PrevQueried(blocks: seq<Block>, test: nat -> bool, known: set<nat>, was: seq<Result>, now: seq<Result>, x: nat)
    requires WellFormed(blocks) && |was| == |now| == |blocks| && x < |blocks| && was[x] == Unset && blocks[x].prev.Some?
    requires blocks[x].parent == 0 || was[blocks[x].parent] != Unset
    requires Queried(blocks, test, known, was, now, blocks[x].prev.value)
    ensures SameElsewhere(blocks, was, now, x) && OnlyTested(blocks, test, known, was, now)
    ensures forall e | 0 <= e < x && Earlier(blocks, e, x) && was[e] == True && !Rises(blocks, was, now, e) ::
            now[e] == True
    ensures forall y | 0 <= y < |blocks| && (y == x || Earlier(blocks, x, y)) ::
              now[y] == if Rises(blocks, was, now, x) then False else was[y]
  {
    var p := blocks[x].prev.value;
    RisesBefore(blocks, was, now, x);
    if was[p] == Unset {
      forall y | 0 <= y < |blocks| && (y == x || Earlier(blocks, x, y))
        ensures Earlier(blocks, p, y)
      {
        if y != x { EarlierTrans(blocks, p, x, y); }
      }
      forall e | 0 <= e < x && Earlier(blocks, e, x) && was[e] == True && !Rises(blocks, was, now, e)
        ensures now[e] == True
      {
        if e != p { EarlierIsLess(blocks, e, p); }
      }
    }
  }

  /** A parent that is true, or none, and then the previous branch. */
  lemma ThenPrev(blocks: seq<Block>, test: nat -> bool, known: set<nat>, was: seq<Result>, mid: seq<Result>,
                 now: seq<Result>, x: nat, r: Result)
    requires WellFormed(blocks) && |was| == |mid| == |now| == |blocks| && x < |blocks| && was[x] == Unset
    requires SameChain(blocks, was, mid, x) && SameElsewhere(blocks, was, mid, x) &&
             OnlyTested(blocks, test, known, was, mid)
    requires blocks[x].parent == 0 || mid[blocks[x].parent] == True
    requires if blocks[x].prev.Some? then Queried(blocks, test, known, mid, now, blocks[x].prev.value) else now == mid
    requires r == True <==> now[x] != False && blocks[x].field in known && test(x)
    ensures Evaluated(blocks, test, known, was, now, x, r)
  {
    if blocks[x].prev.Some? {
      PrevQueried(blocks, test, known, mid, now, x);
    } else {
      NoneRises(blocks, mid, now, x);
    }
    RisesSince(blocks, was, mid, now, x);
    forall e | 0 <= e < x && Earlier(blocks, e, x)
      ensures mid[e] == was[e] && (Rises(blocks, was, now, e) <==> Rises(blocks, mid, now, e))
    {
      EarlierIsLess(blocks, e, x);
      RisesSince(blocks, was, mid, now, e);
    }
    forall y | 0 <= y < |blocks| && Earlier(blocks, x, y)
      ensures mid[y] == was[y]
    {
      EarlierIsLess(blocks, x, y);
    }
  }

  /** Storing an answer for x changes nothing before x. */
  lemma StoredBefore(blocks: seq<Block>, was: seq<Result>, mid: seq<Result>, now: seq<Result>, x: nat, r: Result,
                     e: nat)
    requires WellFormed(blocks) && |was| == |mid| == |now| == |blocks| && x < |blocks| && e < |blocks|
    requires StoredAt(blocks, mid, now, x, r) && (e == x || Earlier(blocks, e, x))
    ensures e != x ==> now[e] == mid[e]
    ensures Rises(blocks, was, now, e) <==> Rises(blocks, was, mid, e)
  {
    forall d | 0 <= d < |blocks| && (d == e || Earlier(blocks, d, e)) && d != x
      ensures now[d] == mid[d]
    {
      if d != e && e != x { EarlierTrans(blocks, d, e, x); }
      EarlierIsLess(blocks, d, x);
      if Earlier(blocks, x, d) { EarlierIsLess(blocks, x, d); }
    }
    forall d | 0 <= d < |blocks| && Earlier(blocks, d, e)
      ensures d != x
    {
      if e != x { EarlierTrans(blocks, d, e, x); }
      EarlierIsLess(blocks, d, x);
    }
  }

  /** What a store for x leaves alone: the chains of other parents. */
  lemma StoredInChain(blocks: seq<Block>, mid: seq<Result>, now: seq<Result>, x: nat, r: Result, y: nat)
    requires WellFormed(blocks) && |mid| == |now| == |blocks| && x < |blocks| && y < |blocks|
    requires StoredAt(blocks, mid, now, x, r) && blocks[y].parent != blocks[x].parent
    ensures now[y] == mid[y]
  {
    if Earlier(blocks, x, y) {
      EarlierIsLess(blocks, x, y);
    }
  }

  lemma Irreflexive(blocks: seq<Block>, x: nat)
    requires WellFormed(blocks) && x < |blocks|
    ensures !Earlier(blocks, x, x)
  {
    if Earlier(blocks, x, x) {
      EarlierIsLess(blocks, x, x);
    }
  }

  /** Storing the answer completes the query. */
  lemma StoredQueried(blocks: seq<Block>, test: nat -> bool, known: set<nat>, was: seq<Result>, mid: seq<Result>,
                      now: seq<Result>,
                      x: nat, r: Result)
    requires WellFormed(blocks) && |was| == |mid| == |now| == |blocks| && x < |blocks| && was[x] == Unset
    requires Evaluated(blocks, test, known, was, mid, x, r) && StoredAt(blocks, mid, now, x, r)
    ensures Queried(blocks, test, known, was, now, x)
  {
    Irreflexive(blocks, x);
    hide Rises, Earlier;
    forall e | 0 <= e < |blocks| && (e == x || Earlier(blocks, e, x))
      ensures (e != x ==> now[e] == mid[e]) && (Rises(blocks, was, now, e) <==> Rises(blocks, was, mid, e))
    {
      StoredBefore(blocks, was, mid, now, x, r, e);
    }
    forall y | 0 <= y < |blocks| && blocks[y].parent != blocks[x].parent
      ensures now[y] == mid[y]
    {
      StoredInChain(blocks, mid, now, x, r, y);
    }
  }

  lemma NoneTrueBefore(blocks: seq<Block>, cache: seq<Result>, x: nat)
    requires WellFormed(blocks) && |cache| == |blocks| && x < |blocks|
    ensures Exclusive(blocks, cache) && cache[x] != False ==> NoneTrue(blocks, cache, x)
  {}

  /** With a parent that is not true the block is what the parent is. */
  lemma Undecided(blocks: seq<Block>, test: nat -> bool, known: set<nat>, cache: seq<Result>, x: nat, r: Result)
    requires WellFormed(blocks) && |cache| == |blocks| && x < |blocks| && cache[x] == Unset && blocks[x].parent != 0 &&
             r != True
    ensures Exclusive(blocks, cache) ==> NoneTrue(blocks, cache, x)
    ensures r == Meaning(blocks, test, known, blocks[x].parent) ==>
              r == Meaning(blocks, test, known, x) && Recorded(blocks, test, known, cache[x := r], x)
  {}

  lemma CachedRight(blocks: seq<Block>, test: nat -> bool, known: set<nat>, cache: seq<Result>, x: nat)
    requires WellFormed(blocks) && |cache| == |blocks| && x < |blocks| && cache[x] != Unset
    ensures AllRight(blocks, test, known, cache) ==>
              cache[x] == Meaning(blocks, test, known, x) && Recorded(blocks, test, known, cache[x := cache[x]], x)
  {
    assert cache[x := cache[x]] == cache;
    assert AllRight(blocks, test, known, cache) ==> Right(blocks, test, known, cache, x);
  }

  /** Before anything has been looked at. */
  lemma NothingYet(blocks: seq<Block>, test: nat -> bool, known: set<nat>, was: seq<Result>, x: nat)
    requires WellFormed(blocks) && |was| == |blocks| && x < |blocks|
    ensures SameChain(blocks, was, was, x) && SameElsewhere(blocks, was, was, x) &&
            OnlyTested(blocks, test, known, was, was)
  {}

  // ----- runs

  /** The test of a complete reset is that of what comes next. */
  datatype Op = Query(x: nat) | Learn(field: nat) | ForgetItem(field: nat) | Forget | ForgetAll(test: nat -> bool)

  function KnownNext(op: Op, known: set<nat>): set<nat> {
    match op
    case Learn(field) => known + {field}
    case ForgetAll(_) => {}
    case _ => known
  }

  function TestNext(op: Op, test: nat -> bool): nat -> bool {
    if op.ForgetAll? then op.test else test
  }

  /** The fields known after the first n operations. */
  function KnownAfter(ops: seq<Op>, n: nat): set<nat>
    requires n <= |ops|
  {
    if n == 0 then {} else KnownNext(ops[n - 1], KnownAfter(ops, n - 1))
  }

  /** The test that counts after them. */
  function TestAfter(ops: seq<Op>, test: nat -> bool, n: nat): nat -> bool
    requires n <= |ops|
  {
    if n == 0 then test else TestNext(ops[n - 1], TestAfter(ops, test, n - 1))
  }

  /** No answer has been asked for since all were forgotten. */
  predicate Blank(ops: seq<Op>, n: nat)
    requires n <= |ops|
  {
    n == 0 || ops[n - 1].Forget? || ops[n - 1].ForgetAll? || (!ops[n - 1].Query? && Blank(ops, n - 1))
  }

  /** Since the first answer after all were forgotten no field has become known, and no single one been reset. */
  predicate Steady(ops: seq<Op>, n: nat)
    requires n <= |ops|
  {
    Blank(ops, n) || (ops[n - 1].Query? && Steady(ops, n - 1))
      || (ops[n - 1].Learn? && ops[n - 1].field in KnownAfter(ops, n - 1) && Steady(ops, n - 1))
  }

  /** A field is known after n operations exactly if one of them made it known and no request has ended since. */
  lemma {:induction false} KnownExact(ops: seq<Op>, n: nat, field: nat)
    requires n <= |ops|
    ensures field in KnownAfter(ops, n) <==>
            exists i :: 0 <= i < n && ops[i] == Learn(field) && forall k | i < k < n :: !ops[k].ForgetAll?
  {
    if n == 0 {
    } else {
      KnownExact(ops, n - 1, field);
    }
  }

  /** The tests are those of the request that was begun last. */
  lemma {:induction false} TestExact(ops: seq<Op>, test: nat -> bool, m: nat, n: nat)
    requires m <= n <= |ops| && forall k | m <= k < n :: !ops[k].ForgetAll?
    ensures TestAfter(ops, test, n) == TestAfter(ops, test, m)
    ensures TestAfter(ops, test, m) == if m == 0 then test else if ops[m - 1].ForgetAll? then ops[m - 1].test
            else TestAfter(ops, test, m - 1)
    decreases n
  {
    if m < n {
      TestExact(ops, test, m, n - 1);
    }
  }

  /** From a reset on: first fields become known, then questions are asked; all that time is steady. */
  lemma {:induction false} SteadyFrom(ops: seq<Op>, m: nat, k: nat, n: nat)
    requires m <= k <= n <= |ops| && (m == 0 || ops[m - 1].Forget? || ops[m - 1].ForgetAll?)
    requires (forall i | m <= i < k :: ops[i].Learn?) && forall i | k <= i < n :: ops[i].Query?
    ensures Steady(ops, n) && (n == k ==> Blank(ops, n))
    decreases n
  {
    if k < n {
      SteadyFrom(ops, m, k, n - 1);
    } else if m < n {
      SteadyFrom(ops, m, k - 1, n - 1);
    }
  }

  /** A cache as it stands: the answers, and which blocks have been evaluated. */
  datatype Snapshot = Snapshot(results: seq<Result>, seen: seq<bool>)

  predicate Snapshots(blocks: seq<Block>, states: seq<Snapshot>) {
    forall i | 0 <= i < |states| :: |states[i].results| == |states[i].seen| == |blocks|
  }

  /** What one operation does to a cache, whatever it holds: only a question can give answers. */
  ghost predicate Stepped(blocks: seq<Block>, test: nat -> bool, known: set<nat>, op: Op, was: Snapshot, now: Snapshot)
    requires WellFormed(blocks) && |was.results| == |was.seen| == |blocks| == |now.results| == |now.seen|
    requires op.Query? ==> op.x < |blocks|
  {
    && (op.Query? || now.seen == was.seen)
    && match op
       case Query(x) => Queried(blocks, test, known, was.results, now.results, x)
       case Learn(_) => now.results == was.results
       case ForgetItem(field) => ItemReset(blocks, was.seen, was.results, now.results, field)
       case _ => forall x | 0 <= x < |blocks| :: now.results[x] == Unset
  }

  /** No reset of a single field has torn a chain since all answers were forgotten. */
  ghost predicate Untorn(blocks: seq<Block>, ops: seq<Op>, states: seq<Snapshot>, n: nat)
    requires WellFormed(blocks) && n <= |ops| && n < |states| && Snapshots(blocks, states)
  {
    || n == 0 || ops[n - 1].Forget? || ops[n - 1].ForgetAll?
    || (Untorn(blocks, ops, states, n - 1)
        && (ops[n - 1].ForgetItem? ==> !Torn(blocks, states[n - 1].seen, states[n - 1].results, ops[n - 1].field)))
  }

  /** Without resets of single fields nothing is torn. */
  lemma {:induction false} UntornWithout(blocks: seq<Block>, ops: seq<Op>, states: seq<Snapshot>, n: nat)
    requires WellFormed(blocks) && n <= |ops| && n < |states| && Snapshots(blocks, states)
    requires forall i | 0 <= i < n :: !ops[i].ForgetItem?
    ensures Untorn(blocks, ops, states, n)
  {
    hide WellFormed, Torn;
    if n == 0 {
    } else {
      UntornWithout(blocks, ops, states, n - 1);
    }
  }

  /** Whether chains are untorn does not depend on what comes later. */
  lemma {:induction false} UntornUpTo(blocks: seq<Block>, ops: seq<Op>, states: seq<Snapshot>, more: seq<Snapshot>,
                                      n: nat)
    requires WellFormed(blocks) && n <= |ops| && n < |states| <= |more| && states == more[..|states|]
    requires Snapshots(blocks, more) && Snapshots(blocks, states)
    ensures Untorn(blocks, ops, states, n) <==> Untorn(blocks, ops, more, n)
  {
    if n == 0 {
    } else {
      UntornUpTo(blocks, ops, states, more, n - 1);
    }
  }

  /** At most one branch of a chain is true, up to a torn one. */
  ghost predicate OneTrueWhileUntorn(blocks: seq<Block>, ops: seq<Op>, states: seq<Snapshot>)
    requires WellFormed(blocks) && |states| <= |ops| + 1 && Snapshots(blocks, states)
  {
    forall n | 0 <= n < |states| && Untorn(blocks, ops, states, n) :: OneTrueEach(blocks, states[n].results)
  }

  lemma OneTrueNext(blocks: seq<Block>, ops: seq<Op>, states: seq<Snapshot>, last: Snapshot)
    requires WellFormed(blocks) && |states| <= |ops| && Snapshots(blocks, states) &&
             OneTrueWhileUntorn(blocks, ops, states)
    requires Snapshots(blocks, states + [last]) && |last.results| == |blocks|
    requires Untorn(blocks, ops, states + [last], |states|) ==> OneTrueEach(blocks, last.results)
    ensures OneTrueWhileUntorn(blocks, ops, states + [last])
  {
    hide OneTrueEach, Untorn, WellFormed;
    forall n | 0 <= n < |states| && Untorn(blocks, ops, states + [last], n)
      ensures OneTrueEach(blocks, states[n].results)
    {
      UntornUpTo(blocks, ops, states, states + [last], n);
    }
  }

  /** Each answer is in the cache after its query, and it is the meaning if it falls into a steady stretch. */
  ghost predicate Answered(blocks: seq<Block>, test: nat -> bool, ops: seq<Op>, answers: seq<Result>,
                           states: seq<Snapshot>)
    requires WellFormed(blocks) && |answers| <= |ops| && |states| == |answers| + 1 && Snapshots(blocks, states)
    requires forall i | 0 <= i < |ops| && ops[i].Query? :: ops[i].x < |blocks|
  {
    forall i | 0 <= i < |answers| && ops[i].Query? ::
      && answers[i] == states[i + 1].results[ops[i].x]
      && (Steady(ops, i) ==> answers[i] == Meaning(blocks, TestAfter(ops, test, i), KnownAfter(ops, i), ops[i].x))
  }

  lemma AnsweredNext(blocks: seq<Block>, test: nat -> bool, ops: seq<Op>, answers: seq<Result>, states: seq<Snapshot>,
                     answer: Result, last: Snapshot)
    requires WellFormed(blocks) && |answers| < |ops| && |states| == |answers| + 1
    requires Snapshots(blocks, states) && Snapshots(blocks, states + [last]) && |last.results| == |blocks|
    requires forall i | 0 <= i < |ops| && ops[i].Query? :: ops[i].x < |blocks|
    requires Answered(blocks, test, ops, answers, states)
    requires var n := |answers|;
             ops[n].Query? ==>
               && answer == last.results[ops[n].x]
               && (Steady(ops, n) ==> answer == Meaning(blocks, TestAfter(ops, test, n), KnownAfter(ops, n), ops[n].x))
    ensures Answered(blocks, test, ops, answers + [answer], states + [last])
  {
    hide Meaning, Steady, KnownAfter, TestAfter, WellFormed;
  }

  lemma StartOfRun(blocks: seq<Block>, test: nat -> bool, ops: seq<Op>, states: seq<Snapshot>)
    requires WellFormed(blocks) && |states| == 1 && Snapshots(blocks, states) && Exclusive(blocks, states[0].results)
    requires forall i | 0 <= i < |ops| && ops[i].Query? :: ops[i].x < |blocks|
    ensures OneTrueWhileUntorn(blocks, ops, states) && Answered(blocks, test, ops, [], states)
  {}

  // ----- the evaluator

  class Cache {
    const blocks: seq<Block>
    const results: array<Result>
    const seen: array<bool>      // which blocks have been evaluated
    var test: nat -> bool        // the blocks' own comparisons
    var known: set<nat>          // the fields that are valid

    ghost predicate Valid()
      reads this, results
    {
      WellFormed(blocks) && results.Length == seen.Length == |blocks|
    }

    /** A true branch makes the later ones of its chain false. */
    ghost predicate Whole()
      requires Valid()
      reads this, results
    {
      Exclusive(blocks, results[..])
    }

    /** Every answer in the cache is right for the fields known now. */
    ghost predicate Faithful()
      requires Valid()
      reads this, results
    {
      Whole() && AllRight(blocks, test, known, results[..])
    }

    constructor (blocks: seq<Block>, test: nat -> bool)
      requires WellFormed(blocks)
      ensures Valid() && Faithful() && this.blocks == blocks && this.test == test
      ensures known == {} && fresh(results) && fresh(seen) &&
              forall x | 0 <= x < |blocks| :: results[x] == Unset && !seen[x]
    {
      this.blocks, this.test, known := blocks, test, {};
      results := new Result[|blocks|](_ => Unset);
      seen := new bool[|blocks|](_ => false);
    }

    /** Forgets all answers. */
    method ResetAllItems()
      requires Valid()
      modifies results
      ensures Valid() && Faithful() && forall x | 0 <= x < results.Length :: results[x] == Unset
    {
      for i := 0 to results.Length
        invariant forall x | 0 <= x < i :: results[x] == Unset
      {
        results[i] := Unset;
      }
    }

    /** Forgets all answers, and which fields are known; what is tested next is another request. */
    method Reset(test: nat -> bool)
      requires Valid()
      modifies this`known, this`test, results
      ensures Valid() && Faithful() && known == {} && this.test == test
      ensures forall x | 0 <= x < results.Length :: results[x] == Unset
    {
      known, this.test := {}, test;
      ResetAllItems();
    }

    /** A field becomes known. */
    method Learn(field: nat)
      requires Valid()
      modifies this`known
      ensures Valid() && known == old(known) + {field} && (Whole() <==> old(Whole()))
      ensures old(Faithful()) && field in old(known) ==> Faithful()
      ensures (forall x | 0 <= x < |blocks| :: results[x] == Unset) ==> Faithful()
    {
      known := known + {field};
      assert field in old(known) ==> known == old(known);
    }

    /** Chains of blocks whose parent is x or a later block are not touched while x is checked. */
    twostate predicate Untouched(x: nat)
      requires Valid() && results.Length == |blocks|
      reads this, results
    {
      forall y | 0 <= y < |blocks| && blocks[y].parent >= x > 0 :: results[y] == old(results[y])
    }

    /** Evaluates block x from its parent, its earlier branches and its own test. */
    method CheckNocache(x: nat) returns (r: Result)
      requires Valid() && x < |blocks| && results[x] == Unset
      modifies results, seen
      ensures Valid() && Untouched(x) && forall y | 0 <= y < |blocks| && old(seen[y]) :: seen[y]
      ensures forall y | x <= y < |blocks| :: seen[y] == old(seen[y])
      ensures Evaluated(blocks, test, known, old(results[..]), results[..], x, r)
      ensures old(Whole()) ==> Whole() && (r != False ==> NoneTrue(blocks, results[..], x))
      ensures old(Faithful()) ==> Faithful() && r == Meaning(blocks, test, known, x)
      ensures old(Faithful()) ==> Recorded(blocks, test, known, results[..][x := r], x)
      decreases x, 0
    {
      hide Evaluated, Queried, SameElsewhere, OnlyTested, Exclusive, AllRight, Recorded, Meaning, NoneTrue;
      ghost var faithful, was := Faithful(), results[..];
      var parent := blocks[x].parent;
      NothingYet(blocks, test, known, was, x);
      if parent != 0 {
        var above := CheckCached(parent);
        if above != True {
          ParentDecides(blocks, test, known, was, results[..], x, above);
          Undecided(blocks, test, known, results[..], x, above);
          return above;
        }
        ParentQueried(blocks, test, known, was, results[..], x);
      }
      ghost var mid := results[..];
      if blocks[x].prev.Some? {
        var _ := CheckCached(blocks[x].prev.value);
        if results[x] == False {
          ThenPrev(blocks, test, known, was, mid, results[..], x, False);
          CachedRight(blocks, test, known, results[..], x);
          return False;
        }
      }
      if faithful {
        OwnTest(blocks, test, known, results[..], x);
      }
      r := if blocks[x].field !in known then Unset else if test(x) then True else False;
      NoneTrueBefore(blocks, results[..], x);
      ThenPrev(blocks, test, known, was, mid, results[..], x, r);
    }

    /** Stores an answer; if it is true, the remaining branches of the chain become false. */
    method Store(x: nat, r: Result)
      requires WellFormed(blocks) && results.Length == |blocks| && x < |blocks|
      modifies results
      ensures StoredAt(blocks, old(results[..]), results[..], x, r)
    {
      ghost var was := results[..];
      results[x] := r;
      if r == True {
        var c, last := blocks[x].next, x;
        Irreflexive(blocks, x);
        while c.Some?
          invariant x <= last < |blocks| && c == blocks[last].next && results[x] == True
          invariant forall y | 0 <= y < |blocks| && y != x ::
                      results[y] == if Earlier(blocks, x, y) && !Earlier(blocks, last, y) then False else was[y]
          invariant last == x || Earlier(blocks, x, last)
          decreases |blocks| - last
        {
          forall y | 0 <= y < |blocks| ensures Earlier(blocks, last, y) <==>
              y == c.value || Earlier(blocks, c.value, y) {
            EarlierNext(blocks, last, y);
          }
          assert Earlier(blocks, last, c.value);
          if last != x { EarlierTrans(blocks, x, last, c.value); }
          Irreflexive(blocks, c.value);
          results[c.value] := False;
          last := c.value;
          c := blocks[last].next;
        }
        forall y | 0 <= y < |blocks| ensures !Earlier(blocks, last, y) {
          EarlierNext(blocks, last, y);
        }
      }
    }

    /** The answer for block x, from the cache if it is there. */
    method CheckCached(x: nat) returns (r: Result)
      requires Valid() && x < |blocks|
      modifies results, seen
      ensures Valid() && Untouched(x) && r == results[x]
      ensures forall y | 0 <= y < |blocks| :: old(seen[y]) || (y == x && old(results[x]) == Unset) ==> seen[y]
      ensures seen[x] == (old(seen[x]) || old(results[x]) == Unset)
      ensures forall y | x < y < |blocks| :: seen[y] == old(seen[y])
      ensures Queried(blocks, test, known, old(results[..]), results[..], x)
      ensures old(Whole()) ==> Whole()
      ensures old(Faithful()) ==> Faithful() && r == Meaning(blocks, test, known, x)
      ensures old(Faithful()) ==> Recorded(blocks, test, known, results[..], x)
      decreases x, 1
    {
      hide Evaluated;
      ghost var whole, faithful, was := Whole(), Faithful(), results[..];
      if results[x] == Unset {
        r := CheckNocache(x);
        ghost var mid := results[..];
        Store(x, r);
        StoredQueried(blocks, test, known, was, mid, results[..], x, r);
        StoredElsewhere(blocks, mid, results[..], x, r);
        if whole {
          StoredExclusive(blocks, mid, results[..], x, r);
        }
        if faithful {
          StoredRight(blocks, test, known, mid, results[..], x, r);
        }
        seen[x] := true;
      } else {
        assert faithful ==> Right(blocks, test, known, results[..], x);
      }
      return results[x];
    }

    /** Any queries, in any order and repeated: with all fields known the answers are the plain meaning. */
    method CheckAll(queries: seq<nat>) returns (answers: seq<Result>)
      requires Valid() && Faithful() && forall i | 0 <= i < |blocks| :: blocks[i].field in known
      requires forall i | 0 <= i < |queries| :: queries[i] < |blocks|
      modifies results, seen
      ensures Valid() && Faithful() && |answers| == |queries|
      ensures forall i | 0 <= i < |queries| :: answers[i] == if Holds(blocks, test, queries[i]) then True else False
    {
      hide Queried;
      answers := [];
      for n := 0 to |queries|
        invariant Valid() && Faithful() && |answers| == n
        invariant forall i | 0 <= i < n :: answers[i] == if Holds(blocks, test, queries[i]) then True else False
      {
        MeaningIsHolds(blocks, test, known, queries[n]);
        var r := CheckCached(queries[n]);
        answers := answers + [r];
      }
    }

    /** Forgets the answers that depend on one field. */
    method ResetItem(field: nat)
      requires Valid()
      modifies results
      ensures Valid() && ItemReset(blocks, seen[..], old(results[..]), results[..], field)
      ensures old(Whole()) ==> (Whole() <==> !Torn(blocks, seen[..], old(results[..]), field))
      ensures old(forall x | 0 <= x < |blocks| :: results[x] == Unset) ==>
                Faithful() && forall x | 0 <= x < |blocks| :: results[x] == Unset
    {
      ghost var whole, was := Whole(), results[..];
      for i := 0 to results.Length
        invariant forall x | 0 <= x < results.Length ::
                    results[x] == if x < i && DependsOn(blocks, seen[..], field, x) then Unset else was[x]
      {
        if seen[i] && blocks[i].field == field {
          results[i] := Unset;
        }
      }
      if whole {
        ItemResetExclusiveIff(blocks, seen[..], was, results[..], field);
      }
    }

    /** All answers are forgotten. */
    ghost predicate Empty()
      requires Valid()
      reads this, results
    {
      forall x | 0 <= x < |blocks| :: results[x] == Unset
    }

    /** Carries out one operation. */
    method Do(op: Op) returns (answer: Result)
      requires Valid() && (op.Query? ==> op.x < |blocks|)
      modifies this`known, this`test, results, seen
      ensures Valid() && known == KnownNext(op, old(known)) && test == TestNext(op, old(test))
      ensures op.Query? ==>
                answer == results[op.x] &&
                (old(Faithful()) ==> Faithful() && answer == Meaning(blocks, test, known, op.x))
      ensures old(Whole()) && !(op.ForgetItem? && Torn(blocks, old(seen[..]), old(results[..]), op.field)) ==> Whole()
      ensures op.Forget? || op.ForgetAll? || (old(Empty()) && !op.Query?) ==> Empty() && Whole() && Faithful()
      ensures old(Faithful()) && op.Learn? && op.field in old(known) ==> Faithful()
      ensures Stepped(blocks, old(test), old(known), op, old(Snapshot(results[..], seen[..])),
                      Snapshot(results[..], seen[..]))
    {
      hide Exclusive, Meaning, AllRight, Recorded, Queried, Torn, ItemReset;
      answer := Unset;
      match op {
        case Query(x) => answer := CheckCached(x);
        case Learn(field) => Learn(field);
        case ForgetItem(field) => ResetItem(field);
        case Forget => ResetAllItems();
        case ForgetAll(next) => Reset(next);
      }
    }
  }

  lemma FirstUnset(test: nat -> bool, known: set<nat>, cache: seq<Result>)
    requires |cache| == 3 && 0 !in known && WellFormed(TWO_BRANCHES) && AllRight(TWO_BRANCHES, test, known, cache)
    ensures cache[1] == Unset
  {
    assert Right(TWO_BRANCHES, test, known, cache, 1);
    assert TWO_BRANCHES[1].prev == None;
    assert Meaning(TWO_BRANCHES, test, known, 1) == Unset;
  }

  /**
   A torn chain: the second branch has become true before the field of the first was known; when it is,
   the first is true and makes the second false. The reset of the second field opens it again, and the
   next question makes both true.
   */
  method TwoTrue() returns (cache: Cache)
    ensures cache.Valid() && cache.blocks == TWO_BRANCHES && Earlier(cache.blocks, 1, 2)
    ensures cache.results[1] == cache.results[2] == True
  {
    TwoBranches();
    hide Earlier, Meaning, AllRight, Exclusive, Recorded, Torn, WellFormed;
    cache := new Cache(TWO_BRANCHES, i => true);
    cache.Learn(1);
    var second := cache.CheckCached(2);
    FirstUnset(cache.test, cache.known, cache.results[..]);
    assert cache.results[1] == Unset;
    cache.Learn(0);
    var first := cache.CheckCached(1);
    assert first == True && cache.results[2] == False;
    cache.ResetItem(1);
    assert cache.results[1] == True && cache.results[2] == Unset;
    var again := cache.CheckCached(2);
  }

  /**
   Any run on a new cache. At most one branch of a chain is true as long as no reset of a single field
   tears a chain; and every answer of a steady stretch is the meaning.
   */
  method Run(blocks: seq<Block>, test: nat -> bool, ops: seq<Op>) returns (answers: seq<Result>, states: seq<Snapshot>)
    requires WellFormed(blocks) && forall i | 0 <= i < |ops| && ops[i].Query? :: ops[i].x < |blocks|
    ensures |answers| == |ops| && |states| == |ops| + 1 && Snapshots(blocks, states)
    ensures OneTrueWhileUntorn(blocks, ops, states)
    ensures Answered(blocks, test, ops, answers, states)
    ensures forall x | 0 <= x < |blocks| :: states[0].results[x] == Unset && !states[0].seen[x]
    ensures forall i | 0 <= i < |ops| ::
              Stepped(blocks, TestAfter(ops, test, i), KnownAfter(ops, i), ops[i], states[i], states[i + 1])
  {
    hide WellFormed, Exclusive, OneTrueEach, Meaning, AllRight, Torn, OneTrueWhileUntorn, Answered, Stepped;
    var cache := new Cache(blocks, test);
    answers, states := [], [Snapshot(cache.results[..], cache.seen[..])];
    StartOfRun(blocks, test, ops, states);
    for n := 0 to |ops|
      invariant fresh(cache) && fresh(cache.results) && fresh(cache.seen)
      invariant cache.Valid() && cache.blocks == blocks
      invariant cache.test == TestAfter(ops, test, n) && cache.known == KnownAfter(ops, n)
      invariant Blank(ops, n) ==> cache.Empty()
      invariant Steady(ops, n) ==> cache.Faithful()
      invariant |answers| == n && |states| == n + 1 && Snapshots(blocks, states)
      invariant states[n] == Snapshot(cache.results[..], cache.seen[..])
      invariant Untorn(blocks, ops, states, n) ==> cache.Whole()
      invariant OneTrueWhileUntorn(blocks, ops, states)
      invariant Answered(blocks, test, ops, answers, states)
      invariant forall x | 0 <= x < |blocks| :: states[0].results[x] == Unset && !states[0].seen[x]
      invariant forall i | 0 <= i < n ::
                  Stepped(blocks, TestAfter(ops, test, i), KnownAfter(ops, i), ops[i], states[i], states[i + 1])
    {
      var answer := cache.Do(ops[n]);
      var last := Snapshot(cache.results[..], cache.seen[..]);
      UntornUpTo(blocks, ops, states, states + [last], n);
      if cache.Whole() {
        ExclusiveOneTrue(blocks, last.results);
      }
      OneTrueNext(blocks, ops, states, last);
      AnsweredNext(blocks, test, ops, answers, states, answer, last);
      answers, states := answers + [answer], states + [last];
    }
  }
}
