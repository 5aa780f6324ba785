/**
 The follow sets of the LEMON generator (FindFollowSets): every configuration's
 set is propagated along its forward links until nothing changes, with COMPLETE
 marks to skip configurations whose links are already satisfied.
 */
module FollowSets {
  /** For each configuration, the configurations its set is propagated to. */
  type Links = seq<seq<nat>>

  ghost predicate ValidLinks(links: Links) {
    forall c, k | 0 <= c < |links| && 0 <= k < |links[c]| :: links[c][k] < |links|
  }

  /** Configuration c can be reached from d over n links. */
  ghost predicate ReachesIn(links: Links, d: nat, c: nat, n: nat)
    decreases n
  {
    if n == 0 then d == c
    else exists b: nat :: ReachesIn(links, d, b, n - 1) && b < |links| && c in links[b]
  }

  ghost predicate Reaches(links: Links, d: nat, c: nat) {
    exists n: nat :: ReachesIn(links, d, c, n)
  }

  lemma ReachesStep(links: Links, d: nat, b: nat, c: nat)
    requires Reaches(links, d, b) && b < |links| && c in links[b]
    ensures Reaches(links, d, c)
  {
    var n: nat :| ReachesIn(links, d, b, n);
    assert ReachesIn(links, d, c, n + 1);
  }

  /** Terminal t is initially in the set of some configuration from which c can be reached. */
  ghost predicate Follows(links: Links, init: seq<set<nat>>, c: nat, t: nat) {
    exists d: nat :: d < |init| && t in init[d] && Reaches(links, d, c)
  }

  /** The set of c is passed on along every link of c. */
  ghost predicate Satisfied(links: Links, fws: seq<set<nat>>, c: nat)
    requires c < |links| == |fws| && ValidLinks(links)
  {
    forall k | 0 <= k < |links[c]| :: fws[c] <= fws[links[c][k]]
  }

  /** What every step of the propagation keeps. */
  ghost predicate Inv(links: Links, init: seq<set<nat>>, fws: seq<set<nat>>, complete: seq<bool>) {
    && ValidLinks(links) && |init| == |fws| == |complete| == |links|
    && (forall c | 0 <= c < |fws| :: init[c] <= fws[c])
    && (forall c, t | 0 <= c < |fws| && t in fws[c] :: Follows(links, init, c, t))
    && (forall c | 0 <= c < |fws| && complete[c] :: Satisfied(links, fws, c))
  }

  /** Sets that are closed along the links contain everything that follows. */
  lemma {:induction false} ClosedContains(links: Links, fws: seq<set<nat>>, d: nat, c: nat, n: nat, t: nat)
    requires ValidLinks(links) && |fws| == |links| && d < |fws| && c < |fws|
    requires forall b | 0 <= b < |fws| :: Satisfied(links, fws, b)
    requires ReachesIn(links, d, c, n) && t in fws[d]
    ensures t in fws[c]
    decreases n
  {
    if n == 0 {
    } else {
      var b: nat :| ReachesIn(links, d, b, n - 1) && b < |links| && c in links[b];
      ClosedContains(links, fws, d, b, n - 1, t);
      assert Satisfied(links, fws, b);
    }
  }

  /** What the propagation computes is contained in every closed family of larger sets. */
  lemma FollowsIsLeast(links: Links, init: seq<set<nat>>, fws: seq<set<nat>>, c: nat, t: nat)
    requires ValidLinks(links) && |init| == |fws| == |links| && c < |links|
    requires forall b | 0 <= b < |fws| :: init[b] <= fws[b] && Satisfied(links, fws, b)
    requires Follows(links, init, c, t)
    ensures t in fws[c]
  {
    var d: nat :| d < |init| && t in init[d] && Reaches(links, d, c);
    var n: nat :| ReachesIn(links, d, c, n);
    ClosedContains(links, fws, d, c, n, t);
  }

  lemma StartInv(links: Links, init: seq<set<nat>>)
    requires ValidLinks(links) && |init| == |links|
    ensures Inv(links, init, init, seq(|links|, _ => false))
  {
    forall c: nat, t: nat | c < |links| && t in init[c]
      ensures Follows(links, init, c, t)
    {
      assert ReachesIn(links, c, c, 0);
    }
  }

  /** The pairs not yet in the sets; every change removes one. */
  ghost function Missing(fws: seq<set<nat>>, nterminal: nat): set<(nat, nat)> {
    set c: nat, t: nat | c < |fws| && t < nterminal && t !in fws[c] :: (c, t)
  }

  ghost predicate InRange(fws: seq<set<nat>>, nterminal: nat) {
    forall c, t | 0 <= c < |fws| && t in fws[c] :: t < nterminal
  }

  lemma MissingShrinks(fws: seq<set<nat>>, grown: seq<set<nat>>, nterminal: nat, c: nat, t: nat)
    requires |fws| == |grown| && forall a | 0 <= a < |fws| :: fws[a] <= grown[a]
    requires c < |fws| && t < nterminal && t !in fws[c] && t in grown[c]
    ensures Missing(grown, nterminal) < Missing(fws, nterminal)
  {
    assert (c, t) in Missing(fws, nterminal) && (c, t) !in Missing(grown, nterminal);
    assert forall p | p in Missing(grown, nterminal) :: p in Missing(fws, nterminal);
  }

  /** What follows a configuration follows those it links to. */
  lemma FollowsOverLink(links: Links, init: seq<set<nat>>, b: nat, k: nat, t: nat)
    requires ValidLinks(links) && |init| == |links| && b < |links| && k < |links[b]| && Follows(links, init, b, t)
    ensures Follows(links, init, links[b][k], t)
  {
    var d: nat :| d < |init| && t in init[d] && Reaches(links, d, b);
    ReachesStep(links, d, b, links[b][k]);
  }

  /** Growing one set by what comes over a satisfied link keeps the invariant. */
  lemma UnionKeepsInv(links: Links, init: seq<set<nat>>, fws: seq<set<nat>>, complete: seq<bool>, b: nat, k: nat)
    requires Inv(links, init, fws, complete) && b < |links| && k < |links[b]|
    ensures var c := links[b][k];
            Inv(links, init, fws[c := fws[c] + fws[b]], complete[c := false])
  {
    hide Follows;
    var c := links[b][k];
    var fws' := fws[c := fws[c] + fws[b]];
    forall t | t in fws[b]
      ensures Follows(links, init, c, t)
    {
      FollowsOverLink(links, init, b, k, t);
    }
    forall a | 0 <= a < |fws| && a != c && complete[a]
      ensures Satisfied(links, fws', a)
    {
      assert Satisfied(links, fws, a);
    }
  }

  /** It adds terminals only, and if the set changes there is less missing. */
  lemma UnionShrinksMissing(fws: seq<set<nat>>, b: nat, c: nat, nterminal: nat)
    requires InRange(fws, nterminal) && b < |fws| && c < |fws|
    ensures InRange(fws[c := fws[c] + fws[b]], nterminal)
    ensures !(fws[b] <= fws[c]) ==> Missing(fws[c := fws[c] + fws[b]], nterminal) < Missing(fws, nterminal)
  {
    if t :| t in fws[b] && t !in fws[c] {
      MissingShrinks(fws, fws[c := fws[c] + fws[b]], nterminal, c, t);
    }
  }

  lemma InvShape(links: Links, init: seq<set<nat>>, fws: seq<set<nat>>, complete: seq<bool>, b: nat)
    requires Inv(links, init, fws, complete) && b < |links|
    ensures ValidLinks(links) && |fws| == |complete| == |links|
    ensures forall k | 0 <= k < |links[b]| :: links[b][k] < |links|
  {}

  lemma MarkKeepsInv(links: Links, init: seq<set<nat>>, fws: seq<set<nat>>, complete: seq<bool>, b: nat)
    requires Inv(links, init, fws, complete) && b < |links| && Satisfied(links, fws, b)
    ensures Inv(links, init, fws, complete[b := true])
  {
  }

  /** Propagates the set of one configuration over all its links. */
  method Propagate(links: Links, b: nat, fws: array<set<nat>>, complete: array<bool>, ghost init: seq<set<nat>>,
                   nterminal: nat)
    returns (progress: bool)
    requires Inv(links, init, fws[..], complete[..]) && InRange(fws[..], nterminal) && b < |links|
    modifies fws, complete
    ensures Inv(links, init, fws[..], complete[..]) && InRange(fws[..], nterminal)
    ensures complete[b] && forall c | 0 <= c < |links| && !progress && old(complete[c]) :: complete[c]
    ensures if progress then Missing(fws[..], nterminal) < old(Missing(fws[..], nterminal)) else fws[..] == old(fws[..])
  {
    hide Inv, InRange, Missing;
    progress := false;
    ghost var was := fws[..];
    InvShape(links, init, fws[..], complete[..], b);
    for k := 0 to |links[b]|
      invariant Inv(links, init, fws[..], complete[..]) && InRange(fws[..], nterminal)
      invariant forall m | 0 <= m < k :: fws[b] <= fws[links[b][m]]
      invariant fws[b] == was[b]
      invariant !progress ==> complete[..] == old(complete[..])
      invariant if progress then Missing(fws[..], nterminal) < Missing(was, nterminal) else fws[..] == was
    {
      var c := links[b][k];
      if !(fws[b] <= fws[c]) {
        ghost var before, marks := fws[..], complete[..];
        UnionKeepsInv(links, init, before, marks, b, k);
        UnionShrinksMissing(before, b, c, nterminal);
        fws[c] := fws[c] + fws[b];
        complete[c] := false;
        assert fws[..] == before[c := before[c] + before[b]] && complete[..] == marks[c := false];
        progress := true;
      }
    }
    assert Satisfied(links, fws[..], b);
    ghost var marks := complete[..];
    MarkKeepsInv(links, init, fws[..], marks, b);
    complete[b] := true;
    assert complete[..] == marks[b := true];
  }

  /** Configuration c belongs to one of the first i states, or is among the first j of state i. */
  ghost predicate Listed(states: seq<seq<nat>>, i: nat, j: nat, c: nat)
    requires i <= |states| && (i < |states| ==> j <= |states[i]|)
  {
    || (exists a, b :: 0 <= a < i && 0 <= b < |states[a]| && states[a][b] == c)
    || (i < |states| && exists b :: 0 <= b < j && states[i][b] == c)
  }

  /** The configurations of all states are those of the link table. */
  ghost predicate Covers(states: seq<seq<nat>>, links: Links) {
    && (forall i, j | 0 <= i < |states| && 0 <= j < |states[i]| :: states[i][j] < |links|)
    && forall c | 0 <= c < |links| :: Listed(states, |states|, 0, c)
  }

  /** One pass over all configurations of all states. */
  method Pass(states: seq<seq<nat>>, links: Links, fws: array<set<nat>>, complete: array<bool>,
              ghost init: seq<set<nat>>, nterminal: nat)
    returns (progress: bool)
    requires Inv(links, init, fws[..], complete[..]) && InRange(fws[..], nterminal) && Covers(states, links)
    modifies fws, complete
    ensures Inv(links, init, fws[..], complete[..]) && InRange(fws[..], nterminal)
    ensures if progress then Missing(fws[..], nterminal) < old(Missing(fws[..], nterminal))
            else fws[..] == old(fws[..]) && forall c | 0 <= c < |links| :: complete[c]
  {
    progress := false;
    ghost var was := fws[..];
    for i := 0 to |states|
      invariant Inv(links, init, fws[..], complete[..]) && InRange(fws[..], nterminal)
      invariant if progress then Missing(fws[..], nterminal) < Missing(was, nterminal) else fws[..] == was
      invariant !progress ==> forall c | 0 <= c < |links| && Listed(states, i, 0, c) :: complete[c]
    {
      for j := 0 to |states[i]|
        invariant Inv(links, init, fws[..], complete[..]) && InRange(fws[..], nterminal)
        invariant if progress then Missing(fws[..], nterminal) < Missing(was, nterminal) else fws[..] == was
        invariant !progress ==> forall c | 0 <= c < |links| && Listed(states, i, j, c) :: complete[c]
      {
        var cfp := states[i][j];
        if complete[cfp] {
          continue;
        }
        var change := Propagate(links, cfp, fws, complete, init, nterminal);
        if change {
          progress := true;
        }
      }
      assert forall c | 0 <= c < |links| && Listed(states, i + 1, 0, c) :: Listed(states, i, |states[i]|, c);
    }
  }

  /**
   Propagates until a pass changes nothing. Afterwards a terminal is in a
   configuration's set exactly when it was initially in the set of some
   configuration that reaches it.
   */
  method FindFollowSets(states: seq<seq<nat>>, links: Links, fws: array<set<nat>>, nterminal: nat)
    requires ValidLinks(links) && fws.Length == |links| && Covers(states, links) && InRange(fws[..], nterminal)
    modifies fws
    ensures forall c, t: nat | 0 <= c < |links| :: t in fws[c] <==> Follows(links, old(fws[..]), c, t)
  {
    hide Missing, Follows, Satisfied;
    ghost var init := fws[..];
    var complete := new bool[|links|](_ => false);
    StartInv(links, init);
    assert complete[..] == seq(|links|, _ => false);
    var progress := true;
    while progress
      invariant Inv(links, init, fws[..], complete[..]) && InRange(fws[..], nterminal)
      invariant !progress ==> forall c | 0 <= c < |links| :: complete[c]
      decreases Missing(fws[..], nterminal), progress
    {
      progress := Pass(states, links, fws, complete, init, nterminal);
    }
    forall c: nat, t: nat | c < |links| && Follows(links, init, c, t)
      ensures t in fws[c]
    {
      FollowsIsLeast(links, init, fws[..], c, t);
    }
  }
}
