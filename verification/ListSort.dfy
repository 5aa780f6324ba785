/**
 The merge sort of the LEMON generator on linked lists (merge and msort in
 lemon.c): only the `next` pointers change.
 */
module ListSort {
  import opened SortSpec
  import opened Wrappers

  const LISTSIZE := 30

  class Node<T> {
    const datum: T
    var next: Node?<T>

    constructor (datum: T, next: Node?<T>)
      ensures this.datum == datum && this.next == next
    {
      this.datum, this.next := datum, next;
    }
  }

  function HeadOf<T>(s: seq<Node<T>>): Node?<T> {
    if s == [] then null else s[0]
  }

  ghost predicate Distinct<T>(s: seq<Node<T>>) {
    forall i, j | 0 <= i < j < |s| :: s[i] != s[j]
  }

  ghost predicate Disjoint<T>(s: seq<Node<T>>, t: seq<Node<T>>) {
    forall n | n in s :: n !in t
  }

  /** Every node points to the next and the last to the given end. */
  ghost predicate Linked<T>(s: seq<Node<T>>, end: Node?<T>)
    reads s
  {
    && (forall i | 0 <= i < |s| - 1 :: s[i].next == s[i + 1])
    && (s != [] ==> s[|s| - 1].next == end)
  }

  /** The nodes of the list that starts at head. */
  ghost predicate Chain<T>(head: Node?<T>, s: seq<Node<T>>)
    reads s
  {
    head == HeadOf(s) && Distinct(s) && Linked(s, null)
  }

  ghost function Data<T>(s: seq<Node<T>>): (d: seq<T>)
    ensures |d| == |s|
  {
    seq(|s|, i requires 0 <= i < |s| => s[i].datum)
  }

  /** The nodes of p have been linked; those of two remaining lists are still in place. */
  ghost predicate Merging<T>(p: seq<Node<T>>, ra: seq<Node<T>>, rb: seq<Node<T>>)
    reads p, ra, rb
  {
    && p != [] && (forall i | 0 <= i < |p| - 1 :: p[i].next == p[i + 1])
    && Linked(ra, null) && Linked(rb, null)
    && Distinct(p + ra) && Distinct(p + rb) && Disjoint(ra, rb)
  }

  lemma Apart<T>(p: seq<Node<T>>, r: seq<Node<T>>)
    requires Distinct(p + r)
    ensures forall k, m | 0 <= k < |p| && 0 <= m < |r| :: p[k] != r[m]
    ensures Distinct(p) && Distinct(r)
  {
    forall k, m | 0 <= k < |p| && 0 <= m < |r|
      ensures p[k] != r[m]
    {
      assert (p + r)[k] == p[k] && (p + r)[|p| + m] == r[m];
    }
    assert forall k | 0 <= k < |p| :: (p + r)[k] == p[k];
    assert forall k | 0 <= k < |r| :: (p + r)[|p| + k] == r[k];
  }

  lemma DistinctInsert<T>(p: seq<Node<T>>, n: Node<T>, r: seq<Node<T>>)
    requires Distinct(p + r) && n !in p && n !in r
    ensures Distinct(p + [n] + r)
  {
    var s, t := p + r, p + [n] + r;
    forall i, j | 0 <= i < j < |t|
      ensures t[i] != t[j]
    {
      if i != |p| && j != |p| {
        assert t[i] == s[if i < |p| then i else i - 1] && t[j] == s[if j < |p| then j else j - 1];
      } else if i == |p| {
        assert t[j] == r[j - |p| - 1];
      } else {
        assert t[i] == p[i];
      }
    }
  }

  /** The next pointer of the last linked node is set to the head of a remaining list. */
  method LinkNext<T>(ptr: Node<T>, n: Node<T>, ghost p: seq<Node<T>>, ghost ra: seq<Node<T>>, ghost rb: seq<Node<T>>)
    requires Merging(p, ra, rb) && ptr == p[|p| - 1] && ra != [] && n == ra[0]
    modifies ptr
    ensures Merging(p + [n], ra[1..], rb)
    ensures n.next == HeadOf(ra[1..])
  {
    ghost var p', ra' := p + [n], ra[1..];
    assert p' + ra' == p + ra;
    Apart(p, ra);
    Apart(p, rb);
    assert ptr != n;
    assert n.next == HeadOf(ra');
    assert forall k | 0 <= k < |ra| :: ra[k] != ptr;
    ptr.next := n;
    assert n.next == HeadOf(ra');
    assert Linked(ra, null);
    assert forall k | 0 <= k < |ra'| :: ra'[k] == ra[k + 1];
    DistinctInsert(p, n, rb);
  }

  /** The last linked node is joined to what remains of one list. */
  method LinkRest<T>(ptr: Node<T>, rest: Node?<T>, ghost p: seq<Node<T>>, ghost r: seq<Node<T>>)
    requires Merging(p, r, []) && ptr == p[|p| - 1] && rest == HeadOf(r)
    modifies ptr
    ensures Chain(p[0], p + r)
  {
    Apart(p, r);
    assert forall k | 0 <= k < |r| :: r[k] != ptr;
    ptr.next := rest;
    assert Linked(r, null);
    ghost var s := p + r;
    forall i | 0 <= i < |s| - 1
      ensures s[i].next == s[i + 1]
    {
      if i >= |p| {
        assert s[i] == r[i - |p|] && s[i + 1] == r[i - |p| + 1];
      }
    }
  }

  /** The nodes so far linked, and those that remain, are among the given nodes. */
  ghost predicate Among<T>(p: seq<Node<T>>, ra: seq<Node<T>>, rb: seq<Node<T>>, nodes: set<Node<T>>) {
    && (forall n | n in p :: n in nodes)
    && (forall n | n in ra :: n in nodes)
    && (forall n | n in rb :: n in nodes)
  }

  /** The linked nodes carry the first part of the merged data. */
  ghost predicate Carried<T>(cmp: Compare<T>, p: seq<Node<T>>, ra: seq<Node<T>>, rb: seq<Node<T>>, whole: seq<T>) {
    whole == Data(p) + Merged(cmp, Data(ra), Data(rb))
  }

  lemma CarriedStep<T>(cmp: Compare<T>, p: seq<Node<T>>, ra: seq<Node<T>>, rb: seq<Node<T>>, whole: seq<T>)
    requires ra != [] && rb != [] && Carried(cmp, p, ra, rb, whole)
    ensures if cmp(ra[0].datum, rb[0].datum) < 0 then Carried(cmp, p + [ra[0]], ra[1..], rb, whole)
            else Carried(cmp, p + [rb[0]], ra, rb[1..], whole)
  {
    assert Data(ra)[1..] == Data(ra[1..]) && Data(rb)[1..] == Data(rb[1..]);
    assert Data(p + [ra[0]]) == Data(p) + [ra[0].datum] && Data(p + [rb[0]]) == Data(p) + [rb[0].datum];
  }

  lemma CarriedEnd<T>(cmp: Compare<T>, p: seq<Node<T>>, r: seq<Node<T>>, whole: seq<T>)
    requires Carried(cmp, p, r, [], whole) || Carried(cmp, p, [], r, whole)
    ensures Data(p + r) == whole
  {}

  lemma MergingStart<T>(a: seq<Node<T>>, b: seq<Node<T>>)
    requires a != [] && Linked(a, null) && Linked(b, null) && Distinct(a) && Distinct(b) && Disjoint(a, b)
    ensures Merging([a[0]], a[1..], b)
  {
    assert [a[0]] + a[1..] == a;
    assert a[0] in a && [] + b == b && [] + [a[0]] + b == [a[0]] + b;
    DistinctInsert([], a[0], b);
    assert forall k | 0 <= k < |a[1..]| :: a[1..][k] == a[k + 1];
  }

  /** Links the smaller head, again and again, until one list is used up. */
  method MergeRest<T>(cmp: Compare<T>, first: Node<T>, a0: Node?<T>, b0: Node?<T>,
                      ghost p0: seq<Node<T>>, ghost sa: seq<Node<T>>, ghost sb: seq<Node<T>>,
                      ghost nodes: set<Node<T>>, ghost whole: seq<T>)
    returns (head: Node<T>, ghost s: seq<Node<T>>)
    requires p0 == [first] && Merging(p0, sa, sb) && Among(p0, sa, sb, nodes) && Carried(cmp, p0, sa, sb, whole)
    requires a0 == HeadOf(sa) && b0 == HeadOf(sb)
    modifies nodes
    ensures Chain(head, s) && Data(s) == whole
    ensures forall n | n in s :: n in nodes
  {
    var a, b := a0, b0;
    var ptr: Node<T> := first;
    ghost var p: seq<Node<T>>, ra: seq<Node<T>>, rb: seq<Node<T>> := p0, sa, sb;
    head := first;
    while a != null && b != null
      invariant Merging(p, ra, rb) && Among(p, ra, rb, nodes) && Carried(cmp, p, ra, rb, whole)
      invariant a == HeadOf(ra) && b == HeadOf(rb)
      invariant head == p[0] && ptr == p[|p| - 1] && ptr in nodes
      decreases |ra| + |rb|
    {
      CarriedStep(cmp, p, ra, rb, whole);
      if cmp(a.datum, b.datum) < 0 {
        LinkNext(ptr, a, p, ra, rb);
        ptr := a;
        a := a.next;
        p, ra := p + [ptr], ra[1..];
      } else {
        LinkNext(ptr, b, p, rb, ra);
        ptr := b;
        b := b.next;
        p, rb := p + [ptr], rb[1..];
      }
    }
    if a != null {
      LinkRest(ptr, a, p, ra);
      s := p + ra;
      CarriedEnd(cmp, p, ra, whole);
    } else {
      LinkRest(ptr, b, p, rb);
      s := p + rb;
      CarriedEnd(cmp, p, rb, whole);
    }
  }

  /** Merges two lists by relinking their nodes. */
  method Merge<T>(cmp: Compare<T>, a0: Node?<T>, b0: Node?<T>, ghost sa: seq<Node<T>>, ghost sb: seq<Node<T>>)
    returns (head: Node?<T>, ghost s: seq<Node<T>>)
    requires Chain(a0, sa) && Chain(b0, sb) && Disjoint(sa, sb)
    modifies sa, sb
    ensures Chain(head, s)
    ensures Data(s) == Merged(cmp, Data(sa), Data(sb))
    ensures forall n | n in s :: n in sa || n in sb
  {
    var a, b := a0, b0;
    if a == null {
      return b, sb;
    } else if b == null {
      return a, sa;
    }
    ghost var whole := Merged(cmp, Data(sa), Data(sb));
    ghost var nodes := (set n | n in sa) + (set n | n in sb);
    CarriedStep(cmp, [], sa, sb, whole);
    var ptr: Node<T>;
    ghost var ra, rb := sa, sb;
    if cmp(a.datum, b.datum) < 0 {
      MergingStart(sa, sb);
      ptr := a;
      a := a.next;
      ra := sa[1..];
    } else {
      MergingStart(sb, sa);
      ptr := b;
      b := b.next;
      rb := sb[1..];
    }
    ghost var p := [ptr];
    assert [] + p == p;
    head, s := MergeRest(cmp, ptr, a, b, p, ra, rb, nodes, whole);
  }

  // ----- bins

  ghost function NodesOf<T>(g: seq<seq<Node<T>>>): (nodes: set<Node<T>>)
    ensures forall i, n | 0 <= i < |g| && n in g[i] :: n in nodes
  {
    set i, n | 0 <= i < |g| && n in g[i] :: n
  }

  ghost predicate BinsOk<T>(heads: seq<Node?<T>>, g: seq<seq<Node<T>>>)
    reads NodesOf(g)
  {
    && |heads| == |g|
    && (forall i | 0 <= i < |g| :: Chain(heads[i], g[i]))
    && (forall i, j | 0 <= i < j < |g| :: Disjoint(g[i], g[j]))
  }

  ghost predicate DisjointAll<T>(e: seq<Node<T>>, g: seq<seq<Node<T>>>) {
    forall i | 0 <= i < |g| :: Disjoint(e, g[i])
  }

  ghost predicate Within<T>(e: seq<Node<T>>, g: seq<seq<Node<T>>>, nodes: set<Node<T>>) {
    && (forall n | n in e :: n in nodes)
    && (forall i, n | 0 <= i < |g| && n in g[i] :: n in nodes)
  }

  ghost function BinsData<T>(g: seq<seq<Node<T>>>): (d: seq<seq<T>>)
    ensures |d| == |g|
  {
    seq(|g|, i requires 0 <= i < |g| => Data(g[i]))
  }

  /** Merges the list ep with the i-th bin and empties the bin. */
  method EmptyBin<T>(cmp: Compare<T>, heads: array<Node?<T>>, i: nat, ep: Node?<T>, ghost g: seq<seq<Node<T>>>,
                     ghost e: seq<Node<T>>,
                     ghost nodes: set<Node<T>>)
    returns (ep': Node?<T>, ghost e': seq<Node<T>>)
    requires i < heads.Length && BinsOk(heads[..], g) && Chain(ep, e) && DisjointAll(e, g) && Within(e, g, nodes)
    modifies heads, nodes
    ensures heads[..] == old(heads[..])[i := null]
    ensures BinsOk(heads[..], g[i := []]) && Chain(ep', e') && DisjointAll(e', g[i := []]) &&
            Within(e', g[i := []], nodes)
    ensures Data(e') == Merged(cmp, Data(e), Data(g[i]))
  {
    ghost var before := heads[..];
    ep', e' := Merge(cmp, ep, heads[i], e, g[i]);
    forall k | 0 <= k < |g| && k != i
      ensures Chain(before[k], g[k])
    {
      assert old(Chain(before[k], g[k])) && Disjoint(e, g[k]);
      assert if k < i then Disjoint(g[k], g[i]) else Disjoint(g[i], g[k]);
      forall j | 0 <= j < |g[k]|
        ensures g[k][j].next == old(g[k][j].next)
      {
        assert g[k][j] in g[k];
        assert g[k][j] !in e && g[k][j] !in g[i];
      }
    }
    heads[i] := null;
  }

  lemma CarryStep<T>(cmp: Compare<T>, g: seq<seq<Node<T>>>, e: seq<Node<T>>, e': seq<Node<T>>, i: nat)
    requires i < |g| - 1 && g[i] != [] && Data(e') == Merged(cmp, Data(e), Data(g[i]))
    ensures Carry(cmp, BinsData(g), Data(e), i) == Carry(cmp, BinsData(g[i := []]), Data(e'), i + 1)
  {
    assert Data<T>([]) == [];
    assert BinsData(g)[i := []] == BinsData(g[i := []]);
    assert |Data(g[i])| > 0;
  }

  /** Puts a list into the bins, merging it with full bins on the way up. */
  method CarryUp<T>(cmp: Compare<T>, heads: array<Node?<T>>, ep0: Node?<T>, ghost g: seq<seq<Node<T>>>,
                    ghost e: seq<Node<T>>,
                    ghost nodes: set<Node<T>>)
    returns (ghost g': seq<seq<Node<T>>>)
    requires heads.Length == LISTSIZE && BinsOk(heads[..], g) && Chain(ep0, e) && DisjointAll(e, g) &&
             Within(e, g, nodes)
    modifies heads, nodes
    ensures BinsOk(heads[..], g') && Within([], g', nodes)
    ensures |g'| == |g| && BinsData(g') == Carry(cmp, BinsData(g), Data(e), 0)
  {
    var ep := ep0;
    ghost var e1 := e;
    g' := g;
    var i := 0;
    while i < LISTSIZE - 1 && heads[i] != null
      invariant 0 <= i <= LISTSIZE - 1 && |g'| == |g| == heads.Length
      invariant BinsOk(heads[..], g') && Chain(ep, e1) && DisjointAll(e1, g') && Within(e1, g', nodes)
      invariant Carry(cmp, BinsData(g), Data(e), 0) == Carry(cmp, BinsData(g'), Data(e1), i)
    {
      ghost var e2: seq<Node<T>>;
      ghost var before := e1;
      assert heads[..][i] == heads[i] && Chain(heads[..][i], g'[i]);
      ep, e2 := EmptyBin(cmp, heads, i, ep, g', e1, nodes);
      CarryStep(cmp, g', before, e2, i);
      e1 := e2;
      g' := g'[i := []];
      i := i + 1;
    }
    assert heads[..][i] == heads[i] && Chain(heads[..][i], g'[i]);
    assert BinsData(g')[i := Data(e1)] == BinsData(g'[i := e1]);
    heads[i] := ep;
    g' := g'[i := e1];
  }

  /** Merges all bins into one list, newest elements first. */
  method CollectBins<T>(cmp: Compare<T>, heads: array<Node?<T>>, ghost g0: seq<seq<Node<T>>>, ghost nodes: set<Node<T>>)
    returns (ep: Node?<T>, ghost e: seq<Node<T>>)
    requires heads.Length == LISTSIZE && BinsOk(heads[..], g0) && Within([], g0, nodes)
    modifies heads, nodes
    ensures Chain(ep, e) && Data(e) == Collect(cmp, BinsData(g0), 0, [])
    ensures forall n | n in e :: n in nodes
  {
    ghost var g := g0;
    ep := null;
    e := [];
    assert Data(e) == [];
    for i := 0 to LISTSIZE
      invariant |g| == |g0| == heads.Length && BinsOk(heads[..], g) && Chain(ep, e) && DisjointAll(e, g) &&
                Within(e, g, nodes)
      invariant forall k | i <= k < |g| :: g[k] == g0[k]
      invariant Collect(cmp, BinsData(g0), 0, []) == Collect(cmp, BinsData(g0), i, Data(e))
    {
      assert heads[..][i] == heads[i] && Chain(heads[..][i], g[i]);
      assert BinsData(g0)[i] == Data(g[i]) && (g[i] == [] <==> Data(g[i]) == []);
      if heads[i] != null {
        ghost var e2: seq<Node<T>>;
        ep, e2 := EmptyBin(cmp, heads, i, ep, g, e, nodes);
        e := e2;
        g := g[i := []];
      }
    }
  }

  /** Takes the first node off a list. */
  method Detach<T>(ep: Node<T>, ghost rest: seq<Node<T>>, ghost heads: seq<Node?<T>>, ghost g: seq<seq<Node<T>>>)
    returns (list: Node?<T>)
    requires rest != [] && Chain(ep, rest) && DisjointAll(rest, g) && BinsOk(heads, g)
    modifies ep
    ensures Chain(ep, [ep]) && Chain(list, rest[1..]) && BinsOk(heads, g)
  {
    list := ep.next;
    ghost var tail := rest[1..];
    assert forall j | 0 <= j < |tail| :: tail[j] == rest[j + 1] && tail[j] != ep;
    assert ep in rest;
    ep.next := null;
    forall k | 0 <= k < |g|
      ensures Chain(heads[k], g[k])
    {
      assert old(Chain(heads[k], g[k])) && Disjoint(rest, g[k]);
      assert forall j | 0 <= j < |g[k]| :: g[k][j] in g[k];
      assert forall j | 0 <= j < |g[k]| :: g[k][j] != ep;
    }
  }

  /** What is left of the list shares no node with the first node or the bins. */
  lemma TailApart<T>(rest: seq<Node<T>>, g: seq<seq<Node<T>>>)
    requires rest != [] && Distinct(rest) && DisjointAll(rest, g)
    ensures forall n | n in rest[1..] :: n !in NodesOf(g) + {rest[0]}
    ensures DisjointAll([rest[0]], g)
  {}

  /** Takes the first node off a list and puts it into the bins. */
  method AddFirst<T>(cmp: Compare<T>, heads: array<Node?<T>>, ep: Node<T>, ghost rest: seq<Node<T>>,
                     ghost g: seq<seq<Node<T>>>)
    returns (list: Node?<T>, ghost g': seq<seq<Node<T>>>)
    requires heads.Length == LISTSIZE && BinsOk(heads[..], g)
    requires rest != [] && Chain(ep, rest) && DisjointAll(rest, g)
    modifies heads, ep, NodesOf(g)
    ensures Chain(list, rest[1..]) && BinsOk(heads[..], g') && DisjointAll(rest[1..], g')
    ensures forall i, n | 0 <= i < |g'| && n in g'[i] :: n == ep || n in NodesOf(g)
    ensures |g'| == |g| && BinsData(g') == Carry(cmp, BinsData(g), [ep.datum], 0)
  {
    TailApart(rest, g);
    list := Detach(ep, rest, heads[..], g);
    assert Data([ep]) == [ep.datum];
    g' := CarryUp(cmp, heads, ep, g, [ep], NodesOf(g) + {ep});
  }

  /** Sorts a linked list; the result carries what MSort computes from the data. */
  method MSortList<T(!new)>(cmp: Compare<T>, list0: Node?<T>, ghost all: seq<Node<T>>)
    returns (head: Node?<T>, ghost s: seq<Node<T>>)
    requires Chain(list0, all)
    modifies all
    ensures Chain(head, s) && Data(s) == MSort(cmp, LISTSIZE, Data(all))
    ensures forall n | n in s :: n in all
  {
    var list := list0;
    ghost var nodes := set n | n in all;
    var heads := new Node?<T>[LISTSIZE](_ => null);
    ghost var g: seq<seq<Node<T>>> := seq(LISTSIZE, _ => []);
    ghost var rest := all;
    assert BinsData(g) == seq(LISTSIZE, _ => []);
    while list != null
      invariant Chain(list, rest) && BinsOk(heads[..], g) && |g| == LISTSIZE && DisjointAll(rest, g) &&
                Within(rest, g, nodes)
      invariant MSort(cmp, LISTSIZE, Data(all)) == Collect(cmp, AddAll(cmp, BinsData(g), Data(rest)), 0, [])
      decreases |rest|
    {
      assert Data(rest)[1..] == Data(rest[1..]) && list in rest;
      assert forall n | n in NodesOf(g) :: n in nodes;
      ghost var g': seq<seq<Node<T>>>;
      list, g' := AddFirst(cmp, heads, list, rest, g);
      g := g';
      rest := rest[1..];
    }
    assert Data(rest) == [];
    head, s := CollectBins(cmp, heads, g, nodes);
  }

  lemma ThirtyBins()
    ensures Pow2(LISTSIZE) == 0x4000_0000
  {
    assert Pow2(10) == 1024;
    assert Pow2(20) == 1024 * Pow2(10);
    assert Pow2(30) == 1024 * Pow2(20);
  }

  /** With thirty bins a list is sorted, and nothing lost, if and only if it has fewer than 2^30 members. */
  lemma SortsExactly<T(!new)>(cmp: Compare<T>, list: seq<T>)
    requires Ordering(cmp)
    ensures var sorted := MSort(cmp, LISTSIZE, list);
            && (multiset(sorted) == multiset(list) <==> |list| < 0x4000_0000)
            && (|list| < 0x4000_0000 ==>
                  forall i, k | 0 <= i < k < |sorted| :: cmp(sorted[i], sorted[k]) <= 0)
  {
    hide MSort, Pow2, Equals;
    ThirtyBins();
    MSortExact(cmp, LISTSIZE, list);
  }
}
