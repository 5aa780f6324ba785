/**
 The merge sort of the LEMON generator as a function on sequences: lists are
 collected in bins of doubling size and merged at the end. The last bin is
 overwritten, not merged, when it is already full.
 */
module SortSpec {
  import opened Wrappers

  type Compare<!T> = (T, T) -> int

  /** The comparison orders all values, up to equivalence. */
  ghost predicate Ordering<T(!new)>(cmp: Compare<T>) {
    && (forall x, y :: cmp(x, y) < 0 <==> cmp(y, x) > 0)
    && (forall x, y, z :: cmp(x, y) <= 0 && cmp(y, z) <= 0 ==> cmp(x, z) <= 0)
  }

  ghost predicate Sorted<T(!new)>(cmp: Compare<T>, s: seq<T>) {
    forall i, j | 0 <= i < j < |s| :: cmp(s[i], s[j]) <= 0
  }

  /** The members of s that are equivalent to e, in order. */
  function Equals<T>(cmp: Compare<T>, s: seq<T>, e: T): seq<T> {
    if s == [] then []
    else (if cmp(s[0], e) == 0 then [s[0]] else []) + Equals(cmp, s[1..], e)
  }

  /** The sequence s is the stable sort of w: ordered, and equivalent members keep their order. */
  ghost predicate StableSortOf<T(!new)>(cmp: Compare<T>, s: seq<T>, w: seq<T>) {
    Sorted(cmp, s) && forall e :: Equals(cmp, s, e) == Equals(cmp, w, e)
  }

  lemma EqualsCons<T>(cmp: Compare<T>, x: T, s: seq<T>, e: T)
    ensures Equals(cmp, [x] + s, e) == (if cmp(x, e) == 0 then [x] else []) + Equals(cmp, s, e)
  {}

  lemma {:induction false} EqualsAppend<T>(cmp: Compare<T>, s: seq<T>, t: seq<T>, e: T)
    ensures Equals(cmp, s + t, e) == Equals(cmp, s, e) + Equals(cmp, t, e)
  {
    if s == [] {
      assert s + t == t;
    } else {
      EqualsAppend(cmp, s[1..], t, e);
      EqualsCons(cmp, s[0], s[1..], e);
      EqualsCons(cmp, s[0], s[1..] + t, e);
      hide Equals;
      assert s == [s[0]] + s[1..] && s + t == [s[0]] + (s[1..] + t);
    }
  }

  lemma {:induction false} EqualsCount<T>(cmp: Compare<T>, s: seq<T>, e: T)
    requires cmp(e, e) == 0
    ensures multiset(s)[e] == multiset(Equals(cmp, s, e))[e]
  {
    if s == [] {
    } else {
      assert s == [s[0]] + s[1..];
      EqualsCount(cmp, s[1..], e);
    }
  }

  lemma ReflexiveOrder<T(!new)>(cmp: Compare<T>, x: T)
    requires Ordering(cmp)
    ensures cmp(x, x) == 0
  {}

  /** A stable sort is in particular a permutation. */
  lemma StableSortPermutes<T(!new)>(cmp: Compare<T>, s: seq<T>, w: seq<T>)
    requires Ordering(cmp) && StableSortOf(cmp, s, w)
    ensures multiset(s) == multiset(w)
  {
    forall e: T
      ensures multiset(s)[e] == multiset(w)[e]
    {
      ReflexiveOrder(cmp, e);
      EqualsCount(cmp, s, e);
      EqualsCount(cmp, w, e);
    }
  }

  // ----- merging

  /** Merges two lists; on ties the second goes first. */
  function Merged<T>(cmp: Compare<T>, a: seq<T>, b: seq<T>): (r: seq<T>)
    ensures |r| == |a| + |b|
  {
    if a == [] then b
    else if b == [] then a
    else if cmp(a[0], b[0]) < 0 then [a[0]] + Merged(cmp, a[1..], b)
    else [b[0]] + Merged(cmp, a, b[1..])
  }

  lemma {:induction false} MergedBelow<T(!new)>(cmp: Compare<T>, a: seq<T>, b: seq<T>, x: T)
    requires forall i | 0 <= i < |a| :: cmp(x, a[i]) <= 0
    requires forall i | 0 <= i < |b| :: cmp(x, b[i]) <= 0
    ensures forall i | 0 <= i < |Merged(cmp, a, b)| :: cmp(x, Merged(cmp, a, b)[i]) <= 0
  {
    if a == [] || b == [] {
    } else {
      if cmp(a[0], b[0]) < 0 {
        MergedBelow(cmp, a[1..], b, x);
      } else {
        MergedBelow(cmp, a, b[1..], x);
      }
    }
  }

  lemma AllAbove<T(!new)>(cmp: Compare<T>, x: T, s: seq<T>)
    requires Ordering(cmp) && Sorted(cmp, s) && (s != [] ==> cmp(x, s[0]) <= 0)
    ensures forall i | 0 <= i < |s| :: cmp(x, s[i]) <= 0
  {}

  lemma SortedCons<T(!new)>(cmp: Compare<T>, x: T, s: seq<T>)
    requires Sorted(cmp, s) && forall i | 0 <= i < |s| :: cmp(x, s[i]) <= 0
    ensures Sorted(cmp, [x] + s)
  {}

  lemma {:induction false} MergedSorted<T(!new)>(cmp: Compare<T>, a: seq<T>, b: seq<T>)
    requires Ordering(cmp) && Sorted(cmp, a) && Sorted(cmp, b)
    ensures Sorted(cmp, Merged(cmp, a, b))
  {
    if a == [] || b == [] {
    } else {
      if cmp(a[0], b[0]) < 0 {
        MergedSorted(cmp, a[1..], b);
        AllAbove(cmp, a[0], b);
        MergedBelow(cmp, a[1..], b, a[0]);
        SortedCons(cmp, a[0], Merged(cmp, a[1..], b));
      } else {
        MergedSorted(cmp, a, b[1..]);
        assert cmp(b[0], a[0]) <= 0;
        AllAbove(cmp, b[0], a);
        MergedBelow(cmp, a, b[1..], b[0]);
        SortedCons(cmp, b[0], Merged(cmp, a, b[1..]));
      }
    }
  }

  lemma BelowTrans<T(!new)>(cmp: Compare<T>, x: T, y: T, z: T)
    requires Ordering(cmp) && cmp(x, y) < 0 && cmp(y, z) <= 0
    ensures cmp(x, z) < 0
  {}

  lemma TransBelow<T(!new)>(cmp: Compare<T>, x: T, y: T, z: T)
    requires Ordering(cmp) && cmp(x, y) <= 0 && cmp(y, z) < 0
    ensures cmp(x, z) < 0
  {}

  /** Nothing equivalent to e occurs in a sorted list whose first member is above e. */
  lemma {:induction false} EqualsAbove<T(!new)>(cmp: Compare<T>, s: seq<T>, e: T)
    requires Ordering(cmp) && Sorted(cmp, s) && (s != [] ==> cmp(e, s[0]) < 0)
    ensures Equals(cmp, s, e) == []
  {
    if |s| <= 1 {
    } else {
      BelowTrans(cmp, e, s[0], s[1]);
      EqualsAbove(cmp, s[1..], e);
    }
  }

  lemma NoneAbove<T(!new)>(cmp: Compare<T>, x: T, s: seq<T>, e: T)
    requires Ordering(cmp) && Sorted(cmp, s) && s != [] && cmp(x, s[0]) < 0 && cmp(x, e) == 0
    ensures Equals(cmp, s, e) == []
  {
    assert cmp(e, x) <= 0;
    TransBelow(cmp, e, x, s[0]);
    EqualsAbove(cmp, s, e);
  }

  lemma NoEquals<T(!new)>(cmp: Compare<T>, e: T)
    ensures Equals(cmp, [], e) == []
  {}

  lemma SortedTail<T(!new)>(cmp: Compare<T>, s: seq<T>)
    requires Sorted(cmp, s) && s != []
    ensures Sorted(cmp, s[1..])
  {}

  /** The case of the merge where the first list's head is taken. */
  lemma StableFirst<T(!new)>(cmp: Compare<T>, x: T, a: seq<T>, b: seq<T>, e: T)
    requires Ordering(cmp) && Sorted(cmp, b) && b != [] && cmp(x, b[0]) < 0
    requires Equals(cmp, Merged(cmp, a, b), e) == Equals(cmp, b, e) + Equals(cmp, a, e)
    ensures Equals(cmp, [x] + Merged(cmp, a, b), e) == Equals(cmp, b, e) + Equals(cmp, [x] + a, e)
  {
    hide Equals, Merged, Ordering, Sorted;
    EqualsCons(cmp, x, Merged(cmp, a, b), e);
    EqualsCons(cmp, x, a, e);
    if cmp(x, e) == 0 {
      NoneAbove(cmp, x, b, e);
    }
  }

  lemma {:induction false} MergedStable<T(!new)>(cmp: Compare<T>, a: seq<T>, b: seq<T>, e: T)
    requires Ordering(cmp) && Sorted(cmp, a) && Sorted(cmp, b)
    ensures Equals(cmp, Merged(cmp, a, b), e) == Equals(cmp, b, e) + Equals(cmp, a, e)
  {
    hide Equals, Ordering, Sorted;
    if a == [] || b == [] {
      NoEquals(cmp, e);
    } else if cmp(a[0], b[0]) < 0 {
      SortedTail(cmp, a);
      MergedStable(cmp, a[1..], b, e);
      StableFirst(cmp, a[0], a[1..], b, e);
      assert a == [a[0]] + a[1..];
    } else {
      SortedTail(cmp, b);
      MergedStable(cmp, a, b[1..], e);
      EqualsCons(cmp, b[0], Merged(cmp, a, b[1..]), e);
      EqualsCons(cmp, b[0], b[1..], e);
      assert b == [b[0]] + b[1..];
    }
  }

  /** Merging a newer sorted list into an older one sorts the older followed by the newer. */
  lemma MergeSorts<T(!new)>(cmp: Compare<T>, newer: seq<T>, older: seq<T>, wn: seq<T>, wo: seq<T>)
    requires Ordering(cmp) && StableSortOf(cmp, newer, wn) && StableSortOf(cmp, older, wo)
    ensures StableSortOf(cmp, Merged(cmp, newer, older), wo + wn)
  {
    MergedSorted(cmp, newer, older);
    forall e: T
      ensures Equals(cmp, Merged(cmp, newer, older), e) == Equals(cmp, wo + wn, e)
    {
      MergedStable(cmp, newer, older, e);
      EqualsAppend(cmp, wo, wn, e);
    }
  }

  // ----- bins

  /** Adds a list of size 2^i to the bins, merging it with full bins on the way up. */
  function Carry<T>(cmp: Compare<T>, bins: seq<seq<T>>, ep: seq<T>, i: nat): (bins': seq<seq<T>>)
    requires i < |bins|
    ensures |bins'| == |bins| && forall k | 0 <= k < i :: bins'[k] == bins[k]
    decreases |bins| - i
  {
    if i < |bins| - 1 && bins[i] != [] then Carry(cmp, bins[i := []], Merged(cmp, ep, bins[i]), i + 1)
    else bins[i := ep]
  }

  /** Merges the bins from the i-th on into a list of newer elements. */
  function Collect<T>(cmp: Compare<T>, bins: seq<seq<T>>, i: nat, ep: seq<T>): seq<T>
    requires i <= |bins|
    decreases |bins| - i
  {
    if i == |bins| then ep
    else Collect(cmp, bins, i + 1, if bins[i] == [] then ep else Merged(cmp, ep, bins[i]))
  }

  function AddAll<T>(cmp: Compare<T>, bins: seq<seq<T>>, list: seq<T>): (bins': seq<seq<T>>)
    requires 0 < |bins|
    ensures |bins'| == |bins|
    decreases list
  {
    if list == [] then bins
    else AddAll(cmp, Carry(cmp, bins, [list[0]], 0), list[1..])
  }

  /** The whole sort, with the given number of bins. */
  function MSort<T>(cmp: Compare<T>, size: nat, list: seq<T>): seq<T>
    requires 0 < size
  {
    Collect(cmp, AddAll(cmp, seq(size, _ => []), list), 0, [])
  }

  /**
   After c lists of size 2^i have been added to the bins from the i-th on, these bins
   hold w: one bit of c decides each bin, except that the last bin is full as soon as
   anything has reached it.
   */
  ghost predicate Represents<T(!new)>(cmp: Compare<T>, bins: seq<seq<T>>, i: nat, c: nat, w: seq<T>)
    requires i < |bins|
    decreases |bins| - i
  {
    if i == |bins| - 1 then
      if c == 0 then bins[i] == [] && w == []
      else |bins[i]| == |w| == Pow2(i) && StableSortOf(cmp, bins[i], w)
    else if c % 2 == 0 then bins[i] == [] && Represents(cmp, bins, i + 1, c / 2, w)
    else
      && |bins[i]| == Pow2(i) <= |w|
      && StableSortOf(cmp, bins[i], w[|w| - Pow2(i)..])
      && Represents(cmp, bins, i + 1, c / 2, w[..|w| - Pow2(i)])
  }

  /** How many elements the bins from the i-th on retain of c lists of size 2^i. */
  function Retained(size: nat, i: nat, c: nat): nat
    requires i < size
    decreases size - i
  {
    if i == size - 1 then if c == 0 then 0 else Pow2(i)
    else (if c % 2 == 0 then 0 else Pow2(i)) + Retained(size, i + 1, c / 2)
  }

  lemma {:induction false} RepresentsSize<T(!new)>(cmp: Compare<T>, bins: seq<seq<T>>, i: nat, c: nat, w: seq<T>)
    requires i < |bins| && Represents(cmp, bins, i, c, w)
    ensures |w| == Retained(|bins|, i, c)
    decreases |bins| - i
  {
    if i >= |bins| - 1 {
    } else {
      RepresentsSize(cmp, bins, i + 1, c / 2, if c % 2 == 0 then w else w[..|w| - Pow2(i)]);
    }
  }

  /** Bins below the i-th do not matter. */
  lemma {:induction false} RepresentsAbove<T(!new)>(cmp: Compare<T>, bins: seq<seq<T>>, bins': seq<seq<T>>, i: nat,
                                             c: nat, w: seq<T>)
    requires i < |bins| == |bins'| && forall k | i <= k < |bins| :: bins'[k] == bins[k]
    requires Represents(cmp, bins, i, c, w)
    ensures Represents(cmp, bins', i, c, w)
    decreases |bins| - i
  {
    if i >= |bins| - 1 {
    } else {
      RepresentsAbove(cmp, bins, bins', i + 1, c / 2, if c % 2 == 0 then w else w[..|w| - Pow2(i)]);
    }
  }

  ghost predicate Suffix<T>(w: seq<T>, done: seq<T>) {
    |w| <= |done| && w == done[|done| - |w|..]
  }

  lemma CarryIntoEmpty<T(!new)>(cmp: Compare<T>, bins: seq<seq<T>>, ep: seq<T>, i: nat, c: nat, w: seq<T>, v: seq<T>)
    requires i < |bins| - 1 && c % 2 == 0 && Represents(cmp, bins, i, c, w)
    requires |ep| == |v| == Pow2(i) && StableSortOf(cmp, ep, v)
    ensures Represents(cmp, bins[i := ep], i, c + 1, w + v)
  {
    RepresentsAbove(cmp, bins, bins[i := ep], i + 1, c / 2, w);
    assert (w + v)[|w + v| - Pow2(i)..] == v && (w + v)[..|w + v| - Pow2(i)] == w;
    assert (c + 1) % 2 == 1 && (c + 1) / 2 == c / 2;
  }

  /** Adding one more list appends it to what the bins hold, perhaps dropping the oldest elements. */
  lemma {:induction false} CarryRepresents<T(!new)>(cmp: Compare<T>, bins: seq<seq<T>>, ep: seq<T>, i: nat, c: nat,
                                             w: seq<T>, v: seq<T>)
    returns (w': seq<T>)
    requires Ordering(cmp) && i < |bins| && Represents(cmp, bins, i, c, w)
    requires |ep| == |v| == Pow2(i) && StableSortOf(cmp, ep, v)
    ensures Represents(cmp, Carry(cmp, bins, ep, i), i, c + 1, w')
    ensures Suffix(w', w + v)
    decreases |bins| - i
  {
    hide Ordering, StableSortOf, Merged;
    if i == |bins| - 1 {
      w' := v;
      assert (w + v)[|w|..] == v;
    } else if c % 2 == 0 {
      w' := w + v;
      CarryIntoEmpty(cmp, bins, ep, i, c, w, v);
      assert (w + v)[0..] == w + v;
    } else {
      var w1, w2 := w[..|w| - Pow2(i)], w[|w| - Pow2(i)..];
      assert w1 + (w2 + v) == w + v;
      MergeSorts(cmp, ep, bins[i], v, w2);
      RepresentsAbove(cmp, bins, bins[i := []], i + 1, c / 2, w1);
      w' := CarryRepresents(cmp, bins[i := []], Merged(cmp, ep, bins[i]), i + 1, c / 2, w1, w2 + v);
      assert (c + 1) % 2 == 0 && (c + 1) / 2 == c / 2 + 1;
    }
  }

  /** Collecting the bins sorts what they hold. */
  lemma {:induction false} CollectSorts<T(!new)>(cmp: Compare<T>, bins: seq<seq<T>>, i: nat, c: nat, w: seq<T>,
                                          ep: seq<T>, v: seq<T>)
    requires Ordering(cmp) && i < |bins| && Represents(cmp, bins, i, c, w)
    requires StableSortOf(cmp, ep, v)
    ensures StableSortOf(cmp, Collect(cmp, bins, i, ep), w + v)
    decreases |bins| - i
  {
    if i == |bins| - 1 {
      if c == 0 {
        assert w + v == v;
      } else {
        MergeSorts(cmp, ep, bins[i], v, w);
      }
    } else if c % 2 == 0 {
      CollectSorts(cmp, bins, i + 1, c / 2, w, ep, v);
    } else {
      var w1, w2 := w[..|w| - Pow2(i)], w[|w| - Pow2(i)..];
      MergeSorts(cmp, ep, bins[i], v, w2);
      CollectSorts(cmp, bins, i + 1, c / 2, w1, Merged(cmp, ep, bins[i]), w2 + v);
      assert w1 + (w2 + v) == w + v;
    }
  }

  lemma SuffixAppend<T>(w: seq<T>, done: seq<T>, v: seq<T>)
    requires Suffix(w, done)
    ensures Suffix(w + v, done + v)
  {}

  lemma SuffixTrans<T>(a: seq<T>, b: seq<T>, c: seq<T>)
    requires Suffix(a, b) && Suffix(b, c)
    ensures Suffix(a, c)
  {
  }

  lemma AddOneRepresents<T(!new)>(cmp: Compare<T>, bins: seq<seq<T>>, c: nat, w: seq<T>, done: seq<T>, x: T)
    returns (w': seq<T>)
    requires Ordering(cmp) && 0 < |bins| && Represents(cmp, bins, 0, c, w) && Suffix(w, done)
    ensures Represents(cmp, Carry(cmp, bins, [x], 0), 0, c + 1, w') && Suffix(w', done + [x])
  {
    w' := CarryRepresents(cmp, bins, [x], 0, c, w, [x]);
    SuffixAppend(w, done, [x]);
    SuffixTrans(w', w + [x], done + [x]);
  }

  lemma {:induction false} AddAllRepresents<T(!new)>(cmp: Compare<T>, bins: seq<seq<T>>, c: nat, w: seq<T>,
                                              done: seq<T>, list: seq<T>)
    returns (w': seq<T>)
    requires Ordering(cmp) && 0 < |bins| && Represents(cmp, bins, 0, c, w) && Suffix(w, done)
    ensures Represents(cmp, AddAll(cmp, bins, list), 0, c + |list|, w') && Suffix(w', done + list)
    decreases list
  {
    hide Represents, Carry, Suffix, Ordering;
    if list == [] {
      w' := w;
      assert done + list == done;
    } else {
      var w1 := AddOneRepresents(cmp, bins, c, w, done, list[0]);
      w' := AddAllRepresents(cmp, Carry(cmp, bins, [list[0]], 0), c + 1, w1, done + [list[0]], list[1..]);
      assert done + [list[0]] + list[1..] == done + list;
    }
  }

  lemma {:induction false} EmptyRepresents<T(!new)>(cmp: Compare<T>, size: nat, i: nat)
    requires i < size
    ensures Represents<T>(cmp, seq(size, _ => []), i, 0, [])
    decreases size - i
  {
    if i < size - 1 {
      EmptyRepresents<T>(cmp, size, i + 1);
    }
  }

  /** The sort is a stable sort of the last elements of the list, as many as the bins retain. */
  lemma MSortSortsRetained<T(!new)>(cmp: Compare<T>, size: nat, list: seq<T>)
    requires Ordering(cmp) && 0 < size
    ensures Retained(size, 0, |list|) <= |list|
    ensures StableSortOf(cmp, MSort(cmp, size, list), list[|list| - Retained(size, 0, |list|)..])
  {
    EmptyRepresents<T>(cmp, size, 0);
    var w := AddAllRepresents(cmp, seq(size, _ => []), 0, [], [], list);
    assert [] + list == list;
    var bins := AddAll(cmp, seq(size, _ => []), list);
    RepresentsSize(cmp, bins, 0, |list|, w);
    CollectSorts(cmp, bins, 0, |list|, w, [], []);
    assert w + [] == w;
  }

  lemma Scale(x: nat, y: nat, p: nat)
    requires x >= y && p > 0
    ensures x * p >= y * p
  {
  }

  lemma Halve(c: nat, h: nat, b: nat, p: nat)
    requires c == 2 * h + b
    ensures c * p == h * (2 * p) + b * p
  {}

  /** Everything is retained exactly when the count fits the bins. */
  lemma {:induction false} RetainedAll(size: nat, i: nat, c: nat)
    requires i < size
    ensures c < Pow2(size - i) ==> Retained(size, i, c) == c * Pow2(i)
    ensures c >= Pow2(size - i) ==> Retained(size, i, c) < c * Pow2(i)
    decreases size - i
  {
    if i == size - 1 {
      assert Pow2(1) == 2;
      if c >= 2 {
        Scale(c, 2, Pow2(i));
      }
    } else {
      var h, b, p := c / 2, c % 2, Pow2(i);
      RetainedAll(size, i + 1, h);
      assert Pow2(size - i) == 2 * Pow2(size - (i + 1)) && Pow2(i + 1) == 2 * p;
      Halve(c, h, b, p);
    }
  }

  /** The sort is a stable sort of its whole input exactly when the input has fewer than 2^size elements. */
  lemma MSortExact<T(!new)>(cmp: Compare<T>, size: nat, list: seq<T>)
    requires Ordering(cmp) && 0 < size
    ensures StableSortOf(cmp, MSort(cmp, size, list), list) <==> |list| < Pow2(size)
    ensures multiset(MSort(cmp, size, list)) == multiset(list) <==> |list| < Pow2(size)
  {
    MSortSortsRetained(cmp, size, list);
    var kept := list[|list| - Retained(size, 0, |list|)..];
    var sorted := MSort(cmp, size, list);
    RetainedAll(size, 0, |list|);
    StableSortPermutes(cmp, sorted, kept);
    assert |sorted| == |multiset(sorted)| == |multiset(kept)| == |kept|;
    if |list| < Pow2(size) {
      assert kept == list;
    } else {
      assert |multiset(sorted)| < |multiset(list)|;
      if StableSortOf(cmp, sorted, list) {
        StableSortPermutes(cmp, sorted, list);
      }
    }
  }

  /** Every bin is empty or holds exactly 2^i elements. */
  lemma {:induction false} BinSizes<T(!new)>(cmp: Compare<T>, bins: seq<seq<T>>, i: nat, c: nat, w: seq<T>, k: nat)
    requires i <= k < |bins| && Represents(cmp, bins, i, c, w)
    ensures |bins[k]| == 0 || |bins[k]| == Pow2(k)
    decreases |bins| - i
  {
    if i >= k {
    } else {
      BinSizes(cmp, bins, i + 1, c / 2, if c % 2 == 0 then w else w[..|w| - Pow2(i)], k);
    }
  }

  /** At every point of the sort each bin is empty or full. */
  lemma BinsFullOrEmpty<T(!new)>(cmp: Compare<T>, size: nat, done: seq<T>, k: nat)
    requires Ordering(cmp) && k < size
    ensures var bins := AddAll(cmp, seq(size, _ => []), done);
            |bins[k]| == 0 || |bins[k]| == Pow2(k)
  {
    EmptyRepresents<T>(cmp, size, 0);
    var w := AddAllRepresents(cmp, seq(size, _ => []), 0, [], [], done);
    BinSizes(cmp, AddAll(cmp, seq(size, _ => []), done), 0, |done|, w, k);
  }
}
