/**
 The caseless associative array of lighttpd (array.c): elements in order of
 insertion, and beside them an index sorted by key, searched by halving steps
 from a stored power of two. Every operation agrees with a map from folded keys.
 */
module CaselessArray {
  import opened Wrappers
  import opened CaselessCompare
  import opened Decimal

  /** An element: its key with the terminating zero, its type and its value. */
  datatype Datum<V> = Datum(key: Key, typ: nat, isIndexKey: bool, value: V)

  /** NoPosition: the search would need a position that is no int; Full: no more elements are taken. */
  datatype InsertResult = Inserted | Duplicate | TypeClash | NoPosition | Full

  ghost predicate IsPow2(n: nat) {
    exists k: nat :: Pow2(k) == n
  }

  lemma HalfPow2(n: nat)
    requires IsPow2(n)
    ensures n == 1 || (n % 2 == 0 && IsPow2(n / 2))
  {
    var k: nat :| Pow2(k) == n;
    if k > 0 {
      assert Pow2(k - 1) == n / 2;
    }
  }

  lemma DoublePow2(n: nat)
    requires IsPow2(n)
    ensures IsPow2(2 * n)
  {
    var k: nat :| Pow2(k) == n;
    assert Pow2(k + 1) == 2 * n;
  }

  /** The largest power of two for which every probe of the search is an int. */
  const MAX_POWER := 0x4000_0000

  predicate NeedsNumber<V>(str: Datum<V>) {
    str.key == [] || str.isIndexKey
  }

  /** The element under the key it is stored by: elements without a key of their own get a number. */
  function KeyedBy<V>(str: Datum<V>, number: nat): Datum<V> {
    if NeedsNumber(str) then str.(key := Digits(number) + [0], isIndexKey := true) else str
  }

  // ----- what the operations mean: a map from folded keys, and the next number

  datatype Dict<V> = Dict(contents: map<Key, Datum<V>>, number: nat)

  datatype Op<V> = InsertOp(d: Datum<V>) | ReplaceOp(d: Datum<V>) | TakeOp(typ: nat) | ResetOp

  /** The map after an insertion; none if the types clash, where the program aborts. */
  function Insertion<V>(dup: (V, V) -> V, s: Dict<V>, d: Datum<V>): Option<Dict<V>> {
    var str := KeyedBy(d, s.number);
    var number := if NeedsNumber(d) then s.number + 1 else s.number;
    var k := Folded(str.key);
    if k !in s.contents then Some(Dict(s.contents[k := str], number))
    else if s.contents[k].typ != str.typ then None
    else Some(Dict(s.contents[k := s.contents[k].(value := dup(s.contents[k].value, str.value))], number))
  }

  function Effect<V>(dup: (V, V) -> V, s: Dict<V>, op: Op<V>): Option<Dict<V>> {
    match op
    case InsertOp(d) => Insertion(dup, s, d)
    case ReplaceOp(d) =>
      if Folded(d.key) in s.contents then Some(s.(contents := s.contents[Folded(d.key) := d])) else Insertion(dup, s, d)
    case TakeOp(_) => Some(s)
    case ResetOp => Some(s.(contents := map[]))
  }

  /** The first n operations, up to the first that aborts. */
  function Effects<V>(dup: (V, V) -> V, s: Dict<V>, ops: seq<Op<V>>, n: nat): Option<Dict<V>>
    requires n <= |ops|
  {
    if n == 0 then Some(s)
    else match Effects(dup, s, ops, n - 1)
      case None => None
      case Some(s') => Effect(dup, s', ops[n - 1])
  }

  /**
   An insertion fails only if the types clash; else one key is added or keeps its element, with
   the values merged, the old one first; no other key is affected.
   */
  lemma InsertionExact<V>(dup: (V, V) -> V, s: Dict<V>, d: Datum<V>)
    ensures var r, str := Insertion(dup, s, d), KeyedBy(d, s.number);
            var k := Folded(str.key);
            && (r == None <==> k in s.contents && s.contents[k].typ != d.typ)
            && (r.Some? ==>
                  && r.value.number == s.number + (if d.key == [] || d.isIndexKey then 1 else 0)
                  && r.value.contents.Keys == s.contents.Keys + {k}
                  && (forall k' | k' in s.contents && k' != k :: r.value.contents[k'] == s.contents[k'])
                  && r.value.contents[k] ==
                     if k !in s.contents then str
                     else
                       var was := s.contents[k];
                       Datum(was.key, was.typ, was.isIndexKey, dup(was.value, d.value)))
  {}

  /** A replacement puts the new element in the place of the old one, with the new key; a reset keeps the numbers. */
  lemma EffectExact<V>(dup: (V, V) -> V, s: Dict<V>, op: Op<V>)
    ensures op.InsertOp? || (op.ReplaceOp? && Folded(op.d.key) !in s.contents) ==>
              Effect(dup, s, op) == Insertion(dup, s, op.d)
    ensures op.ReplaceOp? && Folded(op.d.key) in s.contents ==>
              Effect(dup, s, op) == Some(Dict(s.contents[Folded(op.d.key) := op.d], s.number))
    ensures op.TakeOp? ==> Effect(dup, s, op) == Some(s)
    ensures op.ResetOp? ==> Effect(dup, s, op) == Some(Dict(map[], s.number))
  {}

  // ----- numbered keys

  /** Digits and the terminating zero are the same in lower case. */
  lemma FoldedNumber(n: nat)
    ensures Folded(Digits(n) + [0]) == Digits(n) + [0]
  {
    hide Digits;
    DigitsRead(n);
  }

  /** An element with a key of its own keeps it; the key of another reads as its number. */
  lemma KeyedByNumber<V>(d: Datum<V>, n: nat)
    ensures d.key != [] && !d.isIndexKey ==> KeyedBy(d, n) == d
    ensures d.key == [] || d.isIndexKey ==>
              var e := KeyedBy(d, n);
              && e == Datum(e.key, d.typ, true, d.value) && |e.key| >= 2 && e.key[|e.key| - 1] == 0
              && Number(e.key[..|e.key| - 1]) == n && e.key[..|e.key| - 1] == Digits(n)
  {
    hide Digits, Number;
    DigitsRead(n);
    var k := Digits(n) + [0];
    assert k[..|k| - 1] == Digits(n);
  }

  /** Different numbers make different keys, also up to case. */
  lemma NumberedKeysDiffer<V>(d: Datum<V>, m: nat, e: Datum<V>, n: nat)
    requires (d.key == [] || d.isIndexKey) && (e.key == [] || e.isIndexKey) && m != n
    ensures Folded(KeyedBy(d, m).key) != Folded(KeyedBy(e, n).key)
  {
    hide Digits, Folded;
    FoldedNumber(m);
    FoldedNumber(n);
    if Digits(m) + [0] == Digits(n) + [0] {
      assert (Digits(m) + [0])[..|Digits(m)|] == Digits(m) && (Digits(n) + [0])[..|Digits(n)|] == Digits(n);
      DigitsDiffer(m, n);
    }
  }

  /** The operation inserts an element that is given a number for a key. */
  predicate TakesNumber<V>(s: Dict<V>, op: Op<V>) {
    match op
    case InsertOp(d) => d.key == [] || d.isIndexKey
    case ReplaceOp(d) => (d.key == [] || d.isIndexKey) && Folded(d.key) !in s.contents
    case _ => false
  }

  /** The next number is one more after each operation that takes one, and is never set back. */
  lemma NumberTaken<V>(dup: (V, V) -> V, s: Dict<V>, op: Op<V>)
    ensures Effect(dup, s, op).Some? ==>
            Effect(dup, s, op).value.number == s.number + if TakesNumber(s, op) then 1 else 0
  {}

  lemma {:induction false} NumbersGrow<V>(dup: (V, V) -> V, s: Dict<V>, ops: seq<Op<V>>, m: nat, n: nat)
    requires m <= n <= |ops| && Effects(dup, s, ops, n).Some?
    ensures Effects(dup, s, ops, m).Some?
    ensures Effects(dup, s, ops, m).value.number <= Effects(dup, s, ops, n).value.number
  {
    if m == n {
    } else {
      NumberTaken(dup, Effects(dup, s, ops, n - 1).value, ops[n - 1]);
      NumbersGrow(dup, s, ops, m, n - 1);
    }
  }

  /** Over a run no two elements are given the same number for a key. */
  lemma NumberedOnce<V>(dup: (V, V) -> V, s: Dict<V>, ops: seq<Op<V>>, m: nat, n: nat)
    requires m < n < |ops| && Effects(dup, s, ops, n).Some?
    ensures Effects(dup, s, ops, m).Some?
    ensures var s1, s2 := Effects(dup, s, ops, m).value, Effects(dup, s, ops, n).value;
            TakesNumber(s1, ops[m]) && TakesNumber(s2, ops[n]) ==>
              Folded(KeyedBy(ops[m].d, s1.number).key) != Folded(KeyedBy(ops[n].d, s2.number).key)
  {
    hide KeyedBy, Folded, Effect;
    NumbersGrow(dup, s, ops, m + 1, n);
    NumbersGrow(dup, s, ops, m, n);
    var s1, s2 := Effects(dup, s, ops, m).value, Effects(dup, s, ops, n).value;
    NumberTaken(dup, s1, ops[m]);
    if TakesNumber(s1, ops[m]) && TakesNumber(s2, ops[n]) {
      NumberedKeysDiffer(ops[m].d, s1.number, ops[n].d, s2.number);
    }
  }

  lemma NoEffect<V>(dup: (V, V) -> V, s: Dict<V>, ops: seq<Op<V>>)
    ensures Effects(dup, s, ops, 0) == Some(s)
  {}

  lemma OneEffect<V>(dup: (V, V) -> V, s: Dict<V>, ops: seq<Op<V>>, n: nat)
    requires n < |ops| && Effects(dup, s, ops, n).Some?
    ensures Effects(dup, s, ops, n + 1) == Effect(dup, Effects(dup, s, ops, n).value, ops[n])
  {}

  lemma {:induction false} PowersApart(j: nat, k: nat)
    requires j < k
    ensures 2 * Pow2(j) <= Pow2(k)
  {
    if j + 1 >= k {
    } else {
      PowersApart(j, k - 1);
    }
  }

  /** Below the largest admitted power there is room to double. */
  lemma MaxPower()
    ensures Pow2(30) == MAX_POWER
  {
    assert Pow2(10) == 1024;
    assert Pow2(20) == 1024 * Pow2(10);
    assert Pow2(30) == 1024 * Pow2(20);
  }

  lemma DoubleFits(n: nat)
    requires IsPow2(n) && n < MAX_POWER
    ensures 2 * n <= MAX_POWER
  {
    var j: nat :| Pow2(j) == n;
    MaxPower();
    hide Pow2;
    if j >= 30 {
      if j > 30 { PowersApart(30, j); }
    } else {
      PowersApart(j, 30);
    }
  }

  // ----- the sorted index, as values

  /** The rank of an element is its position in the index. */
  ghost predicate Ranked(index: seq<int>, rank: seq<nat>, d: nat) {
    d < |rank| && rank[d] < |index| && index[rank[d]] == d
  }

  /** The key at position p of the index is less than the one at position q. */
  ghost predicate Before<V>(items: seq<Datum<V>>, index: seq<int>, p: nat, q: nat) {
    && p < |index| && q < |index| && 0 <= index[p] < |items| && 0 <= index[q] < |items|
    && Cmp(items[index[p]].key, items[index[q]].key) < 0
  }

  /** The index and the ranks are inverse permutations, and the keys are strictly increasing. */
  ghost predicate IndexOk<V>(items: seq<Datum<V>>, index: seq<int>, rank: seq<nat>) {
    && |items| == |index| == |rank|
    && (forall p | 0 <= p < |index| :: 0 <= index[p] < |items| && rank[index[p]] == p)
    && (forall d | 0 <= d < |rank| :: Ranked(index, rank, d))
    && (forall p, q | 0 <= p < q < |index| :: Before(items, index, p, q))
  }

  ghost predicate Stored<V>(items: seq<Datum<V>>, contents: map<Key, Datum<V>>, d: nat) {
    d < |items| && Folded(items[d].key) in contents && contents[Folded(items[d].key)] == items[d]
  }

  /** The map holds exactly the items, by folded key. */
  ghost predicate MapOk<V>(items: seq<Datum<V>>, contents: map<Key, Datum<V>>) {
    && (forall d | 0 <= d < |items| :: Stored(items, contents, d))
    && (forall k | k in contents :: exists d :: 0 <= d < |items| && Folded(items[d].key) == k)
  }

  ghost predicate InBounds<V>(items: seq<Datum<V>>, index: seq<int>) {
    |items| == |index| && forall p | 0 <= p < |index| :: 0 <= index[p] < |items|
  }

  /** A position that comes before the key; positions left of the index do. */
  ghost predicate Below<V>(items: seq<Datum<V>>, index: seq<int>, key: Key, p: int)
    requires InBounds(items, index)
  {
    p < 0 || (p < |index| && Cmp(key, items[index[p]].key) > 0)
  }

  /** A position that comes after the key; positions right of the index do. */
  ghost predicate Above<V>(items: seq<Datum<V>>, index: seq<int>, key: Key, p: int)
    requires InBounds(items, index)
  {
    p >= |index| || (p >= 0 && Cmp(key, items[index[p]].key) < 0)
  }

  lemma CmpBelowTrans(x: Key, y: Key, z: Key)
    requires Cmp(x, y) < 0 && Cmp(y, z) <= 0
    ensures Cmp(x, z) < 0
  {}

  lemma BelowAboveMonotone<V>(items: seq<Datum<V>>, index: seq<int>, rank: seq<nat>, key: Key, p: int, q: int)
    requires IndexOk(items, index, rank) && p < q
    ensures Below(items, index, key, q) && q < |index| ==> Below(items, index, key, p)
    ensures Above(items, index, key, p) && 0 <= p ==> Above(items, index, key, q)
  {
    if 0 <= p < q < |index| {
      var kp, kq := items[index[p]].key, items[index[q]].key;
      assert Before(items, index, p, q);
      CmpAntisymmetric(key, kp);
      CmpAntisymmetric(key, kq);
      if Cmp(key, kq) > 0 {
        CmpBelowTrans(kp, kq, key);
      }
      if Cmp(key, kp) < 0 {
        CmpBelowTrans(key, kp, kq);
      }
    }
  }

  /** Where the key still may be: the search is at pos and will next move by i. */
  ghost predicate Range<V>(items: seq<Datum<V>>, index: seq<int>, key: Key, pos: int, i: nat)
    requires InBounds(items, index)
  {
    var r := if i == 0 then 0 else 2 * i - 1;
    && (forall p :: p < pos - r ==> Below(items, index, key, p))
    && (forall p :: p > pos + r ==> Above(items, index, key, p))
  }

  lemma IndexInBounds<V>(items: seq<Datum<V>>, index: seq<int>, rank: seq<nat>)
    requires IndexOk(items, index, rank)
    ensures InBounds(items, index)
  {}

  /** The search starts with the whole index in range. */
  lemma RangeStart<V>(items: seq<Datum<V>>, index: seq<int>, key: Key, power: nat)
    requires InBounds(items, index) && IsPow2(power) && |index| <= power
    ensures Range(items, index, key, power / 2, power / 2)
  {
    HalfPow2(power);
  }

  /** After a move up from a position before the key, the key is still in range. */
  lemma RangeUp<V>(items: seq<Datum<V>>, index: seq<int>, rank: seq<nat>, key: Key, pos: int, i: nat)
    requires IndexOk(items, index, rank) && Range(items, index, key, pos, i)
    requires Below(items, index, key, pos) && (i == 0 || IsPow2(i))
    ensures Range(items, index, key, pos + i, i / 2)
  {
    if i > 0 { HalfPow2(i); }
    forall p | p < pos && pos < |index|
      ensures Below(items, index, key, p)
    {
      BelowAboveMonotone(items, index, rank, key, p, pos);
    }
  }

  /** After a move down from a position after the key, the key is still in range. */
  lemma RangeDown<V>(items: seq<Datum<V>>, index: seq<int>, rank: seq<nat>, key: Key, pos: int, i: nat)
    requires IndexOk(items, index, rank) && Range(items, index, key, pos, i)
    requires Above(items, index, key, pos) && (i == 0 || IsPow2(i))
    ensures Range(items, index, key, pos - i, i / 2)
  {
    if i > 0 { HalfPow2(i); }
    forall p | p > pos && pos >= 0
      ensures Above(items, index, key, p)
    {
      BelowAboveMonotone(items, index, rank, key, pos, p);
    }
  }

  /** The final position of a failed search: all before it come before the key, all after it after. */
  ghost predicate Gap<V>(items: seq<Datum<V>>, index: seq<int>, key: Key, pos: int)
    requires InBounds(items, index)
  {
    && -1 <= pos <= |index|
    && Range(items, index, key, pos, 0)
    && (Below(items, index, key, pos) || Above(items, index, key, pos))
  }

  lemma GapMeansAbsent<V>(items: seq<Datum<V>>, index: seq<int>, rank: seq<nat>, contents: map<Key, Datum<V>>,
                          key: Key, pos: int)
    requires IndexOk(items, index, rank) && MapOk(items, contents) && Range(items, index, key, pos, 0)
    requires Below(items, index, key, pos) || Above(items, index, key, pos)
    ensures Gap(items, index, key, pos) && Folded(key) !in contents
  {
    assert !Below(items, index, key, |index|) && !Above(items, index, key, -1);
    forall d | 0 <= d < |items|
      ensures Folded(items[d].key) != Folded(key)
    {
      var p := rank[d];
      assert Ranked(index, rank, d);
      assert Below(items, index, key, p) || Above(items, index, key, p);
      CmpZero(key, items[index[p]].key);
    }
  }

  /** The key belongs at position g of the index. */
  ghost predicate Belongs<V>(items: seq<Datum<V>>, index: seq<int>, key: Key, g: nat)
    requires InBounds(items, index)
  {
    && g <= |index|
    && (forall p | 0 <= p < g :: Cmp(items[index[p]].key, key) < 0)
    && (forall p | g <= p < |index| :: Cmp(key, items[index[p]].key) < 0)
  }

  /** From where the search ended, one step right if the key comes after that position. */
  lemma GapBelongs<V>(items: seq<Datum<V>>, index: seq<int>, key: Key, pos: int)
    requires InBounds(items, index) && Gap(items, index, key, pos)
    ensures Belongs(items, index, key, if pos != |index| && Below(items, index, key, pos) then pos + 1 else pos)
  {
    var g := if pos != |index| && Below(items, index, key, pos) then pos + 1 else pos;
    forall q | 0 <= q < |index|
      ensures if q < g then Cmp(items[index[q]].key, key) < 0 else Cmp(key, items[index[q]].key) < 0
    {
      CmpAntisymmetric(key, items[index[q]].key);
      assert if q < g then Below(items, index, key, q) else Above(items, index, key, q);
    }
  }

  function RankAfter(rank: seq<nat>, pos: nat): seq<nat> {
    seq(|rank|, d requires 0 <= d < |rank| => if rank[d] < pos then rank[d] else rank[d] + 1) + [pos]
  }

  /** Entering a new element where it belongs keeps the index sorted. */
  lemma EnterIndex<V>(items: seq<Datum<V>>, index: seq<int>, rank: seq<nat>, str: Datum<V>, pos: nat)
    requires IndexOk(items, index, rank) && Belongs(items, index, str.key, pos)
    ensures IndexOk(items + [str], index[..pos] + [|items|] + index[pos..], RankAfter(rank, pos))
  {
    var items', index', rank' := items + [str], index[..pos] + [|items|] + index[pos..], RankAfter(rank, pos);
    forall d | 0 <= d < |rank'|
      ensures Ranked(index', rank', d)
    {
      assert d < |rank| ==> Ranked(index, rank, d);
    }
    forall p, q | 0 <= p < q < |index'|
      ensures Before(items', index', p, q)
    {
      var p0, q0 := if p < pos then p else p - 1, if q < pos then q else q - 1;
      if p != pos && q != pos {
        assert Before(items, index, p0, q0);
        assert index'[p] == index[p0] && index'[q] == index[q0];
      } else if p == pos {
        assert index'[q] == index[q0];
      } else {
        assert index'[p] == index[p0];
      }
    }
  }

  lemma ItemStored<V>(items: seq<Datum<V>>, contents: map<Key, Datum<V>>, d: nat)
    requires MapOk(items, contents) && d < |items|
    ensures Stored(items, contents, d)
  {}

  lemma EnterMap<V>(items: seq<Datum<V>>, contents: map<Key, Datum<V>>, str: Datum<V>)
    requires MapOk(items, contents) && Folded(str.key) !in contents
    ensures MapOk(items + [str], contents[Folded(str.key) := str])
  {
    var items' := items + [str];
    var contents' := contents[Folded(str.key) := str];
    forall d | 0 <= d < |items'|
      ensures Stored(items', contents', d)
    {
      assert d < |items| ==> Stored(items, contents, d);
    }
    forall k | k in contents'
      ensures exists d :: 0 <= d < |items'| && Folded(items'[d].key) == k
    {
      if k == Folded(str.key) {
        assert items'[|items|] == str;
      } else {
        var d :| 0 <= d < |items| && Folded(items[d].key) == k;
        assert items'[d] == items[d];
      }
    }
  }

  /** The comparison sees only folded keys. */
  lemma {:induction false} CmpFolded(a: Key, a': Key, b: Key, b': Key)
    requires Folded(a) == Folded(a') && Folded(b) == Folded(b')
    ensures Cmp(a, b) == Cmp(a', b')
  {
    assert |a| == |Folded(a)| && |b| == |Folded(b)|;
    if a == [] || b == [] {
    } else {
      assert Lower(a[0]) == Folded(a)[0] == Lower(a'[0]) && Lower(b[0]) == Folded(b)[0] == Lower(b'[0]);
      assert Folded(a[1..]) == Folded(a)[1..] == Folded(a'[1..]) && Folded(b[1..]) == Folded(b)[1..] == Folded(b'[1..]);
      CmpFolded(a[1..], a'[1..], b[1..], b'[1..]);
    }
  }

  /** Replacing an element by one with the same key, up to case, changes only its entry in the map. */
  lemma ReplaceAt<V>(items: seq<Datum<V>>, index: seq<int>, rank: seq<nat>, contents: map<Key, Datum<V>>, d: nat,
                     du: Datum<V>)
    requires IndexOk(items, index, rank) && MapOk(items, contents)
    requires d < |items| && Folded(du.key) == Folded(items[d].key)
    ensures IndexOk(items[d := du], index, rank) && MapOk(items[d := du], contents[Folded(du.key) := du])
  {
    var items' := items[d := du];
    forall p, q | 0 <= p < q < |index|
      ensures Before(items', index, p, q)
    {
      assert Before(items, index, p, q);
      CmpFolded(items'[index[p]].key, items[index[p]].key, items'[index[q]].key, items[index[q]].key);
    }
    forall e | 0 <= e < |items| && e != d
      ensures Folded(items[e].key) != Folded(du.key)
    {
      var p, q := rank[d], rank[e];
      assert Ranked(index, rank, d) && Ranked(index, rank, e);
      assert if p < q then Before(items, index, p, q) else p == q || Before(items, index, q, p);
      CmpZero(items[d].key, items[e].key);
      CmpZero(items[e].key, items[d].key);
      assert p != q && index[p] == d && index[q] == e;
    }
    var contents' := contents[Folded(du.key) := du];
    forall e | 0 <= e < |items|
      ensures Stored(items', contents', e)
    {
      assert Stored(items, contents, e);
    }
    forall k | k in contents'
      ensures exists e :: 0 <= e < |items'| && Folded(items'[e].key) == k
    {
      if k == Folded(du.key) {
        assert items'[d] == du;
      } else {
        var e :| 0 <= e < |items| && Folded(items[e].key) == k;
        assert items'[e] == items[e];
      }
    }
  }

  /** A larger copy of the first n slots of an array, as realloc provides it. */
  method Enlarged<T>(a: array<T>, n: nat, size: nat, fill: T) returns (b: array<T>)
    requires n <= a.Length && n <= size
    ensures fresh(b) && b.Length == size
    ensures forall k | 0 <= k < size :: b[k] == if k < n then a[k] else fill
  {
    b := new T[size](_ => fill);
    for k := 0 to n
      invariant forall m | 0 <= m < size :: b[m] == if m < k then a[m] else fill
    {
      b[k] := a[k];
    }
  }

  lemma NothingStored<V>() returns (items: seq<Datum<V>>, index: seq<int>, rank: seq<nat>, contents: map<Key, Datum<V>>)
    ensures IndexOk(items, index, rank) && MapOk(items, contents)
    ensures |items| == 0 && contents == map[]
  {
    items, index, rank, contents := [], [], [], map[];
  }

  // ----- the array

  /** One element taken out of a slot, which another element then fills. */
  lemma TakenOut<T>(s: seq<Option<T>>, i: nat, u: nat)
    requires u <= i < |s|
    ensures multiset(s[i := s[u]][u := None]) + multiset{s[i]} == multiset(s) + multiset{None}
  {}

  /** Without its last element the map holds the others. */
  lemma WithoutLast<V>(items: seq<Datum<V>>, contents: map<Key, Datum<V>>)
    requires MapOk(items, contents) && items != []
    requires forall d, e | 0 <= d < e < |items| :: Folded(items[d].key) != Folded(items[e].key)
    ensures var k := Folded(items[|items| - 1].key);
            k in contents && MapOk(items[..|items| - 1], contents - {k})
  {
    var init, k := items[..|items| - 1], Folded(items[|items| - 1].key);
    assert Stored(items, contents, |items| - 1);
    forall d | 0 <= d < |init|
      ensures Stored(init, contents - {k}, d)
    {
      assert Stored(items, contents, d);
    }
    forall k' | k' in contents - {k}
      ensures exists d :: 0 <= d < |init| && Folded(init[d].key) == k'
    {
      var d :| 0 <= d < |items| && Folded(items[d].key) == k';
      assert init[d] == items[d];
    }
  }

  /** As many elements as keys. */
  lemma {:induction false} ItemsCounted<V>(items: seq<Datum<V>>, contents: map<Key, Datum<V>>)
    requires MapOk(items, contents)
    requires forall d, e | 0 <= d < e < |items| :: Folded(items[d].key) != Folded(items[e].key)
    ensures |contents| == |items|
  {
    if items == [] {
      assert contents == map[];
    } else {
      hide MapOk, Folded, Stored;
      var k := Folded(items[|items| - 1].key);
      WithoutLast(items, contents);
      ItemsCounted(items[..|items| - 1], contents - {k});
      assert contents.Keys == (contents - {k}).Keys + {k};
    }
  }

  /** In an ordered index no two elements have the same key. */
  lemma KeysDiffer<V>(items: seq<Datum<V>>, index: seq<int>, rank: seq<nat>, d: nat, e: nat)
    requires IndexOk(items, index, rank) && d < |items| && e < |items| && d != e
    ensures Folded(items[d].key) != Folded(items[e].key)
  {
    assert Ranked(index, rank, d) && Ranked(index, rank, e);
    CmpZero(items[d].key, items[e].key);
    CmpZero(items[e].key, items[d].key);
    if rank[d] < rank[e] {
      assert Before(items, index, rank[d], rank[e]);
    } else {
      assert Before(items, index, rank[e], rank[d]);
    }
  }

  ghost predicate WithinAt<V>(dup: (V, V) -> V, s: Dict<V>, ops: seq<Op<V>>, n: nat)
    requires n <= |ops|
  {
    match Effects(dup, s, ops, n)
    case Some(s') => |s'.contents| <= MAX_POWER && s'.number <= LONG_MAX
    case None => true
  }

  /** At no point of a run are there more elements than the search can tell apart, nor numbers that are no longs. */
  ghost predicate Within<V>(dup: (V, V) -> V, s: Dict<V>, ops: seq<Op<V>>) {
    forall n | 0 <= n <= |ops| :: WithinAt(dup, s, ops, n)
  }

  class CArray<V(==)> {
    const dup: (V, V) -> V    // the elements' insert_dup callback
    const clear: V -> V       // the elements' reset callback
    var data: array<Option<Datum<V>>>
    var sorted: array<int>
    var used: nat
    var uniqueNdx: nat
    var nextPowerOf2: nat

    ghost var items: seq<Datum<V>>          // the elements in use
    ghost var index: seq<int>               // the sorted index in use
    ghost var rank: seq<nat>                // where each element stands in the sorted index
    ghost var contents: map<Key, Datum<V>>  // the elements by folded key

    ghost predicate Shaped()
      reads this, data, sorted
    {
      && |items| == used <= data.Length == sorted.Length
      && (forall d | 0 <= d < used :: data[d] == Some(items[d]) && |items[d].key| <= INT_MAX)
      && |index| == used && (forall p | 0 <= p < used :: sorted[p] == index[p])
    }

    ghost predicate Valid()
      reads this, data, sorted
    {
      && Shaped()
      && IsPow2(nextPowerOf2) && used <= nextPowerOf2
      && IndexOk(items, index, rank)
      && MapOk(items, contents)
    }

    constructor (dup: (V, V) -> V, clear: V -> V)
      ensures Valid() && contents == map[] && used == 0 && nextPowerOf2 == 1
      ensures fresh(data) && fresh(sorted)
    {
      this.dup, this.clear := dup, clear;
      data, sorted := new Option<Datum<V>>[0], new int[0];
      used, uniqueNdx, nextPowerOf2 := 0, 0, 1;
      assert Pow2(0) == 1;
      ghost var items0, index0, rank0, contents0 := NothingStored<V>();
      items, index, rank, contents := items0, index0, rank0, contents0;
    }

    /** One probe of the search: found, or the range is narrowed by a move of i. */
    method Probe(key: Key, aligned: bool, pos: int, i: nat) returns (found: bool, pos': int)
      requires Valid() && |key| <= INT_MAX && Range(items, index, key, pos, i) && (i == 0 || IsPow2(i))
      ensures found ==> 0 <= pos < used && 0 <= sorted[pos] < used && Folded(data[sorted[pos]].value.key) == Folded(key)
      ensures found ==> pos' == pos && !Below(items, index, key, pos)
      ensures !found ==>
                && Range(items, index, key, pos', i / 2)
                && (Below(items, index, key, pos) || Above(items, index, key, pos))
                && pos' == if Below(items, index, key, pos) then pos + i else pos - i
    {
      if pos < 0 {
        RangeUp(items, index, rank, key, pos, i);
        return false, pos + i;
      } else if pos >= used {
        RangeDown(items, index, rank, key, pos, i);
        return false, pos - i;
      }
      var cmp := Compare(key, data[sorted[pos]].value.key, aligned);
      if cmp == 0 {
        CmpZero(key, items[index[pos]].key);
        return true, pos;
      } else if cmp < 0 {
        RangeDown(items, index, rank, key, pos, i);
        return false, pos - i;
      } else {
        RangeUp(items, index, rank, key, pos, i);
        return false, pos + i;
      }
    }

    /**
     The halving search. Positions are ints: with a stored power of 2^31 the first move
     up would not be one; every other probe is.
     */
    method GetIndex(key: Key, aligned: bool) returns (ndx: int, pos: int, fits: bool)
      requires Valid() && (nextPowerOf2 <= MAX_POWER || nextPowerOf2 == 2 * MAX_POWER) && |key| <= INT_MAX
      ensures fits <==> nextPowerOf2 <= MAX_POWER || !Below(items, index, key, MAX_POWER)
      ensures fits ==> (ndx == -1 <==> Folded(key) !in contents)
      ensures fits && ndx != -1 ==> 0 <= ndx < used && Folded(data[ndx].value.key) == Folded(key)
      ensures fits && ndx == -1 ==> Gap(items, index, key, pos)
    {
      hide Range, Below, Above, Gap, IndexOk;
      IndexInBounds(items, index, rank);
      HalfPow2(nextPowerOf2);
      RangeStart(items, index, key, nextPowerOf2);
      var i: nat := nextPowerOf2 / 2;
      pos := i;
      while true
        invariant Range(items, index, key, pos, i) && (i == 0 || IsPow2(i))
        invariant 2 * i <= nextPowerOf2 && -MAX_POWER <= pos - 2 * i
        invariant pos == i == nextPowerOf2 / 2 || pos + 2 * i <= 3 * (MAX_POWER / 2)
        invariant nextPowerOf2 <= MAX_POWER || pos == i == MAX_POWER || !Below(items, index, key, MAX_POWER)
        decreases i
      {
        var found;
        found, pos := Probe(key, aligned, pos, i);
        if found {
          assert Stored(items, contents, sorted[pos]);
          return sorted[pos], pos, true;
        }
        if pos > INT_MAX {
          return -1, pos, false;
        }
        assert -INT_MAX <= pos;
        if i == 0 {
          break;
        }
        HalfPow2(i);
        i := i / 2;
      }
      GapMeansAbsent(items, index, rank, contents, key, pos);
      return -1, pos, true;
    }

    /** The element with the given key, up to case. */
    method GetElement(key: Key, aligned: bool) returns (d: Option<Datum<V>>, fits: bool)
      requires Valid() && (nextPowerOf2 <= MAX_POWER || nextPowerOf2 == 2 * MAX_POWER) && |key| <= INT_MAX
      ensures fits <==> nextPowerOf2 <= MAX_POWER || !Below(items, index, key, MAX_POWER)
      ensures fits ==> d == if Folded(key) in contents then Some(contents[Folded(key)]) else None
    {
      var ndx, _, fits' := GetIndex(key, aligned);
      if fits' && ndx != -1 {
        assert Stored(items, contents, ndx);
        return data[ndx], fits';
      }
      return None, fits';
    }

    /** From where the search ended to where the key belongs. */
    method Settle(key: Key, aligned: bool, pos0: int) returns (pos: nat)
      requires Valid() && |key| <= INT_MAX && Gap(items, index, key, pos0)
      ensures Belongs(items, index, key, pos)
    {
      GapBelongs(items, index, key, pos0);
      pos := if pos0 < 0 then pos0 + 1 else pos0;
      if pos0 >= 0 && pos0 != used {
        var cmp := Compare(key, data[sorted[pos0]].value.key, aligned);
        if cmp > 0 {
          pos := pos0 + 1;
        }
      }
    }

    /** Makes room for one more element. */
    method Grow()
      requires Valid()
      modifies this`data, this`sorted
      ensures Valid() && used < data.Length
      ensures (data == old(data) && sorted == old(sorted)) || (fresh(data) && fresh(sorted))
      ensures data.Length >= old(data.Length)
    {
      if data.Length == used {
        var size := if data.Length == 0 then 16 else data.Length + 16;
        var newData := Enlarged(data, used, size, None);
        var newSorted := Enlarged(sorted, used, size, 0);
        data, sorted := newData, newSorted;
      }
    }

    /** Moves the index one step right from pos on and puts the new element there. */
    method Shift(pos: nat, ndx: nat)
      requires pos <= ndx < sorted.Length
      modifies sorted
      ensures forall k | 0 <= k < sorted.Length ::
                sorted[k] == if k == pos then ndx else if pos < k <= ndx then old(sorted[k - 1]) else old(sorted[k])
    {
      forall k | pos < k <= ndx {
        sorted[k] := sorted[k - 1];
      }
      sorted[pos] := ndx;
    }

    /** Writes a new element after the others, and its number at position pos of the index. */
    method Place(str: Datum<V>, pos: nat)
      requires Shaped() && pos <= used < data.Length && |str.key| <= INT_MAX
      modifies this`used, this`items, this`index, data, sorted
      ensures Shaped() && used == old(used) + 1 && items == old(items) + [str]
      ensures index == old(index)[..pos] + [old(used)] + old(index)[pos..]
    {
      data[used] := Some(str);
      Shift(pos, used);
      index := index[..pos] + [used] + index[pos..];
      items := items + [str];
      used := used + 1;
    }

    /** Stores a new element after the others and enters it in the index. */
    method Enter(str: Datum<V>, pos: nat)
      requires Valid() && used < data.Length && |str.key| <= INT_MAX
      requires Folded(str.key) !in contents && Belongs(items, index, str.key, pos)
      modifies this`used, this`nextPowerOf2, this`items, this`index, this`rank, this`contents, data, sorted
      ensures Valid() && used == old(used) + 1
      ensures contents == old(contents)[Folded(str.key) := str]
      ensures nextPowerOf2 == if old(nextPowerOf2) == old(used) then 2 * old(nextPowerOf2) else old(nextPowerOf2)
    {
      EnterIndex(items, index, rank, str, pos);
      EnterMap(items, contents, str);
      var ndx := used;
      Place(str, pos);
      if nextPowerOf2 == ndx {
        DoublePow2(nextPowerOf2);
        nextPowerOf2 := 2 * nextPowerOf2;
      }
      rank := RankAfter(rank, pos);
      contents := contents[Folded(str.key) := str];
    }

    /** What the array stands for. */
    ghost function Meaning(): Dict<V>
      reads this`contents, this`uniqueNdx
    {
      Dict(contents, uniqueNdx)
    }

    /** The stored power of two grows exactly when it is reached. */
    ghost predicate Grown(oldUsed: nat, oldPower: nat)
      reads this`used, this`nextPowerOf2
    {
      && (used == oldUsed || used == oldUsed + 1)
      && nextPowerOf2 == if used > oldUsed == oldPower then 2 * oldPower else oldPower
    }

    /** Every position that the search for this key needs is an int. */
    ghost predicate Searchable(key: Key)
      requires Valid()
      reads this, data, sorted
    {
      nextPowerOf2 <= MAX_POWER || !Below(items, index, key, MAX_POWER)
    }

    /** Stores an element in the place of one with the same key, up to case. */
    method SetAt(ndx: nat, du: Datum<V>)
      requires Valid() && ndx < used && Folded(du.key) == Folded(items[ndx].key) && |du.key| <= INT_MAX
      modifies this`items, this`contents, data
      ensures Valid() && contents == old(contents)[Folded(du.key) := du]
    {
      ReplaceAt(items, index, rank, contents, ndx, du);
      data[ndx] := Some(du);
      items := items[ndx := du];
      contents := contents[Folded(du.key) := du];
    }

    /** Merges an element into the one with the same key, if it is of the same type. */
    method MergeInto(ndx: nat, str: Datum<V>) returns (r: InsertResult)
      requires Valid() && ndx < used && Folded(str.key) == Folded(items[ndx].key) && |items[ndx].key| <= INT_MAX
      modifies this`items, this`contents, data
      ensures Valid() && Folded(str.key) in old(contents)
      ensures var was := old(contents)[Folded(str.key)];
              if was.typ != str.typ then r == TypeClash && contents == old(contents)
              else
                r == Duplicate && contents ==
                  old(contents)[Folded(str.key) := was.(value := dup(was.value, str.value))]
    {
      hide IndexOk, MapOk, IsPow2;
      ItemStored(items, contents, ndx);
      if data[ndx].value.typ != str.typ {
        return TypeClash;
      }
      SetAt(ndx, data[ndx].value.(value := dup(data[ndx].value.value, str.value)));
      return Duplicate;
    }

    /** Inserts an element, or merges it into the one with the same key and type. */
    method InsertUnique(str0: Datum<V>, aligned: bool) returns (r: InsertResult)
      requires Valid() && (nextPowerOf2 <= MAX_POWER || nextPowerOf2 == 2 * MAX_POWER)
      requires |str0.key| <= INT_MAX && uniqueNdx <= LONG_MAX && used <= INT_MAX
      modifies this, data, sorted
      ensures Valid() && Grown(old(used), old(nextPowerOf2)) && used <= INT_MAX
      ensures r == NoPosition <==> !old(Searchable(KeyedBy(str0, uniqueNdx).key))
      ensures r == Full <==> old(Searchable(KeyedBy(str0, uniqueNdx).key) && used == INT_MAX
                                 && Folded(KeyedBy(str0, uniqueNdx).key) !in contents)
      ensures r == NoPosition || r == Full ==> contents == old(contents)
      ensures r == TypeClash ==> Insertion(dup, old(Meaning()), str0).None?
      ensures r == Inserted || r == Duplicate ==> Insertion(dup, old(Meaning()), str0) == Some(Meaning())
      ensures r == Inserted <==> used > old(used)
      ensures (data == old(data) && sorted == old(sorted)) || (fresh(data) && fresh(sorted))
    {
      hide IndexOk, MapOk, Gap, Belongs, IsPow2, Digits, Below;
      LongDigits(uniqueNdx);
      var str := KeyedBy(str0, uniqueNdx);
      if NeedsNumber(str0) {
        uniqueNdx := uniqueNdx + 1;
      }
      var ndx, pos0, fits := GetIndex(str.key, aligned);
      if !fits {
        return NoPosition;
      }
      if ndx != -1 {
        r := MergeInto(ndx, str);
        return;
      }
      if used + 1 > INT_MAX {
        return Full;
      }
      Grow();
      var pos := Settle(str.key, aligned, pos0);
      Enter(str, pos);
      return Inserted;
    }

    /** Replaces the element with the same key, or inserts a new one. */
    method Replace(du: Datum<V>, aligned: bool) returns (was: Option<Datum<V>>, r: InsertResult)
      requires Valid() && (nextPowerOf2 <= MAX_POWER || nextPowerOf2 == 2 * MAX_POWER)
      requires |du.key| <= INT_MAX && uniqueNdx <= LONG_MAX && used <= INT_MAX
      modifies this, data, sorted
      ensures Valid() && Grown(old(used), old(nextPowerOf2)) && used <= INT_MAX
      ensures !old(Searchable(du.key)) ==> r == NoPosition
      ensures r == NoPosition || r == Full ==> contents == old(contents) && was == None
      ensures r != NoPosition ==>
                was ==
                if Folded(du.key) in old(contents) then Some(old(contents)[Folded(du.key)]) else None
      ensures r == NoPosition ==> old(nextPowerOf2) == 2 * MAX_POWER
      ensures r == Full ==> old(used) == INT_MAX
      ensures r == TypeClash ==> Effect(dup, old(Meaning()), ReplaceOp(du)).None?
      ensures r == Inserted || r == Duplicate ==> Effect(dup, old(Meaning()), ReplaceOp(du)) == Some(Meaning())
      ensures (data == old(data) && sorted == old(sorted)) || (fresh(data) && fresh(sorted))
    {
      hide IndexOk, MapOk, Gap, IsPow2, Digits, Below;
      var ndx, _, fits := GetIndex(du.key, aligned);
      if !fits {
        return None, NoPosition;
      }
      if ndx == -1 {
        r := InsertUnique(du, aligned);
        return None, r;
      }
      ItemStored(items, contents, ndx);
      was := data[ndx];
      SetAt(ndx, du);
      return was, Duplicate;
    }

    /** The first retained element of a type, or the end. */
    method FindRetained(t: nat) returns (i: nat)
      requires used <= data.Length
      ensures used <= i <= data.Length && forall k | used <= k < i && data[k].Some? :: data[k].value.typ != t
      ensures i < data.Length ==> data[i].Some? && data[i].value.typ == t
    {
      i := used;
      while i < data.Length
        invariant used <= i <= data.Length && forall k | used <= k < i && data[k].Some? :: data[k].value.typ != t
      {
        if data[i].Some? && data[i].value.typ == t {
          return;
        }
        i := i + 1;
      }
    }

    /** Hands out a retained element of the given type, if there is one. */
    method GetUnusedElement(t: nat) returns (ds: Option<Datum<V>>)
      requires Valid()
      modifies data
      ensures Valid()
      ensures ds == None ==>
                data[..] == old(data[..]) &&
                forall i | used <= i < data.Length && data[i].Some? :: data[i].value.typ != t
      ensures ds.Some? ==> used < data.Length && data[used] == None && ds.value.typ == t
      ensures multiset(data[..]) + multiset{ds} == old(multiset(data[..])) + multiset{None}
    {
      hide IndexOk, MapOk, IsPow2;
      var i := FindRetained(t);
      if i == data.Length {
        return None;
      }
      ds := data[i];
      TakenOut(data[..], i, used);
      data[i] := data[used];
      data[used] := None;
      assert data[..] == old(data[..])[i := old(data[used])][used := None];
    }

    /** Empties the array; the elements are cleared but retained for later use. */
    method Reset()
      requires Valid()
      modifies this`used, this`items, this`index, this`rank, this`contents, data
      ensures Valid() && used == 0 && contents == map[] && nextPowerOf2 == old(nextPowerOf2)
      ensures forall d | 0 <= d < old(used) ::
              && data[d].Some? && old(data[d].Some?)
              && data[d].value == Datum([], old(data[d].value.typ), old(data[d].value.isIndexKey),
                                        clear(old(data[d].value.value)))
      ensures forall d | old(used) <= d < data.Length :: data[d] == old(data[d])
    {
      assert forall d | 0 <= d < used :: data[d] == Some(items[d]);
      for i := 0 to used
        invariant used == old(used) <= data.Length && forall d | 0 <= d < used :: old(data[d].Some?)
        invariant forall d | 0 <= d < i ::
                  && data[d].Some?
                  && data[d].value == Datum([], old(data[d].value.typ), old(data[d].value.isIndexKey),
                                            clear(old(data[d].value.value)))
        invariant forall d | i <= d < data.Length :: data[d] == old(data[d])
      {
        data[i] := Some(data[i].value.(key := [], value := clear(data[i].value.value)));
      }
      used := 0;
      ghost var items0, index0, rank0, contents0 := NothingStored<V>();
      items, index, rank, contents := items0, index0, rank0, contents0;
    }

    /** Performs one operation; it may abort. */
    method Do(op: Op<V>, aligned: bool) returns (ok: bool)
      requires Valid() && nextPowerOf2 <= MAX_POWER && uniqueNdx <= LONG_MAX
      requires op.InsertOp? || op.ReplaceOp? ==> |op.d.key| <= INT_MAX
      modifies this, data, sorted
      ensures ok <==> Effect(dup, old(Meaning()), op).Some?
      ensures ok ==> Valid() && Effect(dup, old(Meaning()), op) == Some(Meaning())
      ensures used == 0 || Grown(old(used), old(nextPowerOf2))
      ensures used == 0 ==> nextPowerOf2 == old(nextPowerOf2)
      ensures (data == old(data) && sorted == old(sorted)) || (fresh(data) && fresh(sorted))
    {
      ok := true;
      match op {
        case InsertOp(d) =>
          var r := InsertUnique(d, aligned);
          ok := r != TypeClash;
        case ReplaceOp(d) =>
          var _, r := Replace(d, aligned);
          ok := r != TypeClash;
        case TakeOp(t) =>
          var _ := GetUnusedElement(t);
        case ResetOp =>
          Reset();
      }
    }

    /** There are as many elements in use as keys. */
    lemma UsedCounted()
      requires Valid()
      ensures |contents| == used
    {
      forall d, e | 0 <= d < e < |items|
        ensures Folded(items[d].key) != Folded(items[e].key)
      {
        KeysDiffer(items, index, rank, d, e);
      }
      ItemsCounted(items, contents);
    }

    /** Performs operations until all are done or one aborts; n of them took effect. */
    method Run(ops: seq<Op<V>>, aligned: seq<bool>) returns (n: nat)
      requires Valid() && nextPowerOf2 <= MAX_POWER && Within(dup, Meaning(), ops)
      requires |aligned| == |ops|
      requires forall i | 0 <= i < |ops| && (ops[i].InsertOp? || ops[i].ReplaceOp?) :: |ops[i].d.key| <= INT_MAX
      modifies this, data, sorted
      ensures n <= |ops| && (n < |ops| ==> Effects(dup, old(Meaning()), ops, n + 1) == None)
      ensures n == |ops| ==> Valid() && Effects(dup, old(Meaning()), ops, n) == Some(Meaning())
    {
      hide Effect, Effects, IndexOk, MapOk, IsPow2;
      n := 0;
      NoEffect(dup, Meaning(), ops);
      while n < |ops|
        invariant n <= |ops| && Valid() && Effects(dup, old(Meaning()), ops, n) == Some(Meaning())
        invariant nextPowerOf2 <= MAX_POWER
        invariant (data == old(data) && sorted == old(sorted)) || (fresh(data) && fresh(sorted))
      {
        assert WithinAt(dup, old(Meaning()), ops, n) && WithinAt(dup, old(Meaning()), ops, n + 1);
        if nextPowerOf2 < MAX_POWER { DoubleFits(nextPowerOf2); }
        OneEffect(dup, old(Meaning()), ops, n);
        var ok := Do(ops[n], aligned[n]);
        if ok { UsedCounted(); }
        if !ok {
          return;
        }
        n := n + 1;
      }
    }
  }
}
