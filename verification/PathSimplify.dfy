/**
 Path simplification (buffer_path_simplify in buffer.c): one pass over the path
 that may write into the buffer it reads. It computes the normal form of the
 path's segments: empty and "." segments go, ".." takes the one before it away.
 */
module PathSimplify {
  import opened Wrappers

  type Path = seq<byte>

  const SPACE: byte := ' ' as int
  const SLASH: byte := '/' as int
  const DOT: byte := '.' as int

  // ----- the normal form

  predicate SlashFree(seg: Path) {
    SLASH !in seg
  }

  /** The segments of a path, without the slashes between them; never none. */
  function Split(p: Path): (segs: seq<Path>)
    ensures segs != []
    ensures forall i | 0 <= i < |segs| :: SlashFree(segs[i])
  {
    if p == [] then [[]]
    else
      var segs := Split(p[..|p| - 1]);
      var last := segs[|segs| - 1];
      assert SlashFree(last);
      if p[|p| - 1] == SLASH then segs + [[]]
      else segs[..|segs| - 1] + [last + [p[|p| - 1]]]
  }

  /** A slash in front of every segment. */
  function Render(segs: seq<Path>): (p: Path)
    ensures p == [] <==> segs == []
    ensures segs != [] ==> p[0] == SLASH
  {
    if segs == [] then [] else Render(segs[..|segs| - 1]) + [SLASH] + segs[|segs| - 1]
  }

  predicate Special(seg: Path) {
    seg == [] || seg == [DOT] || seg == [DOT, DOT]
  }

  function Push(stack: seq<Path>, seg: Path): seq<Path> {
    if seg == [DOT, DOT] then (if stack == [] then [] else stack[..|stack| - 1])
    else if Special(seg) then stack
    else stack + [seg]
  }

  /** The segments that are left, in order. */
  function Resolve(segs: seq<Path>): seq<Path> {
    if segs == [] then [] else Push(Resolve(segs[..|segs| - 1]), segs[|segs| - 1])
  }

  /** A path that ends in a special segment names a directory: an empty segment is kept at its end. */
  function Normal(segs: seq<Path>): seq<Path>
    requires segs != []
  {
    Resolve(segs) + if Special(segs[|segs| - 1]) then [[]] else []
  }

  function SkipSpaces(s: Path): Path {
    if s != [] && s[0] == SPACE then SkipSpaces(s[1..]) else s
  }

  /** The path after its leading slash, which need not be written. */
  function Body(s: Path): Path {
    if s != [] && s[0] == SLASH then s[1..] else s
  }

  function Simplify(s: Path): Path {
    Render(Normal(Split(Body(SkipSpaces(s)))))
  }

  predicate HasPath(s: Path) {
    exists i :: 0 <= i < |s| && s[i] != SPACE
  }

  // ----- properties of the normal form

  function Last(segs: seq<Path>): Path
    requires segs != []
  {
    segs[|segs| - 1]
  }

  function Init(segs: seq<Path>): seq<Path>
    requires segs != []
  {
    segs[..|segs| - 1]
  }

  lemma SplitSlash(p: Path)
    ensures Split(p + [SLASH]) == Split(p) + [[]]
  {}

  lemma SplitOrdinary(p: Path, x: byte)
    requires x != SLASH
    ensures Split(p + [x]) == Init(Split(p)) + [Last(Split(p)) + [x]]
  {}

  lemma RenderOne(segs: seq<Path>, seg: Path)
    ensures Render(segs + [seg]) == Render(segs) + [SLASH] + seg
  {}

  /** Splitting loses nothing: the slashes put back give the path. */
  lemma {:induction false} RenderSplit(p: Path)
    ensures Render(Split(p)) == [SLASH] + p
  {
    if p == [] {
      var empty: Path := [];
      RenderOne([], empty);
      assert [empty] == [] + [empty];
    } else {
      hide Render, Split;
      var q, x := p[..|p| - 1], p[|p| - 1];
      assert p == q + [x];
      RenderSplit(q);
      var init, last := Init(Split(q)), Last(Split(q));
      RenderOne(init, last);
      assert Split(q) == init + [last];
      if x == SLASH {
        SplitSlash(q);
        RenderOne(Split(q), []);
        Associative([SLASH], q, [x]);
      } else {
        SplitOrdinary(q, x);
        RenderOne(init, last + [x]);
        Associative(Render(init) + [SLASH], last, [x]);
        Associative([SLASH], q, [x]);
      }
    }
  }

  lemma {:induction false} SplitAppend(p: Path, seg: Path)
    requires SlashFree(seg)
    ensures Split(p + seg) == Init(Split(p)) + [Last(Split(p)) + seg]
  {
    hide Split;
    if seg == [] {
      assert p + seg == p && Last(Split(p)) + seg == Last(Split(p));
    } else {
      var s0, x := seg[..|seg| - 1], seg[|seg| - 1];
      assert seg == s0 + [x];
      SplitAppend(p, s0);
      Associative(p, s0, [x]);
      SplitOrdinary(p + s0, x);
      Associative(Last(Split(p)), s0, [x]);
    }
  }

  lemma NothingSplit()
    ensures Split([]) == [[]]
  {}

  /** Segments without slashes are found again. */
  lemma {:induction false} SplitRender(segs: seq<Path>)
    requires segs != [] && forall i | 0 <= i < |segs| :: SlashFree(segs[i])
    ensures Render(segs) != [] && Split(Render(segs)[1..]) == segs
  {
    var init, last := Init(segs), Last(segs);
    RenderOne(init, last);
    assert segs == init + [last];
    if init == [] {
      NothingSplit();
      SplitAppend([], last);
      assert Render(segs)[1..] == [] + last == last && Render([]) == [];
    } else {
      SplitRender(init);
      hide Render, Split;
      var p := Render(init)[1..];
      assert Render(segs)[1..] == (p + [SLASH]) + last;
      SplitSlash(p);
      SplitAppend(p + [SLASH], last);
      assert [] + last == last;
    }
  }

  /** No special segments, except that the last may be empty. */
  predicate Clean(segs: seq<Path>) {
    && segs != []
    && (forall i | 0 <= i < |segs| :: SlashFree(segs[i]))
    && (forall i | 0 <= i < |segs| :: Special(segs[i]) ==> i == |segs| - 1 && segs[i] == [])
  }

  lemma {:induction false} ResolveKeeps(segs: seq<Path>)
    requires forall i | 0 <= i < |segs| :: SlashFree(segs[i])
    ensures forall i | 0 <= i < |Resolve(segs)| :: SlashFree(Resolve(segs)[i]) && !Special(Resolve(segs)[i])
  {
    if segs == [] {
    } else {
      ResolveKeeps(segs[..|segs| - 1]);
      assert SlashFree(segs[|segs| - 1]);
    }
  }

  lemma NormalIsClean(segs: seq<Path>)
    requires segs != [] && forall i | 0 <= i < |segs| :: SlashFree(segs[i])
    ensures Clean(Normal(segs))
  {
    ResolveKeeps(segs);
  }

  lemma {:induction false} ResolveOrdinary(segs: seq<Path>)
    requires forall i | 0 <= i < |segs| :: !Special(segs[i])
    ensures Resolve(segs) == segs
  {
    if segs == [] {
    } else {
      ResolveOrdinary(segs[..|segs| - 1]);
    }
  }

  lemma CleanIsNormal(segs: seq<Path>)
    requires Clean(segs)
    ensures Normal(segs) == segs
  {
    var init := segs[..|segs| - 1];
    ResolveOrdinary(init);
    assert segs == init + [segs[|segs| - 1]];
  }

  /** What the result looks like: an absolute path whose segments are the clean ones kept. */
  lemma SimplifyShape(s: Path)
    ensures Simplify(s) != [] && Simplify(s)[0] == SLASH
    ensures Clean(Split(Simplify(s)[1..])) && Split(Simplify(s)[1..]) == Normal(Split(Body(SkipSpaces(s))))
  {
    var segs := Split(Body(SkipSpaces(s)));
    NormalIsClean(segs);
    SplitRender(Normal(segs));
  }

  /** Simplifying twice changes nothing. */
  lemma SimplifyIdempotent(s: Path)
    ensures Simplify(Simplify(s)) == Simplify(s)
  {
    SimplifyShape(s);
    CleanIsNormal(Split(Simplify(s)[1..]));
    RenderSplit(Simplify(s)[1..]);
  }

  /** The result is exactly as given when it is already clean, and only then. */
  lemma FixedIffClean(s: Path)
    ensures Simplify(s) == s <==> s != [] && s[0] == SLASH && Clean(Split(s[1..]))
  {
    SimplifyShape(s);
    if s != [] && s[0] == SLASH && Clean(Split(s[1..])) {
      CleanIsNormal(Split(s[1..]));
      RenderSplit(s[1..]);
    }
  }

  // ----- which segments are left

  /** What comes after does not see which segments there were, only which are left of them. */
  lemma {:induction false} SameLeft(a: seq<Path>, b: seq<Path>, after: seq<Path>)
    requires Resolve(a) == Resolve(b)
    ensures Resolve(a + after) == Resolve(b + after)
  {
    if after == [] {
      assert a + after == a && b + after == b;
    } else {
      var init, last := Init(after), Last(after);
      SameLeft(a, b, init);
      assert (a + after)[..|a + after| - 1] == a + init && (b + after)[..|b + after| - 1] == b + init;
      assert (a + after)[|a + after| - 1] == last == (b + after)[|b + after| - 1];
    }
  }

  /**
   Four rules that leave nothing undecided: two dots take away the ordinary segment before
   them, and at the root only themselves; one dot and nothing are dropped, wherever they
   stand; ordinary segments stay.
   */
  lemma DotsTakeBack(before: seq<Path>, seg: Path, after: seq<Path>)
    requires seg != [] && seg != ['.' as int] && seg != ['.' as int, '.' as int]
    ensures Resolve(before + [seg, ['.' as int, '.' as int]] + after) == Resolve(before + after)
  {
    var mid := before + [seg];
    assert mid[..|mid| - 1] == before && Resolve(mid) == Resolve(before) + [seg];
    var up := before + [seg, [DOT, DOT]];
    assert up[..|up| - 1] == mid && Resolve(up) == Resolve(before);
    SameLeft(up, before, after);
  }

  lemma DotsAtRoot(after: seq<Path>)
    ensures Resolve([['.' as int, '.' as int]] + after) == Resolve(after)
  {
    var up := [[DOT, DOT]];
    assert up[..0] == [] && Resolve(up) == [];
    SameLeft(up, [], after);
    assert [] + after == after;
  }

  lemma DotDropped(before: seq<Path>, seg: Path, after: seq<Path>)
    requires seg == [] || seg == ['.' as int]
    ensures Resolve(before + [seg] + after) == Resolve(before + after)
  {
    var mid := before + [seg];
    assert mid[..|mid| - 1] == before;
    SameLeft(mid, before, after);
  }

  lemma OrdinaryStay(segs: seq<Path>)
    requires forall i | 0 <= i < |segs| ::
               segs[i] != [] && segs[i] != ['.' as int] && segs[i] != ['.' as int, '.' as int]
    ensures Resolve(segs) == segs
  {
    ResolveOrdinary(segs);
  }

  /** The result ends in a slash exactly if the path ends in a segment of no, one or two dots. */
  lemma EndsInSlash(s: Path)
    ensures var last := Last(Split(Body(SkipSpaces(s))));
            Simplify(s)[|Simplify(s)| - 1] == '/' as int <==>
            last == [] || last == ['.' as int] || last == ['.' as int, '.' as int]
  {
    var segs := Split(Body(SkipSpaces(s)));
    var left := Normal(segs);
    NormalIsClean(segs);
    RenderOne(Init(left), Last(left));
    assert left == Init(left) + [Last(left)];
    assert SlashFree(Last(left));
    if !Special(Last(segs)) {
      assert Resolve(segs) == Resolve(Init(segs)) + [Last(segs)] && left == Resolve(segs);
      assert Last(left) != [];
    }
  }

  /** Spaces in front are skipped, and nothing else. */
  lemma {:induction false} SpacesSkipped(s: Path) returns (n: nat)
    ensures n <= |s| && SkipSpaces(s) == s[n..] && (n < |s| ==> s[n] != ' ' as int)
    ensures forall i | 0 <= i < n :: s[i] == ' ' as int
  {
    if s != [] && s[0] == SPACE {
      n := SpacesSkipped(s[1..]);
      n := n + 1;
    } else {
      n := 0;
    }
  }

  // ----- the automaton

  /** The last two characters of the input as an unsigned short; a char is signed, so the high byte can be lost. */
  function Shifted(pre: nat, x: byte): nat {
    if x >= 128 then 0xFF00 + x else pre % 256 * 256 + x
  }

  function Pre(q: Path): (pre: nat)
    ensures pre % 256 == if q == [] then SLASH else q[|q| - 1]
  {
    if q == [] then SLASH else Shifted(Pre(q[..|q| - 1]), q[|q| - 1])
  }

  lemma ShiftedMeans(pre: nat, x: byte, a: byte)
    requires a < 128
    ensures Shifted(pre, x) == a * 256 + DOT <==> x == DOT && pre % 256 == a
  {}

  lemma PreMeans(q: Path, a: byte)
    requires q != [] && a < 128
    ensures Pre(q) == a * 256 + DOT <==> q[|q| - 1] == DOT && a == (if |q| == 1 then SLASH else q[|q| - 2])
  {
    var q1 := q[..|q| - 1];
    var pre := Pre(q1);
    assert Pre(q) == Shifted(pre, q[|q| - 1]);
    assert q1 != [] ==> q1[|q1| - 1] == q[|q| - 2];
    ShiftedMeans(pre, q[|q| - 1], a);
  }

  lemma LastSegment(q: Path)
    requires q != []
    ensures Last(Split(q)) == if q[|q| - 1] == SLASH then [] else Last(Split(q[..|q| - 1])) + [q[|q| - 1]]
  {}

  /** The tests on the last two characters recognise the special segments. */
  lemma TokenTests(q: Path)
    ensures |Last(Split(q))| == 2 && Pre(q) == DOT * 256 + DOT <==> Last(Split(q)) == [DOT, DOT]
    ensures Pre(q) == SLASH * 256 + DOT <==> Last(Split(q)) == [DOT]
  {
    hide Split, Shifted;
    NothingSplit();
    if q != [] {
      PreMeans(q, DOT);
      PreMeans(q, SLASH);
      LastSegment(q);
      var q1, x := q[..|q| - 1], q[|q| - 1];
      var l := Last(Split(q1));
      assert x != SLASH ==> Last(Split(q))[|l|] == x && Last(Split(q))[..|l|] == l;
      if q1 != [] {
        LastSegment(q1);
        assert q1[|q1| - 1] == q[|q| - 2];
        assert l != [] ==> l[|l| - 1] == q[|q| - 2];
      } else {
        assert q1 == [];
      }
      assert |l| == 1 && x == DOT ==> Last(Split(q)) == [l[0], DOT];
    }
  }

  /** Where the output stands after the characters q: what is kept, a slash, and the current segment. */
  ghost predicate At(text: Path, slash: nat, q: Path) {
    && slash == |Render(Resolve(Init(Split(q))))|
    && text == Render(Resolve(Init(Split(q)))) + [SLASH] + Last(Split(q))
  }

  /** Where the output stands when a segment has ended. */
  ghost predicate Ended(text: Path, q: Path) {
    text == Render(Resolve(Split(q)))
  }

  lemma AtStart()
    ensures At([SLASH], 0, [])
  {}

  lemma AtOrdinary(text: Path, slash: nat, q: Path, x: byte)
    requires At(text, slash, q) && x != SLASH
    ensures At(text + [x], slash, q + [x])
  {}

  lemma AtSlash(text: Path, q: Path)
    requires Ended(text, q)
    ensures At(text + [SLASH], |text|, q + [SLASH])
  {}

  /** How a segment ends, by its kind. */
  lemma Ends(text: Path, slash: nat, q: Path)
    requires At(text, slash, q)
    ensures slash < |text| && |text| - slash == 1 + |Last(Split(q))| && text[slash] == SLASH
    ensures !Special(Last(Split(q))) ==> Ended(text, q) && Normal(Split(q)) == Resolve(Split(q))
    ensures Special(Last(Split(q))) && Last(Split(q)) != [DOT, DOT] ==>
              Ended(text[..slash], q) && Render(Normal(Split(q))) == text[..slash + 1]
  {}

  /** Where ".." takes the output back to. */
  lemma EndsUp(text: Path, slash: nat, q: Path) returns (back: nat)
    requires At(text, slash, q) && Last(Split(q)) == [DOT, DOT]
    ensures back <= slash < |text| && (back < slash || slash == 0) && text[back] == SLASH
    ensures forall k | back < k < slash :: text[k] != SLASH
    ensures Ended(text[..back], q) && Render(Normal(Split(q))) == text[..back + 1]
  {
    var stack := Resolve(Init(Split(q)));
    var kept := Resolve(Split(q));
    back := |Render(kept)|;
    assert (kept + [[]])[..|kept|] == kept;
    if stack != [] {
      ResolveKeeps(Init(Split(q)));
      var last := stack[|stack| - 1];
      assert SlashFree(last);
      assert Render(stack) == Render(kept) + [SLASH] + last;
      assert text == Render(kept) + ([SLASH] + last + [SLASH] + Last(Split(q)));
      forall k | back < k < slash
        ensures text[k] != SLASH
      {
        assert text[k] == last[k - back - 1];
      }
    }
  }

  /** Steps back over the segment before the one at slash. */
  method StepBack(dest: array<byte>, slash: nat, ghost text: Path, ghost q: Path) returns (out: nat)
    requires |text| <= dest.Length && dest[..|text|] == text
    requires At(text, slash, q) && Last(Split(q)) == [DOT, DOT]
    ensures out < |text| && Ended(text[..out], q) && Render(Normal(Split(q))) == text[..out + 1]
  {
    ghost var back := EndsUp(text, slash, q);
    assert forall k | 0 <= k < |text| :: dest[k] == text[k];
    out := slash;
    if out > 0 {
      out := out - 1;
      while out > 0 && dest[out] != SLASH
        invariant back <= out < slash
      {
        out := out - 1;
      }
    }
  }

  /** Handles the end of a segment: returns where the output goes on, or where it ends. */
  method EndSegment(dest: array<byte>, slash: nat, out: nat, pre: nat, last: bool, ghost q: Path) returns (out': nat)
    requires slash <= out <= dest.Length && At(dest[..out], slash, q) && pre == Pre(q)
    ensures out' <= out
    ensures if last then dest[..out'] == Render(Normal(Split(q))) else Ended(dest[..out'], q)
  {
    ghost var text := dest[..out];
    Ends(text, slash, q);
    TokenTests(q);
    var toklen := out - slash;
    out' := out;
    if toklen == 3 && pre == DOT * 256 + DOT {
      out' := StepBack(dest, slash, text, q);
      assert text[..out'] == dest[..out'] && text[..out' + 1] == dest[..out' + 1];
      if last {
        out' := out' + 1;
      }
    } else if toklen == 1 || pre == SLASH * 256 + DOT {
      out' := slash;
      assert text[..slash] == dest[..slash] && text[..slash + 1] == dest[..slash + 1];
      if last {
        out' := out' + 1;
      }
    }
  }

  lemma {:induction false} SkipSpacesIs(s: Path, k: nat)
    requires k <= |s| && (forall i | 0 <= i < k :: s[i] == SPACE) && (k < |s| ==> s[k] != SPACE)
    ensures SkipSpaces(s) == s[k..]
  {
    if k == 0 {
    } else {
      SkipSpacesIs(s[1..], k - 1);
    }
  }

  /** The characters from walk on, with the zero at the end, are still as they were. */
  ghost predicate Unread(src: array<byte>, z: Path, walk: nat)
    reads src
  {
    |z| <= src.Length && forall j | walk <= j < |z| :: src[j] == z[j]
  }

  /** Writes a character that was read before to the output. */
  method Put(dest: array<byte>, out: nat, x: byte, ghost slash: nat, ghost q: Path)
    requires out < dest.Length
    requires if x == SLASH then Ended(dest[..out], q) && slash == out else At(dest[..out], slash, q)
    modifies dest
    ensures At(dest[..out + 1], slash, q + [x])
    ensures forall j | 0 <= j < dest.Length && j != out :: dest[j] == old(dest[j])
  {
    ghost var text := dest[..out];
    dest[out] := x;
    assert dest[..out + 1] == text + [x];
    if x == SLASH {
      AtSlash(text, q);
    } else {
      AtOrdinary(text, slash, q, x);
    }
  }

  /** The state of the pass: the characters z[b..walk - 1] are in the output, and c is the next. */
  ghost predicate Reading(z: Path, b: nat, walk: nat, c: byte, pre: nat, text: Path, slash: nat) {
    && b < walk <= |z| && c == z[walk - 1] && |text| <= walk
    && pre == Pre(z[b..walk - 1]) && At(text, slash, z[b..walk - 1]) && slash < |text|
  }

  lemma ReadNext(z: Path, b: nat, walk: nat, pre: nat)
    requires b < walk <= |z| && pre == Pre(z[b..walk - 1])
    ensures z[b..walk] == z[b..walk - 1] + [z[walk - 1]] && Shifted(pre, z[walk - 1]) == Pre(z[b..walk])
  {}

  /** A buffer that a zero ends, and nothing before. */
  ghost predicate Terminated(z: Path) {
    z != [] && z[|z| - 1] == 0 && forall j | 0 <= j < |z| - 1 :: z[j] != 0
  }

  lemma AtWithin(text: Path, slash: nat, q: Path)
    requires At(text, slash, q)
    ensures slash < |text|
  {}

  /** Reads the next character, then writes the current one. */
  method Advance(dest: array<byte>, src: array<byte>, ghost z: Path, ghost b: nat, walk: nat, c: byte, pre: nat,
                 out: nat, ghost slash: nat)
    returns (c': byte, pre': nat)
    requires b < walk < |z| < dest.Length && c == z[walk - 1] && pre == Pre(z[b..walk - 1]) && Unread(src, z, walk) &&
             out <= walk
    requires if c == SLASH then Ended(dest[..out], z[b..walk - 1]) && slash == out
             else At(dest[..out], slash, z[b..walk - 1])
    modifies dest
    ensures Reading(z, b, walk + 1, c', pre', dest[..out + 1], slash) && Unread(src, z, walk + 1)
  {
    ReadNext(z, b, walk, pre);
    pre' := Shifted(pre, c);
    c' := src[walk];
    Put(dest, out, c, slash, z[b..walk - 1]);
    AtWithin(dest[..out + 1], slash, z[b..walk]);
  }

  /** The pass over the path z[b..], from where its first characters have been written. */
  method Scan(dest: array<byte>, src: array<byte>, ghost z: Path, ghost b: nat, c0: byte, walk0: nat, out0: nat,
              pre0: nat)
    returns (out: nat)
    requires Terminated(z) && |z| < dest.Length && out0 <= dest.Length
    requires Unread(src, z, walk0) && Reading(z, b, walk0, c0, pre0, dest[..out0], 0)
    modifies dest
    ensures out <= |z| && dest[..out] == Render(Normal(Split(z[b..|z| - 1])))
  {
    hide At, Ended, Render, Normal, Split, Pre;
    out := out0;
    var walk, pre, c, slash: nat := walk0, pre0, c0, 0;
    while true
      invariant out <= dest.Length && Reading(z, b, walk, c, pre, dest[..out], slash) && Unread(src, z, walk)
      decreases |z| - walk
    {
      if c == SLASH || c == 0 {
        out := EndSegment(dest, slash, out, pre, c == 0, z[b..walk - 1]);
        slash := out;
      }
      if c == 0 {
        return;
      }
      c, pre := Advance(dest, src, z, b, walk, c, pre, out, slash);
      out := out + 1;
      walk := walk + 1;
    }
  }

  method SkipBlanks(src: array<byte>, n: nat) returns (walk: nat)
    requires n < src.Length && src[n] == 0
    ensures walk <= n && src[walk] != SPACE && forall i | 0 <= i < walk :: src[i] == SPACE
  {
    walk := 0;
    while src[walk] == SPACE
      invariant walk <= n && forall i | 0 <= i < walk :: src[i] == SPACE
      decreases n - walk
    {
      walk := walk + 1;
    }
  }

  /** Writes the first character of a path, after a slash if it is none itself. */
  method Start(dest: array<byte>, pre1: byte) returns (out: nat, pre: nat)
    requires dest.Length >= 2
    modifies dest
    ensures pre1 == SLASH ==> out == 1 && pre == Pre([]) && dest[..out] == [SLASH]
    ensures pre1 != SLASH ==> out == 2 && pre == Pre([pre1]) && dest[..out] == [SLASH, pre1]
    ensures forall j | out <= j < dest.Length :: dest[j] == old(dest[j])
  {
    out, pre := 0, pre1;
    if pre1 != SLASH {
      pre := Shifted(SLASH, pre1);
      dest[0] := SLASH;
      out := 1;
      assert [pre1][..0] == [];
    }
    dest[out] := pre1;
    out := out + 1;
  }

  /** After the first character the pass is under way, over the body of the path. */
  lemma Started(z: Path, k: nat, out: nat, pre: nat, text: Path) returns (b: nat)
    requires Terminated(z) && k < |z| - 1 && (forall i | 0 <= i < k :: z[i] == SPACE) && z[k] != SPACE
    requires if z[k] == SLASH then text == [SLASH] && pre == Pre([]) else text == [SLASH, z[k]] && pre == Pre([z[k]])
    ensures Reading(z, b, k + 2, z[k + 1], pre, text, 0)
    ensures z[b..|z| - 1] == Body(SkipSpaces(z[..|z| - 1]))
    ensures HasPath(z[..|z| - 1])
  {
    var s := z[..|z| - 1];
    SkipSpacesIs(s, k);
    assert s[k] != SPACE;
    AtStart();
    if z[k] == SLASH {
      b := k + 1;
      assert z[b..k + 1] == [];
    } else {
      b := k;
      AtOrdinary([SLASH], 0, [], z[k]);
      assert z[b..k + 1] == [] + [z[k]] && [SLASH] + [z[k]] == [SLASH, z[k]];
    }
  }

  /**
   Simplifies the path in src[..n], which a zero ends, into dest, which may be the
   same buffer. A path of spaces alone is counted with one character too many.
   */
  method PathSimplify(dest: array<byte>, src: array<byte>, n: nat) returns (used: nat)
    requires n < src.Length && n + 2 <= dest.Length
    requires src[n] == 0 && forall i | 0 <= i < n :: src[i] != 0
    modifies dest
    ensures HasPath(old(src[..n])) ==>
              && used == |Simplify(old(src[..n]))| + 1 <= dest.Length
              && dest[..used - 1] == Simplify(old(src[..n])) && dest[used - 1] == 0
    ensures !HasPath(old(src[..n])) ==> used == 3 && dest[0] == SLASH && dest[1] == 0
  {
    hide Split, Resolve, Render, Normal, Pre, Shifted;
    ghost var z := src[..n + 1];
    assert z[..n] == src[..n];
    var k := SkipBlanks(src, n);
    var pre1 := src[k];
    var c: byte := if k + 1 < src.Length then src[k + 1] else 0;   // not used if the path is empty
    var out, pre := Start(dest, pre1);
    if pre1 == 0 {
      assert k == n;
      return out + 1;
    }
    ghost var b := Started(z, k, out, pre, dest[..out]);
    out := Scan(dest, src, z, b, c, k + 2, out, pre);
    ghost var text := dest[..out];
    dest[out] := 0;
    assert dest[..out] == text;
    return out + 1;
  }

  /** The normal form of a blank path is "/", so that 2 would be right where PathSimplify says 3. */
  lemma BlankPath(s: Path)
    requires !HasPath(s)
    ensures Simplify(s) == [SLASH]
  {
    SkipSpacesIs(s, |s|);
    assert Split([]) == [[]] && Resolve([[]]) == [] && Normal([[]]) == [[]];
    assert Render([[]]) == [SLASH];
  }
}
