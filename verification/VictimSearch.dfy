/** The choice of the page to evict, and why there always is one. */
module VictimSearch {
  import opened Geometry
  import opened PageTree
  import opened FrameSearch

  const WEIGHT_EVEN: nat := 4
  const WEIGHT_ODD: nat := 2

  datatype PageFrame = PageFrame(father: nat, pAddr: nat, pageNum: nat, weight: nat, depth: nat)

  function Parity(n: nat): (w: nat) {
    if n % 2 == 1 then WEIGHT_ODD else WEIGHT_EVEN
  }

  // ---------- findMaxFrameWeight ----------

  /** The search below frame `cur`, which sits at depth d: `max` is what earlier branches left. */
  function Heaviest(g: Geometry, m: Frames, d: nat, cur: PageFrame, max: PageFrame): PageFrame
    requires d <= g.depth
    decreases g.depth - d, 1, 0
  {
    if d == g.depth then
      var w := cur.weight + Parity(cur.pageNum);
      if w > max.weight then cur.(weight := w, depth := d) else max
    else HeaviestFrom(g, m, d, cur, 0, max)
  }

  function HeaviestFrom(g: Geometry, m: Frames, d: nat, cur: PageFrame, i: nat, max: PageFrame): PageFrame
    requires d < g.depth && i <= g.Radix(d)
    decreases g.depth - d, 0, g.Radix(d) - i
  {
    if i == g.Radix(d) then max
    else
      var c := Word(m, cur.pAddr, i);
      var max' := if c <= 0 then max else Heaviest(g, m, d + 1, Child(g, d, cur, i, c), max);
      HeaviestFrom(g, m, d, cur, i + 1, max')
  }

  function Child(g: Geometry, d: nat, cur: PageFrame, i: nat, c: nat): PageFrame {
    PageFrame(g.Convert(i, cur.pAddr, d), c, g.Convert(i, cur.pageNum, d), cur.weight + Parity(c), 0)
  }

  // ---------- What it is meant to find ----------

  /** The weight of a path: four for the root, and the parity weight of every frame after it. */
  function PathWeight(m: Frames, path: seq<nat>): nat {
    if path == [] then WEIGHT_EVEN
    else
      var f := Walk(m, path);
      PathWeight(m, path[..|path| - 1]) + Parity(if f < 0 then 0 else f)
  }

  function Score(g: Geometry, m: Frames, path: seq<nat>): nat {
    PathWeight(m, path) + Parity(g.Fold(path))
  }

  predicate IsPage(g: Geometry, t: seq<Node>, f: int) {
    0 <= f < |t| && |t[f].path| == g.depth
  }

  ghost predicate AllPages(g: Geometry, t: seq<Node>, s: set<nat>) {
    forall h :: h in s ==> 0 <= h < |t| && |t[h].path| == g.depth
  }

  /** The record of page frame f: its one parent slot as a word address, its frame, its page
      number and its score. */
  ghost function Record(g: Geometry, m: Frames, t: seq<Node>, f: nat): PageFrame
    requires IsPage(g, t, f) && 0 < g.depth
  {
    var n := t[f];
    PageFrame(g.Convert(Last(n.path), n.parent, g.depth - 1), f, g.Fold(n.path), Score(g, m, n.path), g.depth)
  }

  /** f has the maximal score among `s`, and the smallest page number among those that share it. */
  ghost predicate ArgMax(g: Geometry, m: Frames, t: seq<Node>, s: set<nat>, f: nat)
    requires AllPages(g, t, s)
  {
    && f in s
    && forall h :: h in s ==>
         && Score(g, m, t[h].path) <= Score(g, m, t[f].path)
         && (Score(g, m, t[h].path) == Score(g, m, t[f].path) ==> g.Fold(t[f].path) <= g.Fold(t[h].path))
  }

  /** `max` is `before` improved by the pages of `s`. */
  ghost predicate Improved(g: Geometry, m: Frames, t: seq<Node>, s: set<nat>, before: PageFrame, max: PageFrame)
    requires 0 < g.depth && AllPages(g, t, s)
  {
    || (max == before && forall h :: h in s ==> Score(g, m, t[h].path) <= before.weight)
    || (exists f :: ArgMax(g, m, t, s, f) && max == Record(g, m, t, f) && before.weight < max.weight)
  }

  lemma ImprovedTwice(g: Geometry, m: Frames, t: seq<Node>, s: set<nat>, s': set<nat>, b: PageFrame,
    x: PageFrame, y: PageFrame)
    requires 0 < g.depth && AllPages(g, t, s) && AllPages(g, t, s')
    requires Improved(g, m, t, s, b, x) && Improved(g, m, t, s', x, y)
    requires forall h, h' :: h in s && h' in s' ==> g.Fold(t[h].path) < g.Fold(t[h'].path)
    ensures Improved(g, m, t, s + s', b, y)
  {
    if y != x {
      var f :| ArgMax(g, m, t, s', f) && y == Record(g, m, t, f) && x.weight < y.weight;
      assert ArgMax(g, m, t, s + s', f);
    } else if x != b {
      var f :| ArgMax(g, m, t, s, f) && x == Record(g, m, t, f) && b.weight < x.weight;
      if exists f' :: ArgMax(g, m, t, s', f') && y == Record(g, m, t, f') && x.weight < y.weight {
        assert false;
      }
      assert ArgMax(g, m, t, s + s', f);
    }
  }

  ghost function PagesFrom(g: Geometry, t: seq<Node>, cur: nat, i: nat): set<nat>
    requires cur < |t|
  {
    set f | f in Below(t, cur, i) && IsPage(g, t, f)
  }

  ghost function PagesAt(g: Geometry, t: seq<Node>, f: nat): set<nat>
    requires f < |t|
  {
    if |t[f].path| == g.depth then {f} else PagesFrom(g, t, f, 0)
  }

  /** The record a search holds when it stands at frame f of the tree. */
  ghost predicate Standing(g: Geometry, m: Frames, t: seq<Node>, d: nat, f: nat, cur: PageFrame) {
    && Shape(g, m, t) && f < |t| && |t[f].path| == d <= g.depth
    && cur.pAddr == f && cur.pageNum == g.Fold(t[f].path) && cur.weight == PathWeight(m, t[f].path)
    && (0 < d ==> cur.father == g.Convert(Last(t[f].path), t[f].parent, d - 1))
  }

  lemma StandingChild(g: Geometry, m: Frames, t: seq<Node>, d: nat, f: nat, cur: PageFrame, i: nat)
    requires Standing(g, m, t, d, f, cur) && d < g.depth && i < g.Radix(d) && m[f][i] != 0
    ensures 0 < m[f][i] < |t| && Standing(g, m, t, d + 1, m[f][i], Child(g, d, cur, i, m[f][i]))
  {
    assert LinkedDown(g, m, t, f, i);
    var c := m[f][i];
    assert t[c].path[..d] == t[f].path;
    WalkReaches(g, m, t, c);
  }

  lemma LeafHasNothingBelow(g: Geometry, m: Frames, t: seq<Node>, c: nat)
    requires Shape(g, m, t) && c < |t| && |t[c].path| == g.depth
    ensures Below(t, c, 0) == {}
  {
    if h :| h in Below(t, c, 0) {
      PathInRange(g, m, t, h);
      assert false;
    }
  }

  lemma PastLastEntry(g: Geometry, m: Frames, t: seq<Node>, f: nat)
    requires Shape(g, m, t) && f < |t|
    ensures PagesFrom(g, t, f, g.Radix(|t[f].path|)) == {}
  {
    if h :| h in PagesFrom(g, t, f, g.Radix(|t[f].path|)) {
      PathInRange(g, m, t, h);
      assert false;
    }
  }

  lemma PagesSplit(g: Geometry, m: Frames, t: seq<Node>, f: nat, i: nat)
    requires Shape(g, m, t) && f < |t| && |t[f].path| < g.depth && i < g.Radix(|t[f].path|)
    ensures m[f][i] == 0 ==> PagesFrom(g, t, f, i) == PagesFrom(g, t, f, i + 1)
    ensures m[f][i] != 0 ==>
              && 0 < m[f][i] < |t|
              && PagesFrom(g, t, f, i) == PagesAt(g, t, m[f][i]) + PagesFrom(g, t, f, i + 1)
  {
    BelowSplit(g, m, t, f, i);
    var c := m[f][i];
    if c != 0 && |t[c].path| == g.depth {
      LeafHasNothingBelow(g, m, t, c);
    }
  }

  /** The paths of pages below entry i, and of pages below later entries. */
  lemma PathThroughEntry(g: Geometry, m: Frames, t: seq<Node>, f: nat, i: nat, h: nat)
    requires Shape(g, m, t) && f < |t| && |t[f].path| < g.depth && i < g.Radix(|t[f].path|) && m[f][i] != 0
    requires 0 < m[f][i] < |t| && h in PagesAt(g, t, m[f][i])
    ensures |t[h].path| == g.depth && t[h].path[..|t[f].path| + 1] == t[f].path + [i]
  {
    assert LinkedDown(g, m, t, f, i);
  }

  lemma PathThroughLater(g: Geometry, t: seq<Node>, f: nat, i: nat, h: nat)
    requires f < |t| && |t[f].path| < g.depth && h in PagesFrom(g, t, f, i)
    ensures |t[h].path| == g.depth && i <= t[h].path[|t[f].path|]
    ensures t[h].path[..|t[f].path| + 1] == t[f].path + [t[h].path[|t[f].path|]]
  {
  }

  lemma FoldOfExtension(g: Geometry, path: seq<nat>, i: nat)
    ensures g.Fold(path + [i]) == g.Convert(i, g.Fold(path), |path|)
  {
    assert (path + [i])[..|path|] == path;
  }

  /** Pages below entry i number lower than pages below later entries. */
  lemma PagesOrdered(g: Geometry, m: Frames, t: seq<Node>, f: nat, i: nat, h: nat, h': nat)
    requires Shape(g, m, t) && f < |t| && |t[f].path| < g.depth && i < g.Radix(|t[f].path|) && m[f][i] != 0
    requires 0 < m[f][i] < |t| && h in PagesAt(g, t, m[f][i]) && h' in PagesFrom(g, t, f, i + 1)
    ensures g.Fold(t[h].path) < g.Fold(t[h'].path)
  {
    var d := |t[f].path|;
    PathThroughEntry(g, m, t, f, i, h);
    PathThroughLater(g, t, f, i + 1, h');
    PathInRange(g, m, t, h);
    PathInRange(g, m, t, h');
    FoldOfExtension(g, t[f].path, i);
    FoldOfExtension(g, t[f].path, t[h'].path[d]);
    FoldOrder(g, t[h].path, t[h'].path, d + 1);
  }

  /** What entry i and then the later entries improve, all of them together improve. */
  lemma ChildThenRest(g: Geometry, m: Frames, t: seq<Node>, f: nat, i: nat, b: PageFrame, x: PageFrame, y: PageFrame)
    requires Shape(g, m, t) && f < |t| && |t[f].path| < g.depth && i < g.Radix(|t[f].path|) && m[f][i] != 0
    requires 0 < m[f][i] < |t| && PagesFrom(g, t, f, i) == PagesAt(g, t, m[f][i]) + PagesFrom(g, t, f, i + 1)
    requires Improved(g, m, t, PagesAt(g, t, m[f][i]), b, x) && Improved(g, m, t, PagesFrom(g, t, f, i + 1), x, y)
    ensures Improved(g, m, t, PagesFrom(g, t, f, i), b, y)
  {
    forall h, h' | h in PagesAt(g, t, m[f][i]) && h' in PagesFrom(g, t, f, i + 1)
      ensures g.Fold(t[h].path) < g.Fold(t[h'].path)
    {
      PagesOrdered(g, m, t, f, i, h, h');
    }
    ImprovedTwice(g, m, t, PagesAt(g, t, m[f][i]), PagesFrom(g, t, f, i + 1), b, x, y);
  }

  lemma {:induction false} HeaviestImproves(g: Geometry, m: Frames, t: seq<Node>, d: nat, f: nat,
    cur: PageFrame, max: PageFrame)
    requires Standing(g, m, t, d, f, cur) && 0 < g.depth
    ensures Improved(g, m, t, PagesAt(g, t, f), max, Heaviest(g, m, d, cur, max))
    decreases g.depth - d, 1, 0
  {
    if d == g.depth {
      var w := cur.weight + Parity(cur.pageNum);
      assert w == Score(g, m, t[f].path);
      if w > max.weight {
        assert ArgMax(g, m, t, {f}, f);
        assert Heaviest(g, m, d, cur, max) == Record(g, m, t, f);
      }
    } else {
      HeaviestFromImproves(g, m, t, d, f, cur, 0, max);
    }
  }

  /** What entry i leaves of the record. */
  function AfterEntry(g: Geometry, m: Frames, d: nat, cur: PageFrame, i: nat, max: PageFrame): PageFrame
    requires d < g.depth
  {
    var c := Word(m, cur.pAddr, i);
    if c <= 0 then max else Heaviest(g, m, d + 1, Child(g, d, cur, i, c), max)
  }

  lemma HeaviestFromSplit(g: Geometry, m: Frames, d: nat, cur: PageFrame, i: nat, max: PageFrame)
    requires d < g.depth && i < g.Radix(d)
    ensures HeaviestFrom(g, m, d, cur, i, max) == HeaviestFrom(g, m, d, cur, i + 1, AfterEntry(g, m, d, cur, i, max))
  {
  }

  lemma {:induction false} HeaviestFromImproves(g: Geometry, m: Frames, t: seq<Node>, d: nat, f: nat,
    cur: PageFrame, i: nat, max: PageFrame)
    requires Standing(g, m, t, d, f, cur) && d < g.depth && i <= g.Radix(d)
    ensures Improved(g, m, t, PagesFrom(g, t, f, i), max, HeaviestFrom(g, m, d, cur, i, max))
    decreases g.depth - d, 0, g.Radix(d) - i
  {
    if i == g.Radix(d) {
      PastLastEntry(g, m, t, f);
    } else {
      PagesSplit(g, m, t, f, i);
      HeaviestFromSplit(g, m, d, cur, i, max);
      var c := m[f][i];
      if c == 0 {
        HeaviestFromImproves(g, m, t, d, f, cur, i + 1, max);
      } else {
        StandingChild(g, m, t, d, f, cur, i);
        var child := Child(g, d, cur, i, c);
        var max' := Heaviest(g, m, d + 1, child, max);
        HeaviestImproves(g, m, t, d + 1, c, child, max);
        HeaviestFromImproves(g, m, t, d, f, cur, i + 1, max');
        ChildThenRest(g, m, t, f, i, max, max', HeaviestFrom(g, m, d, cur, i + 1, max'));
      }
    }
  }

  /** All mapped pages. */
  ghost function Pages(g: Geometry, t: seq<Node>): set<nat> {
    set f: nat | f < |t| && IsPage(g, t, f)
  }

  function StartRecord(): PageFrame {
    PageFrame(0, 0, 0, WEIGHT_EVEN, 0)
  }

  function NoRecord(): PageFrame {
    PageFrame(0, 0, 0, 0, 0)
  }

  function Victim(g: Geometry, m: Frames): PageFrame {
    Heaviest(g, m, 0, StartRecord(), NoRecord())
  }

  /** The victim is an exact arg-max over the mapped pages: highest score, then lowest page
      number; the record names its frame, its one parent slot and the page whose walk ends there. */
  lemma VictimIsArgMax(g: Geometry, m: Frames, t: seq<Node>) returns (f: nat)
    requires Shape(g, m, t) && 0 < g.depth && Pages(g, t) != {}
    ensures ArgMax(g, m, t, Pages(g, t), f) && Victim(g, m) == Record(g, m, t, f)
    ensures Victim(g, m).pageNum < g.NumPages() && Walk(m, g.Path(Victim(g, m).pageNum)) == f
    ensures 0 < f && g.Path(Victim(g, m).pageNum) == t[f].path
  {
    NonRootPath(g, m, t, 0);
    HeaviestImproves(g, m, t, 0, 0, StartRecord(), NoRecord());
    forall h: nat | h < |t| && IsPage(g, t, h)
      ensures h in PagesFrom(g, t, 0, 0)
    {
      assert t[h].path[..0] == [];
    }
    assert PagesAt(g, t, 0) == Pages(g, t);
    var h :| h in Pages(g, t);
    assert Score(g, m, t[h].path) > 0;
    f :| ArgMax(g, m, t, Pages(g, t), f) && Victim(g, m) == Record(g, m, t, f);
    PathInRange(g, m, t, f);
    DigitsOfFold(g, t[f].path);
    WalkReaches(g, m, t, f);
  }

  // ---------- A victim exists whenever one is needed ----------

  /** Nothing can be reclaimed while slot h is being filled. */
  ghost predicate NothingFree(g: Geometry, m: Frames, t: seq<Node>, h: nat)
    requires |t| <= |m|
  {
    forall f :: 0 < f < |t| && f != h ==> m[f] != Zeros(g.pageSize)
  }

  /** Below a frame that is off the path being filled there is a mapped page with a non-zero word. */
  lemma {:induction false} PageBelow(g: Geometry, m: Frames, t: seq<Node>, h: nat, f: nat) returns (p: nat)
    requires Shape(g, m, t) && h < |t| && f < |t| && NothingFree(g, m, t, h)
    requires !(t[f].path <= t[h].path) && |t[h].path| < g.depth
    ensures IsPage(g, t, p) && t[f].path <= t[p].path && m[p] != Zeros(g.pageSize)
    decreases g.depth - |t[f].path|
  {
    PathInRange(g, m, t, f);
    NonRootPath(g, m, t, f);
    assert f != 0 && f != h;
    if |t[f].path| == g.depth {
      p := f;
    } else {
      assert m[f] != Zeros(g.pageSize) && |m[f]| == g.pageSize;
      var i :| 0 <= i < g.pageSize && m[f][i] != 0;
      assert LinkedDown(g, m, t, f, i);
      PathInRange(g, m, t, m[f][i]);
      assert t[f].path == t[m[f][i]].path[..|t[f].path|];
      p := PageBelow(g, m, t, h, m[f][i]);
    }
  }

  ghost function Depths(t: seq<Node>, n: nat): set<nat>
    requires n <= |t|
  {
    set f | 0 <= f < n :: |t[f].path|
  }

  lemma DepthsStep(t: seq<Node>, n: nat)
    requires n < |t|
    ensures Depths(t, n + 1) == Depths(t, n) + {|t[n].path|}
  {
  }

  lemma {:induction false} DistinctDepths(t: seq<Node>, n: nat)
    requires n <= |t| && forall f, h :: 0 <= f < h < n ==> |t[f].path| != |t[h].path|
    ensures |Depths(t, n)| == n
    decreases n
  {
    if n > 0 {
      DistinctDepths(t, n - 1);
      DepthsStep(t, n - 1);
      assert |t[n - 1].path| !in Depths(t, n - 1);
    }
  }

  lemma {:induction false} BoundedSet(s: set<nat>, n: nat)
    requires forall x :: x in s ==> x < n
    ensures |s| <= n
  {
    if n > 0 {
      BoundedSet(s - {n - 1}, n - 1);
      assert |s| <= |s - {n - 1}| + 1;
    } else {
      assert s == {};
    }
  }

  /** When RAM is full and nothing can be reclaimed, some page is mapped: otherwise every frame
      would be on the one path being filled, and a path has at most TABLES_DEPTH tables. */
  lemma FullRamHasPage(g: Geometry, m: Frames, t: seq<Node>, h: nat)
    requires Shape(g, m, t) && h < |t| && |t[h].path| < g.depth
    requires |t| == g.numFrames && NothingFree(g, m, t, h)
    ensures Pages(g, t) != {}
  {
    if f: nat :| f < |t| && !(t[f].path <= t[h].path) {
      var p := PageBelow(g, m, t, h, f);
      assert p in Pages(g, t);
    } else {
      forall a, b | 0 <= a < b < |t|
        ensures |t[a].path| != |t[b].path|
      {
        if |t[a].path| == |t[b].path| {
          assert t[a].path == t[h].path[..|t[a].path|] == t[b].path;
          PathsUnique(g, m, t, a, b);
        }
      }
      DistinctDepths(t, |t|);
      BoundedSet(Depths(t, |t|), |t[h].path| + 1);
      assert false;
    }
  }
}
