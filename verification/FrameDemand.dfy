/** How many frames an access needs, counted on what the client sees, and when a fault has to evict. */
module FrameDemand {
  import opened Geometry
  import opened PageTree
  import opened FrameSearch
  import opened VictimSearch
  import opened TreeUpdate
  import opened FaultStep
  import opened FlatMemory
  import Bags

  // ---------- The frames that cannot be reclaimed ----------

  /** The digits that lead to the pages of `paths` and to all tables on the way, the root included. */
  ghost function Prefixes(paths: set<seq<nat>>): set<seq<nat>> {
    set q, e | q in paths && 0 <= e <= |q| :: q[..e]
  }

  ghost function TreePaths(t: seq<Node>): set<seq<nat>> {
    set f | 0 <= f < |t| :: t[f].path
  }

  /** The paths of the mapped pages that hold a non-zero word. */
  ghost function NonZeroPages(g: Geometry, m: Frames, t: seq<Node>): set<seq<nat>>
    requires |t| <= |m|
  {
    set f | 0 <= f < |t| && IsPage(g, t, f) && m[f] != Zeros(g.pageSize) :: t[f].path
  }

  /** What has to stay in RAM while `path` is filled: the walks to non-zero pages, and the path. */
  ghost function Needed(g: Geometry, m: Frames, t: seq<Node>, path: seq<nat>): set<seq<nat>>
    requires |t| <= |m|
  {
    Prefixes(NonZeroPages(g, m, t) + {path})
  }

  lemma PrefixIn(paths: set<seq<nat>>, q: seq<nat>, x: seq<nat>)
    requires q in paths && x <= q
    ensures x in Prefixes(paths)
  {
    assert q[..|x|] == x;
  }

  lemma TreePathsStep(t: seq<Node>, n: nat)
    requires n < |t|
    ensures TreePaths(t[..n + 1]) == TreePaths(t[..n]) + {t[n].path}
  {
    var a, b := t[..n], t[..n + 1];
    assert forall f | 0 <= f < n :: a[f] == b[f];
    assert b[n] == t[n];
    forall x | x in TreePaths(a)
      ensures x in TreePaths(b)
    {
      var f :| 0 <= f < |a| && a[f].path == x;
      assert b[f].path == x;
    }
  }

  lemma LastPathIsNew(g: Geometry, m: Frames, t: seq<Node>, n: nat)
    requires Shape(g, m, t) && n < |t|
    ensures t[n].path !in TreePaths(t[..n])
  {
    if t[n].path in TreePaths(t[..n]) {
      var f :| 0 <= f < |t[..n]| && t[..n][f].path == t[n].path;
      PathsUnique(g, m, t, f, n);
    }
  }

  lemma {:induction false} TreePathsSize(g: Geometry, m: Frames, t: seq<Node>, n: nat)
    requires Shape(g, m, t) && n <= |t|
    ensures |TreePaths(t[..n])| == n
    decreases n
  {
    if n > 0 {
      TreePathsSize(g, m, t, n - 1);
      TreePathsStep(t, n - 1);
      LastPathIsNew(g, m, t, n - 1);
    }
  }

  lemma AllTreePaths(g: Geometry, m: Frames, t: seq<Node>)
    requires Shape(g, m, t)
    ensures |TreePaths(t)| == |t|
  {
    TreePathsSize(g, m, t, |t|);
    assert t[..|t|] == t;
  }

  lemma PrefixesInTree(g: Geometry, m: Frames, t: seq<Node>, paths: set<seq<nat>>)
    requires Shape(g, m, t) && paths <= TreePaths(t)
    ensures Prefixes(paths) <= TreePaths(t)
  {
    forall q, e | q in paths && 0 <= e <= |q|
      ensures q[..e] in TreePaths(t)
    {
      var f :| 0 <= f < |t| && t[f].path == q;
      var a := Ancestor(g, m, t, f, e);
    }
  }

  lemma NeededInTree(g: Geometry, m: Frames, t: seq<Node>, h: nat)
    requires Shape(g, m, t) && h < |t|
    ensures Needed(g, m, t, t[h].path) <= TreePaths(t)
  {
    PrefixesInTree(g, m, t, NonZeroPages(g, m, t) + {t[h].path});
  }

  /** When nothing can be reclaimed, every frame of the tree is needed. */
  lemma UnfreeIsNeeded(g: Geometry, m: Frames, t: seq<Node>, h: nat)
    requires Shape(g, m, t) && h < |t| && |t[h].path| < g.depth && NothingFree(g, m, t, h)
    ensures TreePaths(t) <= Needed(g, m, t, t[h].path)
  {
    var paths := NonZeroPages(g, m, t) + {t[h].path};
    forall f | 0 <= f < |t|
      ensures t[f].path in Prefixes(paths)
    {
      if t[f].path <= t[h].path {
        PrefixIn(paths, t[h].path, t[f].path);
      } else {
        var p := PageBelow(g, m, t, h, f);
        assert t[p].path in NonZeroPages(g, m, t);
        PrefixIn(paths, t[p].path, t[f].path);
      }
    }
  }

  /** A frame strictly above another frame of the tree holds a link. */
  lemma AboveIsUsed(g: Geometry, m: Frames, t: seq<Node>, f: nat, c: nat)
    requires Shape(g, m, t) && f < |t| && c < |t| && t[f].path < t[c].path
    ensures m[f] != Zeros(g.pageSize)
  {
    var d := |t[f].path|;
    PathInRange(g, m, t, c);
    var a := Ancestor(g, m, t, c, d + 1);
    NonRootPath(g, m, t, a);
    assert t[a].path[..d] == t[c].path[..d] == t[f].path;
    ChildSlot(g, m, t, f, a);
  }

  lemma NeededIsUnfree(g: Geometry, m: Frames, t: seq<Node>, h: nat, f: nat)
    requires Shape(g, m, t) && h < |t| && f < |t| && f != h
    requires t[f].path in Needed(g, m, t, t[h].path)
    ensures m[f] != Zeros(g.pageSize)
  {
    var q, e :| q in NonZeroPages(g, m, t) + {t[h].path} && 0 <= e <= |q| && t[f].path == q[..e];
    var c: nat := if q == t[h].path then h else var c :| 0 <= c < |t| && m[c] != Zeros(g.pageSize) && t[c].path == q; c;
    if e == |q| {
      assert q[..e] == q;
      PathsUnique(g, m, t, f, c);
    } else {
      AboveIsUsed(g, m, t, f, c);
    }
  }

  /** A fault evicts exactly when the frames it needs fill RAM: the root, the walks to the mapped
      pages with a non-zero word, and the part of the faulting walk that exists. */
  lemma WillEvictIff(g: Geometry, m: Frames, t: seq<Node>, h: nat, j: nat)
    requires FreeEntry(g, t, h, j, m)
    ensures WillEvict(g, m, h, j) <==> |Needed(g, m, t, t[h].path)| >= g.numFrames
  {
    TreeSizeExact(g, m, t);
    FreeSlotExact(g, m, t, h, j);
    AllTreePaths(g, m, t);
    NeededInTree(g, m, t, h);
    Bags.SubsetSize(Needed(g, m, t, t[h].path), TreePaths(t));
    if NothingFree(g, m, t, h) {
      UnfreeIsNeeded(g, m, t, h);
    }
    if Needed(g, m, t, t[h].path) == TreePaths(t) {
      forall f | 0 < f < |t| && f != h
        ensures m[f] != Zeros(g.pageSize)
      {
        assert t[f].path in TreePaths(t);
        NeededIsUnfree(g, m, t, h, f);
      }
    }
  }

  // ---------- The same, on the flat memory ----------

  /** The paths of the pages that hold a non-zero word. */
  ghost function UsedPaths(g: Geometry, mem: seq<int>): set<seq<nat>>
    requires 0 < g.rootSize && 0 < g.pageSize
  {
    set v | 0 <= v < |mem| && mem[v] != 0 :: g.Path(g.Page(v))
  }

  /** The page of v and the pages in use, with all their tables, fit into RAM. */
  ghost predicate Fits(g: Geometry, mem: seq<int>, v: nat)
    requires 0 < g.rootSize && 0 < g.pageSize
  {
    |Prefixes(UsedPaths(g, mem) + {g.Path(g.Page(v))})| <= g.numFrames
  }

  lemma UsedIsNonZero(g: Geometry, s: Store, t: seq<Node>, v: nat)
    requires Sound(g, s, t) && s.swap == map[] && v < g.VirtualSize() && WordOf(g, s, v) != 0
    ensures g.Path(g.Page(v)) in NonZeroPages(g, s.m, t)
  {
    var p, i := g.Page(v), Remainder(v, g.pageSize);
    WalkMissing(g, s.m, t, g.Path(p));
    assert Contents(g, s.m, s.swap, p)[i] != 0;
    var f := Walk(s.m, g.Path(p));
    assert s.m[f][i] != 0;
  }

  /** The address of word i of page p. */
  lemma WordAddressOf(g: Geometry, p: nat, i: nat) returns (v: nat)
    requires 0 < g.pageSize && p < g.NumPages() && i < g.pageSize
    ensures v < g.VirtualSize() && g.Page(v) == p && Remainder(v, g.pageSize) == i
  {
    v := p * g.pageSize + i;
    DivModUnique(p, i, g.pageSize);
    MulBound(p, i, g.pageSize, g.NumPages());
  }

  lemma NonZeroWord(g: Geometry, s: Store, p: nat, i: nat)
    requires 0 < g.rootSize && 0 < g.pageSize && p < g.NumPages() && i < g.pageSize
    requires i < |Contents(g, s.m, s.swap, p)| && Contents(g, s.m, s.swap, p)[i] != 0
    ensures g.Path(p) in UsedPaths(g, FlatView(g, s))
  {
    var v := WordAddressOf(g, p, i);
    assert FlatView(g, s)[v] == WordOf(g, s, v);
  }

  lemma NonZeroIsUsed(g: Geometry, s: Store, t: seq<Node>, f: nat)
    requires Sound(g, s, t) && IsPage(g, t, f) && s.m[f] != Zeros(g.pageSize)
    ensures t[f].path in UsedPaths(g, FlatView(g, s))
  {
    PathInRange(g, s.m, t, f);
    DigitsOfFold(g, t[f].path);
    var p := g.Fold(t[f].path);
    ContentsOf(g, s.m, t, s.swap, p);
    var i :| 0 <= i < g.pageSize && s.m[f][i] != 0;
    NonZeroWord(g, s, p, i);
  }

  /** Without a swapped page, the pages in use are the mapped pages that are not zero. */
  lemma UsedAgree(g: Geometry, s: Store, t: seq<Node>)
    requires Sound(g, s, t) && s.swap == map[]
    ensures UsedPaths(g, FlatView(g, s)) == NonZeroPages(g, s.m, t)
  {
    forall v | 0 <= v < g.VirtualSize() && FlatView(g, s)[v] != 0
      ensures g.Path(g.Page(v)) in NonZeroPages(g, s.m, t)
    {
      UsedIsNonZero(g, s, t, v);
    }
    forall f | 0 <= f < |t| && IsPage(g, t, f) && s.m[f] != Zeros(g.pageSize)
      ensures t[f].path in UsedPaths(g, FlatView(g, s))
    {
      NonZeroIsUsed(g, s, t, f);
    }
  }

  /** A fault on the way to v that has to evict shows that v does not fit. */
  lemma EvictionNeedsRoom(g: Geometry, s: Store, t: seq<Node>, h: nat, j: nat, v: nat)
    requires Sound(g, s, t) && s.swap == map[] && FreeEntry(g, t, h, j, s.m)
    requires t[h].path + [j] <= g.Path(g.Page(v)) && WillEvict(g, s.m, h, j)
    ensures !Fits(g, FlatView(g, s), v)
  {
    var path, slot := g.Path(g.Page(v)), t[h].path + [j];
    var all := UsedPaths(g, FlatView(g, s)) + {path};
    WillEvictIff(g, s.m, t, h, j);
    UsedAgree(g, s, t);
    NeededInTree(g, s.m, t, h);
    var needed := Needed(g, s.m, t, t[h].path);
    assert needed + {slot} <= Prefixes(all) by {
      PrefixIn(all, path, slot);
      NeededGrows(g, s.m, t, t[h].path, path);
    }
    if slot in TreePaths(t) {
      var f :| 0 <= f < |t| && t[f].path == slot;
      SlotIsNew(g, s.m, t, h, j, f);
    }
    Bags.SubsetSize(needed + {slot}, Prefixes(all));
  }

  lemma NeededGrows(g: Geometry, m: Frames, t: seq<Node>, path: seq<nat>, longer: seq<nat>)
    requires |t| <= |m| && path <= longer
    ensures Needed(g, m, t, path) <= Prefixes(NonZeroPages(g, m, t) + {longer})
  {
    var all := NonZeroPages(g, m, t) + {longer};
    forall q, e | q in NonZeroPages(g, m, t) + {path} && 0 <= e <= |q|
      ensures q[..e] in Prefixes(all)
    {
      PrefixIn(all, if q == path then longer else q, q[..e]);
    }
  }

  /** A mapped page fits. */
  lemma MappedFits(g: Geometry, s: Store, t: seq<Node>, v: nat)
    requires Sound(g, s, t) && s.swap == map[] && Walk(s.m, g.Path(g.Page(v))) >= 0
    ensures Fits(g, FlatView(g, s), v)
  {
    var path := g.Path(g.Page(v));
    WalkFinds(g, s.m, t, path);
    UsedAgree(g, s, t);
    var all := UsedPaths(g, FlatView(g, s)) + {path};
    assert path == t[Walk(s.m, path)].path;
    PrefixesInTree(g, s.m, t, all);
    AllTreePaths(g, s.m, t);
    Bags.SubsetSize(Prefixes(all), TreePaths(t));
  }

  // ---------- Runs ----------

  /** Every access of a run on a flat array fits when it is made. */
  ghost predicate RunFits(g: Geometry, mem: seq<int>, ops: seq<Op>)
    requires 0 < g.rootSize && 0 < g.pageSize
  {
    if ops == [] then true
    else
      var init := ops[..|ops| - 1];
      RunFits(g, mem, init) && Fits(g, After(mem, init), ops[|ops| - 1].v)
  }

  lemma FitsNext(g: Geometry, mem: seq<int>, ops: seq<Op>, k: nat)
    requires 0 < g.rootSize && 0 < g.pageSize && k < |ops|
    ensures RunFits(g, mem, ops[..k + 1]) <==>
            RunFits(g, mem, ops[..k]) && Fits(g, After(mem, ops[..k]), ops[k].v)
  {
    assert ops[..k + 1][..k] == ops[..k];
  }

  lemma {:induction false} FitsBefore(g: Geometry, mem: seq<int>, ops: seq<Op>, k: nat)
    requires 0 < g.rootSize && 0 < g.pageSize && k <= |ops| && RunFits(g, mem, ops)
    ensures RunFits(g, mem, ops[..k])
    decreases |ops|
  {
    if k == |ops| {
      assert ops[..k] == ops;
    } else {
      assert ops[..|ops| - 1][..k] == ops[..k];
      FitsBefore(g, mem, ops[..|ops| - 1], k);
    }
  }

  ghost function Touched(g: Geometry, ops: seq<Op>): set<seq<nat>>
    requires 0 < g.rootSize && 0 < g.pageSize
  {
    set k | 0 <= k < |ops| :: g.Path(g.Page(ops[k].v))
  }

  lemma {:induction false} UsedByRun(g: Geometry, mem: seq<int>, ops: seq<Op>)
    requires 0 < g.rootSize && 0 < g.pageSize && forall v | 0 <= v < |mem| :: mem[v] == 0
    ensures UsedPaths(g, After(mem, ops)) <= Touched(g, ops)
    decreases |ops|
  {
    if ops != [] {
      var init := ops[..|ops| - 1];
      UsedByRun(g, mem, init);
      assert Touched(g, init) <= Touched(g, ops) by {
        assert forall k | 0 <= k < |init| :: init[k] == ops[k];
      }
      var m, m' := After(mem, init), After(mem, ops);
      forall v | 0 <= v < |m'| && m'[v] != 0
        ensures g.Path(g.Page(v)) in Touched(g, ops)
      {
        if v != ops[|ops| - 1].v {
          assert v < |m| && m[v] != 0;
          assert g.Path(g.Page(v)) in UsedPaths(g, m);
        }
      }
    }
  }

  lemma PrefixesGrow(a: set<seq<nat>>, b: set<seq<nat>>)
    requires a <= b
    ensures Prefixes(a) <= Prefixes(b) && |Prefixes(a)| <= |Prefixes(b)|
  {
    Bags.SubsetSize(Prefixes(a), Prefixes(b));
  }

  lemma TouchedGrows(g: Geometry, ops: seq<Op>, k: nat)
    requires 0 < g.rootSize && 0 < g.pageSize && k < |ops|
    ensures Touched(g, ops[..k]) + {g.Path(g.Page(ops[k].v))} <= Touched(g, ops)
  {
    assert forall i | 0 <= i < k :: ops[..k][i] == ops[i];
  }

  /** If all pages a run touches fit into RAM together with their tables, every access fits. */
  lemma {:induction false} TouchedFits(g: Geometry, mem: seq<int>, ops: seq<Op>)
    requires 0 < g.rootSize && 0 < g.pageSize && forall v | 0 <= v < |mem| :: mem[v] == 0
    requires |Prefixes(Touched(g, ops))| <= g.numFrames
    ensures RunFits(g, mem, ops)
    decreases |ops|
  {
    if ops != [] {
      var k := |ops| - 1;
      TouchedGrows(g, ops, k);
      PrefixesGrow(Touched(g, ops[..k]), Touched(g, ops));
      TouchedFits(g, mem, ops[..k]);
      UsedByRun(g, mem, ops[..k]);
      PrefixesGrow(UsedPaths(g, After(mem, ops[..k])) + {g.Path(g.Page(ops[k].v))}, Touched(g, ops));
    }
  }

  // ---------- RAM that holds the whole tree ----------

  /** The number of frames of the full tree down to depth d. */
  function Levels(g: Geometry, d: nat): nat {
    if d == 0 then 1 else Levels(g, d - 1) + g.Count(d)
  }

  lemma {:induction false} LevelsGrow(g: Geometry, d: nat, e: nat)
    requires d <= e
    ensures Levels(g, d) <= Levels(g, e)
    decreases e
  {
    if d < e { LevelsGrow(g, d, e - 1); }
  }

  /** Numbers the paths level by level. */
  function Rank(g: Geometry, x: seq<nat>): nat {
    if x == [] then 0 else Levels(g, |x| - 1) + g.Fold(x)
  }

  lemma RankBound(g: Geometry, x: seq<nat>)
    requires 0 < g.rootSize && 0 < g.pageSize && g.InRange(x)
    ensures Rank(g, x) < Levels(g, |x|)
  {
    DigitsOfFold(g, x);
  }

  lemma RankUnique(g: Geometry, x: seq<nat>, y: seq<nat>)
    requires 0 < g.rootSize && 0 < g.pageSize && g.InRange(x) && g.InRange(y)
    requires Rank(g, x) == Rank(g, y)
    ensures x == y
  {
    RankBound(g, x);
    RankBound(g, y);
    if |x| < |y| {
      LevelsGrow(g, |x|, |y| - 1);
    } else if |y| < |x| {
      LevelsGrow(g, |y|, |x| - 1);
    } else {
      FoldUnique(g, x, y);
    }
  }

  lemma FoldUnique(g: Geometry, x: seq<nat>, y: seq<nat>)
    requires 0 < g.rootSize && 0 < g.pageSize && g.InRange(x) && g.InRange(y)
    requires |x| == |y| && g.Fold(x) == g.Fold(y)
    ensures x == y
  {
    DigitsOfFold(g, x);
    DigitsOfFold(g, y);
  }

  ghost predicate PathsOf(g: Geometry, paths: set<seq<nat>>) {
    forall x | x in paths :: g.InRange(x) && |x| <= g.depth
  }

  lemma {:induction false} RanksSize(g: Geometry, paths: set<seq<nat>>)
    requires 0 < g.rootSize && 0 < g.pageSize && PathsOf(g, paths)
    ensures |set x | x in paths :: Rank(g, x)| == |paths|
    decreases |paths|
  {
    if x :| x in paths {
      var rest := paths - {x};
      RanksSize(g, rest);
      var r := set y | y in rest :: Rank(g, y);
      assert (set y | y in paths :: Rank(g, y)) == r + {Rank(g, x)};
      if y :| y in rest && Rank(g, y) == Rank(g, x) {
        RankUnique(g, x, y);
      }
    }
  }

  /** When RAM holds the whole tree, every access of every run fits. */
  lemma WholeTreeFits(g: Geometry, mem: seq<int>, v: nat)
    requires g.Valid() && Levels(g, g.depth) <= g.numFrames
    ensures Fits(g, mem, v)
  {
    var paths := Prefixes(UsedPaths(g, mem) + {g.Path(g.Page(v))});
    RanksSize(g, paths);
    var ranks := set x | x in paths :: Rank(g, x);
    forall x | x in paths
      ensures Rank(g, x) < Levels(g, g.depth)
    {
      RankBound(g, x);
      LevelsGrow(g, |x|, g.depth);
    }
    BoundedSet(ranks, Levels(g, g.depth));
  }

  lemma {:induction false} WholeTreeRunFits(g: Geometry, mem: seq<int>, ops: seq<Op>)
    requires g.Valid() && Levels(g, g.depth) <= g.numFrames
    ensures RunFits(g, mem, ops)
    decreases |ops|
  {
    if ops != [] {
      var k := |ops| - 1;
      WholeTreeRunFits(g, mem, ops[..k]);
      WholeTreeFits(g, After(mem, ops[..k]), ops[k].v);
    }
  }
}
