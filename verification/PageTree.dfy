/** The heap shape of the page tables: a radix tree threaded through the frames of RAM.

    A RAM value is the sequence of its frames. `t` names the frames that are in the tree: frame
    f is in it when f < |t|, and t[f] gives the digits that lead to f and the frame of its
    parent table. Frame 0 is the root. */
module PageTree {
  import opened Geometry

  type Frames = seq<seq<int>>
  type Swap = map<nat, seq<int>>

  datatype Node = Node(path: seq<nat>, parent: nat)

  function Last(path: seq<nat>): nat
    requires path != []
  {
    path[|path| - 1]
  }

  function Zeros(n: nat): (z: seq<int>)
    ensures |z| == n && forall i :: 0 <= i < n ==> z[i] == 0
  {
    seq(n, i => 0)
  }

  ghost predicate Sized(g: Geometry, m: Frames) {
    |m| == g.numFrames && forall f :: 0 <= f < |m| ==> |m[f]| == g.pageSize
  }

  predicate InTree(t: seq<Node>, f: int) {
    0 <= f < |t|
  }

  /** Frame f hangs from exactly the slot its node names. */
  ghost predicate LinkedUp(g: Geometry, m: Frames, t: seq<Node>, f: nat)
    requires Sized(g, m) && |t| <= g.numFrames && g.rootSize <= g.pageSize && f < |t|
  {
    var n := t[f];
    && 0 < |n.path| <= g.depth
    && Last(n.path) < g.Radix(|n.path| - 1)
    && n.parent < |t|
    && n.path == t[n.parent].path + [Last(n.path)]
    && m[n.parent][Last(n.path)] == f
  }

  /** A used slot of table f leads to a frame whose node names that slot. */
  ghost predicate LinkedDown(g: Geometry, m: Frames, t: seq<Node>, f: nat, i: nat)
    requires Sized(g, m) && |t| <= g.numFrames && f < |t| && i < g.pageSize
  {
    m[f][i] != 0 ==>
      0 < m[f][i] < |t| && t[m[f][i]] == Node(t[f].path + [i], f)
  }

  /** The whole heap shape. The frames in the tree are 0 .. |t| - 1, each but the root has exactly
      one parent slot, no path is longer than TABLES_DEPTH, and every other frame is zero. */
  ghost predicate Shape(g: Geometry, m: Frames, t: seq<Node>) {
    && g.Valid()
    && Sized(g, m)
    && 0 < |t| <= g.numFrames
    && t[0] == Node([], 0)
    && (forall f :: 0 < f < |t| ==> LinkedUp(g, m, t, f))
    && (forall f, i :: 0 <= f < |t| && |t[f].path| < g.depth && 0 <= i < g.Radix(|t[f].path|) ==>
          LinkedDown(g, m, t, f, i))
    && (forall f :: |t| <= f < g.numFrames ==> m[f] == Zeros(g.pageSize))
  }

  /** No two frames share a path; with LinkedUp this makes every parent slot unique. */
  lemma {:induction false} PathsUnique(g: Geometry, m: Frames, t: seq<Node>, f: nat, h: nat)
    requires Shape(g, m, t) && f < |t| && h < |t|
    requires t[f].path == t[h].path
    ensures f == h
    decreases |t[f].path|
  {
    NonRootPath(g, m, t, f);
    NonRootPath(g, m, t, h);
    if 0 < f && 0 < h {
      var p, q := t[f].parent, t[h].parent;
      assert LinkedUp(g, m, t, f) && LinkedUp(g, m, t, h);
      assert t[p].path == t[f].path[..|t[f].path| - 1];
      assert t[q].path == t[h].path[..|t[h].path| - 1];
      PathsUnique(g, m, t, p, q);
    }
  }

  lemma NonRootPath(g: Geometry, m: Frames, t: seq<Node>, f: nat)
    requires Shape(g, m, t) && f < |t|
    ensures f == 0 <==> t[f].path == []
  {
    if 0 < f {
      assert LinkedUp(g, m, t, f);
    }
  }

  lemma {:induction false} PathInRange(g: Geometry, m: Frames, t: seq<Node>, f: nat)
    requires Shape(g, m, t) && f < |t|
    ensures |t[f].path| <= g.depth && g.InRange(t[f].path)
    decreases |t[f].path|
  {
    if f > 0 {
      assert LinkedUp(g, m, t, f);
      PathInRange(g, m, t, t[f].parent);
    }
  }

  /** Every prefix of a tree path is the path of a frame in the tree. */
  lemma {:induction false} Ancestor(g: Geometry, m: Frames, t: seq<Node>, f: nat, d: nat) returns (a: nat)
    requires Shape(g, m, t) && f < |t| && d <= |t[f].path|
    ensures a < |t| && t[a].path == t[f].path[..d]
    decreases |t[f].path|
  {
    if d == |t[f].path| {
      a := f;
      assert t[f].path[..d] == t[f].path;
    } else {
      assert f > 0 && LinkedUp(g, m, t, f);
      a := Ancestor(g, m, t, t[f].parent, d);
      assert t[f].path[..d] == t[t[f].parent].path[..d];
    }
  }

  /** A child named by its path hangs from its parent's slot. */
  lemma ChildSlot(g: Geometry, m: Frames, t: seq<Node>, f: nat, c: nat)
    requires Shape(g, m, t) && f < |t| && 0 < c < |t|
    requires |t[c].path| == |t[f].path| + 1 && t[f].path == t[c].path[..|t[f].path|]
    ensures t[c].parent == f && Last(t[c].path) < g.Radix(|t[f].path|) && m[f][Last(t[c].path)] == c
  {
    assert LinkedUp(g, m, t, c);
    assert t[t[c].parent].path == t[f].path;
    PathsUnique(g, m, t, t[c].parent, f);
  }

  // ---------- Walking the tree from RAM alone ----------

  /** Follows links from the root; -1 at the first missing one, as `search` reports it. */
  function Walk(m: Frames, path: seq<nat>): int {
    if path == [] then 0
    else
      var f := Walk(m, path[..|path| - 1]);
      if !(0 <= f < |m|) || Last(path) >= |m[f]| || m[f][Last(path)] <= 0 then -1
      else m[f][Last(path)]
  }

  lemma WalkStep(m: Frames, path: seq<nat>, i: nat)
    ensures var f := Walk(m, path);
            Walk(m, path + [i]) ==
            if !(0 <= f < |m|) || i >= |m[f]| || m[f][i] <= 0 then -1 else m[f][i]
  {
    assert (path + [i])[..|path|] == path;
  }

  lemma {:induction false} WalkReaches(g: Geometry, m: Frames, t: seq<Node>, f: nat)
    requires Shape(g, m, t) && f < |t|
    ensures Walk(m, t[f].path) == f
    decreases |t[f].path|
  {
    if f > 0 {
      assert LinkedUp(g, m, t, f);
      WalkReaches(g, m, t, t[f].parent);
      WalkStep(m, t[t[f].parent].path, Last(t[f].path));
    }
  }

  lemma {:induction false} WalkFinds(g: Geometry, m: Frames, t: seq<Node>, path: seq<nat>)
    requires Shape(g, m, t) && g.InRange(path) && |path| <= g.depth
    requires Walk(m, path) >= 0
    ensures Walk(m, path) < |t| && t[Walk(m, path)].path == path
    decreases |path|
  {
    if path != [] {
      var q := path[..|path| - 1];
      WalkFinds(g, m, t, q);
      var f := Walk(m, q);
      assert path == q + [Last(path)];
      assert LinkedDown(g, m, t, f, Last(path));
    }
  }

  /** A walk succeeds exactly on the paths of the tree. */
  lemma WalkMissing(g: Geometry, m: Frames, t: seq<Node>, path: seq<nat>)
    requires Shape(g, m, t) && g.InRange(path) && |path| <= g.depth
    ensures Walk(m, path) == -1 || (0 <= Walk(m, path) < |t| && t[Walk(m, path)].path == path)
    ensures Walk(m, path) == -1 <==> forall f :: 0 <= f < |t| ==> t[f].path != path
  {
    if Walk(m, path) >= 0 {
      WalkFinds(g, m, t, path);
    }
    forall f | 0 <= f < |t| && t[f].path == path
      ensures Walk(m, path) == f
    {
      WalkReaches(g, m, t, f);
    }
    assert Walk(m, path) >= -1;
  }

  // ---------- What the paging system stores ----------

  /** The words of a page, wherever they are: in the frame the walk reaches, else in the swap
      file, else never written and so zero. */
  function Contents(g: Geometry, m: Frames, swap: Swap, page: nat): seq<int>
    requires 0 < g.rootSize && 0 < g.pageSize
  {
    var f := Walk(m, g.Path(page));
    if 0 <= f < |m| then m[f]
    else if page in swap then swap[page]
    else Zeros(g.pageSize)
  }

  ghost predicate Mapped(g: Geometry, t: seq<Node>, page: nat)
    requires 0 < g.rootSize && 0 < g.pageSize
  {
    exists f :: InTree(t, f) && t[f].path == g.Path(page)
  }

  /** No page is both mapped and in the swap file, and a page in the swap file is not zero. */
  ghost predicate SwapOk(g: Geometry, t: seq<Node>, swap: Swap)
    requires 0 < g.rootSize && 0 < g.pageSize
  {
    forall q :: q in swap ==>
      q < g.NumPages() && |swap[q]| == g.pageSize && swap[q] != Zeros(g.pageSize) && !Mapped(g, t, q)
  }

  lemma ContentsOf(g: Geometry, m: Frames, t: seq<Node>, swap: Swap, page: nat)
    requires Shape(g, m, t)
    ensures forall f :: 0 <= f < |t| && t[f].path == g.Path(page) ==> Contents(g, m, swap, page) == m[f]
    ensures !Mapped(g, t, page) ==>
              Contents(g, m, swap, page) == if page in swap then swap[page] else Zeros(g.pageSize)
  {
    WalkMissing(g, m, t, g.Path(page));
    forall f | 0 <= f < |t| && t[f].path == g.Path(page)
      ensures Walk(m, g.Path(page)) == f
    {
      WalkReaches(g, m, t, f);
    }
    if Walk(m, g.Path(page)) >= 0 {
      assert InTree(t, Walk(m, g.Path(page)));
    }
  }
}
