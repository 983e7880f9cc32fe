/** How linking a frame into a missing slot keeps the heap shape and every page's contents. */
module TreeUpdate {
  import opened Geometry
  import opened PageTree
  import opened FrameSearch

  ghost predicate Childless(t: seq<Node>, f: nat) {
    forall k :: 0 < k < |t| ==> t[k].parent != f
  }

  /** Frame f leaves slot (p, s), is zeroed, and is hung from slot (h, j). */
  function Moved(g: Geometry, m: Frames, p: nat, s: nat, f: nat, h: nat, j: nat): Frames
    requires p < |m| && s < |m[p]| && f < |m| && h < |m| && f != h
    requires j < |m[h]|
  {
    SetSlot(SetSlot(m, p, s, 0)[f := Zeros(g.pageSize)], h, j, f)
  }

  ghost predicate Movable(g: Geometry, m: Frames, t: seq<Node>, f: nat, h: nat, j: nat) {
    && FreeEntry(g, t, h, j, m)
    && 0 < f < |t| && f != h && Childless(t, f)
  }

  lemma MovedShape(g: Geometry, m: Frames, t: seq<Node>, f: nat, h: nat, j: nat)
    requires Movable(g, m, t, f, h, j)
    ensures LinkedUp(g, m, t, f) && f != t[f].parent
    ensures Shape(g, Moved(g, m, t[f].parent, Last(t[f].path), f, h, j), t[f := Node(t[h].path + [j], h)])
  {
    assert LinkedUp(g, m, t, f);
    var p, s := t[f].parent, Last(t[f].path);
    assert p != f by {
      assert |t[f].path| == |t[p].path| + 1;
    }
    var m', t' := Moved(g, m, p, s, f, h, j), t[f := Node(t[h].path + [j], h)];
    forall k | 0 < k < |t'|
      ensures LinkedUp(g, m', t', k)
    {
      assert LinkedUp(g, m, t, k);
      if k != f {
        assert t[k].parent != f;
        assert m[t[k].parent][Last(t[k].path)] == k;
      }
    }
    forall k, i | 0 <= k < |t'| && |t'[k].path| < g.depth && 0 <= i < g.Radix(|t'[k].path|)
      ensures LinkedDown(g, m', t', k, i)
    {
      if k != f && m'[k][i] != 0 && !(k == h && i == j) {
        assert m'[k][i] == m[k][i];
        assert LinkedDown(g, m, t, k, i);
      }
    }
  }

  /** The first frame that is not in the tree is hung from slot (h, j). */
  lemma FreshShape(g: Geometry, m: Frames, t: seq<Node>, h: nat, j: nat)
    requires FreeEntry(g, t, h, j, m) && |t| < g.numFrames
    ensures Shape(g, SetSlot(m, h, j, |t|), t + [Node(t[h].path + [j], h)])
  {
    var m', t' := SetSlot(m, h, j, |t|), t + [Node(t[h].path + [j], h)];
    forall k | 0 < k < |t'|
      ensures LinkedUp(g, m', t', k)
    {
      if k < |t| {
        assert LinkedUp(g, m, t, k);
      }
    }
    forall k, i | 0 <= k < |t'| && |t'[k].path| < g.depth && 0 <= i < g.Radix(|t'[k].path|)
      ensures LinkedDown(g, m', t', k, i)
    {
      if k < |t| {
        assert LinkedDown(g, m, t, k, i);
      } else {
        assert m'[k] == Zeros(g.pageSize);
      }
    }
  }

  /** A page that keeps its frame, or keeps its place outside the tree, keeps its contents. */
  lemma MovedContents(g: Geometry, m: Frames, t: seq<Node>, swap: Swap, swap': Swap, f: nat, h: nat, j: nat, page: nat)
    requires Movable(g, m, t, f, h, j)
    requires g.Path(page) != t[h].path + [j]
    requires g.Path(page) == t[f].path ==> (if page in swap' then swap'[page] else Zeros(g.pageSize)) == m[f]
    requires g.Path(page) != t[f].path ==>
               (page in swap' <==> page in swap) && (page in swap ==> swap'[page] == swap[page])
    ensures LinkedUp(g, m, t, f) && f != t[f].parent
    ensures Contents(g, Moved(g, m, t[f].parent, Last(t[f].path), f, h, j), swap', page) == Contents(g, m, swap, page)
  {
    MovedShape(g, m, t, f, h, j);
    var m', t' := Moved(g, m, t[f].parent, Last(t[f].path), f, h, j), t[f := Node(t[h].path + [j], h)];
    ContentsOf(g, m, t, swap, page);
    ContentsOf(g, m', t', swap', page);
    if w :| InTree(t, w) && t[w].path == g.Path(page) {
      if w == f {
        forall k | InTree(t', k)
          ensures t'[k].path != g.Path(page)
        {
          if k != f && t'[k].path == g.Path(page) {
            PathsUnique(g, m, t, k, f);
          }
        }
      } else {
        assert InTree(t', w) && t'[w].path == g.Path(page);
        assert LinkedUp(g, m, t, f);
        assert w != h && w != t[f].parent;
      }
    } else {
      forall k | InTree(t', k)
        ensures t'[k].path != g.Path(page)
      {
        assert k != f ==> InTree(t, k) && t'[k] == t[k];
      }
    }
  }

  lemma FreshContents(g: Geometry, m: Frames, t: seq<Node>, swap: Swap, h: nat, j: nat, page: nat)
    requires FreeEntry(g, t, h, j, m) && |t| < g.numFrames
    requires g.Path(page) != t[h].path + [j]
    ensures Contents(g, SetSlot(m, h, j, |t|), swap, page) == Contents(g, m, swap, page)
  {
    FreshShape(g, m, t, h, j);
    var m', t' := SetSlot(m, h, j, |t|), t + [Node(t[h].path + [j], h)];
    ContentsOf(g, m, t, swap, page);
    ContentsOf(g, m', t', swap, page);
    if w :| InTree(t, w) && t[w].path == g.Path(page) {
      assert InTree(t', w) && t'[w].path == g.Path(page);
      assert w != h;
    } else {
      forall k | InTree(t', k)
        ensures t'[k].path != g.Path(page)
      {
        assert k < |t| ==> InTree(t, k) && t'[k] == t[k];
      }
    }
  }

  /** The slot being filled belongs to no frame yet. */
  lemma SlotIsNew(g: Geometry, m: Frames, t: seq<Node>, h: nat, j: nat, f: nat)
    requires FreeEntry(g, t, h, j, m) && f < |t|
    ensures t[f].path != t[h].path + [j]
  {
    if t[f].path == t[h].path + [j] {
      NonRootPath(g, m, t, f);
      assert t[f].path[..|t[h].path|] == t[h].path;
      ChildSlot(g, m, t, h, f);
      assert false;
    }
  }

  /** Two pages in range with the same path are the same page. */
  lemma PathNamesPage(g: Geometry, p: nat, q: nat)
    requires 0 < g.rootSize && 0 < g.pageSize
    requires p < g.NumPages() && q < g.NumPages() && g.Path(p) == g.Path(q)
    ensures p == q
  {
    FoldOfDigits(g, p, g.depth);
    FoldOfDigits(g, q, g.depth);
  }

  /** The slot of frame k when the slot of frame f has been zeroed. */
  lemma UnlinkedSlot(g: Geometry, m: Frames, t: seq<Node>, f: nat, k: nat)
    requires Shape(g, m, t) && 0 < f < |t| && 0 < k < |t|
    ensures LinkedUp(g, m, t, f) && LinkedUp(g, m, t, k)
    ensures SetSlot(m, t[f].parent, Last(t[f].path), 0)[t[k].parent][Last(t[k].path)] == if k == f then 0 else k
  {
    assert LinkedUp(g, m, t, f) && LinkedUp(g, m, t, k);
  }

  /** Zeroing the one parent slot of a childless frame drops that frame from the tree and nothing
      else: every other frame is still reached by its own path. */
  lemma {:induction false} UnlinkDropsOne(g: Geometry, m: Frames, t: seq<Node>, f: nat, k: nat)
    requires Shape(g, m, t) && 0 < f < |t| && Childless(t, f) && k < |t|
    ensures LinkedUp(g, m, t, f)
    ensures Walk(SetSlot(m, t[f].parent, Last(t[f].path), 0), t[k].path) == if k == f then -1 else k
    decreases |t[k].path|
  {
    assert LinkedUp(g, m, t, f);
    if k > 0 {
      UnlinkedSlot(g, m, t, f, k);
      assert t[k].parent != f;
      UnlinkDropsOne(g, m, t, f, t[k].parent);
      WalkStep(SetSlot(m, t[f].parent, Last(t[f].path), 0), t[t[k].parent].path, Last(t[k].path));
    }
  }
}
