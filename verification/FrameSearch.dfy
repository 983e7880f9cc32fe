/** The two tree walks a page fault starts with: the search for an all-zero frame that can be
    reclaimed, and the count of the frames in the tree. */
module FrameSearch {
  import opened Geometry
  import opened PageTree

  datatype Option<T> = None | Some(value: T)

  function SetSlot(m: Frames, f: nat, i: nat, x: int): Frames
    requires f < |m| && i < |m[f]|
  {
    m[f := m[f][i := x]]
  }

  /** A word, or 0 outside RAM, so that the searches are defined on any RAM contents. */
  function Word(m: Frames, f: int, i: nat): int {
    if 0 <= f < |m| && i < |m[f]| then m[f][i] else 0
  }

  predicate Clear(m: Frames, f: int) {
    0 <= f < |m| && forall i :: 0 <= i < |m[f]| ==> m[f][i] == 0
  }

  // ---------- findFreeTable ----------

  /** The slot that holds the first all-zero frame of a depth-first search from entry i of table
      `cur` at depth d. A slot that holds its own table is the marker and is skipped. */
  function FreeSlot(g: Geometry, m: Frames, d: nat, cur: nat, i: nat): Option<(nat, nat)>
    decreases if d < g.depth then g.depth - d else 0, if i < g.Radix(d) then g.Radix(d) - i else 0
  {
    if d >= g.depth || i >= g.Radix(d) then None
    else
      var c := Word(m, cur, i);
      if c <= 0 || c == cur then FreeSlot(g, m, d, cur, i + 1)
      else if Clear(m, c) then Some((cur, i))
      else
        match FreeSlot(g, m, d + 1, c, 0)
        case Some(s) => Some(s)
        case None => FreeSlot(g, m, d, cur, i + 1)
  }

  /** What the search finds through entry i alone. */
  function EntrySlot(g: Geometry, m: Frames, d: nat, cur: nat, i: nat): Option<(nat, nat)> {
    var c := Word(m, cur, i);
    if c <= 0 || c == cur then None
    else if Clear(m, c) then Some((cur, i))
    else FreeSlot(g, m, d + 1, c, 0)
  }

  lemma FreeSlotSplit(g: Geometry, m: Frames, d: nat, cur: nat, i: nat)
    requires d < g.depth && i < g.Radix(d)
    ensures FreeSlot(g, m, d, cur, i)
         == if EntrySlot(g, m, d, cur, i).Some? then EntrySlot(g, m, d, cur, i) else FreeSlot(g, m, d, cur, i + 1)
  {
  }

  /** RAM during the search: the missing slot j of table h points back at h, so that h is not
      taken for an empty table. At the root the marker is 0 and changes nothing. */
  function Marked(m: Frames, h: nat, j: nat): Frames
    requires h < |m| && j < |m[h]|
  {
    SetSlot(m, h, j, h)
  }

  ghost predicate FreeEntry(g: Geometry, t: seq<Node>, h: nat, j: nat, m: Frames) {
    && Shape(g, m, t)
    && h < |t| && |t[h].path| < g.depth && j < g.Radix(|t[h].path|) && m[h][j] == 0
  }

  /** A found slot holds a non-root frame of the tree that is all zero and is not the table
      being filled; the node of the frame names that slot. */
  lemma {:induction false} FreeSlotFound(g: Geometry, m: Frames, t: seq<Node>, h: nat, j: nat, d: nat, cur: nat, i: nat)
    requires FreeEntry(g, t, h, j, m) && cur < |t| && |t[cur].path| == d
    requires FreeSlot(g, Marked(m, h, j), d, cur, i).Some?
    ensures var (p, s) := FreeSlot(g, Marked(m, h, j), d, cur, i).value;
            && p < |t| && |t[p].path| < g.depth && s < g.Radix(|t[p].path|)
            && var f := m[p][s];
               0 < f < |t| && f != h && f != p && t[f] == Node(t[p].path + [s], p) && m[f] == Zeros(g.pageSize)
    decreases if d < g.depth then g.depth - d else 0, if i < g.Radix(d) then g.Radix(d) - i else 0
  {
    var mm := Marked(m, h, j);
    var c := Word(mm, cur, i);
    if c <= 0 || c == cur {
      FreeSlotFound(g, m, t, h, j, d, cur, i + 1);
    } else {
      assert m[cur][i] == c;
      assert LinkedDown(g, m, t, cur, i);
      if Clear(mm, c) {
        ClearUnmarked(g, m, t, h, j, c);
      } else if FreeSlot(g, mm, d + 1, c, 0).Some? {
        FreeSlotFound(g, m, t, h, j, d + 1, c, 0);
      } else {
        FreeSlotFound(g, m, t, h, j, d, cur, i + 1);
      }
    }
  }

  lemma ClearUnmarked(g: Geometry, m: Frames, t: seq<Node>, h: nat, j: nat, c: nat)
    requires FreeEntry(g, t, h, j, m) && 0 < c < |t|
    ensures Clear(Marked(m, h, j), c) <==> c != h && m[c] == Zeros(g.pageSize)
  {
    var mm := Marked(m, h, j);
    if c == h {
      assert mm[h][j] == h;
    } else {
      assert mm[c] == m[c];
    }
  }

  /** When nothing is found, no frame below entries i.. of the table is all zero, except the table
      that is being filled. */
  lemma {:induction false} FreeSlotNone(g: Geometry, m: Frames, t: seq<Node>, h: nat, j: nat, d: nat,
    cur: nat, i: nat, f: nat)
    requires FreeEntry(g, t, h, j, m) && cur < |t| && |t[cur].path| == d
    requires FreeSlot(g, Marked(m, h, j), d, cur, i).None?
    requires f < |t| && d < |t[f].path| && t[cur].path == t[f].path[..d] && i <= t[f].path[d]
    ensures f != h ==> m[f] != Zeros(g.pageSize)
    decreases g.depth - d, g.Radix(d) - i
  {
    var mm := Marked(m, h, j);
    PathInRange(g, m, t, f);
    var c := Word(mm, cur, i);
    if t[f].path[d] == i {
      var a := Ancestor(g, m, t, f, d + 1);
      NonRootPath(g, m, t, a);
      assert t[a].path[..d] == t[cur].path;
      ChildSlot(g, m, t, cur, a);
      assert c == a;
      assert LinkedDown(g, m, t, cur, i);
      assert a != cur;
      ClearUnmarked(g, m, t, h, j, a);
      if |t[f].path| == d + 1 {
        assert t[f].path[..d + 1] == t[f].path;
        PathsUnique(g, m, t, a, f);
      } else {
        FreeSlotNone(g, m, t, h, j, d + 1, a, 0, f);
      }
    } else {
      FreeSlotNone(g, m, t, h, j, d, cur, i + 1, f);
    }
  }

  /** findFreeTable from the root: nothing found means that every frame of the tree but the root
      and the table being filled holds a non-zero word; what is found is a real reclaimable frame. */
  lemma FreeSlotExact(g: Geometry, m: Frames, t: seq<Node>, h: nat, j: nat)
    requires FreeEntry(g, t, h, j, m)
    ensures FreeSlot(g, Marked(m, h, j), 0, 0, 0).None? <==>
            forall f :: 0 < f < |t| && f != h ==> m[f] != Zeros(g.pageSize)
  {
    if FreeSlot(g, Marked(m, h, j), 0, 0, 0).None? {
      forall f | 0 < f < |t| && f != h
        ensures m[f] != Zeros(g.pageSize)
      {
        NonRootPath(g, m, t, f);
        assert t[f].path[..0] == [];
        FreeSlotNone(g, m, t, h, j, 0, 0, 0, f);
      }
    } else {
      FreeSlotFound(g, m, t, h, j, 0, 0, 0);
    }
  }

  // ---------- Which frame is found ----------

  /** a comes before b in digit order: at the first digit where they differ, a's is the smaller. */
  ghost predicate Precedes(a: seq<nat>, b: seq<nat>) {
    exists e :: 0 <= e < |a| && e < |b| && a[..e] == b[..e] && a[e] < b[e]
  }

  /** Frame k can be reclaimed while table h is being filled. */
  ghost predicate Reclaimable(g: Geometry, m: Frames, t: seq<Node>, h: nat, k: nat)
    requires |t| <= |m|
  {
    0 < k < |t| && k != h && m[k] == Zeros(g.pageSize)
  }

  /** Frame f lies below entries i.. of table cur. */
  ghost predicate BelowEntry(t: seq<Node>, cur: nat, i: nat, f: nat)
    requires cur < |t| && f < |t|
  {
    var d := |t[cur].path|;
    d < |t[f].path| && t[f].path[..d] == t[cur].path && i <= t[f].path[d]
  }

  /** What the search finds from an entry on lies below that entry or a later one. */
  lemma {:induction false} FreeSlotBelow(g: Geometry, m: Frames, t: seq<Node>, h: nat, j: nat, d: nat, cur: nat, i: nat)
    requires FreeEntry(g, t, h, j, m) && cur < |t| && |t[cur].path| == d
    requires FreeSlot(g, Marked(m, h, j), d, cur, i).Some?
    ensures var (p, s) := FreeSlot(g, Marked(m, h, j), d, cur, i).value;
            p < |t| && s < |m[p]| && 0 < m[p][s] < |t| && BelowEntry(t, cur, i, m[p][s])
    decreases if d < g.depth then g.depth - d else 0, if i < g.Radix(d) then g.Radix(d) - i else 0
  {
    FreeSlotFound(g, m, t, h, j, d, cur, i);
    var mm := Marked(m, h, j);
    var c := Word(mm, cur, i);
    if c <= 0 || c == cur {
      FreeSlotBelow(g, m, t, h, j, d, cur, i + 1);
    } else {
      assert m[cur][i] == c;
      assert LinkedDown(g, m, t, cur, i);
      if !Clear(mm, c) {
        if FreeSlot(g, mm, d + 1, c, 0).Some? {
          FreeSlotBelow(g, m, t, h, j, d + 1, c, 0);
          var (p, s) := FreeSlot(g, mm, d + 1, c, 0).value;
          ThroughEntry(t, cur, c, i, m[p][s]);
        } else {
          FreeSlotBelow(g, m, t, h, j, d, cur, i + 1);
        }
      }
    }
  }

  /** Below the child in entry i means below entry i, with digit i. */
  lemma ThroughEntry(t: seq<Node>, cur: nat, c: nat, i: nat, f: nat)
    requires cur < |t| && c < |t| && f < |t| && t[c].path == t[cur].path + [i] && BelowEntry(t, c, 0, f)
    ensures BelowEntry(t, cur, i, f) && t[f].path[|t[cur].path|] == i
  {
    var d := |t[cur].path|;
    assert t[f].path[..d] == t[f].path[..d + 1][..d];
    assert t[f].path[d] == t[f].path[..d + 1][d];
  }

  /** A reclaimable frame through entry i: the entry holds a child, and the frame is the child or
      lies below it. */
  lemma EntryChild(g: Geometry, m: Frames, t: seq<Node>, h: nat, j: nat, cur: nat, i: nat, k: nat)
    requires FreeEntry(g, t, h, j, m) && cur < |t| && k < |t| && BelowEntry(t, cur, i, k)
    requires t[k].path[|t[cur].path|] == i
    ensures |t[cur].path| < g.depth && i < g.Radix(|t[cur].path|)
    ensures var c := m[cur][i];
            0 < c < |t| && c != cur && Word(Marked(m, h, j), cur, i) == c && t[c].path == t[cur].path + [i]
            && (k == c || (BelowEntry(t, c, 0, k) && m[c] != Zeros(g.pageSize)))
  {
    var d := |t[cur].path|;
    PathInRange(g, m, t, k);
    var a := Ancestor(g, m, t, k, d + 1);
    NonRootPath(g, m, t, a);
    assert t[a].path[..d] == t[cur].path;
    ChildSlot(g, m, t, cur, a);
    assert t[a].path == t[cur].path + [i];
    if |t[k].path| == d + 1 {
      assert t[k].path[..d + 1] == t[k].path;
      PathsUnique(g, m, t, a, k);
    } else {
      var b := Ancestor(g, m, t, k, d + 2);
      NonRootPath(g, m, t, b);
      assert t[b].path[..d + 1] == t[a].path;
      ChildSlot(g, m, t, a, b);
    }
  }

  lemma PrecedesAt(a: seq<nat>, b: seq<nat>, d: nat)
    requires d < |a| && d < |b| && a[..d] == b[..d] && a[d] < b[d]
    ensures Precedes(a, b)
  {
  }

  lemma {:induction false} FreeSlotFirst(g: Geometry, m: Frames, t: seq<Node>, h: nat, j: nat,
    d: nat, cur: nat, i: nat, k: nat)
    requires FreeEntry(g, t, h, j, m) && cur < |t| && |t[cur].path| == d
    requires FreeSlot(g, Marked(m, h, j), d, cur, i).Some?
    requires Reclaimable(g, m, t, h, k) && BelowEntry(t, cur, i, k)
    ensures var (p, s) := FreeSlot(g, Marked(m, h, j), d, cur, i).value;
            p < |t| && s < |m[p]| && 0 < m[p][s] < |t|
            && (m[p][s] == k || Precedes(t[m[p][s]].path, t[k].path))
    decreases if d < g.depth then g.depth - d else 0, if i < g.Radix(d) then g.Radix(d) - i else 0
  {
    FreeSlotBelow(g, m, t, h, j, d, cur, i);
    var mm := Marked(m, h, j);
    var (p, s) := FreeSlot(g, mm, d, cur, i).value;
    var f := m[p][s];
    var c := Word(mm, cur, i);
    if t[k].path[d] == i {
      EntryChild(g, m, t, h, j, cur, i, k);
      ClearUnmarked(g, m, t, h, j, c);
      if Clear(mm, c) {
        assert f == k;
      } else {
        FreeSlotSplit(g, mm, d, cur, i);
        if FreeSlot(g, mm, d + 1, c, 0).Some? {
          FreeSlotFirst(g, m, t, h, j, d + 1, c, 0, k);
        } else {
          FreeSlotNone(g, m, t, h, j, d + 1, c, 0, k);
        }
      }
    } else if t[f].path[d] == i {
      PrecedesAt(t[f].path, t[k].path, d);
    } else {
      LaterEntry(g, m, t, h, j, d, cur, i);
      FreeSlotFirst(g, m, t, h, j, d, cur, i + 1, k);
    }
  }

  /** When what is found does not lie below entry i, the search went on with the next entry. */
  lemma LaterEntry(g: Geometry, m: Frames, t: seq<Node>, h: nat, j: nat, d: nat, cur: nat, i: nat)
    requires FreeEntry(g, t, h, j, m) && cur < |t| && |t[cur].path| == d
    requires FreeSlot(g, Marked(m, h, j), d, cur, i).Some?
    requires var (p, s) := FreeSlot(g, Marked(m, h, j), d, cur, i).value;
             p < |t| && s < |m[p]| && 0 < m[p][s] < |t| && d < |t[m[p][s]].path| && t[m[p][s]].path[d] != i
    ensures FreeSlot(g, Marked(m, h, j), d, cur, i) == FreeSlot(g, Marked(m, h, j), d, cur, i + 1)
  {
    var mm := Marked(m, h, j);
    var c := Word(mm, cur, i);
    FreeSlotSplit(g, mm, d, cur, i);
    if c > 0 && c != cur {
      assert m[cur][i] == c;
      assert LinkedDown(g, m, t, cur, i);
      if !Clear(mm, c) && FreeSlot(g, mm, d + 1, c, 0).Some? {
        FreeSlotBelow(g, m, t, h, j, d + 1, c, 0);
        var (p, s) := FreeSlot(g, mm, d + 1, c, 0).value;
        ThroughEntry(t, cur, c, i, m[p][s]);
      }
    }
  }

  /** findFreeTable reclaims the first reclaimable frame in digit order: at the first digit where
      its path differs from that of any other reclaimable frame, its digit is the smaller. */
  lemma FirstReclaimable(g: Geometry, m: Frames, t: seq<Node>, h: nat, j: nat, k: nat)
    requires FreeEntry(g, t, h, j, m) && Reclaimable(g, m, t, h, k)
    ensures FreeSlot(g, Marked(m, h, j), 0, 0, 0).Some?
    ensures var (p, s) := FreeSlot(g, Marked(m, h, j), 0, 0, 0).value;
            && p < |t| && s < |m[p]| && 0 < m[p][s] && Reclaimable(g, m, t, h, m[p][s])
            && t[m[p][s]] == Node(t[p].path + [s], p)
            && (m[p][s] == k || Precedes(t[m[p][s]].path, t[k].path))
  {
    FreeSlotExact(g, m, t, h, j);
    FreeSlotFound(g, m, t, h, j, 0, 0, 0);
    NonRootPath(g, m, t, k);
    assert t[k].path[..0] == [];
    FreeSlotFirst(g, m, t, h, j, 0, 0, 0, k);
  }

  // ---------- maxFrame ----------

  /** The number of frames reached from entries i.. of table `cur` at depth d. */
  function CountBelow(g: Geometry, m: Frames, d: nat, cur: nat, i: nat): nat
    decreases if d < g.depth then g.depth - d else 0, if i < g.Radix(d) then g.Radix(d) - i else 0
  {
    if d >= g.depth || i >= g.Radix(d) then 0
    else
      var c := Word(m, cur, i);
      (if c > 0 then 1 + CountBelow(g, m, d + 1, c, 0) else 0) + CountBelow(g, m, d, cur, i + 1)
  }

  function TreeSize(g: Geometry, m: Frames): nat {
    1 + CountBelow(g, m, 0, 0, 0)
  }

  /** The frames strictly below table `cur`, through entries i.. */
  ghost function Below(t: seq<Node>, cur: nat, i: nat): (s: set<nat>)
    requires cur < |t|
  {
    set f: nat | f < |t| && |t[cur].path| < |t[f].path| && t[cur].path == t[f].path[..|t[cur].path|]
              && i <= t[f].path[|t[cur].path|]
  }

  /** Splitting off entry i: its child, what lies below the child, and the later entries. */
  lemma BelowSplit(g: Geometry, m: Frames, t: seq<Node>, cur: nat, i: nat)
    requires Shape(g, m, t) && cur < |t| && |t[cur].path| < g.depth && i < g.Radix(|t[cur].path|)
    ensures m[cur][i] == 0 ==> Below(t, cur, i) == Below(t, cur, i + 1)
    ensures m[cur][i] != 0 ==>
              var c := m[cur][i];
              && 0 < c < |t| && |t[c].path| == |t[cur].path| + 1
              && Below(t, cur, i) == {c} + Below(t, c, 0) + Below(t, cur, i + 1)
              && c !in Below(t, c, 0) && c !in Below(t, cur, i + 1)
              && Below(t, c, 0) !! Below(t, cur, i + 1)
  {
    var d := |t[cur].path|;
    assert LinkedDown(g, m, t, cur, i);
    var c := m[cur][i];
    forall f | f in Below(t, cur, i) && t[f].path[d] == i
      ensures c != 0 && (f == c || f in Below(t, c, 0))
    {
      var a := Ancestor(g, m, t, f, d + 1);
      NonRootPath(g, m, t, a);
      assert t[a].path[..d] == t[cur].path;
      ChildSlot(g, m, t, cur, a);
      if |t[f].path| == d + 1 {
        assert t[f].path[..d + 1] == t[f].path;
        PathsUnique(g, m, t, a, f);
      }
    }
    if c != 0 {
      forall f | f in Below(t, c, 0)
        ensures f in Below(t, cur, i) && f !in Below(t, cur, i + 1)
      {
        assert t[f].path[..d + 1][..d] == t[f].path[..d];
        assert t[f].path[d] == t[f].path[..d + 1][d];
      }
      assert Below(t, cur, i) == {c} + Below(t, c, 0) + Below(t, cur, i + 1);
    } else {
      assert Below(t, cur, i) == Below(t, cur, i + 1);
    }
  }

  lemma NothingBelow(g: Geometry, m: Frames, t: seq<Node>, cur: nat, i: nat)
    requires Shape(g, m, t) && cur < |t| && (|t[cur].path| >= g.depth || i >= g.Radix(|t[cur].path|))
    ensures Below(t, cur, i) == {}
  {
    forall f | 0 <= f < |t|
      ensures f !in Below(t, cur, i)
    {
      PathInRange(g, m, t, f);
    }
  }

  lemma DisjointSize(c: nat, a: set<nat>, b: set<nat>)
    requires c !in a && c !in b && a !! b
    ensures |{c} + a + b| == 1 + |a| + |b|
  {
    assert |{c} + a| == 1 + |a|;
    assert |({c} + a) + b| == |{c} + a| + |b|;
  }

  lemma {:induction false} CountBelowIsSize(g: Geometry, m: Frames, t: seq<Node>, d: nat, cur: nat, i: nat)
    requires Shape(g, m, t) && cur < |t| && |t[cur].path| == d
    ensures CountBelow(g, m, d, cur, i) == |Below(t, cur, i)|
    decreases if d < g.depth then g.depth - d else 0, if i < g.Radix(d) then g.Radix(d) - i else 0
  {
    if d >= g.depth || i >= g.Radix(d) {
      NothingBelow(g, m, t, cur, i);
    } else {
      BelowSplit(g, m, t, cur, i);
      CountBelowIsSize(g, m, t, d, cur, i + 1);
      var c := m[cur][i];
      if c != 0 {
        CountBelowIsSize(g, m, t, d + 1, c, 0);
        DisjointSize(c, Below(t, c, 0), Below(t, cur, i + 1));
      }
    }
  }

  lemma {:induction false} RangeSize(s: set<nat>, n: nat)
    requires forall f :: f in s <==> 0 <= f < n
    ensures |s| == n
  {
    if n > 0 {
      RangeSize(s - {n - 1}, n - 1);
    } else {
      assert s == {};
    }
  }

  /** maxFrame counts the tree, and so names the first frame that is not in it. */
  lemma TreeSizeExact(g: Geometry, m: Frames, t: seq<Node>)
    requires Shape(g, m, t)
    ensures TreeSize(g, m) == |t|
  {
    CountBelowIsSize(g, m, t, 0, 0, 0);
    forall f: nat | f < |t| && f != 0
      ensures f in Below(t, 0, 0)
    {
      NonRootPath(g, m, t, f);
      assert t[f].path[..0] == [];
    }
    RangeSize(Below(t, 0, 0) + {0}, |t|);
    NonRootPath(g, m, t, 0);
    assert |Below(t, 0, 0) + {0}| == |Below(t, 0, 0)| + 1;
  }
}
