/** Concrete memories on which the evict path of the source goes wrong, and when the loop over the
    ancestors of a victim does no harm. */
module PagingExamples {
  import opened Geometry
  import opened PageTree
  import opened FrameSearch
  import opened VictimSearch
  import opened FaultStep
  import opened FlatMemory
  import opened FrameDemand
  import PM = PagedMemory

  // ---------- A written word that an eviction loses ----------

  /** OFFSET_WIDTH 1, VIRTUAL_ADDRESS_WIDTH 2, PHYSICAL_ADDRESS_WIDTH 2: two frames of two words,
      one table level, two pages. */
  function Tiny(): Geometry {
    Geometry(2, 2, 1, 2)
  }

  lemma TinyIsConfigured()
    ensures Widths(1, 2, 2).ToGeometry() == Tiny() && Tiny().Valid()
  {
    assert Pow2(1) == 2 * Pow2(0) && Pow2(2) == 2 * Pow2(1);
    assert Quotient(4, 2) == 2 && Remainder(2, 1) == 0 && Remainder(1, 1) == 0 && Quotient(1, 1) == 1;
  }

  lemma TinyPaths(g: Geometry)
    requires g == Tiny()
    ensures g.NumPages() == 2 && g.VirtualSize() == 4
    ensures g.Path(g.Page(0)) == [0] && g.Path(g.Page(1)) == [0]
    ensures g.Path(g.Page(2)) == [1] && g.Path(g.Page(3)) == [1]
  {
    assert g.Digits(0, 0) == [];
    assert g.Count(1) == g.Count(0) * g.Radix(0);
    assert g.Page(0) == 0 && g.Page(1) == 0 && g.Page(2) == 1 && g.Page(3) == 1;
    assert Quotient(1, 2) == 0 && Remainder(1, 2) == 1;
    assert Quotient(0, 2) == 0 && Remainder(0, 2) == 0;
  }

  lemma OneOrTwoPages(a: seq<nat>, b: seq<nat>)
    requires |a| == 1 && |b| == 1
    ensures |Prefixes({a})| == 2 && (a != b ==> |Prefixes({a} + {b})| == 3)
  {
    assert a[..0] == [] && a[..1] == a && b[..0] == [] && b[..1] == b;
    OnePrefixes(a);
    if a != b {
      OnePrefixes(b);
      assert Prefixes({a} + {b}) == Prefixes({a}) + Prefixes({b});
      assert {[], a} + {[], b} == {[], a, b};
    }
  }

  lemma OnePrefixes(a: seq<nat>)
    requires |a| == 1
    ensures Prefixes({a}) == {[], a}
  {
    PrefixIn({a}, a, []);
    PrefixIn({a}, a, a);
    forall e | 0 <= e <= 1
      ensures a[..e] in {[], a}
    {
      assert e == 0 || a[..e] == a;
    }
  }

  /** The first access fits; after a word of page 0 has been written, page 1 does not. */
  lemma TinyFits(g: Geometry, mem: seq<int>)
    requires g == Tiny() && |mem| == 4 && mem[1] == mem[2] == mem[3] == 0
    ensures mem[0] == 0 ==> Fits(g, mem, 0)
    ensures mem[0] != 0 ==> !Fits(g, mem, 2)
  {
    TinyPaths(g);
    OneOrTwoPages([0], [1]);
    if mem[0] == 0 {
      assert UsedPaths(g, mem) == {};
      assert UsedPaths(g, mem) + {[0]} == {[0]};
    } else {
      assert UsedPaths(g, mem) == {[0]};
    }
  }

  /** A new memory of two frames, as written: a write to address 0 succeeds, then a read of address
      2 evicts page 0, and the written 7 is gone, although both accesses are legal. */
  method EvictionLosesAWrite() returns (ret: int, lost: bool, ghost before: Store, ghost after: Store)
    ensures Widths(1, 2, 2).ToGeometry() == Tiny()
    ensures ret == 1 && lost
    ensures Contents(Tiny(), before.m, before.swap, 0) == [7, 0]
    ensures Contents(Tiny(), after.m, after.swap, 0) == [0, 0]
  {
    TinyIsConfigured();
    var g := Tiny();
    var memory := new PM.PagedMemory(g, false);
    assert memory.Memory() == PageView(g, memory.Now());
    ghost var start := memory.Flat();
    TinyStart(g, memory.Now());
    ret, lost := memory.VMwrite(0, 7);
    before := memory.Now();
    TinyWritten(g, before, memory.t, start);
    var r, value;
    r, value, lost := memory.VMread(2);
    after := memory.Now();
    OnlyPageLost(g, before, after);
  }

  lemma TinyStart(g: Geometry, s: Store)
    requires g == Tiny() && forall p :: 0 <= p < g.NumPages() ==> PageView(g, s)[p] == Zeros(g.pageSize)
    ensures FlatView(g, s) == [0, 0, 0, 0] && Fits(g, FlatView(g, s), 0) && g.VirtualSize() == 4
  {
    StartIsZero(g, s);
    TinyPaths(g);
    TinyFits(g, FlatView(g, s));
  }

  lemma TinyWritten(g: Geometry, s: Store, t: seq<Node>, start: seq<int>)
    requires g == Tiny() && Sound(g, s, t) && start == [0, 0, 0, 0] && FlatView(g, s) == start[0 := 7]
    ensures !Fits(g, FlatView(g, s), 2) && g.VirtualSize() == 4
    ensures Contents(g, s.m, s.swap, 0) == [7, 0] && Contents(g, s.m, s.swap, 1) == Zeros(2)
  {
    TinyPaths(g);
    assert start[0 := 7] == [7, 0, 0, 0];
    TinyFits(g, FlatView(g, s));
    TinyContents(g, s, t);
  }

  lemma StartIsZero(g: Geometry, s: Store)
    requires g == Tiny() && forall p :: 0 <= p < g.NumPages() ==> PageView(g, s)[p] == Zeros(g.pageSize)
    ensures FlatView(g, s) == [0, 0, 0, 0]
  {
    TinyPaths(g);
    forall v | 0 <= v < 4
      ensures FlatView(g, s)[v] == 0
    {
      PageInRange(g, v);
      assert PageView(g, s)[g.Page(v)] == Zeros(g.pageSize);
    }
  }

  lemma WordIs(g: Geometry, s: Store, t: seq<Node>, v: nat, p: nat, i: nat)
    requires Sound(g, s, t) && g.Page(v) == p && Remainder(v, g.pageSize) == i && v < g.VirtualSize()
    ensures i < |Contents(g, s.m, s.swap, p)| == g.pageSize
    ensures Contents(g, s.m, s.swap, p)[i] == FlatView(g, s)[v]
  {
    ContentsSize(g, s, t, p);
    assert FlatView(g, s)[v] == WordOf(g, s, v);
  }

  lemma TinyContents(g: Geometry, s: Store, t: seq<Node>)
    requires g == Tiny() && Sound(g, s, t) && FlatView(g, s) == [7, 0, 0, 0]
    ensures Contents(g, s.m, s.swap, 0) == [7, 0] && Contents(g, s.m, s.swap, 1) == Zeros(2)
  {
    TinyAddresses(g);
    WordIs(g, s, t, 0, 0, 0);
    WordIs(g, s, t, 1, 0, 1);
    WordIs(g, s, t, 2, 1, 0);
    WordIs(g, s, t, 3, 1, 1);
  }

  lemma TinyAddresses(g: Geometry)
    requires g == Tiny()
    ensures g.VirtualSize() == 4
    ensures g.Page(0) == g.Page(1) == 0 && g.Page(2) == g.Page(3) == 1
    ensures Remainder(0, g.pageSize) == Remainder(2, g.pageSize) == 0
    ensures Remainder(1, g.pageSize) == Remainder(3, g.pageSize) == 1
  {
    TinyPaths(g);
  }

  lemma ContentsSize(g: Geometry, s: Store, t: seq<Node>, p: nat)
    requires Sound(g, s, t)
    ensures |Contents(g, s.m, s.swap, p)| == g.pageSize
  {
    WalkMissing(g, s.m, t, g.Path(p));
  }

  lemma OnlyPageLost(g: Geometry, before: Store, after: Store)
    requires g == Tiny() && PM.LosesPage(g, before, after) && Contents(g, before.m, before.swap, 1) == Zeros(2)
    ensures Contents(g, after.m, after.swap, 0) == [0, 0]
  {
    TinyPaths(g);
    assert Zeros(2) == [0, 0];
  }

  // ---------- The ancestor loop ----------

  /** The loop stops at a table that still has an entry; until then every word it writes, at the
      address that equals a table's frame number, is zero already. */
  predicate PruneIsHarmless(g: Geometry, m: Frames, table: nat, d: nat)
    requires 0 < g.rootSize && 0 < g.pageSize
    decreases d
  {
    d == 0 || !Clear(m, table)
    || (Word(m, Quotient(table, g.pageSize), Remainder(table, g.pageSize)) == 0
        && PruneIsHarmless(g, m, Quotient(table, g.Radix(d - 1)), d - 1))
  }

  lemma WriteZero(g: Geometry, m: Frames, a: nat)
    requires 0 < g.pageSize
    ensures var f, i := Quotient(a, g.pageSize), Remainder(a, g.pageSize);
            && (Word(m, f, i) == 0 ==> WriteWord(g, m, a, 0) == m)
            && (Word(m, f, i) != 0 ==> f < |m| && i < |m[f]| && WriteWord(g, m, a, 0)[f][i] == 0)
  {
    var f, i := Quotient(a, g.pageSize), Remainder(a, g.pageSize);
    if f < |m| && i < |m[f]| && m[f][i] == 0 {
      assert m[f][i := 0] == m[f];
    }
  }

  /** The loop changes nothing exactly when it is harmless in this sense. */
  lemma {:induction false} PruneChangesNothingIff(g: Geometry, m: Frames, table: nat, d: nat)
    requires 0 < g.rootSize && 0 < g.pageSize
    ensures Prune(g, m, table, d) == m <==> PruneIsHarmless(g, m, table, d)
    decreases d
  {
    if d > 0 && Clear(m, table) {
      var m' := WriteWord(g, m, table, 0);
      WriteZero(g, m, table);
      if m' == m {
        PruneChangesNothingIff(g, m, Quotient(table, g.Radix(d - 1)), d - 1);
      } else {
        PruneOnlyZeroes(g, m', Quotient(table, g.Radix(d - 1)), d - 1);
      }
    }
  }

  /** OFFSET_WIDTH 2, VIRTUAL_ADDRESS_WIDTH 6, PHYSICAL_ADDRESS_WIDTH 5: two table levels. */
  function Small(): Geometry {
    Geometry(4, 4, 2, 8)
  }

  /** Full RAM: table 1 holds page 0 in frame 2, table 3 holds pages 4 to 7. */
  function FullRam(): Store {
    Store([[1, 3, 0, 0], [2, 0, 0, 0], [9, 9, 9, 9], [4, 5, 6, 7],
           [9, 9, 9, 9], [9, 9, 9, 9], [9, 9, 9, 9], [9, 9, 9, 9]], map[])
  }

  ghost function FullTree(): seq<Node> {
    [Node([], 0), Node([0], 0), Node([0, 0], 1), Node([1], 0),
     Node([1, 0], 3), Node([1, 1], 3), Node([1, 2], 3), Node([1, 3], 3)]
  }

  ghost predicate IsFull(g: Geometry, s: Store, t: seq<Node>) {
    g == Small() && s == FullRam() && t == FullTree()
  }

  lemma FullLinks(g: Geometry, s: Store, t: seq<Node>, f: nat)
    requires IsFull(g, s, t) && 0 < f < 8
    ensures LinkedUp(g, s.m, t, f)
  {
    assert f == 1 || f == 2 || f == 3 || f == 4 || f == 5 || f == 6 || f == 7;
    assert [] + [0] == [0] && [] + [1] == [1] && [0] + [0] == [0, 0];
    assert [1] + [0] == [1, 0] && [1] + [1] == [1, 1] && [1] + [2] == [1, 2] && [1] + [3] == [1, 3];
  }

  lemma FullDown(g: Geometry, s: Store, t: seq<Node>, f: nat, i: nat)
    requires IsFull(g, s, t) && f < 8 && |t[f].path| < 2 && i < 4
    ensures LinkedDown(g, s.m, t, f, i)
  {
    assert f == 0 || f == 1 || f == 3;
    assert i == 0 || i == 1 || i == 2 || i == 3;
    assert [] + [0] == [0] && [] + [1] == [1] && [0] + [0] == [0, 0];
    assert [1] + [0] == [1, 0] && [1] + [1] == [1, 1] && [1] + [2] == [1, 2] && [1] + [3] == [1, 3];
  }

  lemma FullSound(g: Geometry, s: Store, t: seq<Node>)
    requires IsFull(g, s, t)
    ensures Sound(g, s, t) && FreeEntry(g, t, 0, 2, s.m)
  {
    forall f | 0 < f < |t| ensures LinkedUp(g, s.m, t, f) { FullLinks(g, s, t, f); }
    forall f, i | 0 <= f < |t| && |t[f].path| < g.depth && 0 <= i < g.Radix(|t[f].path|)
      ensures LinkedDown(g, s.m, t, f, i)
    {
      FullDown(g, s, t, f, i);
    }
  }

  lemma EvictsWhenFull(g: Geometry, m: Frames, t: seq<Node>, h: nat, j: nat)
    requires FreeEntry(g, t, h, j, m) && |t| >= g.numFrames && NothingFree(g, m, t, h)
    ensures WillEvict(g, m, h, j)
  {
    FreeSlotExact(g, m, t, h, j);
    TreeSizeExact(g, m, t);
  }

  lemma FullNonZero(g: Geometry, s: Store, t: seq<Node>)
    requires IsFull(g, s, t)
    ensures NothingFree(g, s.m, t, 0) && |t| == g.numFrames
  {
    forall f | 0 < f < |t| ensures s.m[f] != Zeros(g.pageSize) { assert s.m[f][0] != 0; }
  }

  lemma FullEvicts(g: Geometry, s: Store, t: seq<Node>)
    requires IsFull(g, s, t)
    ensures Sound(g, s, t) && FreeEntry(g, t, 0, 2, s.m) && WillEvict(g, s.m, 0, 2)
  {
    FullSound(g, s, t);
    FullNonZero(g, s, t);
    EvictsWhenFull(g, s.m, t, 0, 2);
  }

  /** The number and the score of a page under two levels of tables. */
  lemma TwoLevelPage(g: Geometry, m: Frames, t: seq<Node>, f: nat)
    requires Shape(g, m, t) && f < |t| && |t[f].path| == 2
    ensures var p := t[f].parent;
            && 0 < p < |t| && |t[p].path| == 1 && t[f].path == t[p].path + [Last(t[f].path)]
            && g.Fold(t[f].path) == g.Convert(Last(t[f].path), Last(t[p].path), 1)
            && Score(g, m, t[f].path) == WEIGHT_EVEN + Parity(p) + Parity(f) + Parity(g.Fold(t[f].path))
  {
    var path, p := t[f].path, t[f].parent;
    NonRootPath(g, m, t, f);
    assert LinkedUp(g, m, t, f);
    NonRootPath(g, m, t, p);
    assert path[..1] == t[p].path && t[p].path[..0] == [];
    WalkReaches(g, m, t, f);
    WalkReaches(g, m, t, p);
    TwoLevelFold(g, path);
    assert PathWeight(m, t[p].path) == PathWeight(m, []) + Parity(p);
    assert PathWeight(m, path) == PathWeight(m, t[p].path) + Parity(f);
  }

  lemma TwoLevelFold(g: Geometry, path: seq<nat>)
    requires |path| == 2
    ensures g.Fold(path) == g.Convert(path[1], path[0], 1)
  {
    assert path[..1][..0] == [];
    assert g.Fold(path[..1]) == g.Convert(path[0], g.Fold([]), 0) == path[0];
  }

  lemma PageScore(g: Geometry, s: Store, t: seq<Node>, f: nat)
    requires IsFull(g, s, t) && Sound(g, s, t) && f < 8 && |t[f].path| == 2
    ensures g.Fold(t[f].path) == if f == 2 then 0 else f
    ensures Score(g, s.m, t[f].path) == if f % 2 == 0 then 14 else 10
  {
    TwoLevelPage(g, s.m, t, f);
    assert f == 2 || f == 4 || f == 5 || f == 6 || f == 7;
  }

  /** Pages 0, 4 and 6 share the greatest weight; the victim is page 0, in frame 2. */
  lemma FullVictim(g: Geometry, s: Store, t: seq<Node>)
    requires IsFull(g, s, t) && Sound(g, s, t)
    ensures IsPage(g, t, 2) && Victim(g, s.m) == Record(g, s.m, t, 2)
    ensures Victim(g, s.m).pageNum == 0
  {
    assert 2 in Pages(g, t);
    var f := VictimIsArgMax(g, s.m, t);
    PageScore(g, s, t, 2);
    PageScore(g, s, t, f);
  }

  /** RAM after an as-written evict of the frame f in the slot at address a, linked into (h, j). */
  function Evicted(g: Geometry, m: Frames, a: nat, f: nat): Frames
    requires 0 < g.rootSize && 0 < g.pageSize && 0 < g.depth
  {
    Prune(g, Zeroed(g, WriteWord(g, m, a, 0), f), Quotient(a, g.pageSize), g.depth - 1)
  }

  lemma ServedEvicts(g: Geometry, s: Store, h: nat, j: nat, q: nat, a: nat, f: nat)
    requires 0 < g.rootSize && 0 < g.pageSize && 0 < g.depth && h < |s.m| && j < |s.m[h]|
    requires WillEvict(g, s.m, h, j) && Victim(g, s.m).father == a && Victim(g, s.m).pAddr == f
    ensures Served(g, s, h, j, false, q, false).swap == EvictAsWritten(g, s).swap
    ensures var m := Evicted(g, s.m, a, f);
            h < |m| && j < |m[h]| ==> Served(g, s, h, j, false, q, false).m == SetSlot(m, h, j, f)
  {
    assert Provided(g, s, h, j, false) == (EvictAsWritten(g, s), f);
  }

  lemma FullUnlinked(g: Geometry, m: Frames, r: Frames)
    requires g == Small() && m == FullRam().m && r == m[1 := [0, 0, 0, 0]][2 := [0, 0, 0, 0]]
    ensures Zeroed(g, WriteWord(g, m, 4, 0), 2) == r
  {
    assert Quotient(4, 4) == 1 && Remainder(4, 4) == 0;
    assert m[1][0 := 0] == [0, 0, 0, 0];
    assert Zeros(4) == [0, 0, 0, 0];
  }

  lemma FullPruned(g: Geometry, r: Frames)
    requires g == Small() && |r| == 8 && r[0] == [1, 3, 0, 0] && r[1] == [0, 0, 0, 0]
    ensures Prune(g, r, 1, 1) == r[0 := [1, 0, 0, 0]]
  {
    assert Quotient(1, 4) == 0 && Remainder(1, 4) == 1;
    assert r[0][1 := 0] == [1, 0, 0, 0];
    assert Clear(r, 1);
    assert WriteWord(g, r, 1, 0) == r[0 := [1, 0, 0, 0]];
    assert Prune(g, r[0 := [1, 0, 0, 0]], Quotient(1, g.Radix(0)), 0) == r[0 := [1, 0, 0, 0]];
  }

  lemma LinkedRoot(g: Geometry, s: Store, q: nat, m: Frames)
    requires g == Small() && |s.m| == 8 && |s.m[0]| == 4 && s.swap == map[] && WillEvict(g, s.m, 0, 2)
    requires Victim(g, s.m).father == 4 && Victim(g, s.m).pAddr == 2 && Victim(g, s.m).pageNum == 0
    requires m == Evicted(g, s.m, 4, 2) && |m| == 8 && m[0] == [1, 0, 0, 0] && m[1] == [0, 0, 0, 0]
    ensures IsServed(Served(g, s, 0, 2, false, q, false))
  {
    ServedEvicts(g, s, 0, 2, q, 4, 2);
    assert [1, 0, 0, 0][2 := 2] == [1, 0, 2, 0];
  }

  /** RAM after the as-written evict. */
  lemma FullEvicted(g: Geometry, m: Frames)
    requires g == Small() && m == FullRam().m
    ensures var r := Evicted(g, m, 4, 2); |r| == 8 && r[0] == [1, 0, 0, 0] && r[1] == [0, 0, 0, 0]
  {
    var r := m[1 := [0, 0, 0, 0]][2 := [0, 0, 0, 0]];
    FullUnlinked(g, m, r);
    FullPruned(g, r);
    FullEvictedIs(g, m, r);
  }

  lemma FullVictimSlot(g: Geometry, s: Store, t: seq<Node>)
    requires IsFull(g, s, t) && Sound(g, s, t)
    ensures Victim(g, s.m).father == 4 && Victim(g, s.m).pAddr == 2 && Victim(g, s.m).pageNum == 0
  {
    FullVictim(g, s, t);
  }

  /** And after the freed frame has been hung from slot 2 of the root. */
  lemma FullServed(g: Geometry, s: Store, t: seq<Node>, q: nat)
    requires IsFull(g, s, t) && Sound(g, s, t) && WillEvict(g, s.m, 0, 2)
    ensures Victim(g, s.m).pageNum == 0 && IsServed(Served(g, s, 0, 2, false, q, false))
  {
    FullVictimSlot(g, s, t);
    FullEvicted(g, s.m);
    LinkedRoot(g, s, q, Evicted(g, s.m, 4, 2));
  }

  predicate IsServed(s: Store) {
    |s.m| == 8 && s.m[0] == [1, 0, 2, 0] && s.m[1] == [0, 0, 0, 0] && forall p :: p in s.swap ==> p == 0
  }

  lemma FullEvictedIs(g: Geometry, m: Frames, r: Frames)
    requires g == Small() && Zeroed(g, WriteWord(g, m, 4, 0), 2) == r
    ensures Evicted(g, m, 4, 2) == Prune(g, r, 1, 1)
  {
    assert Quotient(4, 4) == 1;
  }

  lemma TwoSteps(m: Frames, i: nat, j: nat)
    requires |m| > 0 && |m[0]| == 4 && i < 4
    ensures Walk(m, [i]) == if m[0][i] <= 0 then -1 else m[0][i]
    ensures m[0][i] <= 0 ==> Walk(m, [i, j]) == -1
  {
    WalkStep(m, [], i);
    WalkStep(m, [i], j);
    assert [] + [i] == [i] && [i] + [j] == [i, j];
  }

  /** Evicting page 0 leaves its table 1 empty. The loop takes frame number 1 for an address: that
      is the root's slot for table 3, so all four pages below that table are lost with the victim,
      and the emptied table 1 stays linked. */
  lemma PruneSeversALiveTable(g: Geometry, s: Store, t: seq<Node>, q: nat, i: nat)
    requires IsFull(g, s, t) && i < 4
    ensures Sound(g, s, t) && FreeEntry(g, t, 0, 2, s.m) && WillEvict(g, s.m, 0, 2)
    ensures Victim(g, s.m).pageNum == 0 && g.Path(4 + i) == [1, i]
    ensures Contents(g, s.m, s.swap, 4 + i) == [9, 9, 9, 9]
    ensures var s' := Served(g, s, 0, 2, false, q, false);
            && Contents(g, s'.m, s'.swap, 4 + i) == Zeros(4)
            && Walk(s'.m, [1, i]) == -1 && Walk(s'.m, [0]) == 1 && Clear(s'.m, 1)
  {
    FullEvicts(g, s, t);
    FullServed(g, s, t, q);
    FullPage(g, s, t, i);
    SeveredPage(g, Served(g, s, 0, 2, false, q, false), i);
  }

  lemma FullPage(g: Geometry, s: Store, t: seq<Node>, i: nat)
    requires IsFull(g, s, t) && Sound(g, s, t) && i < 4
    ensures g.Path(4 + i) == [1, i] && Contents(g, s.m, s.swap, 4 + i) == [9, 9, 9, 9]
  {
    SmallPath(g, i);
    assert t[4 + i].path == [1, i] && s.m[4 + i] == [9, 9, 9, 9];
    ContentsOf(g, s.m, t, s.swap, 4 + i);
  }

  lemma SeveredPage(g: Geometry, s: Store, i: nat)
    requires g == Small() && i < 4 && IsServed(s)
    ensures Contents(g, s.m, s.swap, 4 + i) == Zeros(4)
    ensures Walk(s.m, [1, i]) == -1 && Walk(s.m, [0]) == 1 && Clear(s.m, 1)
  {
    SmallPath(g, i);
    TwoSteps(s.m, 0, 0);
    TwoSteps(s.m, 1, i);
  }

  lemma SmallPath(g: Geometry, i: nat)
    requires g == Small() && i < 4
    ensures g.Path(4 + i) == [1, i]
  {
    assert Quotient(4 + i, 4) == 1 && Remainder(4 + i, 4) == i;
    assert Quotient(1, 4) == 0 && Remainder(1, 4) == 1;
    assert g.Digits(0, 0) == [] && g.Digits(1, 1) == [1];
  }

  // ---------- Configurations that never evict ----------

  lemma SmallPowers()
    ensures Pow2(0) == 1 && Pow2(3) == 8 && Pow2(5) == 32 && Pow2(9) == 512
  {
    assert Pow2(1) == 2 && Pow2(2) == 4 && Pow2(3) == 8 && Pow2(4) == 16 && Pow2(5) == 32;
    Pow2Add(4, 5);
  }

  /** NO_EVICTION_CONSTANTS and UNREACHABLE_FRAMES_CONSTANTS. */
  lemma ConfigurationsThatFit(mem: seq<int>, ops: seq<Op>)
    ensures Widths(5, 5, 5).ToGeometry().Valid() && RunFits(Widths(5, 5, 5).ToGeometry(), mem, ops)
    ensures Widths(3, 6, 9).ToGeometry().Valid() && RunFits(Widths(3, 6, 9).ToGeometry(), mem, ops)
  {
    SmallPowers();
    NoEviction(Widths(5, 5, 5).ToGeometry(), mem, ops);
    UnreachableFrames(Widths(3, 6, 9).ToGeometry(), mem, ops);
  }

  lemma NoEviction(g: Geometry, mem: seq<int>, ops: seq<Op>)
    requires g == Geometry(32, 32, 0, 1)
    ensures g.Valid() && Levels(g, g.depth) <= g.numFrames && RunFits(g, mem, ops)
  {
    WholeTreeRunFits(g, mem, ops);
  }

  lemma UnreachableFrames(g: Geometry, mem: seq<int>, ops: seq<Op>)
    requires g == Geometry(8, 8, 1, 64)
    ensures g.Valid() && Levels(g, g.depth) <= g.numFrames && RunFits(g, mem, ops)
  {
    assert g.Count(1) == g.Count(0) * 8 && Levels(g, 1) == 1 + g.Count(1);
    WholeTreeRunFits(g, mem, ops);
  }
}
