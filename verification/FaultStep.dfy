/** One round of the fault loop, as a function on RAM and the swap file, and what it keeps. */
module FaultStep {
  import opened Geometry
  import opened PageTree
  import opened FrameSearch
  import opened VictimSearch
  import opened TreeUpdate

  datatype Store = Store(m: Frames, swap: Swap)

  // ---------- evict ----------

  /** A word write at a physical address. */
  function WriteWord(g: Geometry, m: Frames, a: nat, x: int): Frames
    requires 0 < g.pageSize
  {
    var f, i := Quotient(a, g.pageSize), Remainder(a, g.pageSize);
    if f < |m| && i < |m[f]| then SetSlot(m, f, i, x) else m
  }

  /** The loop that is meant to free the ancestors a victim leaves empty: while the table is all
      zero it writes a zero at the address that equals the table's frame number. */
  function Prune(g: Geometry, m: Frames, table: nat, d: nat): Frames
    requires 0 < g.rootSize && 0 < g.pageSize
    decreases d
  {
    if d == 0 || !Clear(m, table) then m
    else Prune(g, WriteWord(g, m, table, 0), Quotient(table, g.Radix(d - 1)), d - 1)
  }

  function Unlinked(g: Geometry, m: Frames, v: PageFrame): Frames
    requires 0 < g.pageSize
  {
    WriteWord(g, m, v.father, 0)
  }

  function Zeroed(g: Geometry, m: Frames, f: nat): Frames {
    if f < |m| then m[f := Zeros(g.pageSize)] else m
  }

  /** evict as the source writes it: the frame is zeroed before it is saved. */
  function EvictAsWritten(g: Geometry, s: Store): Store
    requires 0 < g.rootSize && 0 < g.pageSize && 0 < g.depth
  {
    var v := Victim(g, s.m);
    var m := Zeroed(g, Unlinked(g, s.m, v), v.pAddr);
    var saved := if v.pAddr < |m| then m[v.pAddr] else [];
    Store(Prune(g, m, Quotient(v.father, g.pageSize), g.depth - 1), s.swap[v.pageNum := saved])
  }

  /** evict as it is meant: the frame is saved, then zeroed, and ancestors are left to a later
      findFreeTable. */
  function EvictRepaired(g: Geometry, s: Store): Store
    requires 0 < g.rootSize && 0 < g.pageSize && 0 < g.depth
  {
    var v := Victim(g, s.m);
    var m := Unlinked(g, s.m, v);
    var saved := if v.pAddr < |m| then m[v.pAddr] else [];
    Store(Zeroed(g, m, v.pAddr), s.swap[v.pageNum := saved])
  }

  // ---------- One round of the fault loop ----------

  /** PMrestore: does nothing when the page is not in the swap file. */
  function Restored(s: Store, f: nat, page: nat): Store {
    if page in s.swap && f < |s.m| then Store(s.m[f := s.swap[page]], s.swap - {page}) else s
  }

  /** The guard of the branch that evicts. */
  predicate WillEvict(g: Geometry, m: Frames, h: nat, j: nat)
    requires h < |m| && j < |m[h]|
  {
    FreeSlot(g, Marked(m, h, j), 0, 0, 0).None? && TreeSize(g, m) >= g.numFrames
  }

  /** A frame for slot (h, j): reclaimed, else fresh, else evicted. */
  function Provided(g: Geometry, s: Store, h: nat, j: nat, repaired: bool): (r: (Store, nat))
    requires 0 < g.rootSize && 0 < g.pageSize && 0 < g.depth
    requires h < |s.m| && j < |s.m[h]|
  {
    match FreeSlot(g, Marked(s.m, h, j), 0, 0, 0)
    case Some((p, i)) =>
      var f := Word(s.m, p, i);
      (Store(if p < |s.m| && i < |s.m[p]| then SetSlot(s.m, p, i, 0) else s.m, s.swap), if f < 0 then 0 else f)
    case None =>
      var n := TreeSize(g, s.m);
      if n < g.numFrames then (s, n)
      else (if repaired then EvictRepaired(g, s) else EvictAsWritten(g, s), Victim(g, s.m).pAddr)
  }

  /** The round links the frame and, at the last level, restores page q into it. */
  function Served(g: Geometry, s: Store, h: nat, j: nat, leaf: bool, q: nat, repaired: bool): Store
    requires 0 < g.rootSize && 0 < g.pageSize && 0 < g.depth
    requires h < |s.m| && j < |s.m[h]|
  {
    var (s', f) := Provided(g, s, h, j, repaired);
    var linked := Store(if h < |s'.m| && j < |s'.m[h]| then SetSlot(s'.m, h, j, f) else s'.m, s'.swap);
    if leaf then Restored(linked, f, q) else linked
  }

  // ---------- What a round keeps ----------

  /** Everything the fault loop relies on. */
  ghost predicate Sound(g: Geometry, s: Store, t: seq<Node>) {
    Shape(g, s.m, t) && SwapOk(g, t, s.swap)
  }

  /** The round is called for a missing slot (h, j); at the last level that slot is the end of
      page q's walk. */
  ghost predicate FaultAt(g: Geometry, s: Store, t: seq<Node>, h: nat, j: nat, leaf: bool, q: nat) {
    && Sound(g, s, t)
    && FreeEntry(g, t, h, j, s.m)
    && leaf == (|t[h].path| == g.depth - 1)
    && (leaf ==> g.Path(q) == t[h].path + [j])
  }

  ghost predicate SameContents(g: Geometry, s: Store, s': Store)
    requires 0 < g.rootSize && 0 < g.pageSize
  {
    forall p :: 0 <= p < g.NumPages() ==> Contents(g, s'.m, s'.swap, p) == Contents(g, s.m, s.swap, p)
  }

  /** Every page whose walk does not end at `slot` kept its contents. */
  ghost predicate OthersKept(g: Geometry, s: Store, s': Store, slot: seq<nat>)
    requires 0 < g.rootSize && 0 < g.pageSize
  {
    forall p :: 0 <= p < g.NumPages() && g.Path(p) != slot ==>
      Contents(g, s'.m, s'.swap, p) == Contents(g, s.m, s.swap, p)
  }

  /** The page whose walk ends at `slot` is in the swap file as it was. */
  ghost predicate SlotSwapKept(g: Geometry, swap: Swap, swap': Swap, slot: seq<nat>)
    requires 0 < g.rootSize && 0 < g.pageSize
  {
    forall p :: 0 <= p < g.NumPages() && g.Path(p) == slot ==>
      (p in swap' <==> p in swap) && (p in swap ==> swap'[p] == swap[p])
  }

  ghost predicate SwapEntry(g: Geometry, swap: Swap, p: nat)
    requires p in swap
  {
    p < g.NumPages() && |swap[p]| == g.pageSize && swap[p] != Zeros(g.pageSize)
  }

  /** SwapOk, but the page whose walk ends at `slot` may be in the swap file. */
  ghost predicate SwapOkBut(g: Geometry, t: seq<Node>, swap: Swap, slot: seq<nat>)
    requires 0 < g.rootSize && 0 < g.pageSize
  {
    forall p :: p in swap ==> SwapEntry(g, swap, p) && (g.Path(p) != slot ==> !Mapped(g, t, p))
  }

  /** Between linking and restoring: frame f is zero and hangs from slot (h, j); every page but
      the one at that slot kept its contents. */
  ghost predicate LinkedAt(g: Geometry, s: Store, slot: seq<nat>, s': Store, t': seq<Node>, f: nat)
    requires 0 < g.rootSize && 0 < g.pageSize
  {
    && Shape(g, s'.m, t')
    && f < |t'| && t'[f].path == slot && s'.m[f] == Zeros(g.pageSize)
    && OthersKept(g, s, s', slot)
    && SlotSwapKept(g, s.swap, s'.swap, slot)
    && SwapOkBut(g, t', s'.swap, slot)
  }

  lemma ClearIsChildless(g: Geometry, m: Frames, t: seq<Node>, f: nat)
    requires Shape(g, m, t) && 0 < f < |t|
    requires m[f] == Zeros(g.pageSize) || |t[f].path| == g.depth
    ensures Childless(t, f)
  {
    forall k | 0 < k < |t|
      ensures t[k].parent != f
    {
      assert LinkedUp(g, m, t, k);
    }
  }

  /** What a move may do to the swap file: the page that was in frame f is saved if it holds
      anything, and nothing else changes. */
  ghost predicate SwapMoved(g: Geometry, m: Frames, path: seq<nat>, f: nat, swap: Swap, swap': Swap)
    requires 0 < g.rootSize && 0 < g.pageSize && f < |m|
  {
    && (forall p :: 0 <= p < g.NumPages() && g.Path(p) == path ==>
          (if p in swap' then swap'[p] else Zeros(g.pageSize)) == m[f])
    && (forall p :: 0 <= p < g.NumPages() && g.Path(p) != path ==>
          (p in swap' <==> p in swap) && (p in swap ==> swap'[p] == swap[p]))
    && (forall p :: p in swap' ==> SwapEntry(g, swap', p))
  }

  lemma MovedUnmapped(g: Geometry, s: Store, t: seq<Node>, swap': Swap, f: nat, h: nat, j: nat, p: nat)
    requires Sound(g, s, t) && Movable(g, s.m, t, f, h, j) && SwapMoved(g, s.m, t[f].path, f, s.swap, swap')
    requires p in swap' && g.Path(p) != t[h].path + [j]
    ensures !Mapped(g, t[f := Node(t[h].path + [j], h)], p)
  {
    var t' := t[f := Node(t[h].path + [j], h)];
    assert SwapEntry(g, swap', p);
    if k :| InTree(t', k) && t'[k].path == g.Path(p) {
      assert k != f && InTree(t, k) && t[k].path == g.Path(p);
      if g.Path(p) == t[f].path {
        PathsUnique(g, s.m, t, k, f);
      }
      assert false;
    }
  }

  lemma MovedKeeps(g: Geometry, s: Store, t: seq<Node>, swap': Swap, f: nat, h: nat, j: nat)
    requires Sound(g, s, t) && Movable(g, s.m, t, f, h, j) && SwapMoved(g, s.m, t[f].path, f, s.swap, swap')
    ensures LinkedUp(g, s.m, t, f) && f != t[f].parent
    ensures LinkedAt(g, s, t[h].path + [j], Store(Moved(g, s.m, t[f].parent, Last(t[f].path), f, h, j), swap'),
                     t[f := Node(t[h].path + [j], h)], f)
  {
    MovedShape(g, s.m, t, f, h, j);
    SlotIsNew(g, s.m, t, h, j, f);
    var slot := t[h].path + [j];
    var s' := Store(Moved(g, s.m, t[f].parent, Last(t[f].path), f, h, j), swap');
    var t' := t[f := Node(slot, h)];
    assert OthersKept(g, s, s', slot) by {
      forall p | 0 <= p < g.NumPages() && g.Path(p) != slot
        ensures Contents(g, s'.m, s'.swap, p) == Contents(g, s.m, s.swap, p)
      {
        MovedContents(g, s.m, t, s.swap, swap', f, h, j, p);
      }
    }
    assert SwapOkBut(g, t', swap', slot) by {
      forall p | p in swap'
        ensures SwapEntry(g, swap', p) && (g.Path(p) != slot ==> !Mapped(g, t', p))
      {
        if g.Path(p) != slot {
          MovedUnmapped(g, s, t, swap', f, h, j, p);
        }
      }
    }
  }

  lemma FreshKeeps(g: Geometry, s: Store, t: seq<Node>, h: nat, j: nat)
    requires Sound(g, s, t) && FreeEntry(g, t, h, j, s.m) && |t| < g.numFrames
    ensures LinkedAt(g, s, t[h].path + [j], Store(SetSlot(s.m, h, j, |t|), s.swap),
                     t + [Node(t[h].path + [j], h)], |t|)
  {
    FreshShape(g, s.m, t, h, j);
    var slot := t[h].path + [j];
    var s' := Store(SetSlot(s.m, h, j, |t|), s.swap);
    var t' := t + [Node(slot, h)];
    assert OthersKept(g, s, s', slot) by {
      forall p | 0 <= p < g.NumPages() && g.Path(p) != slot
        ensures Contents(g, s'.m, s'.swap, p) == Contents(g, s.m, s.swap, p)
      {
        FreshContents(g, s.m, t, s.swap, h, j, p);
      }
    }
    assert SwapOkBut(g, t', s.swap, slot) by {
      forall p | p in s.swap
        ensures SwapEntry(g, s.swap, p) && (g.Path(p) != slot ==> !Mapped(g, t', p))
      {
        forall k | g.Path(p) != slot && InTree(t', k) && t'[k].path == g.Path(p)
          ensures InTree(t, k) && t[k].path == g.Path(p)
        {
        }
      }
    }
  }

  /** The word address in a victim's record is its one parent slot. */
  lemma FatherSlot(g: Geometry, m: Frames, t: seq<Node>, f: nat)
    requires Shape(g, m, t) && 0 < g.depth && IsPage(g, t, f)
    ensures var a := Record(g, m, t, f).father;
            && 0 < f && LinkedUp(g, m, t, f) && a < g.RamSize()
            && Quotient(a, g.pageSize) == t[f].parent && Remainder(a, g.pageSize) == Last(t[f].path)
  {
    NonRootPath(g, m, t, f);
    assert LinkedUp(g, m, t, f);
    var p, i := t[f].parent, Last(t[f].path);
    NonRootPath(g, m, t, p);
    assert i < g.pageSize;
    assert g.Convert(i, p, g.depth - 1) == p * g.pageSize + i;
    DivModUnique(p, i, g.pageSize);
    MulBound(p, i, g.pageSize, g.numFrames);
  }

  /** What the repaired evict does: the victim's slot is cleared, its frame is saved under its
      page number and zeroed. */
  lemma EvictRepairedIs(g: Geometry, s: Store, t: seq<Node>, f: nat)
    requires Shape(g, s.m, t) && 0 < g.depth && IsPage(g, t, f)
    requires Victim(g, s.m) == Record(g, s.m, t, f)
    ensures LinkedUp(g, s.m, t, f) && 0 < f
    ensures EvictRepaired(g, s) == Store(SetSlot(s.m, t[f].parent, Last(t[f].path), 0)[f := Zeros(g.pageSize)],
                                         s.swap[g.Fold(t[f].path) := s.m[f]])
  {
    FatherSlot(g, s.m, t, f);
  }

  lemma SavedSwap(g: Geometry, s: Store, t: seq<Node>, f: nat)
    requires Sound(g, s, t) && 0 < g.depth && IsPage(g, t, f) && s.m[f] != Zeros(g.pageSize)
    ensures SwapMoved(g, s.m, t[f].path, f, s.swap, s.swap[g.Fold(t[f].path) := s.m[f]])
  {
    PathInRange(g, s.m, t, f);
    DigitsOfFold(g, t[f].path);
    var v := g.Fold(t[f].path);
    forall p | 0 <= p < g.NumPages() && g.Path(p) == t[f].path
      ensures p == v
    {
      PathNamesPage(g, p, v);
    }
  }

  lemma EvictKeeps(g: Geometry, s: Store, t: seq<Node>, h: nat, j: nat) returns (f: nat)
    requires Sound(g, s, t) && FreeEntry(g, t, h, j, s.m)
    requires |t| == g.numFrames && NothingFree(g, s.m, t, h)
    ensures IsPage(g, t, f) && f != h && Victim(g, s.m).pAddr == f
    ensures h < |EvictRepaired(g, s).m| && j < |EvictRepaired(g, s).m[h]|
    ensures LinkedAt(g, s, t[h].path + [j],
                     Store(SetSlot(EvictRepaired(g, s).m, h, j, f), EvictRepaired(g, s).swap),
                     t[f := Node(t[h].path + [j], h)], f)
  {
    FullRamHasPage(g, s.m, t, h);
    f := VictimIsArgMax(g, s.m, t);
    EvictRepairedIs(g, s, t, f);
    ClearIsChildless(g, s.m, t, f);
    SavedSwap(g, s, t, f);
    MovedKeeps(g, s, t, s.swap[g.Fold(t[f].path) := s.m[f]], f, h, j);
  }

  /** A reclaimed, fresh or (repaired) evicted frame gets linked without touching any other page. */
  lemma ProvidedKeeps(g: Geometry, s: Store, t: seq<Node>, h: nat, j: nat, repaired: bool) returns (t': seq<Node>)
    requires Sound(g, s, t) && FreeEntry(g, t, h, j, s.m)
    requires repaired || !WillEvict(g, s.m, h, j)
    ensures var (s', f) := Provided(g, s, h, j, repaired);
            && h < |s'.m| && j < |s'.m[h]|
            && LinkedAt(g, s, t[h].path + [j], Store(SetSlot(s'.m, h, j, f), s'.swap), t', f)
  {
    TreeSizeExact(g, s.m, t);
    var slot := t[h].path + [j];
    if FreeSlot(g, Marked(s.m, h, j), 0, 0, 0).Some? {
      FreeSlotFound(g, s.m, t, h, j, 0, 0, 0);
      var (p, i) := FreeSlot(g, Marked(s.m, h, j), 0, 0, 0).value;
      var f := s.m[p][i];
      ClearIsChildless(g, s.m, t, f);
      SwapSaysNothing(g, s, t, f);
      MovedKeeps(g, s, t, s.swap, f, h, j);
      assert SetSlot(s.m, p, i, 0)[f := Zeros(g.pageSize)] == SetSlot(s.m, p, i, 0);
      t' := t[f := Node(slot, h)];
    } else if |t| < g.numFrames {
      FreshKeeps(g, s, t, h, j);
      t' := t + [Node(slot, h)];
    } else {
      FreeSlotExact(g, s.m, t, h, j);
      var f := EvictKeeps(g, s, t, h, j);
      t' := t[f := Node(slot, h)];
    }
  }

  /** A reclaimed page is zero and not in the swap file, so dropping it loses nothing. */
  lemma SwapSaysNothing(g: Geometry, s: Store, t: seq<Node>, f: nat)
    requires Sound(g, s, t) && f < |t| && s.m[f] == Zeros(g.pageSize)
    ensures SwapMoved(g, s.m, t[f].path, f, s.swap, s.swap)
  {
    forall p | 0 <= p < g.NumPages() && g.Path(p) == t[f].path
      ensures p !in s.swap
    {
      assert InTree(t, f) && t[f].path == g.Path(p);
    }
  }

  /** No other frame that can be reclaimed comes before f in digit order. */
  ghost predicate IsFirst(g: Geometry, m: Frames, t: seq<Node>, h: nat, f: nat)
    requires |t| <= |m|
  {
    && Reclaimable(g, m, t, h, f)
    && forall k: nat | Reclaimable(g, m, t, h, k) && k != f :: Precedes(t[f].path, t[k].path)
  }

  lemma ReclaimedIsFirst(g: Geometry, m: Frames, t: seq<Node>, h: nat, j: nat)
    requires FreeEntry(g, t, h, j, m) && FreeSlot(g, Marked(m, h, j), 0, 0, 0).Some?
    ensures var (p, i) := FreeSlot(g, Marked(m, h, j), 0, 0, 0).value;
            && p < |t| && i < |m[p]| && 0 < m[p][i] < |t|
            && t[m[p][i]] == Node(t[p].path + [i], p) && IsFirst(g, m, t, h, m[p][i])
  {
    FreeSlotFound(g, m, t, h, j, 0, 0, 0);
    var (p, i) := FreeSlot(g, Marked(m, h, j), 0, 0, 0).value;
    var f: nat := m[p][i];
    forall k: nat | Reclaimable(g, m, t, h, k) && k != f
      ensures Precedes(t[f].path, t[k].path)
    {
      FirstReclaimable(g, m, t, h, j, k);
    }
  }

  /** Which frame a round uses, and what happens to it: the first reclaimable frame in digit order,
      taken out of its slot; if there is none, the first frame outside the tree; if RAM is full, the
      frame of the heaviest page. */
  lemma FrameChoice(g: Geometry, s: Store, t: seq<Node>, h: nat, j: nat, repaired: bool)
    requires Sound(g, s, t) && FreeEntry(g, t, h, j, s.m)
    ensures var (s', f) := Provided(g, s, h, j, repaired);
            && ((exists k: nat :: Reclaimable(g, s.m, t, h, k)) ==>
                  && IsFirst(g, s.m, t, h, f) && t[f].parent < |s.m| && t[f].path != []
                  && Last(t[f].path) < |s.m[t[f].parent]|
                  && s' == Store(SetSlot(s.m, t[f].parent, Last(t[f].path), 0), s.swap))
            && (NothingFree(g, s.m, t, h) && |t| < g.numFrames ==> f == |t| && s' == s)
            && (NothingFree(g, s.m, t, h) && |t| == g.numFrames ==>
                  ArgMax(g, s.m, t, Pages(g, t), f))
  {
    FreeSlotExact(g, s.m, t, h, j);
    TreeSizeExact(g, s.m, t);
    if FreeSlot(g, Marked(s.m, h, j), 0, 0, 0).Some? {
      ReclaimedIsFirst(g, s.m, t, h, j);
    } else if |t| == g.numFrames {
      FullRamHasPage(g, s.m, t, h);
      var f := VictimIsArgMax(g, s.m, t);
    }
  }

  // ---------- Restoring ----------

  /** PMrestore finds the page whose walk was just completed: either the page number is in range,
      or the page it aliases is not in the swap file. */
  predicate Harmless(g: Geometry, swap: Swap, q: nat)
    requires 0 < g.rootSize && 0 < g.pageSize
  {
    q < g.NumPages() || g.Alias(q) !in swap
  }

  /** A table was linked: there is no page at the slot, so nothing changed hands. */
  lemma LinkedTableKeeps(g: Geometry, s: Store, slot: seq<nat>, s': Store, t': seq<Node>, f: nat)
    requires g.Valid() && LinkedAt(g, s, slot, s', t', f) && |slot| < g.depth
    ensures Sound(g, s', t') && SameContents(g, s, s')
  {
    forall p | p in s'.swap
      ensures p < g.NumPages() && |s'.swap[p]| == g.pageSize && s'.swap[p] != Zeros(g.pageSize) && !Mapped(g, t', p)
    {
      assert SwapEntry(g, s'.swap, p);
      assert |g.Path(p)| == g.depth;
    }
    forall p | 0 <= p < g.NumPages()
      ensures Contents(g, s'.m, s'.swap, p) == Contents(g, s.m, s.swap, p)
    {
      assert |g.Path(p)| == g.depth;
    }
  }

  /** The words of a page frame do not shape the tree. */
  lemma PageWordsAreFree(g: Geometry, m: Frames, t: seq<Node>, f: nat, words: seq<int>)
    requires Shape(g, m, t) && IsPage(g, t, f) && |words| == g.pageSize
    ensures Shape(g, m[f := words], t)
  {
    var m' := m[f := words];
    forall k | 0 < k < |t|
      ensures LinkedUp(g, m', t, k)
    {
      assert LinkedUp(g, m, t, k);
    }
    forall k, i | 0 <= k < |t| && |t[k].path| < g.depth && 0 <= i < g.Radix(|t[k].path|)
      ensures LinkedDown(g, m', t, k, i)
    {
      assert LinkedDown(g, m, t, k, i);
    }
  }

  lemma OtherPageWords(g: Geometry, m: Frames, t: seq<Node>, swap: Swap, swap': Swap, f: nat, words: seq<int>, p: nat)
    requires Shape(g, m, t) && IsPage(g, t, f) && |words| == g.pageSize
    requires g.Path(p) != t[f].path
    requires p in swap' <==> p in swap
    requires p in swap ==> swap'[p] == swap[p]
    ensures Contents(g, m[f := words], swap', p) == Contents(g, m, swap, p)
  {
    PageWordsAreFree(g, m, t, f, words);
    ContentsOf(g, m, t, swap, p);
    ContentsOf(g, m[f := words], t, swap', p);
  }

  /** The page just linked, before it is restored: zero in RAM, so lost if the swap file has it. */
  lemma LinkedPageContents(g: Geometry, s: Store, t: seq<Node>, slot: seq<nat>, s': Store, t': seq<Node>,
    f: nat, a: nat)
    requires Sound(g, s, t) && LinkedAt(g, s, slot, s', t', f)
    requires a < g.NumPages() && g.Path(a) == slot && !Mapped(g, t, a)
    ensures Contents(g, s'.m, s'.swap, a) == Zeros(g.pageSize)
    ensures Contents(g, s.m, s.swap, a) == if a in s.swap then s.swap[a] else Zeros(g.pageSize)
    ensures Contents(g, s'.m, s'.swap, a) == Contents(g, s.m, s.swap, a) <==> a !in s.swap
    ensures a in s.swap <==> a in s'.swap
  {
    ContentsOf(g, s.m, t, s.swap, a);
    ContentsOf(g, s'.m, t', s'.swap, a);
    assert a in s.swap ==> SwapEntry(g, s'.swap, a);
  }

  /** Restoring the faulting page itself completes the round. */
  lemma RestoredOwnPage(g: Geometry, s: Store, t: seq<Node>, slot: seq<nat>, s': Store, t': seq<Node>, f: nat, q: nat)
    requires Sound(g, s, t) && LinkedAt(g, s, slot, s', t', f)
    requires q < g.NumPages() && g.Path(q) == slot && !Mapped(g, t, q)
    ensures Sound(g, Restored(s', f, q), t') && SameContents(g, s, Restored(s', f, q))
  {
    var r := Restored(s', f, q);
    LinkedPageContents(g, s, t, slot, s', t', f, q);
    if q in s'.swap {
      assert SwapEntry(g, s'.swap, q);
      PageWordsAreFree(g, s'.m, t', f, s'.swap[q]);
      ContentsOf(g, r.m, t', r.swap, q);
      assert s'.swap[q] == s.swap[q];
    }
    forall p | 0 <= p < g.NumPages()
      ensures Contents(g, r.m, r.swap, p) == Contents(g, s.m, s.swap, p)
    {
      if g.Path(p) == slot {
        PathNamesPage(g, p, q);
      } else if q in s'.swap {
        OtherPageWords(g, s'.m, t', s'.swap, r.swap, f, s'.swap[q], p);
      }
    }
    forall p | p in r.swap
      ensures p < g.NumPages() && |r.swap[p]| == g.pageSize && r.swap[p] != Zeros(g.pageSize) && !Mapped(g, t', p)
    {
      assert SwapEntry(g, s'.swap, p);
      if g.Path(p) == slot {
        PathNamesPage(g, p, q);
      }
    }
  }

  lemma NotSaved(g: Geometry, t: seq<Node>, swap: Swap, slot: seq<nat>, q: nat)
    requires 0 < g.rootSize && 0 < g.pageSize && SwapOkBut(g, t, swap, slot) && q >= g.NumPages()
    ensures q !in swap
  {
  }

  /** An out-of-range page number restores nothing. The page it aliases is now mapped and zero:
      that is what it was, unless it was in the swap file. */
  lemma RestoredAlias(g: Geometry, s: Store, t: seq<Node>, slot: seq<nat>, s': Store, t': seq<Node>, f: nat, q: nat)
    requires Sound(g, s, t) && LinkedAt(g, s, slot, s', t', f)
    requires q >= g.NumPages() && g.Path(q) == slot && !Mapped(g, t, g.Alias(q))
    ensures Restored(s', f, q) == s'
    ensures g.Alias(q) !in s.swap <==> SameContents(g, s, s')
    ensures g.Alias(q) !in s.swap ==> Sound(g, s', t')
  {
    var a := g.Alias(q);
    AliasOfPage(g, q);
    NotSaved(g, t', s'.swap, slot, q);
    LinkedPageContents(g, s, t, slot, s', t', f, a);
    forall p | 0 <= p < g.NumPages() && p != a
      ensures g.Path(p) != slot
    {
      if g.Path(p) == slot {
        PathNamesPage(g, p, a);
      }
    }
    if a !in s.swap {
      forall p | p in s'.swap
        ensures p < g.NumPages() && |s'.swap[p]| == g.pageSize && s'.swap[p] != Zeros(g.pageSize) && !Mapped(g, t', p)
      {
        assert SwapEntry(g, s'.swap, p);
      }
    }
  }

  // ---------- The as-written evict ----------

  /** Words of m' differ from those of m only by being zero. */
  ghost predicate OnlyZeroed(m: Frames, m': Frames) {
    && |m'| == |m|
    && (forall f :: 0 <= f < |m| ==> |m'[f]| == |m[f]|)
    && (forall f, i :: 0 <= f < |m| && 0 <= i < |m[f]| ==> m'[f][i] == m[f][i] || m'[f][i] == 0)
  }

  lemma {:induction false} PruneOnlyZeroes(g: Geometry, m: Frames, table: nat, d: nat)
    requires 0 < g.rootSize && 0 < g.pageSize
    ensures OnlyZeroed(m, Prune(g, m, table, d))
    decreases d
  {
    if d > 0 && Clear(m, table) {
      PruneOnlyZeroes(g, WriteWord(g, m, table, 0), Quotient(table, g.Radix(d - 1)), d - 1);
    }
  }

  /** Where a used table slot is unchanged or zero, walks to tables lead where they led or stop. */
  ghost predicate TablesOnlyZeroed(g: Geometry, m: Frames, t: seq<Node>, m': Frames)
    requires Shape(g, m, t) && Sized(g, m')
  {
    forall k, i :: 0 <= k < |t| && |t[k].path| < g.depth && 0 <= i < g.pageSize && m[k][i] != 0 ==>
      m'[k][i] == m[k][i] || m'[k][i] == 0
  }

  lemma {:induction false} WalkOnlyStops(g: Geometry, m: Frames, t: seq<Node>, m': Frames, f: nat)
    requires Shape(g, m, t) && Sized(g, m') && TablesOnlyZeroed(g, m, t, m') && f < |t|
    ensures Walk(m', t[f].path) == f || Walk(m', t[f].path) == -1
    decreases |t[f].path|
  {
    if f > 0 {
      assert LinkedUp(g, m, t, f);
      WalkOnlyStops(g, m, t, m', t[f].parent);
      WalkStep(m', t[t[f].parent].path, Last(t[f].path));
      PathInRange(g, m, t, f);
      assert m[t[f].parent][Last(t[f].path)] == f;
    }
  }

  lemma CutWalk(g: Geometry, m: Frames, t: seq<Node>, m': Frames, f: nat)
    requires Shape(g, m, t) && Sized(g, m') && TablesOnlyZeroed(g, m, t, m') && 0 < f < |t|
    requires LinkedUp(g, m, t, f) && m'[t[f].parent][Last(t[f].path)] == 0
    ensures Walk(m', t[f].path) == -1
  {
    WalkOnlyStops(g, m, t, m', t[f].parent);
    WalkStep(m', t[t[f].parent].path, Last(t[f].path));
  }

  /** The frames an as-written evict leaves, before the freed frame is linked elsewhere. */
  lemma EvictAsWrittenCuts(g: Geometry, s: Store, t: seq<Node>, v: nat)
    requires Shape(g, s.m, t) && 0 < g.depth && IsPage(g, t, v) && Victim(g, s.m) == Record(g, s.m, t, v)
    ensures var m := EvictAsWritten(g, s).m;
            && Sized(g, m) && TablesOnlyZeroed(g, s.m, t, m)
            && LinkedUp(g, s.m, t, v) && 0 < v && m[t[v].parent][Last(t[v].path)] == 0
  {
    FatherSlot(g, s.m, t, v);
    var p, i := t[v].parent, Last(t[v].path);
    var m1 := SetSlot(s.m, p, i, 0)[v := Zeros(g.pageSize)];
    var m := EvictAsWritten(g, s).m;
    PruneOnlyZeroes(g, m1, p, g.depth - 1);
    assert OnlyZeroed(m1, m);
    assert p != v && m1[p][i] == 0;
    forall k, x | 0 <= k < |t| && |t[k].path| < g.depth && 0 <= x < g.pageSize && s.m[k][x] != 0
      ensures m[k][x] == s.m[k][x] || m[k][x] == 0
    {
      assert m1[k][x] == s.m[k][x] || m1[k][x] == 0;
    }
  }

  /** The frames after an as-written round that evicted: the victim's slot is zero and every table
      slot that was used is unchanged or zero. */
  lemma AsWrittenCuts(g: Geometry, s: Store, t: seq<Node>, h: nat, j: nat, leaf: bool, q: nat, v: nat)
    requires FaultAt(g, s, t, h, j, leaf, q) && WillEvict(g, s.m, h, j) && IsPage(g, t, v) && v != h
    requires Victim(g, s.m) == Record(g, s.m, t, v)
    ensures var s' := Served(g, s, h, j, leaf, q, false);
            && Sized(g, s'.m) && TablesOnlyZeroed(g, s.m, t, s'.m)
            && LinkedUp(g, s.m, t, v) && 0 < v && s'.m[t[v].parent][Last(t[v].path)] == 0
  {
    EvictAsWrittenCuts(g, s, t, v);
    var e := EvictAsWritten(g, s);
    FatherSlot(g, s.m, t, v);
    assert Provided(g, s, h, j, false) == (e, v);
    assert e.swap == s.swap[Victim(g, s.m).pageNum := Zeros(g.pageSize)];
  }

  /** The swap file after an as-written round that evicted: zeros were saved for the victim. */
  lemma AsWrittenSaves(g: Geometry, s: Store, t: seq<Node>, h: nat, j: nat, leaf: bool, q: nat, v: nat)
    requires FaultAt(g, s, t, h, j, leaf, q) && WillEvict(g, s.m, h, j) && IsPage(g, t, v)
    requires Victim(g, s.m) == Record(g, s.m, t, v) && g.Path(Victim(g, s.m).pageNum) == t[v].path
    ensures var s' := Served(g, s, h, j, leaf, q, false);
            var page := Victim(g, s.m).pageNum;
            page in s'.swap && s'.swap[page] == Zeros(g.pageSize)
  {
    FatherSlot(g, s.m, t, v);
    SlotIsNew(g, s.m, t, h, j, v);
    var page := Victim(g, s.m).pageNum;
    var e := EvictAsWritten(g, s);
    assert e.swap == s.swap[page := Zeros(g.pageSize)];
    assert leaf ==> q != page;
  }

  /** As written, every eviction loses its victim: the page held a non-zero word, because nothing
      was reclaimable, and afterwards it reads as zero. */
  lemma AsWrittenLoses(g: Geometry, s: Store, t: seq<Node>, h: nat, j: nat, leaf: bool, q: nat) returns (v: nat)
    requires FaultAt(g, s, t, h, j, leaf, q) && WillEvict(g, s.m, h, j)
    ensures v == Victim(g, s.m).pageNum < g.NumPages()
    ensures Contents(g, s.m, s.swap, v) != Zeros(g.pageSize)
    ensures var s' := Served(g, s, h, j, leaf, q, false);
            Contents(g, s'.m, s'.swap, v) == Zeros(g.pageSize)
  {
    var f := VictimIsUsed(g, s, t, h, j);
    v := Victim(g, s.m).pageNum;
    AsWrittenCuts(g, s, t, h, j, leaf, q, f);
    AsWrittenSaves(g, s, t, h, j, leaf, q, f);
    CutWalk(g, s.m, t, Served(g, s, h, j, leaf, q, false).m, f);
  }

  lemma VictimIsUsed(g: Geometry, s: Store, t: seq<Node>, h: nat, j: nat) returns (f: nat)
    requires Sound(g, s, t) && FreeEntry(g, t, h, j, s.m) && WillEvict(g, s.m, h, j)
    ensures IsPage(g, t, f) && 0 < f && f != h && Victim(g, s.m) == Record(g, s.m, t, f)
    ensures g.Path(Victim(g, s.m).pageNum) == t[f].path && Victim(g, s.m).pageNum < g.NumPages()
    ensures Contents(g, s.m, s.swap, Victim(g, s.m).pageNum) == s.m[f] != Zeros(g.pageSize)
  {
    TreeSizeExact(g, s.m, t);
    FreeSlotExact(g, s.m, t, h, j);
    FullRamHasPage(g, s.m, t, h);
    f := VictimIsArgMax(g, s.m, t);
    ContentsOf(g, s.m, t, s.swap, Victim(g, s.m).pageNum);
  }

  // ---------- The exact theorem about one round ----------

  ghost predicate NothingLost(g: Geometry, s: Store, h: nat, j: nat, leaf: bool, q: nat, repaired: bool)
    requires 0 < g.rootSize && 0 < g.pageSize && h < |s.m| && j < |s.m[h]|
  {
    && (repaired || !WillEvict(g, s.m, h, j))
    && (leaf ==> Harmless(g, s.swap, q))
  }

  lemma SlotPageUnmapped(g: Geometry, s: Store, t: seq<Node>, h: nat, j: nat, a: nat)
    requires Sound(g, s, t) && FreeEntry(g, t, h, j, s.m) && g.Path(a) == t[h].path + [j]
    ensures !Mapped(g, t, a)
  {
    forall k | InTree(t, k) && t[k].path == g.Path(a)
      ensures false
    {
      SlotIsNew(g, s.m, t, h, j, k);
    }
  }

  /** A round that is repaired or does not evict keeps the heap shape and gets one level further
      down the faulting page's walk, whatever else it does. */
  lemma ServedLinks(g: Geometry, s: Store, t: seq<Node>, h: nat, j: nat, leaf: bool, q: nat, repaired: bool)
    returns (t': seq<Node>)
    requires FaultAt(g, s, t, h, j, leaf, q)
    requires repaired || !WillEvict(g, s.m, h, j)
    ensures var s' := Served(g, s, h, j, leaf, q, repaired);
            && Shape(g, s'.m, t') && 0 < Walk(s'.m, t[h].path + [j]) < |s'.m|
            && (!leaf ==> s'.m[Walk(s'.m, t[h].path + [j])] == Zeros(g.pageSize))
            && (!leaf || Harmless(g, s.swap, q) ==> Sound(g, s', t') && SameContents(g, s, s'))
            && (leaf && !Harmless(g, s.swap, q) ==> !SameContents(g, s, s'))
  {
    t' := ProvidedKeeps(g, s, t, h, j, repaired);
    var slot := t[h].path + [j];
    var (e, f) := Provided(g, s, h, j, repaired);
    var linked := Store(SetSlot(e.m, h, j, f), e.swap);
    var s' := Served(g, s, h, j, leaf, q, repaired);
    if !leaf {
      LinkedTableKeeps(g, s, slot, linked, t', f);
    } else if q < g.NumPages() {
      SlotPageUnmapped(g, s, t, h, j, q);
      RestoredOwnPage(g, s, t, slot, linked, t', f, q);
    } else {
      AliasOfPage(g, q);
      SlotPageUnmapped(g, s, t, h, j, g.Alias(q));
      RestoredAlias(g, s, t, slot, linked, t', f, q);
    }
    NonRootPath(g, s'.m, t', f);
    WalkReaches(g, s'.m, t', f);
  }

  /** One round keeps every page's contents exactly when it is the repaired code or does not
      evict, and, if it completes an out-of-range walk, the aliased page is not in the swap file. */
  lemma ServedExact(g: Geometry, s: Store, t: seq<Node>, h: nat, j: nat, leaf: bool, q: nat, repaired: bool)
    requires FaultAt(g, s, t, h, j, leaf, q)
    ensures SameContents(g, s, Served(g, s, h, j, leaf, q, repaired)) <==> NothingLost(g, s, h, j, leaf, q, repaired)
  {
    if repaired || !WillEvict(g, s.m, h, j) {
      var t' := ServedLinks(g, s, t, h, j, leaf, q, repaired);
    } else {
      var v := AsWrittenLoses(g, s, t, h, j, leaf, q);
    }
  }
}
