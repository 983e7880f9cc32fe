/** The virtual memory of the source as an object: RAM, the swap file, and the methods that walk
    and change them. Each method is proved against the function of the same step in FrameSearch,
    VictimSearch and FaultStep. */
module PagedMemory {
  import opened Geometry
  import opened PageTree
  import opened FrameSearch
  import opened VictimSearch
  import opened TreeUpdate
  import opened FaultStep
  import opened FlatMemory
  import opened FrameDemand

  /** A search result: a frame when nothing is missing, else the word address of the missing link. */
  datatype AddressState = AddressState(addr: nat, missing: bool, depth: nat)

  /** What a search of a well-formed tree reports. */
  ghost predicate Found(g: Geometry, m: Frames, t: seq<Node>, r: AddressState, path: seq<nat>)
    requires Shape(g, m, t) && |path| == g.depth
  {
    if r.missing then
      && r.depth < g.depth && Walk(m, path) == -1 && Walk(m, path[..r.depth + 1]) == -1
      && var h := Walk(m, path[..r.depth]);
         && 0 <= h < |t| && t[h].path == path[..r.depth]
         && FreeEntry(g, t, h, path[r.depth], m)
         && r.addr == g.Convert(path[r.depth], h, r.depth)
    else
      && r.addr == Walk(m, path) && r.addr < |t| && t[r.addr].path == path
      && r.depth == if g.depth == 0 then 0 else g.depth - 1
  }

  /** What a search leaves: the frame in the slot it found is reported and the slot is zeroed. */
  ghost predicate Reclaimed(m: Frames, found: Option<(nat, nat)>, before: Frames, now: Frames, freeFrame: int) {
    match found
    case None => freeFrame == -1 && now == before
    case Some((p, i)) =>
      && p < |m| && i < |m[p]| && freeFrame == m[p][i] > 0
      && p < |before| && i < |before[p]| && now == SetSlot(before, p, i, 0)
  }

  /** The word address of a table slot, decoded as PMread decodes it. */
  lemma SlotAddress(g: Geometry, m: Frames, t: seq<Node>, f: nat, i: nat)
    requires Shape(g, m, t) && f < |t| && |t[f].path| <= g.depth && i < g.Radix(|t[f].path|)
    ensures var a := g.Convert(i, f, |t[f].path|);
            a < g.RamSize() && Quotient(a, g.pageSize) == f && Remainder(a, g.pageSize) == i
  {
    NonRootPath(g, m, t, f);
    assert g.Convert(i, f, |t[f].path|) == f * g.pageSize + i;
    DivModUnique(f, i, g.pageSize);
    MulBound(f, i, g.pageSize, g.numFrames);
  }

  class PagedMemory {
    const g: Geometry
    /** false: evict as the source writes it. true: the frame is saved before it is zeroed and
        the ancestor loop is left out. */
    const repaired: bool
    const ram: array<seq<int>>
    var swap: Swap
    /** The frames in the tree; see PageTree. */
    ghost var t: seq<Node>

    function Now(): Store
      reads this, ram
    {
      Store(ram[..], swap)
    }

    /** The heap shape and swap discipline; as written, an unspoilt system never swapped. */
    ghost predicate Valid()
      reads this, ram
    {
      Sound(g, Now(), t) && (!repaired ==> swap == map[])
    }

    ghost function Memory(): seq<seq<int>>
      requires 0 < g.rootSize && 0 < g.pageSize
      reads this, ram
    {
      PageView(g, Now())
    }

    constructor (g: Geometry, repaired: bool)
      requires g.Valid()
      ensures Valid() && fresh(ram) && this.g == g && this.repaired == repaired
      ensures forall p :: 0 <= p < g.NumPages() ==> Memory()[p] == Zeros(g.pageSize)
    {
      this.g := g;
      this.repaired := repaired;
      swap := map[];
      ram := new seq<int>[g.numFrames](i => Zeros(g.pageSize));
      t := [Node([], 0)];
      new;
      forall f, i | 0 <= f < |t| && |t[f].path| < g.depth && 0 <= i < g.Radix(|t[f].path|)
        ensures LinkedDown(g, ram[..], t, f, i)
      {
      }
      assert Shape(g, ram[..], t);
      forall p | 0 <= p < g.NumPages()
        ensures Memory()[p] == Zeros(g.pageSize)
      {
        ContentsOf(g, ram[..], t, swap, p);
      }
    }

    // ---------- Physical memory ----------

    method PMread(a: nat) returns (value: int)
      requires Sized(g, ram[..]) && 0 < g.pageSize && a < g.RamSize()
      ensures Quotient(a, g.pageSize) < ram.Length
      ensures value == ram[Quotient(a, g.pageSize)][Remainder(a, g.pageSize)]
    {
      assert |ram[..]| == g.numFrames;
      QuotientBound(Quotient(a, g.pageSize), Remainder(a, g.pageSize), g.pageSize, g.numFrames);
      assert |ram[..][Quotient(a, g.pageSize)]| == g.pageSize;
      value := ram[Quotient(a, g.pageSize)][Remainder(a, g.pageSize)];
    }

    method PMwrite(a: nat, value: int)
      requires Sized(g, ram[..]) && 0 < g.pageSize && a < g.RamSize()
      modifies ram
      ensures ram[..] == WriteWord(g, old(ram[..]), a, value)
      ensures Quotient(a, g.pageSize) < ram.Length
      ensures ram[..] == SetSlot(old(ram[..]), Quotient(a, g.pageSize), Remainder(a, g.pageSize), value)
    {
      QuotientBound(Quotient(a, g.pageSize), Remainder(a, g.pageSize), g.pageSize, g.numFrames);
      var f, i := Quotient(a, g.pageSize), Remainder(a, g.pageSize);
      assert |ram[..][f]| == g.pageSize;
      ram[f] := ram[f][i := value];
      assert ram[..] == old(ram[..])[f := old(ram[f])[i := value]];
    }

    /** The three preconditions are the source's asserts. */
    method PMevict(f: nat, page: nat)
      requires page !in swap && f < ram.Length && page < g.NumPages()
      modifies this`swap
      ensures swap == old(swap)[page := ram[f]]
    {
      swap := swap[page := ram[f]];
    }

    method PMrestore(f: nat, page: nat)
      requires f < ram.Length
      modifies this`swap, ram
      ensures Now() == Restored(old(Now()), f, page)
    {
      if page !in swap {
        return;
      }
      ram[f] := swap[page];
      swap := swap - {page};
      assert ram[..] == old(ram[..])[f := old(swap)[page]];
    }

    // ---------- Reading the tree ----------

    method TableIsClear(f: nat, d: nat) returns (clear: bool)
      requires Sized(g, ram[..]) && 0 < g.pageSize && f < ram.Length && 0 < d
      ensures clear == Clear(ram[..], f)
    {
      var i := 0;
      while i < g.Radix(d)
        invariant 0 <= i <= g.pageSize
        invariant forall k :: 0 <= k < i ==> ram[f][k] == 0
      {
        DivModUnique(f, i, g.pageSize);
        MulBound(f, i, g.pageSize, g.numFrames);
        var val := PMread(g.Convert(i, f, d));
        if val != 0 {
          assert ram[..][f][i] != 0;
          return false;
        }
        i := i + 1;
      }
      assert |ram[..][f]| == g.pageSize;
      clear := true;
    }

    /** Depth-first search for an all-zero frame; its parent slot is zeroed. -1 when there is none. */
    method FindFreeTable(d: nat, cur: nat, ghost m: Frames, ghost h: nat, ghost j: nat) returns (freeFrame: int)
      requires FreeEntry(g, t, h, j, m) && ram[..] == Marked(m, h, j)
      requires cur < |t| && |t[cur].path| == d
      modifies ram
      ensures Reclaimed(m, FreeSlot(g, old(ram[..]), d, cur, 0), old(ram[..]), ram[..], freeFrame)
      decreases if d < g.depth then g.depth - d else 0, 1
    {
      freeFrame := -1;
      if d >= g.depth {
        return;
      }
      var i := 0;
      while i < g.Radix(d) && freeFrame == -1
        invariant 0 <= i <= g.Radix(d)
        invariant freeFrame == -1 ==> ram[..] == old(ram[..])
        invariant freeFrame == -1 ==> FreeSlot(g, old(ram[..]), d, cur, 0) == FreeSlot(g, old(ram[..]), d, cur, i)
        invariant freeFrame != -1 ==>
                    Reclaimed(m, FreeSlot(g, old(ram[..]), d, cur, 0), old(ram[..]), ram[..], freeFrame)
        decreases g.Radix(d) - i
      {
        FreeSlotSplit(g, ram[..], d, cur, i);
        freeFrame := TryEntry(d, cur, i, m, h, j);
        i := i + 1;
      }
    }

    /** The body of its loop, for entry i. */
    method TryEntry(d: nat, cur: nat, i: nat, ghost m: Frames, ghost h: nat, ghost j: nat) returns (freeFrame: int)
      requires FreeEntry(g, t, h, j, m) && ram[..] == Marked(m, h, j)
      requires cur < |t| && |t[cur].path| == d < g.depth && i < g.Radix(d)
      modifies ram
      ensures Reclaimed(m, EntrySlot(g, old(ram[..]), d, cur, i), old(ram[..]), ram[..], freeFrame)
      decreases g.depth - d, 0
    {
      freeFrame := -1;
      SlotAddress(g, m, t, cur, i);
      var temp := PMread(g.Convert(i, cur, d));
      assert temp == Word(ram[..], cur, i);
      if temp != 0 && temp != cur {
        assert m[cur][i] == temp;
        assert LinkedDown(g, m, t, cur, i);
        var clear := TableIsClear(temp, d + 1);
        if clear {
          freeFrame := temp;
          PMwrite(g.Convert(i, cur, d), 0);
        } else {
          freeFrame := FindFreeTable(d + 1, temp, m, h, j);
        }
      }
    }

    /** The size of the tree below and including table cur. */
    method MaxFrame(d: nat, cur: nat) returns (n: nat)
      requires Shape(g, ram[..], t) && cur < |t| && |t[cur].path| == d
      ensures n == 1 + CountBelow(g, ram[..], d, cur, 0)
      decreases if d < g.depth then g.depth - d else 0
    {
      n := 1;
      if d < g.depth {
        var i := 0;
        while i < g.Radix(d)
          invariant 0 <= i <= g.Radix(d)
          invariant n + CountBelow(g, ram[..], d, cur, i) == 1 + CountBelow(g, ram[..], d, cur, 0)
        {
          SlotAddress(g, ram[..], t, cur, i);
          var temp := PMread(g.Convert(i, cur, d));
          assert temp == Word(ram[..], cur, i);
          assert LinkedDown(g, ram[..], t, cur, i);
          if temp != 0 {
            var below := MaxFrame(d + 1, temp);
            n := n + below;
          }
          i := i + 1;
        }
      }
    }

    method FindMaxFrameWeight(d: nat, cur: PageFrame, max: PageFrame) returns (best: PageFrame)
      requires Standing(g, ram[..], t, d, cur.pAddr, cur)
      ensures best == Heaviest(g, ram[..], d, cur, max)
      decreases g.depth - d
    {
      best := max;
      if d == g.depth {
        var weight := cur.weight + Parity(cur.pageNum);
        if weight > max.weight {
          best := PageFrame(cur.father, cur.pAddr, cur.pageNum, weight, d);
        }
        return;
      }
      var i := 0;
      while i < g.Radix(d)
        invariant 0 <= i <= g.Radix(d)
        invariant HeaviestFrom(g, ram[..], d, cur, 0, max) == HeaviestFrom(g, ram[..], d, cur, i, best)
      {
        SlotAddress(g, ram[..], t, cur.pAddr, i);
        var temp := PMread(g.Convert(i, cur.pAddr, d));
        assert temp == Word(ram[..], cur.pAddr, i);
        if temp != 0 {
          StandingChild(g, ram[..], t, d, cur.pAddr, cur, i);
          var cur2 := PageFrame(g.Convert(i, cur.pAddr, d), temp, g.Convert(i, cur.pageNum, d),
                                cur.weight + Parity(temp), 0);
          best := FindMaxFrameWeight(d + 1, cur2, best);
        }
        i := i + 1;
      }
    }

    /** Walks down a path to its page's frame, or to the first missing link. */
    method Search(path: seq<nat>) returns (r: AddressState)
      requires Shape(g, ram[..], t) && |path| == g.depth && g.InRange(path)
      ensures Found(g, ram[..], t, r, path)
    {
      var frame: nat := 0;
      var i := 0;
      while i < g.depth
        invariant 0 <= i <= g.depth
        invariant frame == Walk(ram[..], path[..i]) && frame < |t| && t[frame].path == path[..i]
      {
        SlotAddress(g, ram[..], t, frame, path[i]);
        var qal := PMread(g.Convert(path[i], frame, i));
        assert path[..i + 1] == path[..i] + [path[i]];
        WalkStep(ram[..], path[..i], path[i]);
        assert LinkedDown(g, ram[..], t, frame, path[i]);
        if qal == 0 {
          StoppedWalk(ram[..], path, i + 1);
          return AddressState(g.Convert(path[i], frame, i), true, i);
        }
        frame := qal;
        i := i + 1;
      }
      assert path[..g.depth] == path;
      r := AddressState(frame, false, if g.depth == 0 then 0 else g.depth - 1);
    }

    /** Cuts a virtual address into its path, last digit first. */
    method GetPath(v: nat) returns (path: seq<nat>)
      requires g.Valid()
      ensures path == g.Path(g.Page(v))
    {
      var rest := g.Page(v);
      path := [];
      if g.depth == 0 {
        return;
      }
      var i := 0;
      while i < g.depth - 1
        invariant 0 <= i <= g.depth - 1
        invariant g.Path(g.Page(v)) == g.Digits(rest, g.depth - i) + path
      {
        path := [Remainder(rest, g.pageSize)] + path;
        rest := Quotient(rest, g.pageSize);
        i := i + 1;
      }
      path := [Remainder(rest, g.rootSize)] + path;
    }

    // ---------- evict ----------

    method ClearFrame(f: nat)
      requires Sized(g, ram[..]) && 0 < g.pageSize && f < ram.Length
      modifies ram
      ensures ram[..] == old(ram[..])[f := Zeros(g.pageSize)]
    {
      var i := 0;
      while i < g.pageSize
        invariant 0 <= i <= g.pageSize
        invariant Sized(g, ram[..])
        invariant ram[..] == old(ram[..])[f := ram[f]]
        invariant forall k :: 0 <= k < i ==> ram[f][k] == 0
      {
        DivModUnique(f, i, g.pageSize);
        MulBound(f, i, g.pageSize, g.numFrames);
        PMwrite(f * g.pageSize + i, 0);
        i := i + 1;
      }
      assert |ram[..][f]| == g.pageSize;
      assert ram[f] == Zeros(g.pageSize);
    }

    /** The source ors the words of the table together. */
    method HasEntries(table: nat, d: nat) returns (flag: bool)
      requires Sized(g, ram[..]) && 0 < g.pageSize && table < ram.Length && 0 < d
      ensures flag == !Clear(ram[..], table)
    {
      flag := false;
      var i := 0;
      while i < g.pageSize
        invariant 0 <= i <= g.pageSize == |ram[..][table]|
        invariant flag <==> exists k :: 0 <= k < i && ram[..][table][k] != 0
      {
        DivModUnique(table, i, g.pageSize);
        MulBound(table, i, g.pageSize, g.numFrames);
        var word := PMread(g.Convert(i, table, d));
        assert word == ram[..][table][i];
        flag := flag || word != 0;
        i := i + 1;
      }
    }

    method PruneAncestors(table0: nat, d0: nat)
      requires Sized(g, ram[..]) && 0 < g.rootSize && 0 < g.pageSize && table0 < ram.Length
      modifies ram
      ensures ram[..] == Prune(g, old(ram[..]), table0, d0)
    {
      var table: nat, d: nat := table0, d0;
      while d > 0
        invariant Sized(g, ram[..]) && table < ram.Length
        invariant Prune(g, ram[..], table, d) == Prune(g, old(ram[..]), table0, d0)
      {
        var flag := HasEntries(table, d);
        if flag {
          return;
        }
        QuotientShrinks(table, g.Radix(d - 1));
        FrameAddress(g, table);
        PMwrite(table, 0);
        d := d - 1;
        table := Quotient(table, g.Radix(d));
      }
    }

    /** The victim is unlinked, saved and zeroed, in the order of the mode. */
    method Evict(ghost v: nat) returns (f: nat)
      requires Shape(g, ram[..], t) && 0 < g.depth && IsPage(g, t, v)
      requires Victim(g, ram[..]) == Record(g, ram[..], t, v)
      requires Victim(g, ram[..]).pageNum < g.NumPages() && Victim(g, ram[..]).pageNum !in swap
      modifies this`swap, ram
      ensures f == v
      ensures Now() == if repaired then EvictRepaired(g, old(Now())) else EvictAsWritten(g, old(Now()))
    {
      NonRootPath(g, ram[..], t, 0);
      FatherSlot(g, ram[..], t, v);
      var max := FindMaxFrameWeight(0, StartRecord(), NoRecord());
      PMwrite(max.father, 0);
      if repaired {
        PMevict(max.pAddr, max.pageNum);
        ClearFrame(max.pAddr);
      } else {
        ClearFrame(max.pAddr);
        PMevict(max.pAddr, max.pageNum);
        PruneAncestors(Quotient(max.father, g.pageSize), max.depth - 1);
      }
      f := max.pAddr;
    }

    // ---------- Serving faults ----------

    /** findFreeTable while the missing slot j of table h, at address `addr`, points back at its own
        table. */
    method Reclaim(addr: nat, ghost h: nat, ghost j: nat) returns (frame: int)
      requires FreeEntry(g, t, h, j, ram[..]) && addr == g.Convert(j, h, |t[h].path|)
      modifies ram
      ensures match FreeSlot(g, Marked(old(ram[..]), h, j), 0, 0, 0)
              case None => frame == -1 && ram[..] == old(ram[..])
              case Some((p, i)) => p < |t| && i < g.pageSize && frame == old(ram[..])[p][i] > 0
                                   && ram[..] == SetSlot(old(ram[..]), p, i, 0)
      ensures Sized(g, ram[..])
      ensures frame == -1 <==> NothingFree(g, old(ram[..]), t, h)
      ensures frame != -1 ==> 0 < frame && IsFirst(g, old(ram[..]), t, h, frame)
    {
      ghost var m := ram[..];
      ghost var found := FreeSlot(g, Marked(m, h, j), 0, 0, 0);
      SlotAddress(g, m, t, h, j);
      Unmarked(m, h, j, h, j);
      FreeSlotExact(g, m, t, h, j);
      if found.Some? {
        ReclaimedIsFirst(g, m, t, h, j);
        FreeSlotFound(g, m, t, h, j, 0, 0, 0);
        Unmarked(m, h, j, found.value.0, found.value.1);
      }
      PMwrite(addr, Quotient(addr, g.pageSize));
      frame := FindFreeTable(0, 0, m, h, j);
      PMwrite(addr, 0);
    }

    /** A frame for the missing slot j of table h: reclaimed, else fresh, else evicted. */
    method ProvideFrame(addr: nat, ghost h: nat, ghost j: nat) returns (frame: nat, evicted: bool)
      requires Valid() && FreeEntry(g, t, h, j, ram[..]) && addr == g.Convert(j, h, |t[h].path|)
      modifies this`swap, ram
      ensures (Now(), frame) == Provided(g, old(Now()), h, j, repaired)
      ensures Sized(g, ram[..])
      ensures evicted == WillEvict(g, old(ram[..]), h, j)
    {
      ghost var before := Now();
      ProvidedIs(g, before, h, j, repaired);
      TreeSizeExact(g, before.m, t);
      var emptyFrame := Reclaim(addr, h, j);
      evicted := false;
      if emptyFrame == -1 {
        emptyFrame := MaxFrame(0, 0);
        if emptyFrame >= g.numFrames {
          emptyFrame := EvictFor(h, j);
          evicted := true;
        }
      }
      frame := emptyFrame;
    }

    /** The eviction for the missing slot j of table h. */
    method EvictFor(ghost h: nat, ghost j: nat) returns (frame: nat)
      requires Valid() && FreeEntry(g, t, h, j, ram[..]) && WillEvict(g, ram[..], h, j)
      modifies this`swap, ram
      ensures Now() == if repaired then EvictRepaired(g, old(Now())) else EvictAsWritten(g, old(Now()))
      ensures frame == Victim(g, old(ram[..])).pAddr && Sized(g, ram[..])
    {
      ghost var before := Now();
      ghost var v := VictimIsUsed(g, before, t, h, j);
      assert InTree(t, v) && Mapped(g, t, Victim(g, before.m).pageNum);
      frame := Evict(v);
      EvictKeepsSizes(g, before, t, v);
    }

    /** One round of the fault loop for the missing link that `val` reports. */
    method ServeFault(val: AddressState, page: nat, ghost h: nat, ghost j: nat) returns (evicted: bool)
      requires Valid()
      requires h < |t| && |t[h].path| == val.depth && val.addr == g.Convert(j, h, val.depth)
      requires FaultAt(g, Now(), t, h, j, val.depth == g.depth - 1, page)
      modifies this`swap, ram
      ensures Now() == Served(g, old(Now()), h, j, val.depth == g.depth - 1, page, repaired)
      ensures evicted == WillEvict(g, old(ram[..]), h, j)
    {
      SlotAddress(g, ram[..], t, h, j);
      var frame;
      frame, evicted := ProvideFrame(val.addr, h, j);
      PMwrite(val.addr, frame);
      if val.depth == g.depth - 1 {
        ProvidedInRange(g, old(Now()), t, h, j, repaired);
        PMrestore(frame, page);
      }
    }

    /** A fault round and the search that follows it. The missing link moves down. */
    method Round(val: AddressState, path: seq<nat>, page: nat) returns (next: AddressState, lost: bool)
      requires Valid() && path == g.Path(page) && val.missing && Found(g, ram[..], t, val, path)
      modifies this, ram
      ensures lost <==> !repaired && FaultEvicts(g, old(ram[..]), path, val.depth)
      ensures lost ==> LosesPage(g, old(Now()), Now())
      ensures !lost ==> Shape(g, ram[..], t) && Found(g, ram[..], t, next, path)
      ensures !lost && next.missing ==> next.depth > val.depth
      ensures !lost && (next.missing || Harmless(g, old(swap), page)) ==> Valid() && SameContents(g, old(Now()), Now())
      ensures !lost && !next.missing && !Harmless(g, old(swap), page) ==> !SameContents(g, old(Now()), Now())
    {
      ghost var before, tree := Now(), t;
      MissingIsFault(g, before, tree, path, val.depth, page);
      var evicted := ServeFault(val, page, Walk(ram[..], path[..val.depth]), path[val.depth]);
      lost := evicted && !repaired;
      next := val;
      if lost {
        RoundLoses(g, before, Now(), tree, path, val.depth, page);
      } else {
        next := SearchOn(val.depth, path, page, before, tree);
      }
    }

    /** The search after a round that lost nothing. */
    method SearchOn(d: nat, path: seq<nat>, page: nat, ghost before: Store, ghost tree: seq<Node>)
      returns (next: AddressState)
      requires Sound(g, before, tree) && path == g.Path(page) && MissingAt(g, before, tree, path, d)
      requires repaired || (!FaultEvicts(g, before.m, path, d) && before.swap == map[])
      requires Now() == Served(g, before, Walk(before.m, path[..d]), path[d], d == g.depth - 1, page, repaired)
      modifies this`t
      ensures Shape(g, ram[..], t) && Found(g, ram[..], t, next, path)
      ensures next.missing ==> next.depth > d
      ensures next.missing || Harmless(g, before.swap, page) ==> Valid() && SameContents(g, before, Now())
      ensures !next.missing && !Harmless(g, before.swap, page) ==> !SameContents(g, before, Now())
    {
      t := RoundKeeps(g, before, Now(), tree, path, d, page, repaired);
      next := Search(path);
      RoundThenSearch(g, before, Now(), t, path, d, page, next);
    }

    /** Faults a page in. As written, the call is followed up to its first eviction, which loses a
        page: `lost` reports that, and it happens exactly when the page and the pages in use do not
        fit into RAM with their tables. Otherwise the page ends up in the frame that is returned; what
        all pages hold is unchanged exactly when no out-of-range page number aliases a page that
        is in the swap file. The loop ends because every round moves the missing link down. */
    method GetPAddr(v: nat) returns (val: AddressState, lost: bool)
      requires Valid()
      modifies this, ram
      ensures lost <==> !repaired && !Fits(g, old(Flat()), v)
      ensures lost ==> LosesPage(g, old(Now()), Now()) && Memory() != old(Memory())
      ensures !lost ==> Shape(g, ram[..], t) && !val.missing && Found(g, ram[..], t, val, g.Path(g.Page(v)))
      ensures !lost && Harmless(g, old(swap), g.Page(v)) ==>
                Valid() && Memory() == old(Memory()) && Flat() == old(Flat())
      ensures !lost && !Harmless(g, old(swap), g.Page(v)) ==> Memory() != old(Memory())
    {
      ghost var start, tree := Now(), t;
      ghost var harmless := Harmless(g, swap, g.Page(v));
      var path := GetPath(v);
      val := Search(path);
      lost := false;
      if !val.missing {
        MappedIsHarmless(g, Now(), t, g.Page(v));
      }
      while val.missing
        invariant Shape(g, ram[..], t) && Found(g, ram[..], t, val, path)
        invariant val.missing || harmless ==> Valid() && SameContents(g, start, Now())
        invariant !val.missing && !harmless ==> !SameContents(g, start, Now())
        invariant val.missing ==> Walk(start.m, path) == -1
        decreases if val.missing then g.depth - val.depth else 0
      {
        val, lost := FaultIn(val, path, v, start, tree);
        if lost {
          return;
        }
      }
      FaultedIn(g, Now(), t, v, repaired, start, harmless);
    }

    /** The body of that loop, seen from the state in which the call began. */
    method FaultIn(val: AddressState, path: seq<nat>, v: nat, ghost start: Store, ghost tree: seq<Node>)
      returns (next: AddressState, lost: bool)
      requires Valid() && path == g.Path(g.Page(v)) && val.missing && Found(g, ram[..], t, val, path)
      requires Sound(g, start, tree) && SameContents(g, start, Now()) && Walk(start.m, path) == -1
      modifies this, ram
      ensures lost ==> !repaired && !Fits(g, FlatView(g, start), v)
      ensures lost ==> LosesPage(g, start, Now()) && PageView(g, Now()) != PageView(g, start)
      ensures !lost ==> Shape(g, ram[..], t) && Found(g, ram[..], t, next, path)
      ensures !lost && next.missing ==> next.depth > val.depth
      ensures !lost && (next.missing || Harmless(g, start.swap, g.Page(v))) ==>
                Valid() && SameContents(g, start, Now())
      ensures !lost && !next.missing && !Harmless(g, start.swap, g.Page(v)) ==> !SameContents(g, start, Now())
    {
      ghost var before := Now();
      AliasInSwap(g, start, before, tree, t, g.Page(v));
      SameFlat(g, start, before);
      if !repaired && FaultEvicts(g, before.m, path, val.depth) {
        FaultNeedsRoom(g, before, t, v, val.depth);
      }
      next, lost := Round(val, path, g.Page(v));
      if lost {
        LostIsDifferent(g, start, before, Now());
      }
    }

    // ---------- The library calls ----------

    /** A read returns the word of the flat memory and leaves that memory as it is. Out-of-range
        addresses return 0; those below the first check fault in the page they alias. */
    method VMread(v: nat) returns (ret: int, value: int, lost: bool)
      requires Valid()
      modifies this, ram
      ensures lost <==> !repaired && v < g.VirtualSize() * WORD_VALUES && !Fits(g, old(Flat()), v)
      ensures lost ==> LosesPage(g, old(Now()), Now()) && Memory() != old(Memory())
      ensures !lost && v < g.VirtualSize() ==> ret == 1 && value == old(Flat())[v]
      ensures !lost && v < g.VirtualSize() ==> Valid() && Flat() == old(Flat())
      ensures !lost && v >= g.VirtualSize() ==> ret == 0
      ensures !lost && v >= g.VirtualSize() * WORD_VALUES ==> Valid() && Memory() == old(Memory())
      ensures !lost && g.VirtualSize() <= v < g.VirtualSize() * WORD_VALUES ==>
                (Memory() == old(Memory()) <==> g.Alias(g.Page(v)) !in old(swap))
      ensures !lost && v >= g.VirtualSize() && g.Alias(g.Page(v)) !in old(swap) ==> Valid() && Flat() == old(Flat())
    {
      ret, value, lost := 0, 0, false;
      PageInRange(g, v);
      if v >= g.VirtualSize() * WORD_VALUES {
        return;
      }
      var val;
      val, lost := GetPAddr(v);
      if lost || v >= g.VirtualSize() {
        return;
      }
      WordAddress(g, ram[..], t, val.addr, v, val.depth);
      value := PMread(g.Convert(Remainder(v, g.pageSize), val.addr, val.depth));
      ContentsOf(g, ram[..], t, swap, g.Page(v));
      ret := 1;
    }

    /** A write changes exactly its own word of the flat memory. */
    method VMwrite(v: nat, value: int) returns (ret: int, lost: bool)
      requires Valid()
      modifies this, ram
      ensures lost <==> !repaired && v < g.VirtualSize() * WORD_VALUES && !Fits(g, old(Flat()), v)
      ensures lost ==> LosesPage(g, old(Now()), Now()) && Memory() != old(Memory())
      ensures !lost && v < g.VirtualSize() ==> ret == 1 && Valid() && Flat() == old(Flat())[v := value]
      ensures !lost && v >= g.VirtualSize() ==> ret == 0
      ensures !lost && v >= g.VirtualSize() * WORD_VALUES ==> Valid() && Memory() == old(Memory())
      ensures !lost && g.VirtualSize() <= v < g.VirtualSize() * WORD_VALUES ==>
                (Memory() == old(Memory()) <==> g.Alias(g.Page(v)) !in old(swap))
      ensures !lost && v >= g.VirtualSize() && g.Alias(g.Page(v)) !in old(swap) ==> Valid() && Flat() == old(Flat())
    {
      ret, lost := 0, false;
      PageInRange(g, v);
      if v >= g.VirtualSize() * WORD_VALUES {
        return;
      }
      var val;
      val, lost := GetPAddr(v);
      if lost || v >= g.VirtualSize() {
        return;
      }
      ghost var before := Now();
      WordAddress(g, ram[..], t, val.addr, v, val.depth);
      PMwrite(g.Convert(Remainder(v, g.pageSize), val.addr, val.depth), value);
      WordWritten(g, before, t, val.addr, v, value);
      ret := 1;
    }

    /** Transparency over a whole run: the replies are those of a flat array of words, and so is
        the memory at the end, through any number of evictions and restores. As written, the same
        holds exactly of the runs in which every access fits, and of the others the replies up to
        the first access that does not. */
    method Run(ops: seq<Op>) returns (replies: seq<int>, lost: bool)
      requires Valid() && forall k :: 0 <= k < |ops| ==> ops[k].v < g.VirtualSize()
      modifies this, ram
      ensures lost <==> !repaired && !RunFits(g, old(Flat()), ops)
      ensures !lost ==> Valid() && replies == Replies(old(Flat()), ops) && Flat() == After(old(Flat()), ops)
      ensures replies <= Replies(old(Flat()), ops)
    {
      replies, lost := [], false;
      ghost var start := Flat();
      for k := 0 to |ops|
        invariant Valid() && Flat() == After(start, ops[..k])
        invariant replies == Replies(start, ops[..k])
        invariant !repaired ==> RunFits(g, start, ops[..k])
      {
        RunStep(start, ops, k);
        if !repaired {
          FitsNext(g, start, ops, k);
        }
        var reply;
        reply, lost := Access(ops[k]);
        if lost {
          RepliesPrefix(start, ops, k);
          if RunFits(g, start, ops) {
            FitsBefore(g, start, ops, k + 1);
          }
          return;
        }
        replies := replies + reply;
      }
      assert ops[..|ops|] == ops;
    }

    /** One operation of a run. */
    method Access(op: Op) returns (reply: seq<int>, lost: bool)
      requires Valid() && op.v < g.VirtualSize()
      modifies this, ram
      ensures lost <==> !repaired && !Fits(g, old(Flat()), op.v)
      ensures !lost ==> Valid() && Flat() == Step(old(Flat()), op) && reply == Reply(old(Flat()), op)
    {
      PageInRange(g, op.v);
      reply := [];
      match op {
        case Read(v) =>
          var ret, value;
          ret, value, lost := VMread(v);
          reply := [value];
        case Write(v, value) =>
          var ret;
          ret, lost := VMwrite(v, value);
      }
    }

    ghost function Flat(): (mem: seq<int>)
      requires 0 < g.rootSize && 0 < g.pageSize
      reads this, ram
      ensures |mem| == g.VirtualSize()
    {
      FlatView(g, Now())
    }
  }

  /** A paged memory that has just been created answers every run like an array of zeros. */
  method RunFromStart(g: Geometry, repaired: bool, ops: seq<Op>) returns (replies: seq<int>, lost: bool)
    requires g.Valid() && forall k :: 0 <= k < |ops| ==> ops[k].v < g.VirtualSize()
    ensures lost <==> !repaired && !RunFits(g, Zeros(g.VirtualSize()), ops)
    ensures !lost ==> replies == Replies(Zeros(g.VirtualSize()), ops)
  {
    var memory := new PagedMemory(g, repaired);
    ghost var mem := memory.Flat();
    forall v | 0 <= v < g.VirtualSize()
      ensures mem[v] == 0
    {
      PageInRange(g, v);
      assert memory.Memory()[g.Page(v)] == Zeros(g.pageSize);
    }
    assert mem == Zeros(g.VirtualSize());
    replies, lost := memory.Run(ops);
  }

  /** The final Convert of an access addresses the page's own frame. */
  lemma WordAddress(g: Geometry, m: Frames, t: seq<Node>, f: nat, v: nat, d: nat)
    requires Shape(g, m, t) && f < |t| && |t[f].path| == g.depth
    requires d == if g.depth == 0 then 0 else g.depth - 1
    ensures var a := g.Convert(Remainder(v, g.pageSize), f, d);
            a < g.RamSize() && Quotient(a, g.pageSize) == f && Remainder(a, g.pageSize) == Remainder(v, g.pageSize)
  {
    NonRootPath(g, m, t, f);
    var r := Remainder(v, g.pageSize);
    assert g.Convert(r, f, d) == f * g.pageSize + r;
    DivModUnique(f, r, g.pageSize);
    MulBound(f, r, g.pageSize, g.numFrames);
  }

  lemma WordWritten(g: Geometry, s: Store, t: seq<Node>, f: nat, v: nat, x: int)
    requires Sound(g, s, t) && IsPage(g, t, f) && t[f].path == g.Path(g.Page(v)) && v < g.VirtualSize()
    ensures var s' := Store(SetSlot(s.m, f, Remainder(v, g.pageSize), x), s.swap);
            Sound(g, s', t) && FlatView(g, s') == FlatView(g, s)[v := x]
  {
    var i := Remainder(v, g.pageSize);
    var words := s.m[f][i := x];
    var s' := Store(s.m[f := words], s.swap);
    PageWordsAreFree(g, s.m, t, f, words);
    forall u | 0 <= u < g.VirtualSize()
      ensures WordOf(g, s', u) == if u == v then x else WordOf(g, s, u)
    {
      PageInRange(g, u);
      PageInRange(g, v);
      if g.Path(g.Page(u)) == t[f].path {
        PathNamesPage(g, g.Page(u), g.Page(v));
        ContentsOf(g, s.m, t, s.swap, g.Page(u));
        ContentsOf(g, s'.m, t, s.swap, g.Page(u));
      } else {
        OtherPageWords(g, s.m, t, s.swap, s.swap, f, words, g.Page(u));
      }
    }
  }

  /** Whether an unmapped page is in the swap file can be told from its contents. */
  lemma AliasInSwap(g: Geometry, s: Store, s': Store, t: seq<Node>, t': seq<Node>, q: nat)
    requires Sound(g, s, t) && Sound(g, s', t') && SameContents(g, s, s')
    requires Walk(s.m, g.Path(q)) == -1 && Walk(s'.m, g.Path(q)) == -1
    ensures Harmless(g, s.swap, q) == Harmless(g, s'.swap, q)
  {
    AliasOfPage(g, q);
    var a := g.Alias(q);
    assert Contents(g, s.m, s.swap, a) == Contents(g, s'.m, s'.swap, a);
  }

  /** A mapped page is not in the swap file, so faulting it in under an alias is harmless. */
  lemma MappedIsHarmless(g: Geometry, s: Store, t: seq<Node>, q: nat)
    requires Sound(g, s, t) && Walk(s.m, g.Path(q)) >= 0
    ensures Harmless(g, s.swap, q)
  {
    AliasOfPage(g, q);
    WalkFinds(g, s.m, t, g.Path(q));
    assert InTree(t, Walk(s.m, g.Path(q)));
  }

  /** The link at depth d is the first one missing on the path. */
  ghost predicate MissingAt(g: Geometry, s: Store, t: seq<Node>, path: seq<nat>, d: nat)
    requires |path| == g.depth
  {
    && d < g.depth
    && var h := Walk(s.m, path[..d]);
       0 <= h < |t| && t[h].path == path[..d] && FreeEntry(g, t, h, path[d], s.m)
  }

  lemma MissingIsFault(g: Geometry, s: Store, t: seq<Node>, path: seq<nat>, d: nat, page: nat)
    requires Sound(g, s, t) && path == g.Path(page) && MissingAt(g, s, t, path, d)
    ensures FaultAt(g, s, t, Walk(s.m, path[..d]), path[d], d == g.depth - 1, page)
    ensures path[..d] + [path[d]] == path[..d + 1]
  {
    assert d == g.depth - 1 ==> path[..d + 1] == path;
  }

  /** What a round that loses no victim leaves, in terms of the path it serves. */
  ghost predicate RoundOutcome(g: Geometry, s: Store, s': Store, t': seq<Node>, path: seq<nat>, d: nat, page: nat)
    requires 0 < g.rootSize && 0 < g.pageSize && d < g.depth == |path|
  {
    && Shape(g, s'.m, t') && Walk(s'.m, path[..d + 1]) > 0
    && (d < g.depth - 1 ==> Walk(s'.m, path) == -1)
    && (d < g.depth - 1 || Harmless(g, s.swap, page) ==> Sound(g, s', t') && SameContents(g, s, s'))
    && (d == g.depth - 1 && !Harmless(g, s.swap, page) ==> !SameContents(g, s, s'))
  }

  lemma RoundKeeps(g: Geometry, s: Store, s': Store, t: seq<Node>, path: seq<nat>, d: nat, page: nat, repaired: bool)
    returns (t': seq<Node>)
    requires Sound(g, s, t) && path == g.Path(page) && MissingAt(g, s, t, path, d)
    requires repaired || !WillEvict(g, s.m, Walk(s.m, path[..d]), path[d])
    requires s' == Served(g, s, Walk(s.m, path[..d]), path[d], d == g.depth - 1, page, repaired)
    ensures RoundOutcome(g, s, s', t', path, d, page)
    ensures !repaired && s.swap == map[] ==> s'.swap == map[]
  {
    MissingIsFault(g, s, t, path, d, page);
    t' := ServedLinks(g, s, t, Walk(s.m, path[..d]), path[d], d == g.depth - 1, page, repaired);
    ServedUnswapped(g, s, t, Walk(s.m, path[..d]), path[d], d == g.depth - 1, page);
    if d < g.depth - 1 {
      WalkStep(s'.m, path[..d + 1], path[d + 1]);
      assert path[..d + 2] == path[..d + 1] + [path[d + 1]];
      StoppedWalk(s'.m, path, d + 2);
    }
  }

  lemma RoundLoses(g: Geometry, s: Store, s': Store, t: seq<Node>, path: seq<nat>, d: nat, page: nat)
    requires Sound(g, s, t) && path == g.Path(page) && MissingAt(g, s, t, path, d)
    requires WillEvict(g, s.m, Walk(s.m, path[..d]), path[d])
    requires s' == Served(g, s, Walk(s.m, path[..d]), path[d], d == g.depth - 1, page, false)
    ensures LosesPage(g, s, s')
  {
    MissingIsFault(g, s, t, path, d, page);
    var v := AsWrittenLoses(g, s, t, Walk(s.m, path[..d]), path[d], d == g.depth - 1, page);
  }

  /** The fault for the link at depth d of the path evicts. */
  ghost predicate FaultEvicts(g: Geometry, m: Frames, path: seq<nat>, d: nat)
    requires d < |path|
  {
    var h := Walk(m, path[..d]);
    0 <= h < |m| && path[d] < |m[h]| && WillEvict(g, m, h, path[d])
  }

  /** Some page held a non-zero word and reads as zero now. */
  ghost predicate LosesPage(g: Geometry, s: Store, s': Store)
    requires 0 < g.rootSize && 0 < g.pageSize
  {
    exists p: nat :: p < g.NumPages()
      && Contents(g, s.m, s.swap, p) != Zeros(g.pageSize) == Contents(g, s'.m, s'.swap, p)
  }

  lemma FaultNeedsRoom(g: Geometry, s: Store, t: seq<Node>, v: nat, d: nat)
    requires Sound(g, s, t) && s.swap == map[] && MissingAt(g, s, t, g.Path(g.Page(v)), d)
    requires FaultEvicts(g, s.m, g.Path(g.Page(v)), d)
    ensures !Fits(g, FlatView(g, s), v)
  {
    var path := g.Path(g.Page(v));
    assert path[..d] + [path[d]] == path[..d + 1];
    EvictionNeedsRoom(g, s, t, Walk(s.m, path[..d]), path[d], v);
  }

  /** When the page is mapped at last. */
  lemma FaultedIn(g: Geometry, s: Store, t: seq<Node>, v: nat, repaired: bool, start: Store, harmless: bool)
    requires Shape(g, s.m, t) && Walk(s.m, g.Path(g.Page(v))) >= 0
    requires harmless ==> Sound(g, s, t) && SameContents(g, start, s)
    requires !harmless ==> !SameContents(g, start, s)
    requires harmless && !repaired ==> s.swap == map[]
    ensures PageView(g, s) == PageView(g, start) <==> harmless
    ensures harmless ==> FlatView(g, s) == FlatView(g, start)
    ensures harmless && !repaired ==> Fits(g, FlatView(g, start), v)
  {
    SameView(g, start, s);
    if harmless {
      SameFlat(g, start, s);
      if !repaired {
        MappedFits(g, s, t, v);
      }
    }
  }

  lemma LostIsDifferent(g: Geometry, start: Store, s: Store, s': Store)
    requires 0 < g.rootSize && 0 < g.pageSize && SameContents(g, start, s) && LosesPage(g, s, s')
    ensures LosesPage(g, start, s') && PageView(g, s') != PageView(g, start)
  {
    var p: nat :| p < g.NumPages()
      && Contents(g, s.m, s.swap, p) != Zeros(g.pageSize) == Contents(g, s'.m, s'.swap, p);
    assert PageView(g, s')[p] != PageView(g, start)[p];
  }

  lemma RoundThenSearch(g: Geometry, s: Store, s': Store, t': seq<Node>, path: seq<nat>, d: nat, page: nat,
    next: AddressState)
    requires g.Valid() && d < g.depth == |path| && RoundOutcome(g, s, s', t', path, d, page)
    requires Found(g, s'.m, t', next, path)
    ensures next.missing ==> next.depth > d
    ensures next.missing || Harmless(g, s.swap, page) ==> Sound(g, s', t') && SameContents(g, s, s')
    ensures !next.missing && !Harmless(g, s.swap, page) ==> !SameContents(g, s, s')
  {
    WalkedPast(s'.m, path, d + 1, next);
  }

  /** A system that never swapped still has not, unless this round evicts. */
  lemma ServedUnswapped(g: Geometry, s: Store, t: seq<Node>, h: nat, j: nat, leaf: bool, q: nat)
    requires FaultAt(g, s, t, h, j, leaf, q)
    ensures s.swap == map[] && !WillEvict(g, s.m, h, j) ==> Served(g, s, h, j, leaf, q, false).swap == map[]
  {
  }

  /** A search cannot stop above a prefix that the walk has passed. */
  lemma WalkedPast(m: Frames, path: seq<nat>, d: nat, r: AddressState)
    requires d <= |path| && Walk(m, path[..d]) >= 0
    requires r.missing ==> r.depth < |path| && Walk(m, path) == -1 && Walk(m, path[..r.depth + 1]) == -1
    ensures r.missing ==> r.depth >= d
  {
    if r.missing && r.depth < d {
      assert path[..d][..r.depth + 1] == path[..r.depth + 1];
      StoppedWalk(m, path[..d], r.depth + 1);
    }
  }

  /** The three branches of a round. */
  lemma ProvidedIs(g: Geometry, s: Store, h: nat, j: nat, repaired: bool)
    requires 0 < g.rootSize && 0 < g.pageSize && 0 < g.depth
    requires h < |s.m| && j < |s.m[h]|
    ensures var found, r := FreeSlot(g, Marked(s.m, h, j), 0, 0, 0), Provided(g, s, h, j, repaired);
            && (forall p: nat, i: nat :: found == Some((p, i)) && p < |s.m| && i < |s.m[p]| && s.m[p][i] >= 0 ==>
                  r == (Store(SetSlot(s.m, p, i, 0), s.swap), s.m[p][i] as nat))
            && (found.None? && TreeSize(g, s.m) < g.numFrames ==> r == (s, TreeSize(g, s.m)))
            && (WillEvict(g, s.m, h, j) ==>
                  r == (if repaired then EvictRepaired(g, s) else EvictAsWritten(g, s), Victim(g, s.m).pAddr))
            && (found.Some? || TreeSize(g, s.m) < g.numFrames ==> !WillEvict(g, s.m, h, j))
  {
  }

  lemma ProvidedInRange(g: Geometry, s: Store, t: seq<Node>, h: nat, j: nat, repaired: bool)
    requires Sound(g, s, t) && FreeEntry(g, t, h, j, s.m)
    ensures Provided(g, s, h, j, repaired).1 < g.numFrames
  {
    TreeSizeExact(g, s.m, t);
    if FreeSlot(g, Marked(s.m, h, j), 0, 0, 0).Some? {
      FreeSlotFound(g, s.m, t, h, j, 0, 0, 0);
    } else if WillEvict(g, s.m, h, j) {
      var v := VictimIsUsed(g, s, t, h, j);
    }
  }

  lemma QuotientShrinks(a: nat, n: nat)
    requires 0 < n
    ensures Quotient(a, n) <= a
  {
    var q := Quotient(a, n);
    MulMonotone(1, n, q);
    assert q * n == n * q;
  }

  /** Removing the marker restores RAM, whether or not a slot was zeroed meanwhile. */
  lemma Unmarked(m: Frames, h: nat, j: nat, p: nat, i: nat)
    requires h < |m| && j < |m[h]| && m[h][j] == 0 && p < |m| && i < |m[p]|
    ensures SetSlot(Marked(m, h, j), h, j, 0) == m
    ensures SetSlot(SetSlot(Marked(m, h, j), p, i, 0), h, j, 0) == SetSlot(m, p, i, 0)
  {
    assert m[h][j := h][j := 0] == m[h];
    assert m[h := m[h]] == m;
    if p == h {
      assert m[h][j := h][i := 0][j := 0] == m[h][i := 0];
    }
  }

  lemma EvictKeepsSizes(g: Geometry, s: Store, t: seq<Node>, v: nat)
    requires Shape(g, s.m, t) && 0 < g.depth && IsPage(g, t, v) && Victim(g, s.m) == Record(g, s.m, t, v)
    ensures Sized(g, EvictRepaired(g, s).m) && Sized(g, EvictAsWritten(g, s).m)
  {
    FatherSlot(g, s.m, t, v);
    var m1 := SetSlot(s.m, t[v].parent, Last(t[v].path), 0)[v := Zeros(g.pageSize)];
    PruneOnlyZeroes(g, m1, t[v].parent, g.depth - 1);
  }

  /** A frame number, taken as an address, is inside RAM. */
  lemma FrameAddress(g: Geometry, f: nat)
    requires 0 < g.pageSize && f < g.numFrames
    ensures f < g.RamSize()
  {
    MulMonotone(1, g.pageSize, g.numFrames);
    assert g.pageSize * g.numFrames == g.numFrames * g.pageSize;
  }

  /** A walk that has stopped stays stopped. */
  lemma {:induction false} StoppedWalk(m: Frames, path: seq<nat>, i: nat)
    requires i <= |path| && Walk(m, path[..i]) == -1
    ensures Walk(m, path) == -1
    decreases |path|
  {
    if i == |path| {
      assert path[..i] == path;
    } else {
      assert path[..|path| - 1][..i] == path[..i];
      StoppedWalk(m, path[..|path| - 1], i);
    }
  }
}
