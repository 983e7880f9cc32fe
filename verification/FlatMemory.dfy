/** What a client of the paged memory sees: a flat array of words, and runs on such an array. */
module FlatMemory {
  import opened Geometry
  import opened PageTree
  import opened FaultStep

  /** 2 to the power WORD_WIDTH. */
  const WORD_VALUES: nat := 0x1_0000_0000

  lemma WordWidth()
    ensures WORD_VALUES == Pow2(32)
  {
    assert Pow2(4) == 2 * Pow2(3) && Pow2(3) == 2 * Pow2(2) && Pow2(2) == 2 * Pow2(1) && Pow2(1) == 2 * Pow2(0);
    Pow2Add(4, 4);
    Pow2Add(8, 8);
    Pow2Add(16, 16);
  }

  /** The contents of all pages: the flat memory that a client sees. */
  ghost function PageView(g: Geometry, s: Store): (r: seq<seq<int>>)
    requires 0 < g.rootSize && 0 < g.pageSize
    ensures |r| == g.NumPages()
  {
    seq(g.NumPages(), p requires 0 <= p => Contents(g, s.m, s.swap, p))
  }

  lemma SameView(g: Geometry, s: Store, s': Store)
    requires 0 < g.rootSize && 0 < g.pageSize
    ensures PageView(g, s') == PageView(g, s) <==> SameContents(g, s, s')
  {
    if PageView(g, s') == PageView(g, s) {
      forall p | 0 <= p < g.NumPages()
        ensures Contents(g, s'.m, s'.swap, p) == Contents(g, s.m, s.swap, p)
      {
        assert PageView(g, s')[p] == PageView(g, s)[p];
      }
    }
  }

  ghost function WordOf(g: Geometry, s: Store, v: nat): int
    requires 0 < g.rootSize && 0 < g.pageSize
  {
    var page := Contents(g, s.m, s.swap, g.Page(v));
    if Remainder(v, g.pageSize) < |page| then page[Remainder(v, g.pageSize)] else 0
  }

  ghost function FlatView(g: Geometry, s: Store): (mem: seq<int>)
    requires 0 < g.rootSize && 0 < g.pageSize
    ensures |mem| == g.VirtualSize()
    ensures forall v :: 0 <= v < g.VirtualSize() ==> mem[v] == WordOf(g, s, v)
  {
    seq(g.VirtualSize(), v requires 0 <= v => WordOf(g, s, v))
  }

  lemma PageInRange(g: Geometry, v: nat)
    requires g.Valid()
    ensures v < g.VirtualSize() <==> g.Page(v) < g.NumPages()
    ensures v >= g.VirtualSize() ==> g.Page(v) >= g.NumPages()
    ensures g.VirtualSize() <= g.VirtualSize() * WORD_VALUES
  {
    var q, r := Quotient(v, g.pageSize), Remainder(v, g.pageSize);
    if v < g.VirtualSize() {
      QuotientBound(q, r, g.pageSize, g.NumPages());
    } else if q < g.NumPages() {
      MulBound(q, r, g.pageSize, g.NumPages());
      assert false;
    }
  }

  lemma SameFlat(g: Geometry, s: Store, s': Store)
    requires g.Valid() && SameContents(g, s, s')
    ensures FlatView(g, s') == FlatView(g, s)
  {
    forall v | 0 <= v < g.VirtualSize()
      ensures WordOf(g, s', v) == WordOf(g, s, v)
    {
      PageInRange(g, v);
    }
  }

  // ---------- Runs on a flat array ----------

  datatype Op = Read(v: nat) | Write(v: nat, value: int)

  function Step(mem: seq<int>, op: Op): seq<int> {
    match op
    case Read(_) => mem
    case Write(v, value) => if v < |mem| then mem[v := value] else mem
  }

  function Reply(mem: seq<int>, op: Op): seq<int> {
    match op
    case Read(v) => [if v < |mem| then mem[v] else 0]
    case Write(_, _) => []
  }

  /** The memory after a run on a flat array of words. */
  function After(mem: seq<int>, ops: seq<Op>): seq<int> {
    if ops == [] then mem else Step(After(mem, ops[..|ops| - 1]), ops[|ops| - 1])
  }

  /** What the reads of a run on a flat array of words return. */
  function Replies(mem: seq<int>, ops: seq<Op>): seq<int> {
    if ops == [] then []
    else
      var init := ops[..|ops| - 1];
      Replies(mem, init) + Reply(After(mem, init), ops[|ops| - 1])
  }

  lemma RunStep(mem: seq<int>, ops: seq<Op>, k: nat)
    requires k < |ops|
    ensures After(mem, ops[..k + 1]) == Step(After(mem, ops[..k]), ops[k])
    ensures Replies(mem, ops[..k + 1]) == Replies(mem, ops[..k]) + Reply(After(mem, ops[..k]), ops[k])
  {
    assert ops[..k + 1][..k] == ops[..k];
  }

  /** The replies of a run start with those of its beginning. */
  lemma {:induction false} RepliesPrefix(mem: seq<int>, ops: seq<Op>, k: nat)
    requires k <= |ops|
    ensures Replies(mem, ops[..k]) <= Replies(mem, ops)
    decreases |ops| - k
  {
    if k < |ops| {
      RunStep(mem, ops, k);
      RepliesPrefix(mem, ops, k + 1);
    } else {
      assert ops[..k] == ops;
    }
  }
}
