/** The sizes of the paging system and the mixed-radix numbering of pages.

    A page number is cut into one digit per table level. Every level but the top one has
    `pageSize` entries; the root table has `rootSize` entries, which is smaller when the
    virtual address width is not a multiple of the offset width. */
module Geometry {

  function Pow2(n: nat): (r: nat)
    ensures r > 0
  {
    if n == 0 then 1 else 2 * Pow2(n - 1)
  }

  /** The bits above a mask of width log2(n), as the source's right shift yields them. */
  function Quotient(a: nat, n: nat): (q: nat)
    requires 0 < n
  {
    a / n
  }

  /** The bits under that mask. */
  function Remainder(a: nat, n: nat): (r: nat)
    requires 0 < n
    ensures r < n
    ensures Quotient(a, n) * n + r == a
  {
    a % n
  }

  /** The four numbers every other paging module works with. */
  datatype Geometry = Geometry(pageSize: nat, rootSize: nat, depth: nat, numFrames: nat) {

    /** The last clause is what the final address computation of an access needs
        (LastConvertStaysInFrame); `depth < numFrames` leaves room for one path and its page. */
    ghost predicate Valid() {
      && 0 < rootSize <= pageSize
      && depth < numFrames
      && (depth == 1 ==> rootSize == pageSize)
    }

    /** The number of entries of a table at depth d. */
    function Radix(d: nat): nat {
      if d == 0 then rootSize else pageSize
    }

    /** The word address of entry `offset` of frame `frame`, when read at depth d. */
    function Convert(offset: nat, frame: nat, d: nat): nat {
      if d == 0 then frame * rootSize + offset else frame * pageSize + offset
    }

    /** How many digit strings of length d there are. */
    function Count(d: nat): nat {
      if d == 0 then 1 else Count(d - 1) * Radix(d - 1)
    }

    function NumPages(): nat {
      Count(depth)
    }

    function VirtualSize(): nat {
      NumPages() * pageSize
    }

    function RamSize(): nat {
      numFrames * pageSize
    }

    /** The digits of a page number, root digit first; higher bits are dropped. */
    function Digits(page: nat, d: nat): (path: seq<nat>)
      requires 0 < rootSize && 0 < pageSize
      ensures |path| == d && InRange(path)
      decreases d
    {
      if d == 0 then []
      else
        var n := Radix(d - 1);
        Digits(Quotient(page, n), d - 1) + [Remainder(page, n)]
    }

    /** Every digit fits its level. */
    predicate InRange(path: seq<nat>) {
      forall i :: 0 <= i < |path| ==> path[i] < Radix(i)
    }

    /** Reads a digit string as a number by folding Convert over it, as the victim search does. */
    function Fold(path: seq<nat>): nat {
      if path == [] then 0
      else Convert(path[|path| - 1], Fold(path[..|path| - 1]), |path| - 1)
    }

    function Page(v: nat): nat
      requires 0 < pageSize
    {
      Quotient(v, pageSize)
    }

    /** The digits that the walk for page number `page` follows. */
    function Path(page: nat): (path: seq<nat>)
      requires 0 < rootSize && 0 < pageSize
      ensures |path| == depth && InRange(path)
    {
      Digits(page, depth)
    }

    /** The page whose walk an out-of-range page number aliases. */
    function Alias(page: nat): (r: nat)
      requires 0 < rootSize && 0 < pageSize
    {
      Fold(Path(page))
    }
  }

  lemma MulMonotone(a: int, b: int, n: nat)
    requires a <= b
    ensures a * n <= b * n
  {
  }

  lemma DivModDistance(q: int, r: int, x: int, y: int, n: int)
    requires 0 <= r < n && 0 <= y < n
    requires q * n + r == x * n + y
    ensures q == x && r == y
  {
    if q < x {
      MulMonotone(q + 1, x, n);
      assert false;
    } else if x < q {
      MulMonotone(x + 1, q, n);
      assert false;
    }
  }

  lemma DivModUnique(q: nat, r: nat, n: nat)
    requires r < n
    ensures Quotient(q * n + r, n) == q && Remainder(q * n + r, n) == r
  {
    var x := (q * n + r) / n;
    var y := (q * n + r) % n;
    assert q * n + r == x * n + y;
    DivModDistance(q, r, x, y, n);
  }

  lemma MulBound(q: nat, r: nat, n: nat, m: nat)
    requires q < m && r < n
    ensures q * n + r < m * n
  {
    assert (q + 1) * n <= m * n;
  }

  lemma QuotientBound(q: nat, r: nat, n: nat, m: nat)
    requires r < n && q * n + r < m * n
    ensures q < m
  {
    assert (q - m) * n < 0;
  }

  /** Folding the digits of a page gives back the page, for every page the digits can hold. */
  lemma {:induction false} FoldOfDigits(g: Geometry, page: nat, d: nat)
    requires 0 < g.rootSize && 0 < g.pageSize
    requires page < g.Count(d)
    ensures g.Fold(g.Digits(page, d)) == page
    decreases d
  {
    if d > 0 {
      var n := g.Radix(d - 1);
      var path := g.Digits(page, d);
      var q, r := Quotient(page, n), Remainder(page, n);
      assert q * n + r == page;
      QuotientBound(q, r, n, g.Count(d - 1));
      FoldOfDigits(g, q, d - 1);
      assert path == g.Digits(q, d - 1) + [r];
      assert path[..d - 1] == g.Digits(q, d - 1);
      assert g.Fold(path) == q * n + r;
    }
  }

  /** Appending a digit to a string appends it to the digits of the number it folds to. */
  lemma DigitsAppend(g: Geometry, q: nat, x: nat, d: nat)
    requires 0 < g.rootSize && 0 < g.pageSize && x < g.Radix(d) && q < g.Count(d)
    ensures g.Digits(q * g.Radix(d) + x, d + 1) == g.Digits(q, d) + [x]
    ensures q * g.Radix(d) + x < g.Count(d + 1)
  {
    DivModUnique(q, x, g.Radix(d));
    MulBound(q, x, g.Radix(d), g.Count(d));
  }

  lemma FoldStep(g: Geometry, path: seq<nat>)
    requires path != []
    ensures var k := |path| - 1; g.Fold(path) == g.Fold(path[..k]) * g.Radix(k) + path[k]
  {
  }

  /** Every in-range digit string is the path of exactly one page. */
  lemma {:induction false} DigitsOfFold(g: Geometry, path: seq<nat>)
    requires 0 < g.rootSize && 0 < g.pageSize
    requires g.InRange(path)
    ensures g.Fold(path) < g.Count(|path|)
    ensures g.Digits(g.Fold(path), |path|) == path
    decreases |path|
  {
    if path != [] {
      var k := |path| - 1;
      DigitsOfFold(g, path[..k]);
      FoldStep(g, path);
      assert path[k] < g.Radix(k);
      DigitsAppend(g, g.Fold(path[..k]), path[k], k);
      assert path == path[..k] + [path[k]];
    } else {
      assert g.Digits(0, 0) == [];
    }
  }

  /** Two digit strings with the same parent order their pages as they order their branches:
      everything below branch i numbers lower than everything below a later branch. */
  lemma {:induction false} FoldOrder(g: Geometry, a: seq<nat>, b: seq<nat>, d: nat)
    requires 0 < g.rootSize && 0 < g.pageSize
    requires g.InRange(a) && g.InRange(b)
    requires d <= |a| == |b|
    requires g.Fold(a[..d]) < g.Fold(b[..d])
    ensures g.Fold(a) < g.Fold(b)
    decreases |a|
  {
    var k := |a| - 1;
    if d == |a| {
      assert a[..d] == a && b[..d] == b;
    } else {
      assert a[..k][..d] == a[..d] && b[..k][..d] == b[..d];
      FoldOrder(g, a[..k], b[..k], d);
      MulBound(g.Fold(a[..k]), a[k], g.Radix(k), g.Fold(b[..k]));
    }
  }

  /** Digits of an out-of-range page number are those of the page it aliases, and the alias is
      the page number itself exactly when that number is in range. */
  lemma AliasOfPage(g: Geometry, page: nat)
    requires 0 < g.rootSize && 0 < g.pageSize
    ensures g.Alias(page) < g.NumPages()
    ensures g.Path(g.Alias(page)) == g.Path(page)
    ensures g.Alias(page) == page <==> page < g.NumPages()
  {
    DigitsOfFold(g, g.Path(page));
    if page < g.NumPages() {
      FoldOfDigits(g, page, g.depth);
    }
  }

  /** The last step of an access adds the offset at depth TABLES_DEPTH - 1. Its words of
      different frames never collide exactly when that depth is not the root's, or the root
      table is as wide as a page. */
  lemma LastConvertStaysInFrame(g: Geometry)
    requires 0 < g.rootSize <= g.pageSize && 0 < g.depth
    ensures (forall f: nat, o: nat, h: nat, p: nat
               {:trigger g.Convert(o, f, g.depth - 1), g.Convert(p, h, g.depth - 1)} ::
               o < g.pageSize && p < g.pageSize && g.Convert(o, f, g.depth - 1) == g.Convert(p, h, g.depth - 1)
               ==> f == h && o == p)
            <==> (g.depth == 1 ==> g.rootSize == g.pageSize)
  {
    if g.depth == 1 && g.rootSize < g.pageSize {
      assert g.Convert(g.rootSize, 1, 0) == g.Convert(0, 2, 0);
    } else {
      forall f: nat, o: nat, h: nat, p: nat
        {:trigger g.Convert(o, f, g.depth - 1), g.Convert(p, h, g.depth - 1)}
        | o < g.pageSize && p < g.pageSize
        && g.Convert(o, f, g.depth - 1) == g.Convert(p, h, g.depth - 1)
        ensures f == h && o == p
      {
        assert g.Radix(g.depth - 1) == g.pageSize;
        DivModUnique(f, o, g.pageSize);
        DivModUnique(h, p, g.pageSize);
      }
    }
  }

  // ---------- The widths the source is configured with ----------

  /** OFFSET_WIDTH, VIRTUAL_ADDRESS_WIDTH and PHYSICAL_ADDRESS_WIDTH, kept symbolic. */
  datatype Widths = Widths(offset: nat, virtual: nat, physical: nat) {

    ghost predicate Valid() {
      0 < offset <= virtual && offset <= physical
    }

    /** INIT_PAGE_SIZE: the width of the root digit. */
    function InitWidth(): nat
      requires 0 < offset
    {
      if Remainder(virtual, offset) != 0 then Remainder(virtual, offset) else offset
    }

    /** TABLES_DEPTH: (virtual - offset) / offset rounded up. */
    function TablesDepth(): nat
      requires 0 < offset <= virtual
    {
      var w := virtual - offset;
      if Remainder(w, offset) == 0 then Quotient(w, offset) else Quotient(w, offset) + 1
    }

    function ToGeometry(): Geometry
      requires Valid()
    {
      Geometry(Pow2(offset), Pow2(InitWidth()), TablesDepth(), Quotient(Pow2(physical), Pow2(offset)))
    }
  }

  lemma Pow2Add(a: nat, b: nat)
    ensures Pow2(a + b) == Pow2(a) * Pow2(b)
  {
    if a > 0 {
      Pow2Add(a - 1, b);
    }
  }

  lemma Pow2Monotone(a: nat, b: nat)
    requires a <= b
    ensures Pow2(a) <= Pow2(b)
  {
    Pow2Add(a, b - a);
    assert Pow2(a) * 1 <= Pow2(a) * Pow2(b - a);
  }

  /** The bits that the first d digits take. */
  function DigitBits(w: Widths, d: nat): nat
    requires 0 < w.offset && 0 < d
  {
    if d == 1 then w.InitWidth() else DigitBits(w, d - 1) + w.offset
  }

  lemma {:induction false} DigitBitsAre(w: Widths, d: nat)
    requires 0 < w.offset && 0 < d
    ensures DigitBits(w, d) == w.InitWidth() + (d - 1) * w.offset
    decreases d
  {
    if d > 1 {
      DigitBitsAre(w, d - 1);
      MulStep(d - 2, w.offset);
    }
  }

  lemma {:induction false} CountOfBits(w: Widths, g: Geometry, d: nat)
    requires w.Valid() && g == w.ToGeometry() && 0 < d
    ensures g.Count(d) == Pow2(DigitBits(w, d))
    decreases d
  {
    if d == 1 {
      assert g.Count(1) == g.Count(0) * g.Radix(0) == Pow2(w.InitWidth());
    } else {
      CountOfBits(w, g, d - 1);
      Pow2Add(DigitBits(w, d - 1), w.offset);
      assert g.Radix(d - 1) == Pow2(w.offset);
    }
  }

  /** The digits use exactly the bits of a virtual address above the offset. */
  lemma CountIsPow2(w: Widths, g: Geometry, d: nat)
    requires w.Valid() && g == w.ToGeometry() && 0 < d
    ensures g.Count(d) == Pow2(w.InitWidth() + (d - 1) * w.offset)
  {
    CountOfBits(w, g, d);
    DigitBitsAre(w, d);
  }

  lemma DepthAndInitWidth(w: Widths)
    requires w.Valid()
    ensures w.virtual == w.offset ==> w.TablesDepth() == 0
    ensures w.virtual > w.offset ==> w.TablesDepth() > 0
    ensures w.virtual > w.offset ==> w.InitWidth() + (w.TablesDepth() - 1) * w.offset + w.offset == w.virtual
  {
    var n, v := w.offset, w.virtual;
    var q, r := Quotient(v - n, n), Remainder(v - n, n);
    MulStep(q, n);
    DivModUnique(q + 1, r, n);
    if q > 0 {
      MulStep(q - 1, n);
    }
  }

  lemma MulStep(q: int, n: int)
    ensures (q + 1) * n == q * n + n
  {
  }

  /** The geometry of a width configuration has the sizes of the source's macros, and it is
      valid exactly when RAM holds one path with its page and a single table level is as wide
      as a page. */
  lemma WidthsGiveGeometry(w: Widths)
    requires w.Valid()
    ensures var g := w.ToGeometry();
            && g.VirtualSize() == Pow2(w.virtual)
            && g.RamSize() == Pow2(w.physical)
            && g.NumPages() == Quotient(Pow2(w.virtual), Pow2(w.offset))
            && (g.Valid() <==> g.depth < g.numFrames
                               && (w.TablesDepth() == 1 ==> Remainder(w.virtual, w.offset) == 0))
  {
    var g := w.ToGeometry();
    DepthAndInitWidth(w);
    Pow2Add(w.virtual - w.offset, w.offset);
    Pow2Add(w.physical - w.offset, w.offset);
    DivModUnique(Pow2(w.virtual - w.offset), 0, Pow2(w.offset));
    DivModUnique(Pow2(w.physical - w.offset), 0, Pow2(w.offset));
    Pow2Monotone(w.InitWidth(), w.offset);
    if g.depth > 0 {
      CountIsPow2(w, g, g.depth);
    }
    if Remainder(w.virtual, w.offset) != 0 {
      Pow2Monotone(w.InitWidth() + 1, w.offset);
    }
  }
}
