/** Placing glyphs on the atlas surface (src/atlas.c): every run keeps all glyphs apart and intact. */
module Atlas {
  import opened Text
  import opened AtlasTree

  /** A bitmap, row by row, in bytes. */
  datatype Glyph = Glyph(w: nat, h: nat, bytes: seq<byte>)

  /** A glyph and the corner of its allocation. */
  datatype Placed = Placed(glyph: Glyph, x: nat, y: nat)

  datatype Psm = CT32 | CT24 | CT16 | CT16S | T8 | Other

  /** pixelSize: unknown formats have none and are never copied. */
  function PixelSize(psm: Psm): nat {
    match psm
    case CT32 => 4
    case CT24 => 4
    case CT16 => 2
    case CT16S => 2
    case T8 => 1
    case Other => 0
  }

  /** So many pixels in bytes. */
  function Span(n: nat, ps: nat): nat {
    n * ps
  }

  lemma SpanAdds(a: nat, b: nat, c: nat, ps: nat)
    requires a + b <= c
    ensures Span(a, ps) + Span(b, ps) <= Span(c, ps)
  {
    assert a * ps + b * ps + (c - a - b) * ps == c * ps;
  }

  /** The bitmap has as many bytes as its size says. */
  predicate GlyphOk(g: Glyph, ps: nat) {
    ps > 0 ==> |g.bytes| == At(Span(g.w, ps), g.h, 0)
  }

  /** A placed glyph with its columns counted in bytes. */
  function InBytes(p: Placed, ps: nat): Placed {
    Placed(Glyph(Span(p.glyph.w, ps), p.glyph.h, p.glyph.bytes), Span(p.x, ps), p.y)
  }

  /** memcpy of a row. */
  function Overwrite(mem: seq<byte>, at: nat, row: seq<byte>): (r: seq<byte>)
    requires at + |row| <= |mem|
    ensures |r| == |mem|
    ensures forall i :: 0 <= i < |mem| ==> r[i] == if at <= i < at + |row| then row[i - at] else mem[i]
  {
    mem[..at] + row + mem[at + |row|..]
  }

  /** Where a row and column is in a buffer of rows. */
  function At(width: nat, row: nat, col: nat): nat {
    row * width + col
  }

  lemma AtCol(width: nat, row: nat, col: nat)
    ensures At(width, row, col) == At(width, row, 0) + col
  {
  }

  lemma AtBelow(width: nat, row: nat, col: nat, height: nat)
    requires col <= width && row < height
    ensures At(width, row, col) <= At(width, height, 0)
  {
    MulMono(row, height, width);
  }

  /** A stretch of one row holds exactly the bytes of that row in those columns. */
  lemma InRow(w: nat, row: nat, col: nat, at: nat, lo: nat, n: nat)
    requires col < w && lo + n <= w
    ensures At(w, at, lo) <= At(w, row, col) < At(w, at, lo) + n <==> row == at && lo <= col < lo + n
  {
    if row < at {
      MulMono(row, at, w);
    } else if at < row {
      MulMono(at, row, w);
    }
  }

  predicate FitsOn(width: nat, size: nat, g: Glyph, x: nat, y: nat) {
    |g.bytes| == At(g.w, g.h, 0) && x + g.w <= width && At(width, y + g.h, 0) <= size
  }

  lemma RowBounds(width: nat, size: nat, g: Glyph, x: nat, y: nat, k: nat)
    requires FitsOn(width, size, g, x, y) && k < g.h
    ensures At(width, y + k, x) + g.w <= size
    ensures At(g.w, k, 0) + g.w <= |g.bytes|
  {
    AtBelow(width, y + k, x + g.w, y + g.h);
    AtBelow(g.w, k, g.w, g.h);
  }

  /** One row of the glyph. */
  function Row(g: Glyph, k: nat): (r: seq<byte>)
    requires At(g.w, k, 0) + g.w <= |g.bytes|
    ensures |r| == g.w
  {
    g.bytes[At(g.w, k, 0)..At(g.w, k, 0) + g.w]
  }

  /** The first k rows of atlasCopyData. */
  function Blit(mem: seq<byte>, width: nat, g: Glyph, x: nat, y: nat, k: nat): (r: seq<byte>)
    requires FitsOn(width, |mem|, g, x, y) && k <= g.h
    ensures |r| == |mem|
    decreases k
  {
    hide At, FitsOn;
    if k == 0 then mem else
      RowBounds(width, |mem|, g, x, y, k - 1);
      Overwrite(Blit(mem, width, g, x, y, k - 1), At(width, y + k - 1, x), Row(g, k - 1))
  }

  /** The byte at a row and column, in the linear buffer. */
  predicate Has(mem: seq<byte>, width: nat, row: nat, col: nat, v: byte) {
    At(width, row, col) < |mem| && mem[At(width, row, col)] == v
  }

  lemma ColumnFits(width: nat, size: nat, g: Glyph, x: nat, y: nat, c: nat)
    requires FitsOn(width, size, g, x, y) && c < g.w
    ensures x + c < width && x + g.w <= width
  {
  }

  lemma RowAt(g: Glyph, k: nat, c: nat)
    requires At(g.w, k, 0) + g.w <= |g.bytes| && c < g.w
    ensures At(g.w, k, c) < |g.bytes| && Row(g, k)[c] == g.bytes[At(g.w, k, c)]
  {
    AtCol(g.w, k, c);
  }

  /** Rows copied show the glyph. */
  lemma {:induction false} BlitShows(mem: seq<byte>, width: nat, g: Glyph, x: nat, y: nat, k: nat, r: nat, c: nat)
    requires FitsOn(width, |mem|, g, x, y) && k <= g.h && r < k && c < g.w
    ensures At(g.w, r, c) < |g.bytes| && Has(Blit(mem, width, g, x, y, k), width, y + r, x + c, g.bytes[At(g.w, r, c)])
    decreases k
  {
    hide At, Overwrite, FitsOn, Row;
    RowBounds(width, |mem|, g, x, y, k - 1);
    RowBounds(width, |mem|, g, x, y, r);
    ColumnFits(width, |mem|, g, x, y, c);
    InRow(width, y + r, x + c, y + k - 1, x, g.w);
    AtCol(g.w, r, c);
    if r < k - 1 {
      BlitShows(mem, width, g, x, y, k - 1, r, c);
    } else {
      AtCol(width, y + r, x + c);
      AtCol(width, y + r, x);
      RowAt(g, r, c);
    }
  }

  /** Bytes outside the glyph's rectangle keep their values. */
  lemma {:induction false} BlitFrame(mem: seq<byte>, width: nat, g: Glyph, x: nat, y: nat, k: nat, row: nat, col: nat, v: byte)
    requires FitsOn(width, |mem|, g, x, y) && k <= g.h && col < width && Has(mem, width, row, col, v)
    requires !(y <= row < y + g.h && x <= col < x + g.w)
    ensures Has(Blit(mem, width, g, x, y, k), width, row, col, v)
    decreases k
  {
    hide At, Overwrite;
    if k > 0 {
      RowBounds(width, |mem|, g, x, y, k - 1);
      InRow(width, row, col, y + k - 1, x, g.w);
      BlitFrame(mem, width, g, x, y, k - 1, row, col, v);
    }
  }

  // ----- runs of atlasPlace -----

  datatype State = State(tree: Tree, psm: Psm, mem: seq<byte>, placed: seq<Placed>)

  /** The area a glyph reserves: one pixel more each way. */
  function Cell(p: Placed): Rect {
    Rect(p.x, p.y, p.glyph.w + 1, p.glyph.h + 1)
  }

  function Cells(placed: seq<Placed>): (r: seq<Rect>)
    ensures |r| == |placed| && forall i :: 0 <= i < |r| ==> r[i] == Cell(placed[i])
  {
    seq(|placed|, i requires 0 <= i < |placed| => Cell(placed[i]))
  }

  /** The surface shows the glyph's byte (r, c) in its place. */
  ghost predicate ShowsByte(mem: seq<byte>, width: nat, p: Placed, r: nat, c: nat) {
    At(p.glyph.w, r, c) < |p.glyph.bytes| && Has(mem, width, p.y + r, p.x + c, p.glyph.bytes[At(p.glyph.w, r, c)])
  }

  /** The glyph's bytes are on the surface. */
  ghost predicate Shows(mem: seq<byte>, width: nat, p: Placed) {
    forall r: nat, c: nat :: r < p.glyph.h && c < p.glyph.w ==> ShowsByte(mem, width, p, r, c)
  }

  /** The surface shows a placed glyph, given in pixels. */
  ghost predicate ShowsGlyph(mem: seq<byte>, width: nat, ps: nat, p: Placed) {
    Shows(mem, Span(width, ps), InBytes(p, ps))
  }

  ghost predicate Inv(s: State, width: nat, height: nat) {
    && Nested(s.tree) && s.tree.box == Rect(0, 0, width, height)
    && |s.mem| == At(Span(width, PixelSize(s.psm)), height, 0)
    && Apart(Free(s.tree)) && AllWithin(Free(s.tree), s.tree.box)
    && Apart(Cells(s.placed)) && AllWithin(Cells(s.placed), s.tree.box)
    && (forall i :: 0 <= i < |s.placed| ==> Clear(Cell(s.placed[i]), Free(s.tree)))
    && TotalArea(Cells(s.placed)) + TotalArea(Free(s.tree)) == width * height
    && forall i :: 0 <= i < |s.placed| ==> ShowsGlyph(s.mem, width, PixelSize(s.psm), s.placed[i])
  }

  function New(width: nat, height: nat, psm: Psm): (s: State)
    ensures Inv(s, width, height)
  {
    State(Leaf(Rect(0, 0, width, height)), psm, seq(At(Span(width, PixelSize(psm)), height, 0), i => 0), [])
  }

  /** The glyph's rows lie inside the buffer. */
  predicate CopyFits(width: nat, size: nat, ps: nat, p: Placed) {
    ps > 0 ==> FitsOn(Span(width, ps), size, InBytes(p, ps).glyph, Span(p.x, ps), p.y)
  }

  lemma BoxFitsOn(width: nat, height: nat, size: nat, ps: nat, p: Placed)
    requires GlyphOk(p.glyph, ps) && Within(Cell(p), Rect(0, 0, width, height)) && At(Span(width, ps), height, 0) <= size
    ensures CopyFits(width, size, ps, p)
  {
    hide Span, At;
    SpanAdds(p.x, p.glyph.w, width, ps);
    AtBelow(Span(width, ps), p.y + p.glyph.h, 0, height);
  }

  /** The surface after copying a glyph to its place; formats without a pixel size are left alone. */
  function Copied(mem: seq<byte>, width: nat, ps: nat, p: Placed): (r: seq<byte>)
    requires CopyFits(width, |mem|, ps, p)
    ensures |r| == |mem|
  {
    if ps == 0 then mem else Blit(mem, Span(width, ps), InBytes(p, ps).glyph, Span(p.x, ps), p.y, p.glyph.h)
  }

  /** atlasPlace of a non-null bitmap. */
  ghost function Step(s: State, width: nat, height: nat, g: Glyph): (s': State)
    requires Inv(s, width, height) && GlyphOk(g, PixelSize(s.psm))
  {
    match Place(s.tree, g.w + 1, g.h + 1)
    case None => s
    case Some((tree, r)) =>
      var p := Placed(g, r.x, r.y);
      PlaceWithin(s, width, height, g);
      BoxFitsOn(width, height, |s.mem|, PixelSize(s.psm), p);
      State(tree, s.psm, Copied(s.mem, width, PixelSize(s.psm), p), s.placed + [p])
  }

  lemma PlaceWithin(s: State, width: nat, height: nat, g: Glyph)
    requires Inv(s, width, height) && Place(s.tree, g.w + 1, g.h + 1).Some?
    ensures var r := Place(s.tree, g.w + 1, g.h + 1).value.1;
            r == Rect(r.x, r.y, g.w + 1, g.h + 1) && Within(r, Rect(0, 0, width, height))
  {
    PlaceIsFirstFit(s.tree, g.w + 1, g.h + 1);
    WithinKept(Free(s.tree), s.tree.box, g.w + 1, g.h + 1);
    FirstFitSize(Free(s.tree), g.w + 1, g.h + 1);
  }

  lemma {:induction false} FirstFitSize(free: seq<Rect>, w: nat, h: nat)
    requires FirstFit(free, w, h).Some?
    ensures var r := FirstFit(free, w, h).value.1; r.w == w && r.h == h
    decreases |free|
  {
    if !Fits(free[0], w, h) {
      FirstFitSize(free[1..], w, h);
    }
  }

  lemma {:induction false} TotalAreaAppend(a: seq<Rect>, r: Rect)
    ensures TotalArea(a + [r]) == TotalArea(a) + Area(r)
    decreases |a|
  {
    if a != [] {
      assert (a + [r])[1..] == a[1..] + [r];
      TotalAreaAppend(a[1..], r);
    } else {
      assert a + [r] == [r];
    }
  }

  /** Columns of one glyph are none of another's when the cells are side by side. */
  lemma ColumnsApart(q: Placed, p: Placed, ps: nat, c: nat)
    requires c < Span(q.glyph.w, ps)
    ensures q.x + q.glyph.w <= p.x ==> Span(q.x, ps) + c < Span(p.x, ps)
    ensures p.x + p.glyph.w <= q.x ==> Span(p.x, ps) + Span(p.glyph.w, ps) <= Span(q.x, ps) + c
  {
    hide Span;
    if q.x + q.glyph.w <= p.x {
      SpanAdds(q.x, q.glyph.w, p.x, ps);
    }
    if p.x + p.glyph.w <= q.x {
      SpanAdds(p.x, p.glyph.w, q.x, ps);
    }
  }

  /** Copying a glyph disturbs no glyph in a cell disjoint from its own. */
  lemma ShowsKept(mem: seq<byte>, width: nat, height: nat, ps: nat, p: Placed, q: Placed)
    requires CopyFits(width, |mem|, ps, p) && ShowsGlyph(mem, width, ps, q)
    requires Disjoint(Cell(q), Cell(p)) && Within(Cell(q), Rect(0, 0, width, height))
    ensures ShowsGlyph(Copied(mem, width, ps, p), width, ps, q)
  {
    hide FitsOn, Has, At, Blit, Span;
    var b, wide := InBytes(q, ps), Span(width, ps);
    if ps > 0 {
      SpanAdds(q.x, q.glyph.w, width, ps);
      forall r: nat, c: nat | r < b.glyph.h && c < b.glyph.w ensures ShowsByte(Copied(mem, width, ps, p), wide, b, r, c) {
        assert ShowsByte(mem, wide, b, r, c);
        ColumnsApart(q, p, ps, c);
        BlitFrame(mem, wide, InBytes(p, ps).glyph, Span(p.x, ps), p.y, p.glyph.h, b.y + r, b.x + c, b.glyph.bytes[At(b.glyph.w, r, c)]);
      }
    }
  }

  lemma ShowsNew(mem: seq<byte>, width: nat, ps: nat, p: Placed)
    requires CopyFits(width, |mem|, ps, p)
    ensures ShowsGlyph(Copied(mem, width, ps, p), width, ps, p)
  {
    hide FitsOn, Has, At, Blit;
    var b, wide := InBytes(p, ps), Span(width, ps);
    forall r: nat, c: nat | r < b.glyph.h && c < b.glyph.w ensures ShowsByte(Copied(mem, width, ps, p), wide, b, r, c) {
      assert ps > 0;
      BlitShows(mem, wide, b.glyph, b.x, b.y, b.glyph.h, r, c);
    }
  }

  lemma CellsAppend(placed: seq<Placed>, p: Placed)
    ensures Cells(placed + [p]) == Cells(placed) + [Cell(p)]
  {
  }

  /** The cells and the free list after one more cell is taken. */
  lemma CellsKept(placed: seq<Placed>, p: Placed, free: seq<Rect>, bounds: Rect)
    requires Apart(free) && AllWithin(free, bounds) && Apart(Cells(placed)) && AllWithin(Cells(placed), bounds)
    requires FirstFit(free, p.glyph.w + 1, p.glyph.h + 1).Some?
    requires Cell(p) == FirstFit(free, p.glyph.w + 1, p.glyph.h + 1).value.1
    requires forall i :: 0 <= i < |placed| ==> Clear(Cell(placed[i]), free)
    ensures var free' := FirstFit(free, p.glyph.w + 1, p.glyph.h + 1).value.0;
            && Apart(free') && AllWithin(free', bounds)
            && Apart(Cells(placed + [p])) && AllWithin(Cells(placed + [p]), bounds)
            && (forall i :: 0 <= i < |placed + [p]| ==> Clear(Cell((placed + [p])[i]), free'))
            && TotalArea(Cells(placed + [p])) + TotalArea(free') == TotalArea(Cells(placed)) + TotalArea(free)
  {
    hide Disjoint, Within, FirstFit, TotalArea, Area, Clear;
    var w, h := p.glyph.w + 1, p.glyph.h + 1;
    ApartKept(free, w, h);
    WithinKept(free, bounds, w, h);
    AreaKept(free, w, h);
    CellsAppend(placed, p);
    TotalAreaAppend(Cells(placed), Cell(p));
    CellArea(p);
    forall i | 0 <= i < |placed|
      ensures Clear(Cell(placed[i]), FirstFit(free, w, h).value.0) && Disjoint(Cell(placed[i]), Cell(p))
    {
      ClearKept(Cell(placed[i]), free, w, h);
    }
  }

  lemma CellArea(p: Placed)
    ensures Area(Cell(p)) == (p.glyph.w + 1) * (p.glyph.h + 1)
  {
  }

  /** The surface after one more glyph is copied shows all glyphs. */
  lemma GlyphsKept(mem: seq<byte>, width: nat, height: nat, ps: nat, placed: seq<Placed>, p: Placed)
    requires CopyFits(width, |mem|, ps, p)
    requires Apart(Cells(placed + [p])) && AllWithin(Cells(placed + [p]), Rect(0, 0, width, height))
    requires forall i :: 0 <= i < |placed| ==> ShowsGlyph(mem, width, ps, placed[i])
    ensures forall i :: 0 <= i < |placed + [p]| ==> ShowsGlyph(Copied(mem, width, ps, p), width, ps, (placed + [p])[i])
  {
    hide CopyFits, Copied, ShowsGlyph, Disjoint, Within;
    CellsAppend(placed, p);
    ShowsNew(mem, width, ps, p);
    forall i | 0 <= i < |placed| ensures ShowsGlyph(Copied(mem, width, ps, p), width, ps, placed[i]) {
      assert Within(Cells(placed + [p])[i], Rect(0, 0, width, height));
      assert Disjoint(Cells(placed + [p])[i], Cells(placed + [p])[|placed|]);
      ShowsKept(mem, width, height, ps, p, placed[i]);
    }
  }

  /** Every placement, successful or not, keeps the invariant. */
  lemma StepKeeps(s: State, width: nat, height: nat, g: Glyph)
    requires Inv(s, width, height) && GlyphOk(g, PixelSize(s.psm))
    ensures Inv(Step(s, width, height, g), width, height)
  {
    hide Nested, CopyFits, Place, FirstFit, Free, PixelSize, Copied, ShowsGlyph, Apart, AllWithin, Clear, GlyphOk, TotalArea, At, Span;
    PlaceIsFirstFit(s.tree, g.w + 1, g.h + 1);
    if Place(s.tree, g.w + 1, g.h + 1).Some? {
      var (tree, r) := Place(s.tree, g.w + 1, g.h + 1).value;
      var p := Placed(g, r.x, r.y);
      PlaceWithin(s, width, height, g);
      BoxFitsOn(width, height, |s.mem|, PixelSize(s.psm), p);
      CellsKept(s.placed, p, Free(s.tree), s.tree.box);
      GlyphsKept(s.mem, width, height, PixelSize(s.psm), s.placed, p);
    }
  }

  ghost predicate AllOk(glyphs: seq<Glyph>, psm: Psm) {
    forall i :: 0 <= i < |glyphs| ==> GlyphOk(glyphs[i], PixelSize(psm))
  }

  /** Any sequence of placements on a new atlas. */
  ghost function Run(width: nat, height: nat, psm: Psm, glyphs: seq<Glyph>): (s: State)
    requires AllOk(glyphs, psm)
    ensures Inv(s, width, height) && s.psm == psm
    decreases |glyphs|
  {
    hide Inv, GlyphOk;
    if glyphs == [] then New(width, height, psm) else
      var n := |glyphs| - 1;
      var s := Run(width, height, psm, glyphs[..n]);
      StepKeeps(s, width, height, glyphs[n]);
      Step(s, width, height, glyphs[n])
  }

  /** Two glyphs with at least one pixel between them, beside or below each other. */
  predicate Gutter(a: Placed, b: Placed) {
    a.x + a.glyph.w < b.x || b.x + b.glyph.w < a.x || a.y + a.glyph.h < b.y || b.y + b.glyph.h < a.y
  }

  /**
   After any run: glyphs are inside the surface and pairwise separated by a gutter, each still shows its own
   pixels, and reserved area plus free area is the whole atlas.
   */
  lemma RunKeepsGlyphs(width: nat, height: nat, psm: Psm, glyphs: seq<Glyph>)
    requires AllOk(glyphs, psm)
    ensures var s := Run(width, height, psm, glyphs);
            && (forall i :: 0 <= i < |s.placed| ==> s.placed[i].x + s.placed[i].glyph.w < width && s.placed[i].y + s.placed[i].glyph.h < height)
            && (forall i, j :: 0 <= i < j < |s.placed| ==> Gutter(s.placed[i], s.placed[j]))
            && (forall i :: 0 <= i < |s.placed| ==> ShowsGlyph(s.mem, width, PixelSize(psm), s.placed[i]))
            && TotalArea(Cells(s.placed)) + TotalArea(Free(s.tree)) == width * height
  {
    hide ShowsGlyph, Nested, Run;
    var s := Run(width, height, psm, glyphs);
    forall i | 0 <= i < |s.placed|
      ensures s.placed[i].x + s.placed[i].glyph.w < width && s.placed[i].y + s.placed[i].glyph.h < height
    {
      assert Within(Cells(s.placed)[i], s.tree.box);
    }
    forall i, j | 0 <= i < j < |s.placed| ensures Gutter(s.placed[i], s.placed[j]) {
      assert Disjoint(Cells(s.placed)[i], Cells(s.placed)[j]);
    }
  }

  /** A pixel of a known format takes as many bytes as the GS stores it in. */
  lemma PixelBytes(psm: Psm)
    ensures psm == CT32 || psm == CT24 ==> PixelSize(psm) == 4
    ensures psm == CT16 || psm == CT16S ==> PixelSize(psm) == 2
    ensures psm != Other ==> PixelSize(psm) > 0
  {
  }

  /** Where a pixel of n bytes starts in a bitmap of rows. */
  function Offset(width: nat, n: nat, row: nat, col: nat): nat {
    n * (row * width + col)
  }

  /** The b-th byte after i and after j is the same. */
  predicate Same(mem: seq<byte>, i: nat, bytes: seq<byte>, j: nat, b: nat) {
    i + b < |mem| && j + b < |bytes| && mem[i + b] == bytes[j + b]
  }

  /** So are n bytes. */
  ghost predicate SameBytes(mem: seq<byte>, i: nat, bytes: seq<byte>, j: nat, n: nat) {
    forall b: nat :: b < n ==> Same(mem, i, bytes, j, b)
  }

  /** The surface shows a glyph's pixel (r, c), of n bytes, in its place. */
  ghost predicate ShowsPixel(mem: seq<byte>, width: nat, n: nat, p: Placed, r: nat, c: nat) {
    SameBytes(mem, Offset(width, n, p.y + r, p.x + c), p.glyph.bytes, Offset(p.glyph.w, n, r, c), n)
  }

  lemma PixelAt(width: nat, n: nat, row: nat, col: nat, b: nat)
    ensures At(Span(width, n), row, Span(col, n) + b) == Offset(width, n, row, col) + b
  {
    assert row * (width * n) == n * (row * width);
    assert n * (row * width + col) == n * (row * width) + n * col;
  }

  lemma ColumnOf(w: nat, n: nat, c: nat, b: nat)
    requires c < w && b < n
    ensures Span(c, n) + b < Span(w, n)
  {
    MulMono(c, w, n);
  }

  lemma SpanJoins(x: nat, c: nat, n: nat)
    ensures Span(x, n) + Span(c, n) == Span(x + c, n)
  {
    assert x * n + c * n == (x + c) * n;
  }

  lemma PixelShown(mem: seq<byte>, width: nat, n: nat, p: Placed, r: nat, c: nat)
    requires ShowsGlyph(mem, width, n, p) && r < p.glyph.h && c < p.glyph.w
    ensures ShowsPixel(mem, width, n, p, r, c)
  {
    hide At, Span, Offset;
    var i, j := Offset(width, n, p.y + r, p.x + c), Offset(p.glyph.w, n, r, c);
    forall b: nat | b < n
      ensures Same(mem, i, p.glyph.bytes, j, b)
    {
      ColumnOf(p.glyph.w, n, c, b);
      assert ShowsByte(mem, Span(width, n), InBytes(p, n), r, Span(c, n) + b);
      PixelAt(p.glyph.w, n, r, c, b);
      PixelAt(width, n, p.y + r, p.x + c, b);
      SpanJoins(p.x, c, n);
    }
  }

  /** After any run on a surface of a known format, every pixel of every placed glyph, at least one byte each, is shown. */
  lemma RunShowsPixels(width: nat, height: nat, psm: Psm, glyphs: seq<Glyph>, i: nat, r: nat, c: nat)
    requires AllOk(glyphs, psm) && psm != Other && i < |Run(width, height, psm, glyphs).placed|
    requires var g := Run(width, height, psm, glyphs).placed[i].glyph; r < g.h && c < g.w
    ensures PixelSize(psm) > 0
    ensures var s := Run(width, height, psm, glyphs); ShowsPixel(s.mem, width, PixelSize(psm), s.placed[i], r, c)
  {
    hide ShowsGlyph, Run, ShowsPixel;
    PixelBytes(psm);
    RunKeepsGlyphs(width, height, psm, glyphs);
    var s := Run(width, height, psm, glyphs);
    PixelShown(s.mem, width, PixelSize(psm), s.placed[i], r, c);
  }

  /** A glyph is turned away exactly when no free box has room for it and its gutter. */
  lemma TurnedAwayIffFull(s: State, width: nat, height: nat, g: Glyph)
    requires Inv(s, width, height) && GlyphOk(g, PixelSize(s.psm))
    ensures Step(s, width, height, g).placed == s.placed <==>
            forall i :: 0 <= i < |Free(s.tree)| ==> !Fits(Free(s.tree)[i], g.w + 1, g.h + 1)
  {
    hide Place, Free, FirstFit, Copied, Nested, CopyFits, ShowsGlyph;
    PlaceIsFirstFit(s.tree, g.w + 1, g.h + 1);
    FailsOnlyWhenFull(Free(s.tree), g.w + 1, g.h + 1);
  }
}
