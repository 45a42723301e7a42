/** The launcher's icon grid: rectangle fills in a pixel buffer, and which icon each pixel shows. */
module Launcher {
  import opened Words

  const BACKGROUND: uint32 := 0xE6050510

  // ---- rectangles ---------------------------------------------------------------------------

  predicate InRect(px: int, py: int, x: int, y: int, w: int, h: int) {
    x <= px < x + w && y <= py < y + h
  }

  /** The picture of row length `width` with one rectangle filled. */
  function Filled(before: seq<uint32>, width: nat, x: int, y: int, w: int, h: int, c: uint32): (after: seq<uint32>)
    ensures |after| == |before|
  {
    seq(|before|, k requires 0 <= k < |before| => if width > 0 && InRect(k % width, k / width, x, y, w, h) then c else before[k])
  }

  lemma IndexOfPixel(width: nat, row: nat, col: nat, k: nat)
    requires col < width
    ensures k == row * width + col <==> k / width == row && k % width == col
  {
    if k == row * width + col { RemainderUnique(k, width, row, col); }
  }

  lemma PixelInBounds(width: nat, rows: nat, row: nat, col: nat)
    requires row < rows && col < width
    ensures 0 <= row * width + col < rows * width
  {
    MulMonotone(width, 0, row);
    MulMonotone(width, row + 1, rows);
  }

  lemma OneMorePixel(p: seq<uint32>, width: nat, x: nat, row: nat, n: nat, c: uint32)
    requires x + n < width && row * width + x + n < |p|
    ensures row * width + x + n >= 0
    ensures Filled(p, width, x, row, n, 1, c)[row * width + x + n := c] == Filled(p, width, x, row, n + 1, 1, c)
  {
    MulMonotone(width, 0, row);
    var now := Filled(p, width, x, row, n, 1, c)[row * width + x + n := c];
    var next := Filled(p, width, x, row, n + 1, 1, c);
    forall k | 0 <= k < |p|
      ensures now[k] == next[k]
    {
      IndexOfPixel(width, row, x + n, k);
    }
  }

  lemma OneMoreRow(p: seq<uint32>, width: nat, x: int, y: int, w: int, n: nat, c: uint32)
    ensures Filled(Filled(p, width, x, y, w, n, c), width, x, y + n, w, 1, c) == Filled(p, width, x, y, w, n + 1, c)
  {
  }

  lemma NothingFilled(p: seq<uint32>, width: nat, x: int, y: int, w: int, h: int, c: uint32)
    requires w == 0 || h == 0
    ensures Filled(p, width, x, y, w, h, c) == p
  {
  }

  /** lfill: exactly the pixels of the rectangle change. `stride` is in bytes. */
  method LFill(px: array<uint32>, stride: nat, x: nat, y: nat, w: nat, h: nat, c: uint32)
    requires x + w <= stride / 4 && (y + h) * (stride / 4) <= px.Length
    modifies px
    ensures px[..] == Filled(old(px[..]), stride / 4, x, y, w, h, c)
  {
    hide Filled;
    ghost var before, width := px[..], stride / 4;
    NothingFilled(before, width, x, y, w, 0, c);
    var r := y;
    while r < y + h
      invariant y <= r <= y + h
      invariant px[..] == Filled(before, width, x, y, w, r - y, c)
    {
      ghost var rows := px[..];
      NothingFilled(rows, width, x, r, 0, 1, c);
      var col := x;
      while col < x + w
        invariant x <= col <= x + w
        invariant px[..] == Filled(rows, width, x, r, col - x, 1, c)
      {
        PixelInBounds(width, y + h, r, col);
        OneMorePixel(rows, width, x, r, col - x, c);
        px[r * (stride / 4) + col] := c;
        col := col + 1;
      }
      OneMoreRow(before, width, x, y, w, r - y, c);
      r := r + 1;
    }
  }

  // ---- the grid -----------------------------------------------------------------------------

  /**
   * The grid in buffer pixels: the buffer's size, the corner of the first cell, the number of
   * columns, the size of a cell and of the icon square in it.
   */
  datatype Grid = Grid(width: nat, height: nat, gx: int, gy: nat, cols: nat, cellW: nat, cellH: nat, icon: nat)

  predicate IsGrid(g: Grid) {
    g.cols > 0 && g.icon <= g.cellW && g.icon <= g.cellH && g.cellW > 0 && g.cellH > 0
  }

  /** The columns lie inside the buffer. */
  predicate FitsAcross(g: Grid) { 0 <= g.gx && g.gx + g.cols * g.cellW <= g.width }

  /** The first n cells lie inside the buffer from left to right. */
  ghost predicate CellsFit(g: Grid, n: nat)
    requires g.cols > 0
  {
    forall i: nat :: i < n ==> 0 <= CellX(g, i) && CellX(g, i) + g.cellW <= g.width
  }

  /** The first n icon squares do. */
  ghost predicate IconsFit(g: Grid, n: nat)
    requires IsGrid(g)
  {
    forall i: nat :: i < n ==> 0 <= CellX(g, i) + Padding(g) && CellX(g, i) + Padding(g) + g.icon <= g.width
  }

  function CellX(g: Grid, i: nat): int
    requires g.cols > 0
  {
    g.gx + (i % g.cols) * g.cellW
  }

  function CellY(g: Grid, i: nat): int
    requires g.cols > 0
  {
    g.gy + (i / g.cols) * g.cellH
  }

  function Padding(g: Grid): nat
    requires g.icon <= g.cellW
  {
    (g.cellW - g.icon) / 2
  }

  predicate InIcon(g: Grid, i: nat, px: int, py: int)
    requires IsGrid(g)
  {
    InRect(px, py, CellX(g, i) + Padding(g), CellY(g, i), g.icon, g.icon)
  }

  /** How many whole rows of cells fit below the top of the grid. */
  function RowsFit(g: Grid): nat
    requires g.cellH > 0
  {
    if g.height < g.gy then 0 else (g.height - g.gy) / g.cellH
  }

  function Drawn(g: Grid, total: nat): nat
    requires IsGrid(g)
  {
    if total < g.cols * RowsFit(g) then total else g.cols * RowsFit(g)
  }

  /** The index of the icon square that contains a pixel, found by division, or -1. */
  function Hit(g: Grid, px: int, py: int): int
    requires IsGrid(g)
  {
    if px < g.gx || py < g.gy then -1
    else
      var col, row := (px - g.gx) / g.cellW, (py - g.gy) / g.cellH;
      var dx, dy := (px - g.gx) % g.cellW, (py - g.gy) % g.cellH;
      if col < g.cols && Padding(g) <= dx < Padding(g) + g.icon && dy < g.icon then row * g.cols + col else -1
  }

  lemma HitOfIcon(g: Grid, i: nat, px: int, py: int)
    requires IsGrid(g) && InIcon(g, i, px, py)
    ensures Hit(g, px, py) == i
  {
    var col, row := i % g.cols, i / g.cols;
    MulMonotone(g.cellW, 0, col);
    MulMonotone(g.cellH, 0, row);
    RemainderUnique(px - g.gx, g.cellW, col, px - CellX(g, i));
    RemainderUnique(py - g.gy, g.cellH, row, py - CellY(g, i));
    assert i == g.cols * row + col;
  }

  lemma IndexParts(cols: nat, row: nat, col: nat)
    requires col < cols
    ensures row * cols + col >= 0
    ensures (row * cols + col) % cols == col && (row * cols + col) / cols == row
  {
    MulMonotone(cols, 0, row);
    RemainderUnique(row * cols + col, cols, row, col);
  }

  lemma DivisionParts(x: int, d: nat)
    requires d > 0
    ensures x == (x / d) * d + x % d && 0 <= x % d < d
    ensures x >= 0 ==> x / d >= 0
  {
  }

  lemma IconOfHit(g: Grid, px: int, py: int)
    requires IsGrid(g) && Hit(g, px, py) != -1
    ensures Hit(g, px, py) >= 0 && InIcon(g, Hit(g, px, py), px, py)
  {
    DivisionParts(px - g.gx, g.cellW);
    DivisionParts(py - g.gy, g.cellH);
    IndexParts(g.cols, (py - g.gy) / g.cellH, (px - g.gx) / g.cellW);
  }

  /** A pixel lies in icon i exactly when hit testing says i; so icon squares are pairwise disjoint. */
  lemma IconsDisjoint(g: Grid, i: nat, px: int, py: int)
    requires IsGrid(g)
    ensures InIcon(g, i, px, py) <==> Hit(g, px, py) == i
    ensures forall j: nat :: InIcon(g, i, px, py) && InIcon(g, j, px, py) ==> i == j
  {
    if Hit(g, px, py) == i { IconOfHit(g, px, py); }
    forall j: nat | InIcon(g, j, px, py)
      ensures Hit(g, px, py) == j
    {
      HitOfIcon(g, j, px, py);
    }
  }

  /** The loop's early exit skips exactly the cells that do not fit: cell i fits iff i is below cols * rows. */
  lemma CellFitsExactly(g: Grid, i: nat)
    requires IsGrid(g)
    ensures CellY(g, i) + g.cellH <= g.height <==> i < g.cols * RowsFit(g)
  {
    var row := i / g.cols;
    RowFits(g, row);
    assert i == g.cols * row + i % g.cols;
    MultiplesAreApart(g.cols, RowsFit(g) - row);
    assert g.cols * (RowsFit(g) - row) == g.cols * RowsFit(g) - g.cols * row;
  }

  lemma RowFits(g: Grid, row: nat)
    requires IsGrid(g)
    ensures g.gy + row * g.cellH + g.cellH <= g.height <==> row < RowsFit(g)
  {
    MulMonotone(g.cellH, 0, row);
    if g.height >= g.gy {
      var q := (g.height - g.gy) / g.cellH;
      assert g.height - g.gy == g.cellH * q + (g.height - g.gy) % g.cellH;
      MultiplesAreApart(g.cellH, q - row);
      assert g.cellH * (q - row) == g.cellH * q - row * g.cellH;
    }
  }

  /** Every cell that is drawn lies inside the buffer. */
  lemma DrawnCellInside(g: Grid, i: nat, total: nat)
    requires IsGrid(g) && FitsAcross(g) && i < Drawn(g, total)
    ensures 0 <= CellX(g, i) && CellX(g, i) + g.cellW <= g.width
    ensures 0 <= CellY(g, i) && CellY(g, i) + g.cellH <= g.height
  {
    CellFitsExactly(g, i);
    MulMonotone(g.cellW, 0, i % g.cols);
    MulMonotone(g.cellW, i % g.cols + 1, g.cols);
    MulMonotone(g.cellH, 0, i / g.cols);
  }

  // ---- drawing ------------------------------------------------------------------------------

  /** The picture once the first n icons are drawn on a base. */
  ghost function WithIcons(base: seq<uint32>, g: Grid, colours: seq<uint32>, n: nat): (after: seq<uint32>)
    requires IsGrid(g) && n <= |colours| && (g.width > 0 || base == [])
    ensures |after| == |base|
  {
    seq(|base|, k requires 0 <= k < |base| => IconPixel(base[k], g, colours, n, k % g.width, k / g.width))
  }

  function IconPixel(under: uint32, g: Grid, colours: seq<uint32>, n: nat, px: int, py: int): uint32
    requires IsGrid(g) && n <= |colours|
  {
    var i := Hit(g, px, py);
    if 0 <= i < n then colours[i] else under
  }

  lemma OneMoreIcon(base: seq<uint32>, g: Grid, colours: seq<uint32>, n: nat)
    requires IsGrid(g) && n < |colours| && (g.width > 0 || base == [])
    ensures Filled(WithIcons(base, g, colours, n), g.width, CellX(g, n) + Padding(g), CellY(g, n), g.icon, g.icon, colours[n])
            == WithIcons(base, g, colours, n + 1)
  {
    var now := Filled(WithIcons(base, g, colours, n), g.width, CellX(g, n) + Padding(g), CellY(g, n), g.icon, g.icon, colours[n]);
    var next := WithIcons(base, g, colours, n + 1);
    hide Hit, CellX, CellY, Padding;
    forall k | 0 <= k < |base|
      ensures now[k] == next[k]
    {
      IconsDisjoint(g, n, k % g.width, k / g.width);
    }
  }

  /** The icon loop of launcher_render, its two text calls apart. */
  method DrawIcons(px: array<uint32>, g: Grid, colours: seq<uint32>) returns (drawn: nat)
    requires IsGrid(g) && IconsFit(g, Drawn(g, |colours|)) && px.Length == g.width * g.height
    modifies px
    ensures drawn == Drawn(g, |colours|)
    ensures px[..] == WithIcons(old(px[..]), g, colours, drawn)
  {
    hide WithIcons, Drawn, RowsFit, CellX, CellY, Filled;
    ghost var base := px[..];
    NoIcons(base, g, colours);
    var i := 0;
    while i < |colours|
      invariant 0 <= i <= |colours|
      invariant i <= Drawn(g, |colours|)
      invariant px[..] == WithIcons(base, g, colours, i)
    {
      CellFitsExactly(g, i);
      DrawnCount(g, i, |colours|);
      var cx, cy := CellX(g, i), CellY(g, i);
      if cy + g.cellH > g.height { break; }
      IconInBuffer(g, i, Drawn(g, |colours|));
      OneMoreIcon(base, g, colours, i);
      LFill(px, g.width * 4, cx + Padding(g), cy, g.icon, g.icon, colours[i]);
      i := i + 1;
    }
    DrawnCount(g, i, |colours|);
    drawn := i;
  }

  lemma IconInBuffer(g: Grid, i: nat, n: nat)
    requires IsGrid(g) && IconsFit(g, n) && i < n && CellY(g, i) + g.cellH <= g.height
    ensures 0 <= CellX(g, i) + Padding(g) && CellX(g, i) + Padding(g) + g.icon <= g.width
    ensures CellY(g, i) >= 0 && (CellY(g, i) + g.icon) * g.width <= g.width * g.height
  {
    MulMonotone(g.cellH, 0, i / g.cols);
    MulMonotone(g.width, CellY(g, i) + g.icon, g.height);
  }

  lemma NoIcons(base: seq<uint32>, g: Grid, colours: seq<uint32>)
    requires IsGrid(g) && (g.width > 0 || base == [])
    ensures WithIcons(base, g, colours, 0) == base
  {
    hide Hit;
  }

  lemma DrawnCount(g: Grid, i: nat, total: nat)
    requires IsGrid(g) && i <= Drawn(g, total)
    ensures i < total && i < g.cols * RowsFit(g) ==> i < Drawn(g, total)
    ensures i == total || i >= g.cols * RowsFit(g) ==> i == Drawn(g, total)
  {
  }

  // ---- the launcher -------------------------------------------------------------------------

  /** The number of columns: the subtraction and the division are unsigned, and at least one column remains. */
  function Columns(w: uint32, cellW: nat): nat
    requires cellW > 0
  {
    var cols := Sub32(w, 64) / cellW;
    if cols < 1 then 1 else cols
  }

  /** C's division by 2. */
  function Half(x: int): int { if x >= 0 then x / 2 else -((-x) / 2) }

  function GridFor(w: uint32, h: uint32, scale: nat, iconSize: nat): Grid {
    var cellW, cellH := iconSize + 24, iconSize + 36;
    var cols := Columns(w, cellW);
    Grid(w * scale, h * scale, Half(w * scale - cols * cellW * scale), 72 * scale, cols,
         cellW * scale, cellH * scale, iconSize * scale)
  }

  lemma ColumnsFitExactly(w: uint32, cellW: nat)
    requires 0 < cellW < 0x8000_0000
    ensures Columns(w, cellW) * cellW <= w <==> 64 <= w && cellW <= w
  {
    var x := Sub32(w, 64);
    DivisionParts(x, cellW);
    if x / cellW < 1 { assert 1 * cellW == cellW; }
  }

  lemma Scaled(a: nat, b: nat, scale: nat)
    requires scale >= 1
    ensures a * scale <= b * scale <==> a <= b
  {
    MultiplesAreApart(scale, b - a);
    MultiplesAreApart(scale, a - b);
    assert scale * (b - a) == b * scale - a * scale;
  }

  /** The grid lies inside the buffer exactly when the logical width holds the margin and one cell. */
  lemma GridFitsExactly(w: uint32, h: uint32, scale: nat, iconSize: nat)
    requires scale >= 1 && iconSize + 24 < 0x8000_0000
    ensures FitsAcross(GridFor(w, h, scale, iconSize)) <==> 64 <= w && iconSize + 24 <= w
  {
    var cellW := iconSize + 24;
    var cols := Columns(w, cellW);
    hide Columns;
    ColumnsFitExactly(w, cellW);
    MulMonotone(cellW, 0, cols);
    Scaled(cols * cellW, w, scale);
    CentredFits(w * scale, cols * cellW * scale);
    Regroup(cols, cellW, scale);
  }

  lemma RoomForColumns(room: nat, cellW: nat, n: nat)
    requires cellW > 0 && n == if room / cellW < 1 then 1 else room / cellW
    ensures room < (n + 1) * cellW && (n == 1 || n * cellW <= room)
  {
    DivisionParts(room, cellW);
    assert (n + 1) * cellW == n * cellW + cellW;
    if room / cellW < 1 { assert 1 * cellW == cellW; }
  }

  /** As many columns as fit beside the margin of 64, and at least one. */
  lemma ColumnsExactly(w: uint32, cellW: nat, cols: nat)
    requires cellW > 0
    ensures cols == Columns(w, cellW) <==>
              var room := if w >= 64 then w - 64 else w - 64 + TWO_32;
              cols >= 1 && (cols == 1 || cols * cellW <= room) && room < (cols + 1) * cellW
  {
    var room := Sub32(w, 64);
    DivisionParts(room, cellW);
    assert room == if w >= 64 then w - 64 else w - 64 + TWO_32;
    var n := Columns(w, cellW);
    assert n == 1 || n == room / cellW;
    RoomForColumns(room, cellW, n);
    if cols < n {
      MulMonotone(cellW, cols + 1, n);
    } else if n < cols {
      MulMonotone(cellW, n + 1, cols);
    }
  }

  /**
   * Where everything goes, in logical pixels times the scale: the first row 72 below the top, cells
   * 24 wider and 36 higher than an icon, the icon in the middle of its cell's width, and margins
   * left and right that differ by at most one buffer pixel.
   */
  lemma PlacesExactly(w: uint32, h: uint32, scale: nat, iconSize: nat, i: nat)
    requires scale >= 1
    ensures var g := GridFor(w, h, scale, iconSize);
            && IsGrid(g) && g.width == w * scale && g.height == h * scale && g.icon == iconSize * scale
            && g.cols == Columns(w, iconSize + 24)
            && CellX(g, i) + Padding(g) == g.gx + (i % g.cols) * ((iconSize + 24) * scale) + 12 * scale
            && CellY(g, i) == 72 * scale + (i / g.cols) * ((iconSize + 36) * scale)
            && var right := g.width - g.gx - g.cols * ((iconSize + 24) * scale);
               -1 <= g.gx - right <= 1
  {
    hide Columns;
    LayoutIsGrid(w, h, scale, iconSize);
    ScaledParts(w, iconSize, scale);
    Regroup(Columns(w, iconSize + 24), iconSize + 24, scale);
  }

  lemma LayoutIsGrid(w: uint32, h: uint32, scale: nat, iconSize: nat)
    requires scale >= 1
    ensures IsGrid(GridFor(w, h, scale, iconSize))
  {
    hide Columns;
    Scaled(iconSize, iconSize + 24, scale);
    Scaled(iconSize, iconSize + 36, scale);
    MulMonotone(scale, 1, iconSize + 24);
    MulMonotone(scale, 1, iconSize + 36);
    AtLeastOne(w, iconSize + 24);
  }

  /** On less than 64 logical pixels the product of columns and cell width is past every positive int. */
  lemma NarrowColumns(w: uint32, cellW: nat)
    requires 0 < cellW <= 0x7FFF_FFC0
    ensures Columns(w, cellW) * cellW >= 0x8000_0000 <==> w < 64 || 0x8000_0000 <= (w - 64) / cellW * cellW
  {
    var x := Sub32(w, 64);
    DivisionParts(x, cellW);
    if x / cellW < 1 { assert 1 * cellW == cellW; }
  }

  /** Where the columns do not fit there is one of them, or the grid starts far to the left. */
  lemma WideGrid(w: uint32, h: uint32, scale: nat, iconSize: nat)
    requires scale >= 1 && iconSize + 24 < 0x8000_0000 && !(64 <= w && iconSize + 24 <= w)
    ensures var g := GridFor(w, h, scale, iconSize);
            && (64 <= w ==> g.cols == 1 && g.gx == Half((w - iconSize - 24) * scale))
            && (w < 64 ==> g.gx < -12 * scale)
  {
    var cellW := iconSize + 24;
    var cols := Columns(w, cellW);
    TooWide(w, cellW);
    hide Columns;
    ScaledParts(w, iconSize, scale);
    if w < 64 {
      MulMonotone(scale, w + 26, cols * cellW);
      assert (w + 26) * scale == w * scale + 26 * scale;
    }
  }

  lemma TooWide(w: uint32, cellW: nat)
    requires 0 < cellW < 0x8000_0000 && !(64 <= w && cellW <= w)
    ensures 64 <= w ==> Columns(w, cellW) == 1
    ensures w < 64 ==> Columns(w, cellW) * cellW >= w + 26
  {
    var x := Sub32(w, 64);
    DivisionParts(x, cellW);
    if 64 <= w {
      if x / cellW >= 1 { MulMonotone(cellW, 1, x / cellW); }
    } else if x / cellW < 1 {
      assert 1 * cellW == cellW;
    }
  }

  lemma ScaledParts(w: int, iconSize: int, scale: int)
    ensures (w - iconSize - 24) * scale == w * scale - iconSize * scale - 24 * scale
    ensures (iconSize + 24) * scale == iconSize * scale + 24 * scale
  {
  }

  /** All drawn cells lie inside exactly when none is drawn or the columns fit. */
  lemma DrawnCellsFitExactly(w: uint32, h: uint32, scale: nat, iconSize: nat, total: nat)
    requires scale >= 1 && iconSize + 24 < 0x8000_0000
    ensures var g := GridFor(w, h, scale, iconSize);
            && IsGrid(g)
            && (CellsFit(g, Drawn(g, total)) <==> Drawn(g, total) == 0 || (64 <= w && iconSize + 24 <= w))
  {
    var g := GridFor(w, h, scale, iconSize);
    LayoutIsGrid(w, h, scale, iconSize);
    GridFitsExactly(w, h, scale, iconSize);
    hide GridFor;
    if FitsAcross(g) {
      forall i: nat | i < Drawn(g, total)
        ensures 0 <= CellX(g, i) && CellX(g, i) + g.cellW <= g.width
      {
        DrawnCellInside(g, i, total);
      }
    } else if Drawn(g, total) > 0 {
      WideGrid(w, h, scale, iconSize);
      ScaledParts(w, iconSize, scale);
      Scaled(iconSize + 24, w, scale);
      GridSizes(w, h, scale, iconSize);
      FirstCellX(g);
    }
  }

  lemma GridSizes(w: uint32, h: uint32, scale: nat, iconSize: nat)
    requires scale >= 1
    ensures var g := GridFor(w, h, scale, iconSize);
            && IsGrid(g) && g.width == w * scale && g.icon == iconSize * scale
            && g.cellW == iconSize * scale + 24 * scale && Padding(g) == 12 * scale
  {
    LayoutIsGrid(w, h, scale, iconSize);
    ScaledParts(w, iconSize, scale);
  }

  lemma FirstCellX(g: Grid)
    requires g.cols > 0
    ensures CellX(g, 0) == g.gx
    ensures forall i: nat :: g.cols == 1 ==> CellX(g, i) == g.gx
  {
  }

  /** All drawn icon squares lie inside exactly when none is drawn or the width holds margin and icon; a cell may stick out. */
  lemma DrawnIconsFitExactly(w: uint32, h: uint32, scale: nat, iconSize: nat, total: nat)
    requires scale >= 1 && iconSize + 24 < 0x8000_0000
    ensures var g := GridFor(w, h, scale, iconSize);
            && IsGrid(g)
            && (IconsFit(g, Drawn(g, total)) <==> Drawn(g, total) == 0 || (64 <= w && iconSize <= w))
  {
    var g := GridFor(w, h, scale, iconSize);
    GridSizes(w, h, scale, iconSize);
    GridFitsExactly(w, h, scale, iconSize);
    hide GridFor;
    if FitsAcross(g) {
      forall i: nat | i < Drawn(g, total)
        ensures 0 <= CellX(g, i) && CellX(g, i) + g.cellW <= g.width
      {
        DrawnCellInside(g, i, total);
      }
    } else {
      WideGrid(w, h, scale, iconSize);
      ScaledParts(w, iconSize, scale);
      Scaled(iconSize, w, scale);
      Scaled(w + 1, iconSize, scale);
      assert (w + 1) * scale == w * scale + scale;
      FirstCellX(g);
    }
  }

  lemma CentredFits(total: int, used: int)
    ensures 0 <= Half(total - used) && Half(total - used) + used <= total <==> used <= total
  {
  }

  lemma Regroup(a: int, b: int, c: int)
    ensures a * b * c == a * (b * c)
  {
  }

  lemma AtLeastOne(w: uint32, cellW: nat)
    requires cellW > 0
    ensures Columns(w, cellW) >= 1
  {
  }

  /** The icon's colour: each channel of a hovered one is raised by 30, wrapping on 8 bits. */
  function Colour(accent: uint32, hovered: bool): uint32 {
    if !hovered then accent
    else
      var r, g, b := (accent / 0x1_0000 % 0x100 + 30) % 0x100, (accent / 0x100 % 0x100 + 30) % 0x100, (accent % 0x100 + 30) % 0x100;
      0xFF00_0000 + r * 0x1_0000 + g * 0x100 + b
  }

  /** c is opaque, and each of its colour channels is the accent's plus 30, modulo 256. */
  predicate Brightened(c: uint32, accent: uint32) {
    && c / 0x100_0000 == 0xFF
    && c / 0x1_0000 % 0x100 == (accent / 0x1_0000 + 30) % 0x100
    && c / 0x100 % 0x100 == (accent / 0x100 + 30) % 0x100
    && c % 0x100 == (accent + 30) % 0x100
  }

  /** What an icon's square should show. */
  predicate IconColour(c: uint32, accent: uint32, hovered: bool) {
    if hovered then Brightened(c, accent) else c == accent
  }

  lemma ColourExactly(accent: uint32, hovered: bool)
    ensures IconColour(Colour(accent, hovered), accent, hovered)
  {
    if hovered {
      var x: nat, y: nat, z: nat := accent / 0x1_0000, accent / 0x100, accent;
      PlusThirty(x);
      PlusThirty(y);
      PlusThirty(z);
      Channels((x + 30) % 0x100, (y + 30) % 0x100, (z + 30) % 0x100);
    }
  }

  lemma PlusThirty(x: nat)
    ensures (x % 0x100 + 30) % 0x100 == (x + 30) % 0x100
  {
  }

  lemma Channels(r: uint8, g: uint8, b: uint8)
    ensures var c := 0xFF00_0000 + r * 0x1_0000 + g * 0x100 + b;
            && c < TWO_32 && c / 0x100_0000 == 0xFF
            && c / 0x1_0000 % 0x100 == r && c / 0x100 % 0x100 == g && c % 0x100 == b
  {
    var c := 0xFF00_0000 + r * 0x1_0000 + g * 0x100 + b;
    RemainderUnique(c, 0x1_0000, 0xFF00 + r, g * 0x100 + b);
    RemainderUnique(c, 0x100, 0xFF_0000 + r * 0x100 + g, b);
  }

  function Colours(accents: seq<uint32>, hover: int): (cs: seq<uint32>)
    ensures |cs| == |accents|
  {
    seq(|accents|, i requires 0 <= i < |accents| => Colour(accents[i], hover == i))
  }

  lemma BufferSize(width: nat, height: nat)
    ensures width * height >= 0
  {
    MulMonotone(width, 0, height);
  }

  lemma LayoutSizes(w: uint32, h: uint32, scale: nat, iconSize: nat)
    ensures var g := GridFor(w, h, scale, iconSize);
            g.width == w * scale && g.height == h * scale && g.cols == Columns(w, iconSize + 24)
  {
    hide Columns;
  }

  class LunaLauncher {
    var logicalWidth: uint32
    var logicalHeight: uint32
    var scale: nat
    var iconSize: nat
    var cols: nat
    var stride: nat
    var configured: bool
    var pixels: array<uint32>
    var hoverIdx: int

    ghost function Layout(): Grid
      reads this
    {
      GridFor(logicalWidth, logicalHeight, scale, iconSize)
    }

    /** What ll_configure leaves behind: a buffer of exactly width * height pixels. */
    ghost predicate Valid()
      reads this
    {
      && scale >= 1 && iconSize + 24 < 0x8000_0000 && configured && IsGrid(Layout())
      && cols == Layout().cols && stride == 4 * Layout().width
      && pixels.Length == Layout().width * Layout().height
    }

    constructor ()
      ensures !configured && hoverIdx == -1
    {
      logicalWidth, logicalHeight, scale, iconSize, cols, stride := 0, 0, 0, 0, 0, 0;
      configured, hoverIdx := false, -1;
      pixels := new uint32[0];
    }

    static method CountColumns(w: uint32, cellW: nat) returns (cols: nat)
      requires cellW > 0
      ensures cols == Columns(w, cellW)
    {
      cols := Sub32(w, 64) / cellW;
      if cols < 1 { cols := 1; }
    }

    /** ll_configure. */
    method Configure(w: uint32, h: uint32, displayScale: int32, launcherIconSize: nat)
      requires launcherIconSize + 24 < 0x8000_0000
      modifies this
      ensures Valid() && fresh(pixels) && hoverIdx == old(hoverIdx)
      ensures Layout() == GridFor(w, h, if displayScale < 1 then 1 else displayScale, launcherIconSize)
    {
      logicalWidth, logicalHeight, configured := w, h, true;
      scale := if displayScale < 1 then 1 else displayScale;
      iconSize := launcherIconSize;
      cols := CountColumns(w, iconSize + 24);
      hide GridFor, Columns, IsGrid, Sub32;
      LayoutIsGrid(w, h, scale, iconSize);
      LayoutSizes(w, h, scale, iconSize);
      var pw, ph := w * scale, h * scale;
      BufferSize(pw, ph);
      stride := pw * 4;
      pixels := new uint32[pw * ph];
    }

    /** launcher_render without its text: every pixel shows the icon that hit testing finds, or the background. */
    method Render(accents: seq<uint32>) returns (drawn: nat)
      requires configured ==> Valid() && IconsFit(Layout(), Drawn(Layout(), |accents|))
      modifies pixels
      ensures !configured ==> pixels[..] == old(pixels[..])
      ensures configured ==>
                && IsGrid(Layout()) && drawn == Drawn(Layout(), |accents|)
                && forall k :: 0 <= k < pixels.Length && Layout().width > 0 ==>
                     var i := Hit(Layout(), k % Layout().width, k / Layout().width);
                     if 0 <= i < drawn then IconColour(pixels[k], accents[i], i == hoverIdx) else pixels[k] == 0xE605_0510
    {
      if !configured { return 0; }
      hide GridFor, WithIcons, Filled, IconColour;
      var g := GridFor(logicalWidth, logicalHeight, scale, iconSize);
      ghost var before := pixels[..];
      WholeBuffer(g);
      LFill(pixels, stride, 0, 0, g.width, g.height, BACKGROUND);
      ghost var base := pixels[..];
      drawn := DrawIcons(pixels, g, Colours(accents, hoverIdx));
      PicturePixels(before, base, g, accents, hoverIdx, drawn);
    }
  }

  lemma WholeBuffer(g: Grid)
    ensures g.height * g.width == g.width * g.height
    ensures g.width == 0 ==> g.width * g.height == 0
  {
  }

  lemma PicturePixels(before: seq<uint32>, base: seq<uint32>, g: Grid, accents: seq<uint32>, hover: int, drawn: nat)
    requires IsGrid(g) && |before| == g.width * g.height && drawn <= |accents|
    requires g.width > 0 || base == []
    requires base == Filled(before, g.width, 0, 0, g.width, g.height, BACKGROUND)
    ensures var picture := WithIcons(base, g, Colours(accents, hover), drawn);
            forall k :: 0 <= k < |picture| ==>
              var i := Hit(g, k % g.width, k / g.width);
              if 0 <= i < drawn then IconColour(picture[k], accents[i], i == hover) else picture[k] == BACKGROUND
  {
    forall i | 0 <= i < |accents|
      ensures IconColour(Colour(accents[i], hover == i), accents[i], i == hover)
    {
      ColourExactly(accents[i], hover == i);
    }
    hide Hit, Colour, IconColour;
    forall k | 0 <= k < |base|
      ensures base[k] == BACKGROUND
    {
      PixelOfIndex(g.width, g.height, k);
    }
  }

  lemma PixelOfIndex(width: nat, rows: nat, k: nat)
    requires 0 < width && k < width * rows
    ensures 0 <= k % width < width && 0 <= k / width < rows
  {
    DivisionParts(k, width);
    MultiplesAreApart(width, rows - k / width);
    assert width * (rows - k / width) == width * rows - (k / width) * width;
  }
}
