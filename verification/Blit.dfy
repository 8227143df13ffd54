/** Row-major pixel buffers: cell (row, column) of a canvas `cx` wide. */
module Canvas {
  import opened Common

  function Index(cx: nat, row: int, col: int): int {
    row * cx + col
  }

  lemma RowsApart(cx: nat, row: int, row': int)
    requires row < row'
    ensures row' * cx >= row * cx + cx
  {
    Scaled(row + 1, row', cx);
  }

  lemma IndexInRange(cx: nat, cy: nat, row: int, col: int)
    requires 0 <= row < cy && 0 <= col < cx
    ensures 0 <= Index(cx, row, col) < cx * cy
  {
    RowsApart(cx, row, cy);
  }

  lemma IndexInjective(cx: nat, row: int, col: int, row': int, col': int)
    requires 0 <= col < cx && 0 <= col' < cx && Index(cx, row, col) == Index(cx, row', col')
    ensures row == row' && col == col'
  {
    if row < row' {
      RowsApart(cx, row, row');
    } else if row' < row {
      RowsApart(cx, row', row);
    }
  }

  function At<T>(cells: seq<T>, cx: nat, cy: nat, row: int, col: int): T
    requires |cells| == cx * cy && 0 <= row < cy && 0 <= col < cx
  {
    IndexInRange(cx, cy, row, col);
    cells[Index(cx, row, col)]
  }

  // Writing one cell leaves all others alone.
  lemma WrittenAt<T>(cells: seq<T>, cx: nat, cy: nat, row: int, col: int, v: T)
    requires |cells| == cx * cy && 0 <= row < cy && 0 <= col < cx
    ensures 0 <= Index(cx, row, col) < |cells|
    ensures forall row', col' :: 0 <= row' < cy && 0 <= col' < cx ==>
              At(cells[Index(cx, row, col) := v], cx, cy, row', col') ==
              if (row', col') == (row, col) then v else At(cells, cx, cy, row', col')
  {
    IndexInRange(cx, cy, row, col);
    forall row', col' | 0 <= row' < cy && 0 <= col' < cx
      ensures At(cells[Index(cx, row, col) := v], cx, cy, row', col') ==
              if (row', col') == (row, col) then v else At(cells, cx, cy, row', col')
    {
      IndexInRange(cx, cy, row', col');
      if Index(cx, row', col') == Index(cx, row, col) {
        IndexInjective(cx, row', col', row, col);
      }
    }
  }
}

/**
  The glyph drawing loops of ft.cpp:537-839. The mono, grey, LCD and BGRA loops clip and walk
  in the same way; they differ in how many samples make a pixel and in what they do with them.
 */
module Blit {
  import opened Canvas
  import opened Common

  // A COLORREF, kept abstract.
  type Color = nat

  datatype Mode = Mono | Gray | Lcd(aaMode: int) | Bgra

  // The number of samples in a row is `span`: the bitmap's width, or four times it for BGRA.
  datatype Bitmap = Bitmap(mode: Mode, span: nat, rows: nat, pitch: nat, buffer: seq<Byte>) {
    // What FreeType guarantees about a bitmap whose rows are stored top down.
    ghost predicate Valid() {
      && |buffer| >= rows * pitch
      && (if mode.Mono? then (span + 7) / 8 <= pitch else span <= pitch)
      && span % Samples(mode) == 0
    }
  }

  // The colour, the blender, the mixer for colour glyphs, and the divisor of shadow alphas.
  datatype Brush = Brush(
    color: Color,
    blend: (Color, nat, nat, nat) -> Color,
    mixer: (Color, nat, nat, nat, nat) -> Color,
    tuner: nat)

  function Samples(mode: Mode): nat {
    match mode
    case Mono => 1
    case Gray => 1
    case Lcd(_) => 3
    case Bgra => 4
  }

  function Bit(b: Byte, k: nat): bool
    requires k < 8
  {
    b / [128, 64, 32, 16, 8, 4, 2, 1][k] % 2 == 1
  }

  function Tuned(b: Byte, tuner: nat): nat
    requires tuner > 0
  {
    b / tuner
  }

  // Where the code looks for row j (ft.cpp:571-573).
  function RowStart(pitch: int, rows: nat, j: int): int {
    if pitch < 0 then -pitch * rows - pitch * j else pitch * j
  }

  /** The code's address of a row lies in the bitmap exactly when the pitch is positive: for a
      bitmap stored bottom up every row is looked for behind the buffer. */
  lemma RowInsideIff(pitch: int, rows: nat, j: int)
    requires pitch != 0 && 0 <= j < rows
    ensures var size := if pitch < 0 then -pitch else pitch;
            0 <= RowStart(pitch, rows, j) <= RowStart(pitch, rows, j) + size <= size * rows <==> pitch > 0
  {
    if pitch > 0 {
      RowsApart(pitch, j, rows);
      assert pitch * j == j * pitch && pitch * rows == rows * pitch;
      Scaled(0, j, pitch);
    } else {
      Scaled(0, j, -pitch);
      assert -pitch * j == j * -pitch;
    }
  }

  // The samples of one row, top down.
  function Row(bm: Bitmap, j: int): (p: seq<Byte>)
    requires bm.Valid() && 0 <= j < bm.rows
    ensures |p| == bm.pitch
  {
    RowsApart(bm.pitch, j, bm.rows);
    assert RowStart(bm.pitch, bm.rows, j) == j * bm.pitch;
    bm.buffer[RowStart(bm.pitch, bm.rows, j)..RowStart(bm.pitch, bm.rows, j) + bm.pitch]
  }

  // The pixel that sample i of row j makes of the background `back`.
  function Shade(bm: Bitmap, brush: Brush, j: int, i: int, back: Color): Color
    requires bm.Valid() && brush.tuner > 0
    requires 0 <= j < bm.rows && 0 <= i && i + Samples(bm.mode) <= bm.span
  {
    var p := Row(bm, j);
    match bm.mode
    case Mono => if Bit(p[i / 8], i % 8) then brush.color else back
    case Gray => brush.blend(back, p[i], p[i], p[i])
    case Lcd(aaMode) =>
      var first, second, third := Tuned(p[i], brush.tuner), Tuned(p[i + 1], brush.tuner), Tuned(p[i + 2], brush.tuner);
      if aaMode == 2 || aaMode == 4 then brush.blend(back, third, second, first)
      else brush.blend(back, first, second, third)
    case Bgra => brush.mixer(back, p[i + 2], p[i + 1], p[i], p[i + 3])
  }

  // Sample i of row j in the buffer.
  function Sample(bm: Bitmap, j: int, i: int): Byte
    requires bm.Valid() && 0 <= j < bm.rows && 0 <= i < bm.pitch
  {
    SampleInside(bm.pitch, bm.rows, j, i);
    bm.buffer[j * bm.pitch + i]
  }

  lemma SampleInside(pitch: nat, rows: nat, j: int, i: int)
    requires 0 <= j < rows && 0 <= i < pitch
    ensures 0 <= j * pitch + i < rows * pitch
  {
    RowsApart(pitch, j, rows);
    Scaled(0, j, pitch);
  }

  lemma RowSample(bm: Bitmap, j: int, i: int)
    requires bm.Valid() && 0 <= j < bm.rows && 0 <= i < bm.pitch
    ensures Row(bm, j)[i] == Sample(bm, j, i)
  {
    SampleInside(bm.pitch, bm.rows, j, i);
    RowsApart(bm.pitch, j, bm.rows);
  }

  // A sample as the code reads it, wherever a whole pixel lies in the row.
  lemma SamplesInside(bm: Bitmap, i: int)
    requires bm.Valid() && 0 <= i && i + Samples(bm.mode) <= bm.span
    ensures 0 <= i / 8
    ensures if bm.mode.Mono? then i / 8 < bm.pitch else i + Samples(bm.mode) <= bm.pitch
  {}

  /** A mono pixel is painted exactly where its bit is set, the highest bit of a byte first. */
  lemma ShadeMono(bm: Bitmap, brush: Brush, j: int, i: int, back: Color)
    requires bm.Valid() && brush.tuner > 0 && bm.mode == Mono
    requires 0 <= j < bm.rows && 0 <= i < bm.span
    ensures i / 8 < bm.pitch
    ensures Shade(bm, brush, j, i, back) ==
            if Sample(bm, j, i / 8) / Power2(7 - i % 8) % 2 == 1 then brush.color else back
  {
    hide Sample, Row;
    SamplesInside(bm, i);
    RowSample(bm, j, i / 8);
    BitIsPower(Row(bm, j)[i / 8], i % 8);
  }

  lemma BitIsPower(b: Byte, k: nat)
    requires k < 8
    ensures Bit(b, k) <==> b / Power2(7 - k) % 2 == 1
  {
    assert Power2(1) == 2 && Power2(2) == 4 && Power2(3) == 8 && Power2(4) == 16;
    assert Power2(5) == 32 && Power2(6) == 64 && Power2(7) == 128;
  }

  /** A grey sample is the coverage of all three channels. */
  lemma ShadeGray(bm: Bitmap, brush: Brush, j: int, i: int, back: Color)
    requires bm.Valid() && brush.tuner > 0 && bm.mode == Gray
    requires 0 <= j < bm.rows && 0 <= i < bm.span
    ensures Shade(bm, brush, j, i, back) ==
            brush.blend(back, Sample(bm, j, i), Sample(bm, j, i), Sample(bm, j, i))
  {
    hide Sample, Row;
    RowSample(bm, j, i);
  }

  /** The three samples of an LCD pixel, scaled down, go to the blender last to first in the
      antialiasing modes 2 and 4, and first to last in the others. */
  lemma ShadeLcd(bm: Bitmap, brush: Brush, aaMode: int, j: int, i: int, back: Color)
    requires bm.Valid() && brush.tuner > 0 && bm.mode == Lcd(aaMode)
    requires 0 <= j < bm.rows && 0 <= i && i + 3 <= bm.span
    ensures var first, second, third := Sample(bm, j, i), Sample(bm, j, i + 1), Sample(bm, j, i + 2);
            Shade(bm, brush, j, i, back) ==
            if aaMode == 2 || aaMode == 4 then
              brush.blend(back, third / brush.tuner, second / brush.tuner, first / brush.tuner)
            else
              brush.blend(back, first / brush.tuner, second / brush.tuner, third / brush.tuner)
  {
    hide Sample, Row;
    RowSample(bm, j, i);
    RowSample(bm, j, i + 1);
    RowSample(bm, j, i + 2);
  }

  /** The four samples of a colour pixel go to the mixer third, second, first and fourth. */
  lemma ShadeBgra(bm: Bitmap, brush: Brush, j: int, i: int, back: Color)
    requires bm.Valid() && brush.tuner > 0 && bm.mode == Bgra
    requires 0 <= j < bm.rows && 0 <= i && i + 4 <= bm.span
    ensures Shade(bm, brush, j, i, back) ==
            brush.mixer(back, Sample(bm, j, i + 2), Sample(bm, j, i + 1), Sample(bm, j, i), Sample(bm, j, i + 3))
  {
    hide Sample, Row;
    RowSample(bm, j, i);
    RowSample(bm, j, i + 1);
    RowSample(bm, j, i + 2);
    RowSample(bm, j, i + 3);
  }

  function Power2(n: nat): (p: nat)
    ensures p > 0
  {
    if n == 0 then 1 else 2 * Power2(n - 1)
  }

  function Max0(x: int): nat {
    if x < 0 then 0 else x
  }

  // The exclusive end of the samples the code walks over (ft.cpp:567, 615, 763, 817).
  function Limit(bm: Bitmap, cx: nat, x: int): int {
    var room := Samples(bm.mode) * (cx - Max0(x));
    if bm.span < room then bm.span else room
  }

  // Column `col` receives the pixel that starts at sample Samples * (col - x).
  predicate Drawn(bm: Bitmap, cx: nat, x: int, col: int) {
    Samples(bm.mode) * Max0(-x) <= Samples(bm.mode) * (col - x) < Limit(bm, cx, x)
  }

  // The final colour of a cell, by the code's clipping.
  ghost function Cell(bm: Bitmap, brush: Brush, cx: nat, x: int, y: int, row: int, col: int, back: Color): Color
    requires bm.Valid() && brush.tuner > 0
  {
    if 0 <= row - y < bm.rows && Drawn(bm, cx, x, col) then
      WholePixels(bm, col - x);
      Shade(bm, brush, row - y, Samples(bm.mode) * (col - x), back)
    else
      back
  }

  lemma WholePixels(bm: Bitmap, k: int)
    requires bm.Valid() && Samples(bm.mode) * k < bm.span
    ensures Samples(bm.mode) * k + Samples(bm.mode) <= bm.span
  {
  }

  /** After the loops every cell of the canvas holds what its source pixel makes of it, or what
      it held before; and no write falls outside the canvas. */
  method Draw(bm: Bitmap, brush: Brush, canvas: array<Color>, cx: nat, cy: nat, x0: int, y: int)
    requires bm.Valid() && brush.tuner > 0 && canvas.Length == cx * cy
    modifies canvas
    ensures forall row, col :: 0 <= row < cy && 0 <= col < cx ==>
              At(canvas[..], cx, cy, row, col) ==
              Cell(bm, brush, cx, x0, y, row, col, At(old(canvas[..]), cx, cy, row, col))
  {
    hide Cell, At, Index, Limit;
    OtherRowsKept(bm, brush, cx, x0, y);
    LimitIs(bm, cx, x0);
    ghost var before := canvas[..];
    var samples := Samples(bm.mode);
    var x, left := x0, 0;
    if x < 0 {
      left := -x * samples;
      x := 0;
    }
    var width := if bm.span < (cx - x) * samples then bm.span else (cx - x) * samples;
    var j, dy := 0, y;
    while j < bm.rows
      invariant 0 <= j <= bm.rows && dy == y + j
      invariant forall row, col :: 0 <= row < cy && 0 <= col < cx ==>
                  At(canvas[..], cx, cy, row, col) ==
                  if row < dy then Cell(bm, brush, cx, x0, y, row, col, At(before, cx, cy, row, col))
                  else At(before, cx, cy, row, col)
    {
      if 0 <= dy < cy {
        DrawRow(bm, brush, canvas, cx, cy, x0, y, j, left, x, width);
      }
      j := j + 1;
      dy := dy + 1;
    }
  }

  lemma OtherRowsKept(bm: Bitmap, brush: Brush, cx: nat, x: int, y: int)
    requires bm.Valid() && brush.tuner > 0
    ensures forall row, col, back :: row < y || row >= y + bm.rows ==>
              Cell(bm, brush, cx, x, y, row, col, back) == back
  {
  }

  lemma LimitIs(bm: Bitmap, cx: nat, x: int)
    ensures var room := (cx - (if x < 0 then 0 else x)) * Samples(bm.mode);
            Limit(bm, cx, x) == if bm.span < room then bm.span else room
    ensures (if x < 0 then -x * Samples(bm.mode) else 0) == Samples(bm.mode) * Max0(-x)
  {
  }

  // The inner loop.
  method DrawRow(bm: Bitmap, brush: Brush, canvas: array<Color>, cx: nat, cy: nat, x0: int, y: int,
                 j: nat, left: int, x: nat, width: int)
    requires bm.Valid() && brush.tuner > 0 && canvas.Length == cx * cy
    requires j < bm.rows && 0 <= y + j < cy
    requires x == Max0(x0) && left == Samples(bm.mode) * Max0(-x0) && width == Limit(bm, cx, x0)
    modifies canvas
    ensures forall row, col :: 0 <= row < cy && 0 <= col < cx ==>
              At(canvas[..], cx, cy, row, col) ==
              if row == y + j then Cell(bm, brush, cx, x0, y, row, col, At(old(canvas[..]), cx, cy, row, col))
              else At(old(canvas[..]), cx, cy, row, col)
  {
    hide At, Index, Shade;
    ghost var before := canvas[..];
    var samples := Samples(bm.mode);
    var dy := y + j;
    var i, dx := left, x;
    NothingBefore(bm, cx, x0);
    while i < width
      invariant x <= dx && i == samples * (dx - x0)
      invariant forall row, col :: 0 <= row < cy && 0 <= col < cx ==>
                  At(canvas[..], cx, cy, row, col) ==
                  if row == dy && col < dx then
                    Cell(bm, brush, cx, x0, y, row, col, At(before, cx, cy, row, col))
                  else At(before, cx, cy, row, col)
      decreases width - i
    {
      ColumnInside(bm, cx, x0, dx);
      WholePixels(bm, dx - x0);
      var v := Shade(bm, brush, j, i, At(canvas[..], cx, cy, dy, dx));
      WrittenAt(canvas[..], cx, cy, dy, dx, v);
      ghost var cells := canvas[..];
      canvas[Index(cx, dy, dx)] := v;
      assert canvas[..] == cells[Index(cx, dy, dx) := v];
      i := i + samples;
      dx := dx + 1;
    }
    NothingFurther(bm, cx, x0, dx);
  }

  lemma ColumnInside(bm: Bitmap, cx: nat, x: int, col: int)
    requires Max0(x) <= col && Samples(bm.mode) * (col - x) < Limit(bm, cx, x)
    ensures col < cx && Drawn(bm, cx, x, col)
  {
  }

  lemma NothingFurther(bm: Bitmap, cx: nat, x: int, col: int)
    requires Samples(bm.mode) * (col - x) >= Limit(bm, cx, x)
    ensures forall c :: col <= c ==> !Drawn(bm, cx, x, c)
  {
  }

  lemma NothingBefore(bm: Bitmap, cx: nat, x: int)
    ensures forall c :: c < Max0(x) ==> !Drawn(bm, cx, x, c)
  {
  }

  // Clipping as one would want it: exactly the pixels that fall on the canvas.
  predicate Wanted(bm: Bitmap, x: int, col: int) {
    0 <= Samples(bm.mode) * (col - x) < bm.span
  }

  /** The code clips ideally unless the bitmap starts left of the canvas, is wider than the
      canvas, and reaches into it: then its right part is missing. */
  lemma ClipsIdeallyIff(bm: Bitmap, cx: nat, x: int)
    ensures (forall col :: 0 <= col < cx ==> (Drawn(bm, cx, x, col) <==> Wanted(bm, x, col))) <==>
            x >= 0 || cx == 0 || bm.span <= Samples(bm.mode) * cx || bm.span <= Samples(bm.mode) * -x
  {
    var s := Samples(bm.mode);
    if x < 0 && cx > 0 && bm.span > s * cx && bm.span > s * -x {
      var col := Max0(cx + x);
      assert s * (col - x) == if cx + x < 0 then s * -x else s * cx;
      assert Wanted(bm, x, col) && !Drawn(bm, cx, x, col);
    }
  }

  /** A column that is drawn is always wanted: clipping never draws too much. */
  lemma DrawnIsWanted(bm: Bitmap, cx: nat, x: int, col: int)
    requires Drawn(bm, cx, x, col)
    ensures Wanted(bm, x, col) && Max0(x) <= col < cx
  {
  }

  /** Column by column: what is drawn is what falls on the canvas, except that a glyph starting
      left of it is cut off as if it had the canvas's width. */
  lemma DrawnIff(bm: Bitmap, cx: nat, x: int, col: int)
    ensures Drawn(bm, cx, x, col) <==>
            Wanted(bm, x, col) && 0 <= col && (if x >= 0 then col < cx else col - x < cx)
  {
  }
}
