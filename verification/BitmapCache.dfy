/** The grow-and-shrink bitmap of cache.cpp. CreateDIBSection is an input that may fail. */
module BitmapCache {
  import opened Canvas
  import opened Common

  const BITMAP_REDUCE_COUNTER: int := 256

  // A section and its pixels; handle 0 is NULL.
  datatype Dib = Dib(handle: nat, pixels: nat)

  datatype Cache = Cache(dib: Option<Dib>, cx: int, cy: int, counter: int, deleted: seq<Dib>)

  const EMPTY: Cache := Cache(None, 0, 0, 0, [])

  datatype Request = Request(width: int, height: int, section: Option<Dib>)

  // What became of a request.
  datatype Event = Reused | Reset | Rebuilt(dib: Dib) | Failed(fitting: bool)

  function RoundUp4(width: int): int {
    (width + 3) / 4 * 4
  }

  function Larger(x: int, y: int): int {
    if x > y then x else y
  }

  predicate Fits(c: Cache, r: Request) {
    c.cx >= RoundUp4(r.width) && c.cy >= r.height
  }

  function Serve(c: Cache, r: Request): (Cache, Event) {
    var width := RoundUp4(r.width);
    if Fits(c, r) && c.counter + 1 < BITMAP_REDUCE_COUNTER then
      (c.(counter := c.counter + 1), Reused)
    else if Fits(c, r) && c.cx == width && c.cy == r.height then
      (c.(counter := 0), Reset)
    else if r.section.None? then
      (c.(counter := if Fits(c, r) then c.counter + 1 else c.counter), Failed(Fits(c, r)))
    else
      var deleted := c.deleted + (if c.dib.Some? then [c.dib.value] else []);
      (if Fits(c, r) then Cache(r.section, width, r.height, 0, deleted)
       else Cache(r.section, Larger(width, c.cx), Larger(r.height, c.cy), 0, deleted),
       Rebuilt(r.section.value))
  }

  class CBitmapCache {
    var hbmp: nat
    var lpPixels: nat
    var cx: int
    var cy: int
    var counter: int
    ghost var deleted: seq<Dib>

    ghost function View(): Cache
      reads this
    {
      Cache(if hbmp == 0 then None else Some(Dib(hbmp, lpPixels)), cx, cy, counter, deleted)
    }

    constructor ()
      ensures View() == EMPTY
    {
      hbmp, lpPixels, cx, cy, counter, deleted := 0, 0, 0, 0, 0, [];
    }

    /** CreateDIB: the cache it leaves, and a bitmap exactly when the request was not failed. */
    method CreateDIB(width0: int, height0: int, section: Option<Dib>) returns (bitmap: nat, pixels: nat)
      requires section.Some? ==> section.value.handle != 0
      modifies this
      ensures var (c, event) := Serve(old(View()), Request(width0, height0, section));
              && View() == c
              && (event.Failed? ==> bitmap == 0)
              && (Valid(old(View())) && width0 > 0 && height0 > 0 ==> (bitmap == 0 <==> event.Failed?))
              && (!event.Failed? ==> bitmap == hbmp && pixels == lpPixels)
    {
      pixels := 0;
      var width, height := RoundUp4(width0), height0;
      if cx >= width && cy >= height {
        counter := counter + 1;
        if counter < BITMAP_REDUCE_COUNTER {
          return hbmp, lpPixels;
        }
        if cx == width && cy == height {
          counter := 0;
          return hbmp, lpPixels;
        }
      } else {
        if cx > width {
          width := cx;
        }
        if cy > height {
          height := cy;
        }
      }
      if section.None? {
        return 0, 0;
      }
      if hbmp != 0 {
        deleted := deleted + [Dib(hbmp, lpPixels)];
      }
      hbmp := section.value.handle;
      cx := width;
      cy := height;
      lpPixels := section.value.pixels;
      counter := 0;
      return hbmp, lpPixels;
    }

    /** DrawHorizontalLine: exactly the cells of the clipped rectangle change. */
    method DrawHorizontalLine(x1: int, y1: int, x2: int, rgb: nat, width: int, cells: array<nat>)
      requires cx >= 0 && cy >= 0 && cells.Length == cx * cy
      modifies cells
      ensures forall row, col :: 0 <= row < cy && 0 <= col < cx ==>
                At(cells[..], cx, cy, row, col) ==
                if InLine(x1, y1, x2, width, cy, row, col) then rgb
                else At(old(cells[..]), cx, cy, row, col)
    {
      hide At, Index;
      if cx == 0 || cy == 0 {
        return;
      }
      ghost var before := cells[..];
      var xSize, ySize := cx, cy;
      var X1, X2 := x1, x2;
      if X1 > X2 {
        X1, X2 := X2, X1;
      }
      X1 := Bound(X1, 0, xSize);
      X2 := Bound(X2, 0, xSize);
      var Y1 := Bound(y1, 0, ySize);
      var height := Larger(width, 1);
      var Y2 := Bound(Y1 + height, 0, ySize);
      var yy := Y1;
      while yy < Y2
        invariant Y1 <= yy <= Larger(Y1, Y2)
        invariant forall row, col :: 0 <= row < ySize && 0 <= col < xSize ==>
                    At(cells[..], xSize, ySize, row, col) ==
                    if Y1 <= row < yy && X1 <= col < X2 then rgb else At(before, xSize, ySize, row, col)
      {
        var xx := X1;
        while xx < X2
          invariant X1 <= xx <= Larger(X1, X2)
          invariant forall row, col :: 0 <= row < ySize && 0 <= col < xSize ==>
                      At(cells[..], xSize, ySize, row, col) ==
                      if X1 <= col < X2 && (Y1 <= row < yy || (row == yy && col < xx)) then rgb
                      else At(before, xSize, ySize, row, col)
        {
          WrittenAt(cells[..], xSize, ySize, yy, xx, rgb);
          ghost var was := cells[..];
          cells[Index(xSize, yy, xx)] := rgb;
          assert cells[..] == was[Index(xSize, yy, xx) := rgb];
          assert forall row, col :: 0 <= row < ySize && 0 <= col < xSize ==>
              At(cells[..], xSize, ySize, row, col) ==
              if (row, col) == (yy, xx) then rgb else At(was, xSize, ySize, row, col);
          xx := xx + 1;
        }
        yy := yy + 1;
      }
    }
  }

  // ---------------------------------------------------------------- the line's rectangle

  // The cells the code writes: the top edge is clipped before the height is added to it.
  predicate InLine(x1: int, y1: int, x2: int, width: int, cy: int, row: int, col: int) {
    && (x1 <= col < x2 || x2 <= col < x1)
    && Bound(y1, 0, cy) <= row < Bound(y1, 0, cy) + Larger(width, 1)
  }

  // The line as it was asked for.
  predicate InIdealLine(x1: int, y1: int, x2: int, width: int, row: int, col: int) {
    && (x1 <= col < x2 || x2 <= col < x1)
    && y1 <= row < y1 + Larger(width, 1)
  }

  /** The code draws the line it was asked for exactly if the line starts on the canvas, runs
      through its whole height, or has no column on it. */
  lemma LineIsIdealIff(x1: int, y1: int, x2: int, width: int, cx: nat, cy: nat)
    requires cx > 0 && cy > 0
    ensures (forall row, col :: 0 <= row < cy && 0 <= col < cx ==>
               (InLine(x1, y1, x2, width, cy, row, col) <==> InIdealLine(x1, y1, x2, width, row, col))) <==>
            y1 >= 0 || y1 + Larger(width, 1) >= cy || Bound(x1, 0, cx) == Bound(x2, 0, cx)
  {
    if !(y1 >= 0 || y1 + Larger(width, 1) >= cy || Bound(x1, 0, cx) == Bound(x2, 0, cx)) {
      var col := if x1 <= x2 then Bound(x1, 0, cx) else Bound(x2, 0, cx);
      var row := Bound(y1 + Larger(width, 1), 0, cy);
      assert InLine(x1, y1, x2, width, cy, row, col) && !InIdealLine(x1, y1, x2, width, row, col);
    }
  }

  // ---------------------------------------------------------------- one request

  ghost predicate Valid(c: Cache) {
    c.cx >= 0 && c.cy >= 0 && c.cx % 4 == 0 && (c.dib.None? ==> c.cx == 0 && c.cy == 0)
  }

  /** A bitmap that is returned covers the request and is a multiple of four wide; a failed
      request leaves bitmap, size and pixels alone; a request that does not fit only grows. */
  lemma ServeCovers(c: Cache, r: Request)
    requires Valid(c) && r.width > 0 && r.height > 0
    ensures var (c', event) := Serve(c, r);
            && Valid(c')
            && (!event.Failed? ==> c'.dib.Some? && c'.cx >= r.width && c'.cy >= r.height)
            && (event.Failed? ==> (c'.dib, c'.cx, c'.cy, c'.deleted) == (c.dib, c.cx, c.cy, c.deleted))
            && (!Fits(c, r) ==> c'.cx >= c.cx && c'.cy >= c.cy)
            && (!Fits(c, r) && event.Rebuilt? ==>
                  (c'.cx == c.cx || c'.cx == RoundUp4(r.width)) && (c'.cy == c.cy || c'.cy == r.height))
  {
  }

  // ---------------------------------------------------------------- whole runs

  ghost function Serves(c: Cache, rs: seq<Request>): (Cache, seq<Event>)
    decreases |rs|
  {
    if rs == [] then (c, [])
    else
      var (c1, events) := Serves(c, rs[..|rs| - 1]);
      var (c2, event) := Serve(c1, rs[|rs| - 1]);
      (c2, events + [event])
  }

  // The fitting requests since the bitmap was last rebuilt or the counter last reset.
  ghost function FittingSince(events: seq<Event>): nat
    decreases |events|
  {
    if events == [] then 0
    else
      var earlier := FittingSince(events[..|events| - 1]);
      match events[|events| - 1]
      case Reused => earlier + 1
      case Failed(fitting) => if fitting then earlier + 1 else earlier
      case Reset => 0
      case Rebuilt(_) => 0
  }

  ghost function Created(events: seq<Event>): seq<Dib>
    decreases |events|
  {
    if events == [] then []
    else
      var earlier := Created(events[..|events| - 1]);
      match events[|events| - 1]
      case Rebuilt(dib) => earlier + [dib]
      case _ => earlier
  }

  /** In any run the counter counts the fitting requests since the last rebuild or reset, and
      the sections created are the deleted ones followed by the current one: none is lost and
      none is deleted twice. */
  lemma {:induction false} RunAccounts(rs: seq<Request>)
    ensures var (c, events) := Serves(EMPTY, rs);
            && |events| == |rs|
            && c.counter == FittingSince(events)
            && Created(events) == c.deleted + (if c.dib.Some? then [c.dib.value] else [])
    decreases |rs|
  {
    if rs != [] {
      RunAccounts(rs[..|rs| - 1]);
      var (c1, earlier) := Serves(EMPTY, rs[..|rs| - 1]);
      var (c2, events) := Serves(EMPTY, rs);
      assert events[..|events| - 1] == earlier;
    }
  }

  /** A dimension gets smaller only when at least 255 fitting requests have come since the
      bitmap was last rebuilt or the counter last reset. */
  lemma ShrinksOnlyAfter255(rs: seq<Request>, r: Request)
    ensures var (c, events) := Serves(EMPTY, rs);
            var c' := Serve(c, r).0;
            c'.cx < c.cx || c'.cy < c.cy ==> FittingSince(events) >= 255
  {
    RunAccounts(rs);
  }

  /** And it does get smaller then, if the request differs in size and a bitmap can be made: to
      exactly the size that was asked for, with the width rounded up to the next multiple of
      four. Before that a fitting request changes nothing but the counter. */
  lemma ShrinksExactly(rs: seq<Request>, r: Request)
    requires r.height >= 0
    ensures var (c, events) := Serves(EMPTY, rs);
            var (c', event) := Serve(c, r);
            var fits := c.cx >= r.width + (-r.width) % 4 && c.cy >= r.height;
            var exact := c.cx == r.width + (-r.width) % 4 && c.cy == r.height;
            && (c'.cx < c.cx || c'.cy < c.cy <==> fits && !exact && FittingSince(events) >= 255 && r.section.Some?)
            && (c'.cx < c.cx || c'.cy < c.cy ==> c'.cx == r.width + (-r.width) % 4 && c'.cy == r.height)
            && (fits && FittingSince(events) < 255 ==> event == Reused && c' == c.(counter := c.counter + 1))
            && (fits && exact && FittingSince(events) >= 255 ==> event == Reset && c' == c.(counter := 0))
            && (!fits && r.section.Some? ==>
                  && event == Rebuilt(r.section.value) && c'.dib == r.section && c'.counter == 0
                  && c'.cx == (if c.cx > r.width + (-r.width) % 4 then c.cx else r.width + (-r.width) % 4)
                  && c'.cy == if c.cy > r.height then c.cy else r.height)
  {
    RunAccounts(rs);
    RoundsUp(r.width);
  }

  lemma RoundsUp(width: int)
    ensures RoundUp4(width) == width + (-width) % 4
    ensures RoundUp4(width) % 4 == 0
  {}

  lemma {:induction false} RunValid(rs: seq<Request>)
    requires forall i :: 0 <= i < |rs| ==> rs[i].width > 0 && rs[i].height > 0
    ensures Valid(Serves(EMPTY, rs).0)
    decreases |rs|
  {
    if rs != [] {
      RunValid(rs[..|rs| - 1]);
      ServeCovers(Serves(EMPTY, rs[..|rs| - 1]).0, rs[|rs| - 1]);
    }
  }
}
