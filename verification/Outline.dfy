/**
  CGGOOutlineGlyph::init of ft.cpp: one pass over a buffer of TTPOLYGONHEADER and TTPOLYCURVE
  records counts points and contours, a second one fills the arrays that were allocated for them.
  Positions are offsets into the buffer; memory goes on after its end, and what stands there is
  unknown.
 */
module Outline {
  import opened Common

  type Memory = nat -> nat

  // ---------------------------------------------------------------- the records

  function Word(m: Memory, at: nat): nat {
    m(at) + 0x100 * m(at + 1)
  }

  function DWord(m: Memory, at: nat): nat {
    Word(m, at) + 0x1_0000 * Word(m, at + 2)
  }

  // A FIXED read as a LONG.
  function Long(m: Memory, at: nat): int {
    if DWord(m, at) >= 0x8000_0000 then DWord(m, at) - 0x1_0000_0000 else DWord(m, at)
  }

  datatype PointFx = PointFx(x: int, y: int)

  function PointAt(m: Memory, at: nat): PointFx {
    PointFx(Long(m, at), Long(m, at + 4))
  }

  datatype Curve = Curve(wType: nat, points: seq<PointFx>)

  // `last` is the point that pfxp0 is left at.
  datatype Contour = Contour(start: PointFx, last: PointFx, curves: seq<Curve>)

  function Cpfx(m: Memory, c: nat): nat {
    Word(m, c + 2)
  }

  function NextCurve(m: Memory, c: nat): (n: nat)
    ensures n >= c + 4
  {
    c + 4 + 8 * Cpfx(m, c)
  }

  function PointsAt(m: Memory, at: nat, count: nat): (points: seq<PointFx>)
    ensures |points| == count
  {
    seq(count, k requires k >= 0 => PointAt(m, at + 8 * k))
  }

  function CurveAt(m: Memory, c: nat): (curve: Curve)
    ensures |curve.points| == Cpfx(m, c)
  {
    Curve(Word(m, c), PointsAt(m, c + 4, Cpfx(m, c)))
  }

  function CurvesAt(m: Memory, c: nat, end: int): seq<Curve>
    decreases end - c
  {
    if c >= end then [] else [CurveAt(m, c)] + CurvesAt(m, NextCurve(m, c), end)
  }

  function AfterCurves(m: Memory, c: nat, end: int): (n: nat)
    ensures n >= c
    decreases end - c
  {
    if c >= end then c else AfterCurves(m, NextCurve(m, c), end)
  }

  function LastAt(m: Memory, c: nat, end: int, last: PointFx): PointFx
    requires c >= 4
    decreases end - c
  {
    if c >= end then last else LastAt(m, NextCurve(m, c), end, PointAt(m, c - 4 + 8 * Cpfx(m, c)))
  }

  function ContourAt(m: Memory, h: nat): Contour {
    var end := h + DWord(m, h);
    Contour(PointAt(m, h + 8), LastAt(m, h + 16, end, PointAt(m, h + 20)), CurvesAt(m, h + 16, end))
  }

  function NextContour(m: Memory, h: nat): (n: nat)
    ensures n >= h + 16
  {
    AfterCurves(m, h + 16, h + DWord(m, h))
  }

  // The contours, if the records end where the buffer ends.
  function ContoursAt(m: Memory, h: nat, end: nat): Option<seq<Contour>>
    decreases end - h
  {
    if h == end then Some([])
    else if h > end || h + DWord(m, h) > end then None
    else match ContoursAt(m, NextContour(m, h), end)
      case None => None
      case Some(rest) => Some([ContourAt(m, h)] + rest)
  }

  // ---------------------------------------------------------------- counting

  function CurvePoints(curves: seq<Curve>): nat {
    if curves == [] then 0 else |curves[0].points| + CurvePoints(curves[1..])
  }

  // The points and contours the first pass counts, one start to a contour.
  function Counted(contours: seq<Contour>): nat {
    if contours == [] then 0 else 1 + CurvePoints(contours[0].curves) + Counted(contours[1..])
  }

  // n_points and n_contours are 16 bits wide.
  function Word16(n: int): nat {
    n % 0x1_0000
  }

  // The write position is a short.
  function Short(n: int): int {
    (n + 0x8000) % 0x1_0000 - 0x8000
  }

  // ---------------------------------------------------------------- filling

  datatype Vector = Vector(x: int, y: int)

  // toF26Dot6
  function ToVector(p: PointFx): Vector {
    Vector(p.x / 1024, p.y / 1024)
  }

  const TAG_ON: int := 1
  const TAG_CONIC: int := 0

  // getTag: FT_CURVE_TAG_TOUCH_X and FT_CURVE_TAG_TOUCH_Y are 8 and 16.
  function GetTag(tag: int, v: Vector): int {
    tag + (if v.x % 16 != 0 then 8 else 0) + (if v.y % 16 != 0 then 16 else 0)
  }

  predicate IsOn(tag: int) {
    tag % 2 == 1
  }

  // TT_PRIM_LINE, TT_PRIM_QSPLINE, TT_PRIM_CSPLINE are 1, 2 and 3.
  function CurveTag(wType: nat): int {
    if wType == 1 then TAG_ON else TAG_CONIC
  }

  // The lengths of the arrays: of points and tags, and of contours.
  datatype Room = Room(points: nat, contours: nat)

  // What calloc was asked for.
  function Allocated(contours: seq<Contour>): Room {
    Room(Word16(Counted(contours)), Word16(|contours|))
  }

  // What the second pass has written. It strays when it reads or writes outside an array.
  datatype Filled = Filled(points: seq<Vector>, tags: seq<int>, ends: seq<int>, strays: bool)

  const NOTHING: Filled := Filled([], [], [], false)

  predicate Fits(o: Filled, room: Room) {
    && |o.points| == |o.tags| <= room.points && |o.points| <= 0x8000
    && |o.ends| <= room.contours
  }

  function Stray(o: Filled): Filled {
    o.(strays := true)
  }

  // points[ppos] and tags[ppos], then ++ppos.
  function AddPoint(o: Filled, v: Vector, tag: int, room: Room): (r: Filled)
    requires Fits(o, room)
    ensures Fits(r, room)
  {
    if !(0 <= Short(|o.points|) < room.points) then Stray(o)
    else o.(points := o.points + [v], tags := o.tags + [tag])
  }

  function AddStart(o: Filled, c: Contour, room: Room): (r: Filled)
    requires Fits(o, room)
    ensures Fits(r, room)
  {
    if c.start == c.last then o
    else AddPoint(o, ToVector(c.start), GetTag(TAG_ON, ToVector(c.start)), room)
  }

  function AddPoints(o: Filled, points: seq<PointFx>, tag: int, room: Room): (r: Filled)
    requires Fits(o, room)
    ensures Fits(r, room)
    decreases |points|
  {
    if points == [] || o.strays then o
    else AddPoints(AddPoint(o, ToVector(points[0]), tag, room), points[1..], tag, room)
  }

  // tags[ppos - 1] = getTag(FT_CURVE_TAG_ON, points[ppos - 1]).
  function EndCurve(o: Filled, room: Room): (r: Filled)
    requires Fits(o, room)
    ensures Fits(r, room)
  {
    var n := Short(|o.points|) - 1;
    if !(0 <= n < room.points) then Stray(o) else o.(tags := o.tags[n := GetTag(TAG_ON, o.points[n])])
  }

  function AddCurve(o: Filled, curve: Curve, room: Room): (r: Filled)
    requires Fits(o, room)
    ensures Fits(r, room)
  {
    var r := AddPoints(o, curve.points, CurveTag(curve.wType), room);
    if r.strays then r else EndCurve(r, room)
  }

  function AddCurves(o: Filled, curves: seq<Curve>, room: Room): (r: Filled)
    requires Fits(o, room)
    ensures Fits(r, room)
    decreases |curves|
  {
    if curves == [] || o.strays then o else AddCurves(AddCurve(o, curves[0], room), curves[1..], room)
  }

  // *cp++ = ppos - 1, where the array element is an unsigned short.
  function EndContour(o: Filled, room: Room): (r: Filled)
    requires Fits(o, room)
    ensures Fits(r, room)
  {
    if |o.ends| >= room.contours then Stray(o)
    else o.(ends := o.ends + [Word16(Short(|o.points|) - 1)])
  }

  function AddContour(o: Filled, c: Contour, room: Room): (r: Filled)
    requires Fits(o, room)
    ensures Fits(r, room)
  {
    var s := AddStart(o, c, room);
    var r := AddCurves(s, c.curves, room);
    if r.strays then r else EndContour(r, room)
  }

  function Fill(o: Filled, contours: seq<Contour>, room: Room): (r: Filled)
    requires Fits(o, room)
    ensures Fits(r, room)
    decreases |contours|
  {
    if contours == [] || o.strays then o else Fill(AddContour(o, contours[0], room), contours[1..], room)
  }

  // ---------------------------------------------------------------- what is written

  function Vectors(points: seq<PointFx>): (v: seq<Vector>)
    ensures |v| == |points|
  {
    seq(|points|, k requires 0 <= k < |points| => ToVector(points[k]))
  }

  function Repeat(tag: int, n: nat): (tags: seq<int>)
    ensures |tags| == n
  {
    seq(n, _ => tag)
  }

  // The number of points a contour puts into the arrays.
  function Size(c: Contour): nat {
    (if c.start == c.last then 0 else 1) + CurvePoints(c.curves)
  }

  function PointCount(contours: seq<Contour>): nat {
    if contours == [] then 0 else Size(contours[0]) + PointCount(contours[1..])
  }

  lemma ShortOf(n: nat)
    requires n <= 0x8000
    ensures Short(n) == if n < 0x8000 then n else -0x8000
    ensures Word16(Short(n) - 1) == if n == 0 then 0xFFFF else n - 1
  {}

  // As long as nothing strays, points are appended; the pass strays when they outgrow the
  // arrays or the write position.
  lemma {:induction false} AddPointsExact(o: Filled, points: seq<PointFx>, tag: int, room: Room)
    requires Fits(o, room) && !o.strays
    ensures var r := AddPoints(o, points, tag, room);
            && (r.strays <==> |o.points| + |points| > room.points || |o.points| + |points| > 0x8000)
            && (!r.strays ==> r == o.(points := o.points + Vectors(points), tags := o.tags + Repeat(tag, |points|)))
    decreases |points|
  {
    if points == [] {
      assert o.points + Vectors([]) == o.points && o.tags + Repeat(tag, 0) == o.tags;
    } else {
      ShortOf(|o.points|);
      var p := AddPoint(o, ToVector(points[0]), tag, room);
      if !p.strays {
        AddPointsExact(p, points[1..], tag, room);
        assert Vectors(points) == [ToVector(points[0])] + Vectors(points[1..]);
        assert Repeat(tag, |points|) == [tag] + Repeat(tag, |points| - 1);
        Associative(o.points, [ToVector(points[0])], Vectors(points[1..]));
        Associative(o.tags, [tag], Repeat(tag, |points| - 1));
      }
    }
  }

  lemma Associative<T>(a: seq<T>, b: seq<T>, c: seq<T>)
    ensures a + b + c == a + (b + c)
  {}

  // The tags of a curve with points: its own, and on the curve for the last.
  function TagsOf(curve: Curve): (tags: seq<int>)
    requires curve.points != []
    ensures |tags| == |curve.points| && IsOn(tags[|tags| - 1])
  {
    var n := |curve.points| - 1;
    Repeat(CurveTag(curve.wType), n) + [GetTag(TAG_ON, ToVector(curve.points[n]))]
  }

  // One curve strays when it outgrows the arrays or the position, or ends where the position
  // in front of the next point is no longer one of the array.
  lemma AddCurveStrays(o: Filled, curve: Curve, room: Room)
    requires Fits(o, room) && !o.strays
    ensures var n := |o.points| + |curve.points|;
            var r := AddCurve(o, curve, room);
            && (r.strays <==> n == 0 || n > room.points || n >= 0x8000)
            && (!r.strays ==> |r.points| == n && r.ends == o.ends)
  {
    var r := AddPoints(o, curve.points, CurveTag(curve.wType), room);
    AddPointsExact(o, curve.points, CurveTag(curve.wType), room);
    if !r.strays {
      ShortOf(|r.points|);
    }
  }

  lemma AddCurveExact(o: Filled, curve: Curve, room: Room)
    requires Fits(o, room) && !o.strays && curve.points != [] && !AddCurve(o, curve, room).strays
    ensures AddCurve(o, curve, room) == o.(points := o.points + Vectors(curve.points), tags := o.tags + TagsOf(curve))
  {
    AddPointsExact(o, curve.points, CurveTag(curve.wType), room);
    var r := AddCurve(o, curve, room);
    var n := |o.points| + |curve.points| - 1;
    ShortOf(n + 1);
    assert r.points[n] == ToVector(curve.points[|curve.points| - 1]);
    assert r.tags == o.tags + TagsOf(curve);
  }

  lemma {:induction false} AddCurvesStray(o: Filled, curves: seq<Curve>, room: Room)
    requires Fits(o, room) && !o.strays
    ensures var n := |o.points| + CurvePoints(curves);
            var r := AddCurves(o, curves, room);
            && (r.strays <==>
                 n > room.points || n > 0x8000 ||
                 (curves != [] && (n == 0x8000 || |o.points| + |curves[0].points| == 0)))
            && (!r.strays ==> |r.points| == n && r.ends == o.ends)
    decreases |curves|
  {
    hide AddCurve;
    if curves != [] {
      AddCurveStrays(o, curves[0], room);
      var r := AddCurve(o, curves[0], room);
      if !r.strays {
        AddCurvesStray(r, curves[1..], room);
      }
    }
  }

  // ---------------------------------------------------------------- when the second pass strays

  // An empty curve comes before any point: the first tag written is in front of the array.
  predicate StartsEmpty(contours: seq<Contour>) {
    contours != [] && contours[0].start == contours[0].last &&
    if contours[0].curves == [] then StartsEmpty(contours[1..]) else contours[0].curves[0].points == []
  }

  // How many points there are up to the end of the last curve, if the first is number n.
  function LastCurveEnd(n: nat, contours: seq<Contour>): nat
    decreases |contours|
  {
    if contours == [] then 0
    else
      var m := n + Size(contours[0]);
      var l := LastCurveEnd(m, contours[1..]);
      if l > 0 then l else if contours[0].curves == [] then 0 else m
  }

  lemma {:induction false} LastCurveEndBounds(n: nat, contours: seq<Contour>)
    ensures LastCurveEnd(n, contours) == 0 || n <= LastCurveEnd(n, contours) <= n + PointCount(contours)
    decreases |contours|
  {
    if contours != [] {
      LastCurveEndBounds(n + Size(contours[0]), contours[1..]);
    }
  }

  lemma AddContourStrays(o: Filled, c: Contour, room: Room)
    requires Fits(o, room) && !o.strays
    ensures var n := |o.points| + Size(c);
            var r := AddContour(o, c, room);
            && (r.strays <==>
                 n > room.points || n > 0x8000 || |o.ends| >= room.contours ||
                 (c.curves != [] && (n == 0x8000 ||
                    (|o.points| == 0 && c.start == c.last && c.curves[0].points == []))))
            && (!r.strays ==> |r.points| == n && r.ends == o.ends + [Word16(Short(n) - 1)])
  {
    ShortOf(|o.points|);
    var s := AddStart(o, c, room);
    if s.strays {
      assert AddCurves(s, c.curves, room) == s;
    } else {
      AddCurvesStray(s, c.curves, room);
    }
  }

  lemma {:induction false} FillStrays(o: Filled, contours: seq<Contour>, room: Room)
    requires Fits(o, room) && !o.strays
    ensures var n := |o.points| + PointCount(contours);
            var r := Fill(o, contours, room);
            && (r.strays <==>
                 || n > room.points || n > 0x8000 || |o.ends| + |contours| > room.contours
                 || LastCurveEnd(|o.points|, contours) >= 0x8000
                 || (|o.points| == 0 && StartsEmpty(contours)))
            && (!r.strays ==> |r.points| == n && |r.ends| == |o.ends| + |contours|)
    decreases |contours|
  {
    hide AddContour;
    LastCurveEndBounds(|o.points|, contours);
    if contours != [] {
      AddContourStrays(o, contours[0], room);
      var r := AddContour(o, contours[0], room);
      LastCurveEndBounds(|o.points| + Size(contours[0]), contours[1..]);
      if !r.strays {
        FillStrays(r, contours[1..], room);
      }
    }
  }

  // An empty curve before any point, more than the counters can hold, or a position past the
  // end of a short: a 32769th point, or a curve that ends at the 32768th.
  predicate Outside(contours: seq<Contour>) {
    || StartsEmpty(contours)
    || Counted(contours) >= 0x1_0000
    || PointCount(contours) > 0x8000
    || LastCurveEnd(0, contours) >= 0x8000
  }

  lemma {:induction false} CountedBounds(contours: seq<Contour>)
    ensures PointCount(contours) <= Counted(contours) <= PointCount(contours) + |contours|
    ensures |contours| <= Counted(contours)
  {
    if contours != [] {
      CountedBounds(contours[1..]);
    }
  }

  lemma WrappedCounts(points: nat, counted: nat, contours: nat)
    requires points <= counted <= points + contours && contours <= counted
    ensures points > Word16(counted) || contours > Word16(contours) <==> counted >= 0x1_0000
  {}

  /** The second pass leaves the arrays exactly when an empty curve comes before any point, when
      the counts do not fit sixteen bits, or when the write position runs past 32767. */
  lemma StraysIff(contours: seq<Contour>)
    ensures Fill(NOTHING, contours, Allocated(contours)).strays <==> Outside(contours)
  {
    hide Fill, Word16;
    FillStrays(NOTHING, contours, Allocated(contours));
    CountedBounds(contours);
    WrappedCounts(PointCount(contours), Counted(contours), |contours|);
  }

  /** When it stays inside, it writes as many contour ends as were counted, and no more points;
      the arrays then have exactly the counted lengths. */
  lemma FillFits(contours: seq<Contour>)
    requires !Outside(contours)
    ensures var r := Fill(NOTHING, contours, Allocated(contours));
            && |r.points| == PointCount(contours) <= Counted(contours) == Allocated(contours).points
            && |r.ends| == |contours| == Allocated(contours).contours
  {
    hide Fill;
    StraysIff(contours);
    FillStrays(NOTHING, contours, Allocated(contours));
    CountedBounds(contours);
  }

  // ---------------------------------------------------------------- contour ends

  predicate Increasing(s: seq<int>) {
    forall i, j :: 0 <= i < j < |s| ==> s[i] < s[j]
  }

  // The contour ends increase strictly up to the last point written.
  predicate EndsWell(o: Filled) {
    && Increasing(o.ends)
    && (if o.ends == [] then o.points == [] else 0 <= o.ends[|o.ends| - 1] == |o.points| - 1)
  }

  lemma {:induction false} EndsExtend(o: Filled, contours: seq<Contour>, room: Room)
    requires Fits(o, room) && !o.strays
    ensures var r := Fill(o, contours, room);
            && o.ends <= r.ends
            && forall i :: |o.ends| <= i < |r.ends| ==> r.ends[i] <= 0xFFFF
    decreases |contours|
  {
    hide AddContour;
    if contours != [] {
      AddContourStrays(o, contours[0], room);
      var c := AddContour(o, contours[0], room);
      StrayedEnds(o, contours[0], room);
      if !c.strays {
        EndsExtend(c, contours[1..], room);
      }
    }
  }

  lemma StrayedEnds(o: Filled, c: Contour, room: Room)
    requires Fits(o, room) && !o.strays
    ensures AddContour(o, c, room).strays ==> AddContour(o, c, room).ends == o.ends
  {
    var s := AddStart(o, c, room);
    CurvesKeepEnds(s, c.curves, room);
  }

  lemma {:induction false} CurvesKeepEnds(o: Filled, curves: seq<Curve>, room: Room)
    requires Fits(o, room)
    ensures AddCurves(o, curves, room).ends == o.ends
    decreases |curves|
  {
    if curves != [] && !o.strays {
      PointsKeepEnds(o, curves[0].points, CurveTag(curves[0].wType), room);
      CurvesKeepEnds(AddCurve(o, curves[0], room), curves[1..], room);
    }
  }

  lemma {:induction false} PointsKeepEnds(o: Filled, points: seq<PointFx>, tag: int, room: Room)
    requires Fits(o, room)
    ensures AddPoints(o, points, tag, room).ends == o.ends
    decreases |points|
  {
    if points != [] && !o.strays {
      PointsKeepEnds(AddPoint(o, ToVector(points[0]), tag, room), points[1..], tag, room);
    }
  }

  /** The contour ends increase strictly up to the last point exactly when every contour has a
      point to write. */
  lemma {:induction false} EndsIncreaseIff(o: Filled, contours: seq<Contour>, room: Room)
    requires Fits(o, room) && !o.strays && EndsWell(o)
    requires !Fill(o, contours, room).strays
    ensures EndsWell(Fill(o, contours, room)) <==> forall c :: c in contours ==> Size(c) > 0
    decreases |contours|
  {
    hide AddContour, Word16, Short;
    if contours != [] {
      var c, rest := contours[0], contours[1..];
      assert contours == [c] + rest;
      AddContourStrays(o, c, room);
      var r := AddContour(o, c, room);
      ShortOf(|r.points|);
      EndsExtend(r, rest, room);
      FillStrays(r, rest, room);
      if Size(c) > 0 {
        EndsIncreaseIff(r, rest, room);
      } else {
        assert !EndsWell(Fill(o, contours, room)) by {
          EmptyContourSpoils(o, r, Fill(r, rest, room));
        }
      }
    }
  }

  lemma EmptyContourSpoils(o: Filled, r: Filled, final: Filled)
    requires EndsWell(o) && |r.points| == |o.points|
    requires r.ends == o.ends + [if |r.points| == 0 then 0xFFFF else |r.points| - 1]
    requires r.ends <= final.ends && forall i :: |r.ends| <= i < |final.ends| ==> final.ends[i] <= 0xFFFF
    requires |final.ends| == |r.ends| ==> |final.points| == |r.points|
    ensures !EndsWell(final)
  {
    var n := |o.ends|;
    assert final.ends[n] == r.ends[n];
    if n > 0 {
      assert final.ends[n - 1] == r.ends[n - 1] == o.ends[n - 1] == |o.points| - 1;
    }
  }

  // ---------------------------------------------------------------- contents

  predicate Nonempty(curves: seq<Curve>) {
    forall k :: k in curves ==> k.points != []
  }

  function AllVectors(curves: seq<Curve>): seq<Vector> {
    if curves == [] then [] else Vectors(curves[0].points) + AllVectors(curves[1..])
  }

  function AllTags(curves: seq<Curve>): seq<int>
    requires Nonempty(curves)
  {
    if curves == [] then []
    else
      assert curves == [curves[0]] + curves[1..];
      TagsOf(curves[0]) + AllTags(curves[1..])
  }

  lemma {:induction false} AddCurvesExact(o: Filled, curves: seq<Curve>, room: Room)
    requires Fits(o, room) && !o.strays && Nonempty(curves) && !AddCurves(o, curves, room).strays
    ensures AddCurves(o, curves, room) ==
            o.(points := o.points + AllVectors(curves), tags := o.tags + AllTags(curves))
    decreases |curves|
  {
    hide AddCurve, TagsOf;
    if curves == [] {
      assert o.points + [] == o.points && o.tags + [] == o.tags;
    } else {
      assert curves == [curves[0]] + curves[1..];
      AddCurveExact(o, curves[0], room);
      AddCurvesExact(AddCurve(o, curves[0], room), curves[1..], room);
      Associative(o.points, Vectors(curves[0].points), AllVectors(curves[1..]));
      Associative(o.tags, TagsOf(curves[0]), AllTags(curves[1..]));
    }
  }

  // A contour's points: the start only where it is not the last point, then those of its curves.
  function ContourPoints(c: Contour): seq<Vector> {
    (if c.start == c.last then [] else [ToVector(c.start)]) + AllVectors(c.curves)
  }

  function ContourTags(c: Contour): seq<int>
    requires Nonempty(c.curves)
  {
    (if c.start == c.last then [] else [GetTag(TAG_ON, ToVector(c.start))]) + AllTags(c.curves)
  }

  predicate AllNonempty(contours: seq<Contour>) {
    forall c :: c in contours ==> c.curves != [] && Nonempty(c.curves)
  }

  function OutlinePoints(contours: seq<Contour>): seq<Vector> {
    if contours == [] then [] else ContourPoints(contours[0]) + OutlinePoints(contours[1..])
  }

  function OutlineTags(contours: seq<Contour>): seq<int>
    requires AllNonempty(contours)
  {
    if contours == [] then []
    else
      assert contours == [contours[0]] + contours[1..];
      ContourTags(contours[0]) + OutlineTags(contours[1..])
  }

  lemma StrayedStays(o: Filled, curves: seq<Curve>, room: Room)
    requires Fits(o, room)
    ensures o.strays ==> AddCurves(o, curves, room) == o
  {}

  lemma AddContourExact(o: Filled, c: Contour, room: Room)
    requires Fits(o, room) && !o.strays && Nonempty(c.curves) && !AddContour(o, c, room).strays
    ensures var r := AddContour(o, c, room);
            r.points == o.points + ContourPoints(c) && r.tags == o.tags + ContourTags(c)
  {
    hide AllTags, AllVectors, Nonempty;
    var s := AddStart(o, c, room);
    StrayedStays(s, c.curves, room);
    AddCurvesExact(s, c.curves, room);
    if c.start != c.last {
      Associative(o.points, [ToVector(c.start)], AllVectors(c.curves));
      Associative(o.tags, [GetTag(TAG_ON, ToVector(c.start))], AllTags(c.curves));
    }
  }

  /** For contours of nonempty curves the arrays hold, contour by contour, the start where it is
      not the last point, followed by the curve points, each curve ending on an ON tag. */
  lemma {:induction false} FillExact(o: Filled, contours: seq<Contour>, room: Room)
    requires Fits(o, room) && !o.strays && AllNonempty(contours) && !Fill(o, contours, room).strays
    ensures var r := Fill(o, contours, room);
            r.points == o.points + OutlinePoints(contours) && r.tags == o.tags + OutlineTags(contours)
    decreases |contours|
  {
    hide AddContour, ContourPoints, ContourTags, Nonempty;
    if contours != [] {
      var rest := contours[1..];
      assert contours == [contours[0]] + rest;
      AddContourExact(o, contours[0], room);
      FillExact(AddContour(o, contours[0], room), rest, room);
      Associative(o.points, ContourPoints(contours[0]), OutlinePoints(rest));
      Associative(o.tags, ContourTags(contours[0]), OutlineTags(rest));
    }
  }

  lemma {:induction false} LastTagOn(curves: seq<Curve>)
    requires Nonempty(curves) && curves != []
    ensures AllTags(curves) != [] && IsOn(AllTags(curves)[|AllTags(curves)| - 1])
  {
    assert curves == [curves[0]] + curves[1..];
    if |curves| > 1 {
      LastTagOn(curves[1..]);
    }
  }

  // Every contour end is a point that is written and lies on the curve.
  predicate EndsOn(o: Filled) {
    forall i :: 0 <= i < |o.ends| ==> 0 <= o.ends[i] < |o.tags| && IsOn(o.tags[o.ends[i]])
  }

  lemma {:induction false} ContoursEndOnCurve(o: Filled, contours: seq<Contour>, room: Room)
    requires Fits(o, room) && !o.strays && AllNonempty(contours) && EndsOn(o)
    requires !Fill(o, contours, room).strays
    ensures EndsOn(Fill(o, contours, room))
    decreases |contours|
  {
    hide AddContour, EndsOn, Nonempty;
    if contours != [] {
      var c := contours[0];
      assert contours == [c] + contours[1..];
      ContourEndsOnCurve(o, c, room);
      ContoursEndOnCurve(AddContour(o, c, room), contours[1..], room);
    }
  }

  lemma ContourEndsOnCurve(o: Filled, c: Contour, room: Room)
    requires Fits(o, room) && !o.strays && c.curves != [] && Nonempty(c.curves) && EndsOn(o)
    requires !AddContour(o, c, room).strays
    ensures EndsOn(AddContour(o, c, room))
  {
    hide AddContour, Word16, Short, Nonempty, AllTags, AllVectors;
    var r := AddContour(o, c, room);
    AddContourStrays(o, c, room);
    AddContourExact(o, c, room);
    LastTagOn(c.curves);
    ShortOf(|r.points|);
    assert |r.points| == |r.tags|;
    assert r.tags[|r.tags| - 1] == AllTags(c.curves)[|AllTags(c.curves)| - 1];
  }

  lemma {:induction false} NonemptySizes(contours: seq<Contour>, n: nat)
    requires AllNonempty(contours)
    ensures forall c :: c in contours ==> Size(c) > 0
    ensures |contours| <= PointCount(contours)
    ensures !StartsEmpty(contours)
    ensures contours != [] ==> LastCurveEnd(n, contours) == n + PointCount(contours)
    decreases |contours|
  {
    if contours != [] {
      var c := contours[0];
      assert contours == [c] + contours[1..];
      assert c.curves[0] in c.curves;
      NonemptySizes(contours[1..], n + Size(c));
    }
  }

  /** For the buffers GDI makes, contours of one or more nonempty curves, the second pass stays
      inside its arrays exactly when there are at most 32767 points; and then the points, the
      tags and the contour ends are those of the contours. */
  lemma OutlineIsWellFormed(contours: seq<Contour>)
    requires AllNonempty(contours)
    ensures var r := Fill(NOTHING, contours, Allocated(contours));
            && (r.strays <==> PointCount(contours) > 32767)
            && (!r.strays ==>
                  && r.points == OutlinePoints(contours) && r.tags == OutlineTags(contours)
                  && EndsWell(r) && EndsOn(r))
  {
    hide Fill, AllTags, AllVectors;
    var room := Allocated(contours);
    StraysIff(contours);
    NonemptySizes(contours, 0);
    CountedBounds(contours);
    if !Outside(contours) {
      FillExact(NOTHING, contours, room);
      ContoursEndOnCurve(NOTHING, contours, room);
      EndsIncreaseIff(NOTHING, contours, room);
      assert [] + OutlinePoints(contours) == OutlinePoints(contours);
      assert [] + OutlineTags(contours) == OutlineTags(contours);
    }
  }

  // pfxp0 is the last point of the last curve.
  lemma {:induction false} LastIsLastPoint(m: Memory, c: nat, end: int, last: PointFx)
    requires c >= 4 && Nonempty(CurvesAt(m, c, end)) && c < end
    ensures var curves := CurvesAt(m, c, end);
            && curves != []
            && var k := curves[|curves| - 1]; k.points != [] && LastAt(m, c, end, last) == k.points[|k.points| - 1]
    decreases end - c
  {
    var curves := CurvesAt(m, c, end);
    assert curves[0] in curves;
    var next := NextCurve(m, c);
    assert curves[1..] == CurvesAt(m, next, end);
    if next < end {
      LastIsLastPoint(m, next, end, PointAt(m, c - 4 + 8 * Cpfx(m, c)));
      assert curves[|curves| - 1] == curves[1..][|curves| - 2];
    }
  }

  // ---------------------------------------------------------------- the format of the buffer

  // Little-endian numbers of two and four bytes; a negative number is its two's complement.
  function Bytes2(w: nat): (b: seq<nat>)
    ensures |b| == 2
  {
    [w % 0x100, w / 0x100]
  }

  function Bytes4(x: int): (b: seq<nat>)
    requires -0x8000_0000 <= x < 0x1_0000_0000
    ensures |b| == 4
  {
    var d := if x < 0 then x + 0x1_0000_0000 else x;
    Bytes2(d % 0x1_0000) + Bytes2(d / 0x1_0000)
  }

  predicate IsLong(x: int) {
    -0x8000_0000 <= x < 0x8000_0000
  }

  predicate PointFits(p: PointFx) {
    IsLong(p.x) && IsLong(p.y)
  }

  predicate CurveFits(k: Curve) {
    k.wType < 0x1_0000 && |k.points| < 0x1_0000 && forall p :: p in k.points ==> PointFits(p)
  }

  // POINTFX, TTPOLYCURVE and TTPOLYGONHEADER with what follows it.
  function PointBytes(p: PointFx): (b: seq<nat>)
    requires PointFits(p)
    ensures |b| == 8
  {
    Bytes4(p.x) + Bytes4(p.y)
  }

  function PointsBytes(points: seq<PointFx>): (b: seq<nat>)
    requires forall p :: p in points ==> PointFits(p)
    ensures |b| == 8 * |points|
  {
    if points == [] then [] else PointBytes(points[0]) + PointsBytes(points[1..])
  }

  function CurveBytes(k: Curve): (b: seq<nat>)
    requires CurveFits(k)
    ensures |b| == 4 + 8 * |k.points|
  {
    Bytes2(k.wType) + Bytes2(|k.points|) + PointsBytes(k.points)
  }

  function CurvesBytes(curves: seq<Curve>): seq<nat>
    requires forall k :: k in curves ==> CurveFits(k)
  {
    if curves == [] then [] else CurveBytes(curves[0]) + CurvesBytes(curves[1..])
  }

  predicate ContourFits(c: Contour) {
    && PointFits(c.start)
    && (forall k :: k in c.curves ==> CurveFits(k) && k.points != [])
    && c.curves != []
    && |CurvesBytes(c.curves)| + 16 < 0x1_0000_0000
    && var k := c.curves[|c.curves| - 1]; c.last == k.points[|k.points| - 1]
  }

  function ContourBytes(c: Contour): seq<nat>
    requires ContourFits(c)
  {
    Bytes4(16 + |CurvesBytes(c.curves)|) + Bytes4(24) + PointBytes(c.start) + CurvesBytes(c.curves)
  }

  function Encode(contours: seq<Contour>): seq<nat>
    requires forall c :: c in contours ==> ContourFits(c)
  {
    if contours == [] then [] else ContourBytes(contours[0]) + Encode(contours[1..])
  }

  // The memory holds these bytes from `at` on.
  ghost predicate Stores(m: Memory, at: nat, bytes: seq<nat>) {
    forall k :: 0 <= k < |bytes| ==> m(at + k) == bytes[k]
  }

  lemma StoresBoth(m: Memory, at: nat, a: seq<nat>, b: seq<nat>)
    requires Stores(m, at, a + b)
    ensures Stores(m, at, a) && Stores(m, at + |a|, b)
  {
    forall k | 0 <= k < |a|
      ensures m(at + k) == a[k]
    {
      assert (a + b)[k] == a[k];
    }
    forall k | 0 <= k < |b|
      ensures m(at + |a| + k) == b[k]
    {
      assert (a + b)[|a| + k] == b[k];
      assert m(at + (|a| + k)) == b[k];
    }
  }

  lemma ReadsWord(m: Memory, at: nat, w: nat)
    requires Stores(m, at, Bytes2(w))
    ensures Word(m, at) == w
  {
    assert m(at + 0) == Bytes2(w)[0] && m(at + 1) == Bytes2(w)[1];
  }

  lemma ReadsDWord(m: Memory, at: nat, x: int)
    requires -0x8000_0000 <= x < 0x1_0000_0000 && Stores(m, at, Bytes4(x))
    ensures DWord(m, at) == if x < 0 then x + 0x1_0000_0000 else x
    ensures IsLong(x) ==> Long(m, at) == x
  {
    hide Word;
    var d := if x < 0 then x + 0x1_0000_0000 else x;
    StoresBoth(m, at, Bytes2(d % 0x1_0000), Bytes2(d / 0x1_0000));
    ReadsWord(m, at, d % 0x1_0000);
    ReadsWord(m, at + 2, d / 0x1_0000);
  }

  lemma ReadsPoint(m: Memory, at: nat, p: PointFx)
    requires PointFits(p) && Stores(m, at, PointBytes(p))
    ensures PointAt(m, at) == p
  {
    hide Long, DWord, Word, Stores, Bytes4;
    StoresBoth(m, at, Bytes4(p.x), Bytes4(p.y));
    ReadsDWord(m, at, p.x);
    ReadsDWord(m, at + 4, p.y);
  }

  lemma {:induction false} ReadsPoints(m: Memory, at: nat, points: seq<PointFx>)
    requires forall p :: p in points ==> PointFits(p)
    requires Stores(m, at, PointsBytes(points))
    ensures PointsAt(m, at, |points|) == points
    decreases |points|
  {
    hide PointAt, PointBytes, PointFits, Stores;
    if points != [] {
      StoresBoth(m, at, PointBytes(points[0]), PointsBytes(points[1..]));
      ReadsPoint(m, at, points[0]);
      ReadsPoints(m, at + 8, points[1..]);
      var rest := PointsAt(m, at + 8, |points| - 1);
      forall k | 0 <= k < |points|
        ensures PointsAt(m, at, |points|)[k] == points[k]
      {
        if k > 0 {
          assert rest[k - 1] == PointAt(m, at + 8 + 8 * (k - 1));
        }
      }
    }
  }

  lemma ReadsCurve(m: Memory, c: nat, k: Curve)
    requires CurveFits(k) && Stores(m, c, CurveBytes(k))
    ensures CurveAt(m, c) == k && NextCurve(m, c) == c + |CurveBytes(k)|
  {
    hide Word, Stores, Bytes2, PointFits;
    StoresBoth(m, c, Bytes2(k.wType) + Bytes2(|k.points|), PointsBytes(k.points));
    StoresBoth(m, c, Bytes2(k.wType), Bytes2(|k.points|));
    ReadsWord(m, c, k.wType);
    ReadsWord(m, c + 2, |k.points|);
    ReadsPoints(m, c + 4, k.points);
  }

  lemma {:induction false} ReadsCurves(m: Memory, c: nat, curves: seq<Curve>)
    requires forall k :: k in curves ==> CurveFits(k)
    requires Stores(m, c, CurvesBytes(curves))
    ensures var end := c + |CurvesBytes(curves)|;
            CurvesAt(m, c, end) == curves && AfterCurves(m, c, end) == end
    decreases |curves|
  {
    hide CurveAt, CurveBytes, CurveFits, Stores, NextCurve;
    if curves != [] {
      StoresBoth(m, c, CurveBytes(curves[0]), CurvesBytes(curves[1..]));
      ReadsCurve(m, c, curves[0]);
      ReadsCurves(m, c + |CurveBytes(curves[0])|, curves[1..]);
      CurveNotEmpty(curves[0]);
    }
  }

  lemma CurveNotEmpty(k: Curve)
    requires CurveFits(k)
    ensures |CurveBytes(k)| > 0
  {}

  lemma ReadsContour(m: Memory, h: nat, c: Contour)
    requires ContourFits(c) && Stores(m, h, ContourBytes(c))
    ensures ContourAt(m, h) == c && NextContour(m, h) == h + |ContourBytes(c)| == h + DWord(m, h) && DWord(m, h) >= 16
  {
    hide DWord, Stores, PointFits, CurveFits, PointAt, CurvesBytes, CurvesAt, AfterCurves, LastAt;
    var n := 16 + |CurvesBytes(c.curves)|;
    StoresBoth(m, h, Bytes4(n) + Bytes4(24) + PointBytes(c.start), CurvesBytes(c.curves));
    StoresBoth(m, h, Bytes4(n) + Bytes4(24), PointBytes(c.start));
    StoresBoth(m, h, Bytes4(n), Bytes4(24));
    ReadsDWord(m, h, n);
    ReadsPoint(m, h + 8, c.start);
    ReadsCurves(m, h + 16, c.curves);
    CurvesNotEmpty(c.curves);
    LastIsLastPoint(m, h + 16, h + n, PointAt(m, h + 20));
  }

  lemma CurvesNotEmpty(curves: seq<Curve>)
    requires curves != [] && forall k :: k in curves ==> CurveFits(k)
    ensures |CurvesBytes(curves)| > 0
  {}

  /** A buffer that holds contours of nonempty curves in the system's format is read as exactly
      those contours, whatever stands behind it. */
  lemma {:induction false} ReadsEncoded(m: Memory, at: nat, contours: seq<Contour>)
    requires forall c :: c in contours ==> ContourFits(c)
    requires Stores(m, at, Encode(contours))
    ensures ContoursAt(m, at, at + |Encode(contours)|) == Some(contours)
    decreases |contours|
  {
    hide ContourAt, ContourBytes, ContourFits, Stores, NextContour, DWord;
    if contours != [] {
      StoresBoth(m, at, ContourBytes(contours[0]), Encode(contours[1..]));
      ReadsContour(m, at, contours[0]);
      ReadsEncoded(m, at + |ContourBytes(contours[0])|, contours[1..]);
      assert contours == [contours[0]] + contours[1..];
      assert |Encode(contours)| == |ContourBytes(contours[0])| + |Encode(contours[1..])|;
    }
  }

  /** A coordinate is rounded down to 26.6; a tag says on or off the curve in its lowest bit and
      which coordinates have fractions of a quarter in two others. */
  lemma ConversionsMean(p: PointFx, tag: int)
    requires tag == 0 || tag == 1
    ensures var v := ToVector(p);
            && 1024 * v.x <= p.x < 1024 * v.x + 1024
            && 1024 * v.y <= p.y < 1024 * v.y + 1024
            && (IsOn(GetTag(tag, v)) <==> tag == 1)
            && GetTag(tag, v) / 2 % 4 == 0
            && (GetTag(tag, v) / 8 % 2 == 1 <==> p.x / 1024 % 16 != 0)
            && (GetTag(tag, v) / 16 == 1 <==> p.y / 1024 % 16 != 0)
  {}

  /** The points of a line are on the curve, those of a spline are conic, and the last point of
      either is on the curve and carries its fractions. */
  lemma CurveTagsMean(curve: Curve, k: nat)
    requires k < |curve.points|
    ensures var tags := TagsOf(curve);
            var v := Vectors(curve.points);
            && |tags| == |v| == |curve.points|
            && v[k] == Vector(curve.points[k].x / 1024, curve.points[k].y / 1024)
            && (k + 1 < |tags| ==> tags[k] == if curve.wType == 1 then 1 else 0)
            && (k + 1 == |tags| ==> tags[k] == 1 + (if v[k].x % 16 != 0 then 8 else 0) + (if v[k].y % 16 != 0 then 16 else 0))
  {}

  // ---------------------------------------------------------------- a buffer that strays

  // One header of 320020 bytes and one line of 40000 points, all at the origin.
  function LongLine(at: nat): nat {
    match at
    case 0 => 0x14 case 1 => 0xE2 case 2 => 0x04
    case 16 => 1
    case 18 => 0x40 case 19 => 0x9C
    case _ => 0
  }

  /** A single long curve is enough to stray, although its points are counted and allocated. */
  lemma LongLineStrays()
    ensures ContoursAt(LongLine, 0, 320020).Some?
    ensures var all := ContoursAt(LongLine, 0, 320020).value;
            && !StartsEmpty(all) && AllNonempty(all) && Allocated(all).points == Counted(all) == 40001
            && Fill(NOTHING, all, Allocated(all)).strays
  {
    hide Fill, PointAt;
    var m := LongLine;
    LongLineRecords();
    var curve := CurveAt(m, 16);
    assert NextCurve(m, 16) == 320020;
    assert CurvesAt(m, 320020, 320020) == [];
    assert CurvesAt(m, 16, 320020) == [curve];
    assert AfterCurves(m, 16, 320020) == 320020;
    var c := ContourAt(m, 0);
    assert ContoursAt(m, 320020, 320020) == Some([]);
    var all := ContoursAt(m, 0, 320020).value;
    assert all == [c] && c.curves == [curve] && |curve.points| == 40000;
    LineCounts(c, curve);
    StraysIff(all);
    assert PointCount(all) >= 40000;
  }

  lemma LongLineRecords()
    ensures DWord(LongLine, 0) == 320020 && Cpfx(LongLine, 16) == 40000
  {
    assert LongLine(0) == 0x14 && LongLine(1) == 0xE2 && LongLine(2) == 0x04 && LongLine(3) == 0;
    assert LongLine(18) == 0x40 && LongLine(19) == 0x9C;
  }

  lemma LineCounts(c: Contour, curve: Curve)
    requires c.curves == [curve] && |curve.points| == 40000
    ensures Counted([c]) == 40001 && PointCount([c]) >= 40000 && !StartsEmpty([c]) && AllNonempty([c])
  {
    assert [curve][1..] == [] && [c][1..] == [];
    assert CurvePoints(c.curves) == 40000;
    assert c.curves[0] == curve && curve.points != [];
  }

  // ---------------------------------------------------------------- the two loops

  lemma CountedSnoc(done: seq<Contour>, c: Contour)
    ensures Counted(done + [c]) == Counted(done) + 1 + CurvePoints(c.curves)
  {
    if done != [] {
      assert (done + [c])[1..] == done[1..] + [c];
      CountedSnoc(done[1..], c);
    }
  }

  lemma WordAdds(n: int, k: int)
    ensures Word16(Word16(n) + k) == Word16(n + k)
  {}

  // The first pass; `ok` is whether it arrives at the end of the buffer.
  method CountPass(m: Memory, bufsize: nat) returns (ok: bool, nPoints: nat, nContours: nat)
    ensures ok <==> ContoursAt(m, 0, bufsize).Some?
    ensures ok ==> Allocated(ContoursAt(m, 0, bufsize).value) == Room(nPoints, nContours)
  {
    hide DWord, ContourAt, Counted, NextContour, Word16, ContoursAt, After, Tallied, CurvesAt, AfterCurves, CurvePoints, Word;
    nPoints, nContours := 0, 0;
    var h: nat := 0;
    ghost var done: seq<Contour> := [];
    CountedNone(m, bufsize);
    while h < bufsize
      invariant Tallied(done, nPoints, nContours)
      invariant After(m, bufsize, done, h)
      decreases bufsize - h
    {
      var c := h + 16;
      var cend := h + DWord(m, h);
      CountStep(m, bufsize, done, h);
      if cend > bufsize {
        return false, nPoints, nContours;
      }
      ghost var contour := ContourAt(m, h);
      TallyStep(done, contour, nPoints, nContours);
      nPoints := Word16(nPoints + 1);
      nContours := Word16(nContours + 1);
      nPoints, c := CountCurves(m, c, cend, nPoints, Counted(done) + 1);
      done := done + [contour];
      h := c;
    }
    ok := h == bufsize;
    CountEnd(m, bufsize, done, h);
  }

  predicate Tallied(done: seq<Contour>, nPoints: nat, nContours: nat) {
    Room(nPoints, nContours) == Allocated(done)
  }

  lemma TallyStep(done: seq<Contour>, c: Contour, nPoints: nat, nContours: nat)
    requires Tallied(done, nPoints, nContours)
    ensures Word16(nPoints + 1) == Word16(Counted(done) + 1)
    ensures Tallied(done + [c], Word16(Counted(done) + 1 + CurvePoints(c.curves)), Word16(nContours + 1))
  {
    WordAdds(Counted(done), 1);
    WordAdds(|done|, 1);
    CountedSnoc(done, c);
  }

  // What the pass has behind it, and where it goes on.
  ghost predicate After(m: Memory, bufsize: nat, done: seq<Contour>, h: nat) {
    ContoursAt(m, 0, bufsize) ==
    match ContoursAt(m, h, bufsize) case None => None case Some(rest) => Some(done + rest)
  }

  lemma CountStep(m: Memory, bufsize: nat, done: seq<Contour>, h: nat)
    requires h < bufsize && After(m, bufsize, done, h)
    ensures h + DWord(m, h) > bufsize ==> ContoursAt(m, 0, bufsize).None?
    ensures h + DWord(m, h) <= bufsize ==> After(m, bufsize, done + [ContourAt(m, h)], NextContour(m, h))
    ensures ContourAt(m, h).curves == CurvesAt(m, h + 16, h + DWord(m, h))
    ensures NextContour(m, h) == AfterCurves(m, h + 16, h + DWord(m, h))
  {
    ContourFacts(m, h);
    hide ContourAt, NextContour, DWord;
    Regroup(done, ContourAt(m, h), ContoursAt(m, NextContour(m, h), bufsize));
  }

  lemma CountEnd(m: Memory, bufsize: nat, done: seq<Contour>, h: nat)
    requires h >= bufsize && After(m, bufsize, done, h)
    ensures forall np, nc :: Tallied(done, np, nc) <==> Room(np, nc) == Allocated(done)
    ensures ContoursAt(m, 0, bufsize) == if h == bufsize then Some(done) else None
  {
    assert done + [] == done;
  }

  lemma CountedNone(m: Memory, bufsize: nat)
    ensures Tallied([], 0, 0)
    ensures After(m, bufsize, [], 0)
  {
    hide ContoursAt;
    var all := ContoursAt(m, 0, bufsize);
    assert all.Some? ==> [] + all.value == all.value;
  }

  lemma ContourFacts(m: Memory, h: nat)
    ensures ContourAt(m, h).curves == CurvesAt(m, h + 16, h + DWord(m, h))
    ensures NextContour(m, h) == AfterCurves(m, h + 16, h + DWord(m, h))
  {}

  lemma Regroup(done: seq<Contour>, c: Contour, rest: Option<seq<Contour>>)
    ensures rest.Some? ==> done + ([c] + rest.value) == done + [c] + rest.value
  {}

  method CountCurves(m: Memory, c0: nat, end: nat, n0: nat, ghost total: nat) returns (n: nat, c: nat)
    requires n0 == Word16(total)
    ensures n == Word16(total + CurvePoints(CurvesAt(m, c0, end))) && c == AfterCurves(m, c0, end)
  {
    hide Word, CurveAt, Word16;
    n, c := n0, c0;
    ghost var t := total;
    while c < end
      invariant n == Word16(t)
      invariant t + CurvePoints(CurvesAt(m, c, end)) == total + CurvePoints(CurvesAt(m, c0, end))
      invariant AfterCurves(m, c, end) == AfterCurves(m, c0, end)
      decreases end - c
    {
      WordAdds(t, Cpfx(m, c));
      n := Word16(n + Cpfx(m, c));
      t := t + Cpfx(m, c);
      c := c + 4 + 8 * Cpfx(m, c);
    }
  }

  // The scan of the second pass for the last point of a contour.
  method FindLast(m: Memory, c0: nat, end: nat) returns (p: nat)
    requires c0 >= 4
    ensures PointAt(m, p) == LastAt(m, c0, end, PointAt(m, c0 + 4))
  {
    hide Word, PointAt, Cpfx;
    var c := c0;
    p := c + 4;
    while c < end
      invariant c >= c0
      invariant LastAt(m, c, end, PointAt(m, p)) == LastAt(m, c0, end, PointAt(m, c0 + 4))
      decreases end - c
    {
      p := c + 4 + 8 * Cpfx(m, c) - 8;
      c := c + 4 + 8 * Cpfx(m, c);
    }
  }

  // What the arrays hold up to the write position.
  ghost predicate Written(points: array<Vector>, tags: array<int>, ppos: int, o: Filled, room: Room)
    reads points, tags
  {
    && Fits(o, room) && !o.strays
    && points.Length == tags.Length == room.points
    && ppos == Short(|o.points|)
    && points[..|o.points|] == o.points && tags[..|o.tags|] == o.tags
  }

  method PutPoint(points: array<Vector>, tags: array<int>, ppos0: int, v: Vector, tag: int, ghost o: Filled, ghost room: Room)
    returns (ppos: int, strays: bool)
    requires Written(points, tags, ppos0, o, room)
    modifies points, tags
    ensures strays == AddPoint(o, v, tag, room).strays
    ensures !strays ==> Written(points, tags, ppos, AddPoint(o, v, tag, room), room)
  {
    ghost var n := |o.points|;
    ShortOf(n);
    if !(0 <= ppos0 < points.Length) {
      return ppos0, true;
    }
    points[ppos0] := v;
    tags[ppos0] := tag;
    ppos, strays := Short(ppos0 + 1), false;
    assert points[..n] == o.points && tags[..n] == o.tags;
  }

  // One curve.
  method FillCurve(m: Memory, c: nat, points: array<Vector>, tags: array<int>, ppos0: int, ghost o: Filled, ghost room: Room)
    returns (ppos: int, strays: bool)
    requires Written(points, tags, ppos0, o, room)
    modifies points, tags
    ensures strays == AddCurve(o, CurveAt(m, c), room).strays
    ensures !strays ==> Written(points, tags, ppos, AddCurve(o, CurveAt(m, c), room), room)
  {
    hide Word, PointAt, AddPoint, CurveTag, Written, Cpfx;
    ghost var curve := CurveAt(m, c);
    var tag := CurveTag(Word(m, c));
    ppos, strays := ppos0, false;
    var at := c + 4;
    var cnt := 0;
    ghost var w := o;
    WrittenFits(points, tags, ppos, w, room);
    while cnt < Cpfx(m, c)
      invariant 0 <= cnt <= Cpfx(m, c) && at == c + 4 + 8 * cnt
      invariant Fits(w, room) && !w.strays && Written(points, tags, ppos, w, room)
      invariant AddPoints(w, curve.points[cnt..], tag, room) == AddPoints(o, curve.points, tag, room)
    {
      assert curve.points[cnt..][0] == PointAt(m, at) && curve.points[cnt..][1..] == curve.points[cnt + 1..];
      ppos, strays := PutPoint(points, tags, ppos, ToVector(PointAt(m, at)), tag, w, room);
      w := AddPoint(w, ToVector(PointAt(m, at)), tag, room);
      if strays {
        return;
      }
      cnt := cnt + 1;
      at := at + 8;
    }
    ppos, strays := PutTag(points, tags, ppos, w, room);
  }

  lemma WrittenFits(points: array<Vector>, tags: array<int>, ppos: int, o: Filled, room: Room)
    requires Written(points, tags, ppos, o, room)
    ensures Fits(o, room) && !o.strays
  {}

  method PutTag(points: array<Vector>, tags: array<int>, ppos0: int, ghost o: Filled, ghost room: Room)
    returns (ppos: int, strays: bool)
    requires Written(points, tags, ppos0, o, room)
    modifies tags
    ensures strays == EndCurve(o, room).strays
    ensures !strays ==> Written(points, tags, ppos, EndCurve(o, room), room)
  {
    ghost var n := |o.points|;
    ShortOf(n);
    ppos := ppos0;
    if !(0 <= ppos - 1 < points.Length) {
      return ppos, true;
    }
    strays := false;
    assert points[ppos - 1] == points[..n][ppos - 1] == o.points[ppos - 1];
    tags[ppos - 1] := GetTag(TAG_ON, points[ppos - 1]);
    assert tags[..n] == o.tags[ppos - 1 := GetTag(TAG_ON, o.points[ppos - 1])];
  }

  method FillCurves(m: Memory, c0: nat, end: nat, points: array<Vector>, tags: array<int>, ppos0: int, ghost o: Filled, ghost room: Room)
    returns (ppos: int, c: nat, strays: bool)
    requires Written(points, tags, ppos0, o, room)
    modifies points, tags
    ensures var r := AddCurves(o, CurvesAt(m, c0, end), room);
            strays == r.strays && (!strays ==> Written(points, tags, ppos, r, room) && c == AfterCurves(m, c0, end))
  {
    hide CurveAt, AddCurve, Written, Cpfx;
    ppos, c, strays := ppos0, c0, false;
    ghost var w := o;
    WrittenFits(points, tags, ppos, o, room);
    while c < end
      invariant Fits(w, room) && !w.strays && Written(points, tags, ppos, w, room)
      invariant AfterCurves(m, c, end) == AfterCurves(m, c0, end)
      invariant AddCurves(w, CurvesAt(m, c, end), room) == AddCurves(o, CurvesAt(m, c0, end), room)
      decreases end - c
    {
      ppos, strays := FillCurve(m, c, points, tags, ppos, w, room);
      assert CurvesAt(m, c, end)[1..] == CurvesAt(m, NextCurve(m, c), end);
      w := AddCurve(w, CurveAt(m, c), room);
      if strays {
        return;
      }
      c := c + 4 + 8 * Cpfx(m, c);
    }
  }

  // One contour, without its end.
  method FillContour(m: Memory, h: nat, points: array<Vector>, tags: array<int>, ppos0: int, ghost o: Filled, ghost room: Room)
    returns (ppos: int, next: nat, strays: bool)
    requires Written(points, tags, ppos0, o, room)
    modifies points, tags
    ensures var c := ContourAt(m, h);
            var r := AddCurves(AddStart(o, c, room), c.curves, room);
            strays == r.strays && (!strays ==> Written(points, tags, ppos, r, room) && next == NextContour(m, h))
  {
    hide CurvesAt, LastAt, PointAt, DWord, GetTag, AddPoint, Written;
    var c := h + 16;
    var cend := h + DWord(m, h);
    ContourFacts(m, h);
    WrittenFits(points, tags, ppos0, o, room);
    ppos, next, strays := ppos0, c, false;
    var p := FindLast(m, c, cend);
    ghost var w := AddStart(o, ContourAt(m, h), room);
    if PointAt(m, p) != PointAt(m, h + 8) {
      var v := ToVector(PointAt(m, h + 8));
      ppos, strays := PutPoint(points, tags, ppos, v, GetTag(TAG_ON, v), o, room);
      if strays {
        return;
      }
    }
    ppos, next, strays := FillCurves(m, c, cend, points, tags, ppos, w, room);
  }

  // The second pass over a buffer that the first pass accepted.
  method FillPass(m: Memory, bufsize: nat, points: array<Vector>, tags: array<int>, contours: array<int>, ghost all: seq<Contour>)
    returns (ppos: int, strays: bool)
    requires ContoursAt(m, 0, bufsize) == Some(all)
    requires Room(points.Length, contours.Length) == Allocated(all) && points.Length == tags.Length
    requires tags != contours
    modifies points, tags, contours
    ensures var r := Fill(NOTHING, all, Allocated(all));
            && strays == r.strays
            && (!strays ==> Written(points, tags, ppos, r, Allocated(all)) && contours[..|r.ends|] == r.ends)
  {
    hide AddCurves, LastAt, PointAt, DWord, AddStart, NextContour, ContourAt, AddContour, Fill, ContoursAt;
    ppos, strays := 0, false;
    var h: nat := 0;
    var cp: nat := 0;
    ghost var room := Allocated(all);
    ghost var o := NOTHING;
    ghost var rest := all;
    while h < bufsize
      invariant Fits(o, room) && !o.strays && Written(points, tags, ppos, o, room)
      invariant ContoursAt(m, h, bufsize) == Some(rest)
      invariant cp == |o.ends| <= contours.Length && contours[..cp] == o.ends
      invariant Fill(o, rest, room) == Fill(NOTHING, all, room)
      decreases |rest|
    {
      ContoursStep(m, h, bufsize);
      ghost var c := ContourAt(m, h);
      FillStep(o, rest, room);
      ppos, h, strays := FillContour(m, h, points, tags, ppos, o, room);
      if strays {
        return;
      }
      ghost var r := AddCurves(AddStart(o, c, room), c.curves, room);
      CurvesKeepEnds(AddStart(o, c, room), c.curves, room);
      if cp >= contours.Length {
        strays := true;
        return;
      }
      PutEnd(contours, cp, Word16(ppos - 1), o.ends);
      cp := cp + 1;
      WrittenEnd(points, tags, ppos, r, room);
      o := AddContour(o, c, room);
      rest := rest[1..];
    }
    NoneLeft(m, h, bufsize, o, room);
  }

  method PutEnd(contours: array<int>, cp: nat, end: int, ghost ends: seq<int>)
    requires cp < contours.Length && contours[..cp] == ends
    modifies contours
    ensures contours[..cp + 1] == ends + [end]
  {
    contours[cp] := end;
    assert contours[..cp] == ends;
  }

  lemma WrittenEnd(points: array<Vector>, tags: array<int>, ppos: int, o: Filled, room: Room)
    requires Written(points, tags, ppos, o, room) && |o.ends| < room.contours
    ensures Written(points, tags, ppos, EndContour(o, room), room)
    ensures EndContour(o, room).ends == o.ends + [Word16(ppos - 1)]
  {}

  lemma NoneLeft(m: Memory, h: nat, end: nat, o: Filled, room: Room)
    requires h >= end && ContoursAt(m, h, end).Some? && Fits(o, room)
    ensures ContoursAt(m, h, end).value == [] && Fill(o, [], room) == o
  {}

  lemma ContoursStep(m: Memory, h: nat, end: nat)
    requires h < end && ContoursAt(m, h, end).Some?
    ensures var all := ContoursAt(m, h, end).value;
            && all != [] && all[0] == ContourAt(m, h)
            && ContoursAt(m, NextContour(m, h), end) == Some(all[1..])
  {
    hide NextContour, ContourAt, DWord;
  }

  lemma FillStep(o: Filled, contours: seq<Contour>, room: Room)
    requires Fits(o, room) && !o.strays && contours != []
    ensures var s := AddStart(o, contours[0], room);
            var r := AddCurves(s, contours[0].curves, room);
            && AddContour(o, contours[0], room) == (if r.strays then r else EndContour(r, room))
            && AddStart(o, contours[0], room).ends == o.ends
    ensures Fill(o, contours, room) == Fill(AddContour(o, contours[0], room), contours[1..], room)
    ensures AddContour(o, contours[0], room).strays ==> Fill(o, contours, room).strays
  {}

  class CGGOOutlineGlyph {
    var nPoints: nat
    var nContours: nat
    var points: array?<Vector>
    var tags: array?<int>
    var contours: array?<int>

    constructor ()
      ensures points == null && tags == null && contours == null
    {
      nPoints, nContours, points, tags, contours := 0, 0, null, null, null;
    }

    /** init; `glyphAllocated` and `arraysAllocated` say whether memory was found, and `strays`
        that the second pass would leave the arrays. */
    method Init(bufsize: nat, bufp: Memory, glyphAllocated: bool, arraysAllocated: bool) returns (ok: bool, strays: bool)
      modifies this
      ensures var all := ContoursAt(bufp, 0, bufsize);
              && (ok <==> glyphAllocated && arraysAllocated && all.Some? && !Outside(all.value))
              && (strays <==> glyphAllocated && arraysAllocated && all.Some? && Outside(all.value))
              && (ok ==>
                    var r := Fill(NOTHING, all.value, Allocated(all.value));
                    && points != null && tags != null && contours != null
                    && points.Length == tags.Length == Counted(all.value)
                    && nPoints == |r.points| == |r.tags| == PointCount(all.value) <= points.Length
                    && nContours == contours.Length == |all.value|
                    && points[..nPoints] == r.points && tags[..nPoints] == r.tags
                    && contours[..] == r.ends)
    {
      hide Fill, Counted, ContoursAt, Outside, Written;
      nPoints, nContours, points, tags, contours := 0, 0, null, null, null;
      ok, strays := false, false;
      if !glyphAllocated {
        return;
      }
      var complete, np, nc := CountPass(bufp, bufsize);
      if !complete || !arraysAllocated {
        return;
      }
      var ps := new Vector[np](_ => Vector(0, 0));
      var ts := new int[np](_ => 0);
      var cs := new int[nc](_ => 0);
      ghost var all := ContoursAt(bufp, 0, bufsize).value;
      StraysIff(all);
      points, tags, contours, nContours := ps, ts, cs, nc;
      var ppos;
      ppos, strays := FillPass(bufp, bufsize, ps, ts, cs, all);
      if !strays {
        ok := true;
        FillFits(all);
        FinalCount(ps, ts, ppos, Fill(NOTHING, all, Allocated(all)), Allocated(all));
        nPoints := Word16(ppos);
        assert cs[..nc] == cs[..];
      }
    }
  }

  // n_points takes the position back as an unsigned number.
  lemma FinalCount(points: array<Vector>, tags: array<int>, ppos: int, o: Filled, room: Room)
    requires Written(points, tags, ppos, o, room)
    ensures Word16(ppos) == |o.points| == |o.tags| <= points.Length
    ensures points[..|o.points|] == o.points && tags[..|o.tags|] == o.tags
  {
    ShortOf(|o.points|);
  }
}
