/**
  The advance arrays of ft.h:123-134 and override.cpp:1157-1161: extents are turned into
  advances in place, and logical advances into device advances without accumulating the
  rounding error. Floating point is modelled by real numbers.
 */
module Advance {

  // A cast from double to int.
  function Trunc(x: real): int {
    if x >= 0.0 then x.Floor else -(-x).Floor
  }

  // The ROUND macro (ft.h:27).
  function Round(x: real): int {
    if x > 0.0 then Trunc(x + 0.5) else Trunc(x - 0.5)
  }

  // The device position of a logical position.
  function Zoomed(pos: int, zoom: real): real {
    pos as real * zoom
  }

  function Sum(s: seq<int>): int
    decreases |s|
  {
    if s == [] then 0 else Sum(s[..|s| - 1]) + s[|s| - 1]
  }

  // The nearest integer; a tie goes away from zero.
  lemma RoundIsNearest(x: real)
    ensures -0.5 <= Round(x) as real - x <= 0.5
    ensures Round(x) as real - x == 0.5 ==> x > 0.0
    ensures Round(x) as real - x == -0.5 ==> x < 0.0
    ensures Round(x) < 0 <==> x <= -0.5
  {
  }

  // The device advances of a list of logical advances, last one last.
  function Advances(dx: seq<int>, zoom: real): (out: seq<int>)
    ensures |out| == |dx|
    decreases |dx|
  {
    if dx == [] then []
    else
      var earlier := Advances(dx[..|dx| - 1], zoom);
      earlier + [Round(Zoomed(Sum(dx), zoom) - Sum(earlier) as real)]
  }

  lemma {:induction false} AdvancesPrefix(dx: seq<int>, zoom: real, k: nat)
    requires k <= |dx|
    ensures Advances(dx, zoom)[..k] == Advances(dx[..k], zoom)
    decreases |dx|
  {
    if k == |dx| {
      assert dx[..k] == dx;
    } else {
      AdvancesPrefix(dx[..|dx| - 1], zoom, k);
      assert dx[..|dx| - 1][..k] == dx[..k];
    }
  }

  /** TransformlpDx writes the device advances of the first szDx entries. */
  method TransformlpDx(lpDx: array<int>, outlpDx: array<int>, szDx: nat, zoom: real)
    requires szDx <= lpDx.Length && szDx <= outlpDx.Length && lpDx != outlpDx
    modifies outlpDx
    ensures outlpDx[..szDx] == Advances(lpDx[..szDx], zoom)
    ensures outlpDx[szDx..] == old(outlpDx[szDx..])
  {
    hide Round, Zoomed, Advances, Sum;
    ghost var dx, rest := lpDx[..], outlpDx[szDx..];
    SumEmpty();
    var curPos := 0;
    var lastPos := 0;
    var i := 0;
    while i < szDx
      invariant 0 <= i <= szDx
      invariant curPos == Sum(dx[..i])
      invariant lastPos == Sum(outlpDx[..i])
      invariant outlpDx[..i] == Advances(dx[..i], zoom)
      invariant outlpDx[szDx..] == rest
    {
      ghost var earlier := outlpDx[..i];
      curPos := curPos + lpDx[i];
      SumPrefix(dx, i);
      AdvancesStep(dx, zoom, i);
      var advance := Round(Zoomed(curPos, zoom) - lastPos as real);
      outlpDx[i] := advance;
      lastPos := lastPos + outlpDx[i];
      assert outlpDx[..i + 1] == earlier + [advance];
      SumAppend(earlier, advance);
      i := i + 1;
    }
    assert dx[..szDx] == lpDx[..szDx];
  }

  lemma SumEmpty()
    ensures Sum([]) == 0 && forall zoom :: Advances([], zoom) == []
  {
  }

  lemma AdvancesStep(dx: seq<int>, zoom: real, i: nat)
    requires i < |dx|
    ensures var earlier := Advances(dx[..i], zoom);
            Advances(dx[..i + 1], zoom) ==
            earlier + [Round(Zoomed(Sum(dx[..i + 1]), zoom) - Sum(earlier) as real)]
  {
    assert dx[..i + 1][..i] == dx[..i];
  }

  lemma SumPrefix(s: seq<int>, i: nat)
    requires i < |s|
    ensures Sum(s[..i + 1]) == Sum(s[..i]) + s[i]
  {
    assert s[..i + 1][..i] == s[..i];
  }

  /** The error never accumulates: every device position is within half a pixel of the zoomed
      logical position, however many advances came before. */
  lemma DriftBound(dx: seq<int>, zoom: real, k: nat)
    requires k <= |dx|
    ensures -0.5 <= Sum(Advances(dx, zoom)[..k]) as real - Zoomed(Sum(dx[..k]), zoom) <= 0.5
    ensures Zoomed(Sum(dx[..k]), zoom) == Sum(dx[..k]) as real * zoom
  {
    ZoomedIs(Sum(dx[..k]), zoom);
    hide Round, Zoomed;
    AdvancesPrefix(dx, zoom, k);
    if k == 0 {
      ZoomedZero(zoom);
    } else {
      var head := dx[..k];
      var earlier := Advances(head[..k - 1], zoom);
      var last := Round(Zoomed(Sum(head), zoom) - Sum(earlier) as real);
      RoundIsNearest(Zoomed(Sum(head), zoom) - Sum(earlier) as real);
      assert Advances(head, zoom) == earlier + [last];
      SumAppend(earlier, last);
    }
  }

  lemma ZoomedIs(pos: int, zoom: real)
    ensures Zoomed(pos, zoom) == pos as real * zoom
  {
  }

  lemma ZoomedZero(zoom: real)
    ensures Zoomed(0, zoom) == 0.0
  {
  }

  lemma SumAppend(s: seq<int>, x: int)
    ensures Sum(s + [x]) == Sum(s) + x
  {
    assert (s + [x])[..|s|] == s;
  }

  /** Away from ties a device position does not depend on how it was reached. */
  lemma PositionForced(dx: seq<int>, zoom: real, k: nat, m: int)
    requires k <= |dx| && -0.5 < m as real - Zoomed(Sum(dx[..k]), zoom) < 0.5
    ensures Sum(Advances(dx, zoom)[..k]) == m
  {
    DriftBound(dx, zoom, k);
  }

  /** Nonnegative advances can still step back by one pixel, but only out of a tie: exactly
      when the advance is invisible at this zoom and the position before it was half a pixel
      too far. */
  lemma StepsBackIff(dx: seq<int>, zoom: real, k: nat)
    requires k < |dx| && dx[k] >= 0 && zoom >= 0.0
    ensures var over := Sum(Advances(dx, zoom)[..k]) as real - Zoomed(Sum(dx[..k]), zoom);
            && Advances(dx, zoom)[k] >= -1
            && (Advances(dx, zoom)[k] < 0 <==> over == 0.5 && Zoomed(dx[k], zoom) == 0.0)
  {
    hide Round, Zoomed, Advances;
    DriftBound(dx, zoom, k);
    NextAdvance(dx, zoom, k);
    RoundIsNearest(Zoomed(Sum(dx[..k + 1]), zoom) - Sum(Advances(dx, zoom)[..k]) as real);
    assert dx[..k + 1][..k] == dx[..k];
    ZoomedAdds(Sum(dx[..k]), dx[k], zoom);
  }

  lemma NextAdvance(dx: seq<int>, zoom: real, k: nat)
    requires k < |dx|
    ensures Advances(dx, zoom)[k] ==
            Round(Zoomed(Sum(dx[..k + 1]), zoom) - Sum(Advances(dx, zoom)[..k]) as real)
  {
    hide Round, Zoomed, Sum;
    AdvancesPrefix(dx, zoom, k);
    AdvancesPrefix(dx, zoom, k + 1);
    assert dx[..k + 1][..k] == dx[..k];
    assert Advances(dx, zoom)[..k + 1][k] == Advances(dx, zoom)[k];
  }

  lemma ZoomedAdds(x: int, y: int, zoom: real)
    ensures Zoomed(x + y, zoom) == Zoomed(x, zoom) + Zoomed(y, zoom)
    ensures y >= 0 && zoom >= 0.0 ==> Zoomed(y, zoom) >= 0.0
  {
    assert (x + y) as real == x as real + y as real;
  }

  // ---------------------------------------------------------------- extents to advances

  /** The backward loop replaces extents by advances whose running sums are those extents. */
  method DifferenceInPlace(newdx: array<int>)
    modifies newdx
    ensures newdx[..] == Differences(old(newdx[..]))
  {
    var i := newdx.Length - 1;
    while i > 0
      invariant newdx.Length == 0 || 0 <= i < newdx.Length
      invariant forall k :: 0 <= k <= i && k < newdx.Length ==> newdx[k] == old(newdx[k])
      invariant forall k :: 0 <= i < k < newdx.Length ==> newdx[k] == old(newdx[k]) - old(newdx[k - 1])
    {
      newdx[i] := newdx[i] - newdx[i - 1];
      i := i - 1;
    }
    assert newdx.Length > 0 ==> i == 0;
  }

  function Differences(extents: seq<int>): (d: seq<int>)
    ensures |d| == |extents|
  {
    seq(|extents|, k requires 0 <= k < |extents| => if k == 0 then extents[0] else extents[k] - extents[k - 1])
  }

  lemma {:induction false} DifferencesSum(extents: seq<int>, k: nat)
    requires k < |extents|
    ensures Sum(Differences(extents)[..k + 1]) == extents[k]
    decreases k
  {
    var d := Differences(extents);
    assert d[..k + 1][..k] == d[..k];
    if k > 0 {
      DifferencesSum(extents, k - 1);
    }
  }

  /** Measured text, differenced and zoomed: each glyph starts within half a pixel of the
      zoomed extent the system reported. */
  lemma ExtentsKept(extents: seq<int>, zoom: real, k: nat)
    requires k < |extents|
    ensures -0.5 <= Sum(Advances(Differences(extents), zoom)[..k + 1]) as real - extents[k] as real * zoom <= 0.5
  {
    hide Zoomed, Round;
    DriftBound(Differences(extents), zoom, k + 1);
    DifferencesSum(extents, k);
  }
}
