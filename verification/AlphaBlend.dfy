/**
  The gamma-corrected alpha blending of ft.cpp: a table `tbl1` from bytes to linear light, a
  4097-entry table `tbl2` that inverts it, and fixed-point blends through both.

  The curves themselves (pow) are inputs: `tbl1` is any nondecreasing table from 0 to BASE
  and `alphatbl` any table of numbers up to BASE.
 */
module AlphaBlend {
  import opened Common

  const BASE: int := 0x4000
  const TBL2_LAST: int := 256 * 16

  // C's division: towards zero.
  function Quotient(x: int, d: nat): int
    requires d > 0
  {
    if x >= 0 then x / d else -((-x) / d)
  }

  // ---------------------------------------------------------------- the tables

  ghost predicate GammaTable(tbl1: seq<int>) {
    && |tbl1| == 257
    && tbl1[0] == 0 && tbl1[256] == BASE
    && forall p, q :: 0 <= p <= q <= 256 ==> tbl1[p] <= tbl1[q]
  }

  // p is the largest byte whose linear value is at most n.
  ghost predicate Inverts(tbl1: seq<int>, n: int, p: int)
    requires GammaTable(tbl1)
  {
    0 <= p < 256 && tbl1[p] <= n && forall q :: p < q < 256 ==> tbl1[q] > n
  }

  lemma InverseMonotone(tbl1: seq<int>, m: int, n: int, p: int, q: int)
    requires GammaTable(tbl1) && Inverts(tbl1, m, p) && Inverts(tbl1, n, q) && m <= n
    ensures p <= q
  {
  }

  ghost predicate ValidTables(tbl1: seq<int>, tbl2: seq<int>) {
    && GammaTable(tbl1)
    && |tbl2| == TBL2_LAST + 1
    && forall i :: 0 <= i <= TBL2_LAST ==> Inverts(tbl1, 4 * i, tbl2[i])
  }

  ghost predicate TuneTable(tune: seq<int>) {
    |tune| == 256 && forall i :: 0 <= i < 256 ==> 0 <= tune[i] <= BASE
  }

  class CAlphaBlend {
    const alphatbl: array<int>
    const tbl1: array<int>
    const tbl2: array<int>

    ghost predicate Sized()
      reads this
    {
      alphatbl.Length == 256 && tbl1.Length == 257 && tbl2.Length == TBL2_LAST + 1 &&
      alphatbl != tbl1 && tbl1 != tbl2 && tbl2 != alphatbl
    }

    constructor ()
      ensures Sized() && fresh(alphatbl) && fresh(tbl1) && fresh(tbl2)
    {
      alphatbl := new int[256];
      tbl1 := new int[257];
      tbl2 := new int[TBL2_LAST + 1];
    }

    /** The unrolled binary search finds the inverse of the gamma table. */
    method RConv1(n: int) returns (r: int)
      requires Sized() && GammaTable(tbl1[..]) && n >= 0
      ensures Inverts(tbl1[..], n, r)
    {
      ghost var table := tbl1[..];
      var pos := 0x80;
      var i := pos / 2;
      while i > 0
        invariant i in {64, 32, 16, 8, 4, 2, 1, 0}
        invariant var w := if i > 0 then 2 * i else 1;
                  && 0 <= pos - w && pos + w <= 256
                  && table[pos - w] <= n
                  && forall q :: pos + w <= q < 256 ==> table[q] > n
        decreases i
      {
        if n >= tbl1[pos] {
          pos := pos + i;
        } else {
          pos := pos - i;
        }
        i := i / 2;
      }
      if n >= tbl1[pos] {
        pos := pos + 1;
      }
      r := pos - 1;
    }

    // init, with the two curves and the settings as inputs.
    method Init(contrastCurve: seq<int>, gammaCurve: seq<int>)
      requires Sized() && |contrastCurve| == 256 && GammaTable(gammaCurve + [BASE])
      modifies alphatbl, tbl1, tbl2
      ensures alphatbl[..] == contrastCurve && tbl1[..] == gammaCurve + [BASE]
      ensures ValidTables(tbl1[..], tbl2[..])
    {
      var i := 0;
      while i < 256
        invariant 0 <= i <= 256
        invariant alphatbl[..i] == contrastCurve[..i] && tbl1[..i] == gammaCurve[..i]
      {
        alphatbl[i] := contrastCurve[i];
        tbl1[i] := gammaCurve[i];
        i := i + 1;
      }
      tbl1[i] := BASE;
      assert tbl1[..] == tbl1[..256] + [BASE];
      i := 0;
      while i <= TBL2_LAST
        invariant 0 <= i <= TBL2_LAST + 1
        invariant tbl1[..] == gammaCurve + [BASE] && alphatbl[..] == contrastCurve
        invariant forall k :: 0 <= k < i ==> Inverts(gammaCurve + [BASE], 4 * k, tbl2[k])
      {
        var p := RConv1(i * (BASE / TBL2_LAST));
        tbl2[i] := p;
        i := i + 1;
      }
    }

    /** One of the tune tables (ft.cpp:328-342). The outer Bound has its arguments in another
        order and only cuts off below, so the upper bound has to come from the contrast curve. */
    method InitTune(tune: array<int>, table: seq<int>, percent: nat)
      requires Sized() && tune.Length == 256 == |table|
      requires tune != alphatbl && tune != tbl1 && tune != tbl2
      modifies tune
      ensures forall i :: 0 <= i < 256 ==>
                tune[i] == Bound(0, alphatbl[Bound(Quotient(table[i] * percent, 100), 0, 255)], BASE)
      ensures forall i :: 0 <= i < 256 ==> tune[i] >= 0
      ensures TuneTable(tune[..]) <==>
              forall i :: 0 <= i < 256 ==> alphatbl[Bound(Quotient(table[i] * percent, 100), 0, 255)] <= BASE
    {
      for i := 0 to 256
        invariant forall k :: 0 <= k < i ==>
                    tune[k] == Bound(0, alphatbl[Bound(Quotient(table[k] * percent, 100), 0, 255)], BASE)
      {
        tune[i] := Bound(0, alphatbl[Bound(Quotient(table[i] * percent, 100), 0, 255)], BASE);
      }
    }
  }

  // ---------------------------------------------------------------- blending one channel

  // conv1(bg) * (BASE - alpha) + conv1(fg) * alpha
  function Mixed(tbl1: seq<int>, fg: Byte, bg: Byte, alpha: int): int
    requires |tbl1| == 257
  {
    tbl1[bg] * (BASE - alpha) + tbl1[fg] * alpha
  }

  lemma MixedBetween(lo: int, hi: int, x: int, y: int, alpha: int)
    requires lo <= x <= hi && lo <= y <= hi && 0 <= alpha <= BASE
    ensures lo * BASE <= x * (BASE - alpha) + y * alpha <= hi * BASE
  {
    Scaled(lo, x, BASE - alpha);
    Scaled(x, hi, BASE - alpha);
    Scaled(lo, y, alpha);
    Scaled(y, hi, alpha);
    assert lo * BASE == lo * (BASE - alpha) + lo * alpha;
    assert hi * BASE == hi * (BASE - alpha) + hi * alpha;
  }

  lemma MixedInRange(tbl1: seq<int>, fg: Byte, bg: Byte, alpha: int)
    requires GammaTable(tbl1) && 0 <= alpha <= BASE
    ensures 0 <= Mixed(tbl1, fg, bg, alpha) <= BASE * BASE
    ensures 0 <= Mixed(tbl1, fg, bg, alpha) / (BASE * BASE / TBL2_LAST) <= TBL2_LAST
  {
    MixedBetween(0, BASE, tbl1[bg], tbl1[fg], alpha);
  }

  // CAlphaBlendColorOne::doAB after the tune table: alpha is tunetbl[alpha].
  function Blend(tbl1: seq<int>, tbl2: seq<int>, fg: Byte, bg: Byte, alpha: int): (r: Byte)
    requires ValidTables(tbl1, tbl2) && 0 <= alpha <= BASE
  {
    MixedInRange(tbl1, fg, bg, alpha);
    if alpha == 0 then bg else tbl2[Mixed(tbl1, fg, bg, alpha) / (BASE * BASE / TBL2_LAST)]
  }

  /** The blend stays between the two colours in linear light, up to the four-step grid of tbl2. */
  lemma BlendBetween(tbl1: seq<int>, tbl2: seq<int>, fg: Byte, bg: Byte, alpha: int)
    requires ValidTables(tbl1, tbl2) && 0 < alpha <= BASE
    ensures var r := Blend(tbl1, tbl2, fg, bg, alpha);
            var lo, hi := if tbl1[fg] <= tbl1[bg] then tbl1[fg] else tbl1[bg],
                          if tbl1[fg] <= tbl1[bg] then tbl1[bg] else tbl1[fg];
            && tbl1[r] <= hi
            && (r == 255 || tbl1[r + 1] > lo - 3)
  {
    var lo, hi := if tbl1[fg] <= tbl1[bg] then tbl1[fg] else tbl1[bg],
                  if tbl1[fg] <= tbl1[bg] then tbl1[bg] else tbl1[fg];
    MixedInRange(tbl1, fg, bg, alpha);
    MixedBetween(lo, hi, tbl1[bg], tbl1[fg], alpha);
    var index := Mixed(tbl1, fg, bg, alpha) / 65536;
    assert Inverts(tbl1, 4 * index, tbl2[index]);
  }

  /** In linear light the blend is the weighted mean of the colours, rounded down to the grid of
      tbl2 and then to a byte: the weights are alpha and the rest of BASE. */
  lemma BlendIsWeighted(tbl1: seq<int>, tbl2: seq<int>, fg: Byte, bg: Byte, alpha: int)
    requires ValidTables(tbl1, tbl2) && 0 < alpha <= BASE
    ensures var r := Blend(tbl1, tbl2, fg, bg, alpha);
            var mean := tbl1[bg] * (BASE - alpha) + tbl1[fg] * alpha;
            && tbl1[r] * BASE <= mean
            && (r == 255 || mean < (tbl1[r + 1] + 3) * BASE)
            && Inverts(tbl1, mean / (4 * BASE) * 4, r)
  {
    MixedInRange(tbl1, fg, bg, alpha);
    var mean := Mixed(tbl1, fg, bg, alpha);
    LooksUpMean(tbl1, tbl2, mean, tbl2[mean / 65536]);
  }

  lemma LooksUpMean(tbl1: seq<int>, tbl2: seq<int>, mean: int, r: Byte)
    requires ValidTables(tbl1, tbl2) && 0 <= mean && mean / 65536 <= TBL2_LAST && r == tbl2[mean / 65536]
    ensures tbl1[r] * BASE <= mean
    ensures r == 255 || mean < (tbl1[r + 1] + 3) * BASE
    ensures Inverts(tbl1, mean / (4 * BASE) * 4, r)
  {
    var index := mean / 65536;
    assert 65536 * index <= mean < 65536 * index + 65536;
    assert Inverts(tbl1, 4 * index, tbl2[index]);
    assert tbl1[r] <= 4 * index;
  }

  lemma QuotientOrder(x: int, y: int)
    requires x <= y
    ensures x / 65536 <= y / 65536
  {
  }

  lemma SmallerMixSmallerBlend(tbl1: seq<int>, tbl2: seq<int>, fg: Byte, bg: Byte, alpha: int,
                               fg': Byte, bg': Byte, alpha': int)
    requires ValidTables(tbl1, tbl2) && 0 < alpha <= BASE && 0 < alpha' <= BASE
    requires Mixed(tbl1, fg, bg, alpha) <= Mixed(tbl1, fg', bg', alpha')
    ensures Blend(tbl1, tbl2, fg, bg, alpha) <= Blend(tbl1, tbl2, fg', bg', alpha')
  {
    hide Mixed, Inverts;
    MixedInRange(tbl1, fg, bg, alpha);
    MixedInRange(tbl1, fg', bg', alpha');
    var i, j := Mixed(tbl1, fg, bg, alpha) / 65536, Mixed(tbl1, fg', bg', alpha') / 65536;
    QuotientOrder(Mixed(tbl1, fg, bg, alpha), Mixed(tbl1, fg', bg', alpha'));
    InverseMonotone(tbl1, 4 * i, 4 * j, tbl2[i], tbl2[j]);
  }

  /** A lighter text colour or a lighter background never gives a darker result. */
  lemma BlendMonotoneInColours(tbl1: seq<int>, tbl2: seq<int>, fg: Byte, fg': Byte, bg: Byte, bg': Byte, alpha: int)
    requires ValidTables(tbl1, tbl2) && 0 <= alpha <= BASE && fg <= fg' && bg <= bg'
    ensures Blend(tbl1, tbl2, fg, bg, alpha) <= Blend(tbl1, tbl2, fg', bg', alpha)
  {
    if alpha > 0 {
      Scaled(tbl1[bg], tbl1[bg'], BASE - alpha);
      Scaled(tbl1[fg], tbl1[fg'], alpha);
      SmallerMixSmallerBlend(tbl1, tbl2, fg, bg, alpha, fg', bg', alpha);
    }
  }

  /** More coverage moves the result towards the text colour. */
  lemma BlendMonotoneInAlpha(tbl1: seq<int>, tbl2: seq<int>, fg: Byte, bg: Byte, alpha: int, alpha': int)
    requires ValidTables(tbl1, tbl2) && 0 < alpha <= alpha' <= BASE
    ensures tbl1[bg] <= tbl1[fg] ==> Blend(tbl1, tbl2, fg, bg, alpha) <= Blend(tbl1, tbl2, fg, bg, alpha')
    ensures tbl1[fg] <= tbl1[bg] ==> Blend(tbl1, tbl2, fg, bg, alpha') <= Blend(tbl1, tbl2, fg, bg, alpha)
  {
    MixedOrder(tbl1[bg], tbl1[fg], alpha, alpha');
    if tbl1[bg] <= tbl1[fg] {
      SmallerMixSmallerBlend(tbl1, tbl2, fg, bg, alpha, fg, bg, alpha');
    }
    if tbl1[fg] <= tbl1[bg] {
      SmallerMixSmallerBlend(tbl1, tbl2, fg, bg, alpha', fg, bg, alpha);
    }
  }

  lemma MixedOrder(x: int, y: int, alpha: int, alpha': int)
    requires alpha <= alpha'
    ensures x <= y ==> x * (BASE - alpha) + y * alpha <= x * (BASE - alpha') + y * alpha'
    ensures y <= x ==> x * (BASE - alpha') + y * alpha' <= x * (BASE - alpha) + y * alpha
  {
    MixedByDifference(x, y, alpha);
    MixedByDifference(x, y, alpha');
    if x <= y {
      Scaled(alpha, alpha', y - x);
    }
    if y <= x {
      Scaled(alpha, alpha', x - y);
      assert (y - x) * alpha == -((x - y) * alpha) && (y - x) * alpha' == -((x - y) * alpha');
    }
  }

  lemma MixedByDifference(x: int, y: int, alpha: int)
    ensures x * (BASE - alpha) + y * alpha == x * BASE + (y - x) * alpha
  {
  }

  /** Painting a colour over itself is not always the identity: it is exactly when the colour's
      linear value lies on the grid of tbl2 and the next byte is strictly lighter. It gets darker
      exactly when its linear value is off the grid. */
  lemma BlendOverItself(tbl1: seq<int>, tbl2: seq<int>, c: Byte, alpha: int)
    requires ValidTables(tbl1, tbl2) && 0 < alpha <= BASE
    ensures Blend(tbl1, tbl2, c, c, alpha) == c <==>
            tbl1[c] % 4 == 0 && (c == 255 || tbl1[c + 1] > tbl1[c])
    ensures Blend(tbl1, tbl2, c, c, alpha) < c <==> tbl1[c] % 4 != 0
  {
    OverItself(tbl1, tbl2, c, alpha);
  }

  // Over itself a colour is looked up in tbl2 alone, rounded down to the grid.
  lemma OverItself(tbl1: seq<int>, tbl2: seq<int>, c: Byte, alpha: int)
    requires ValidTables(tbl1, tbl2) && 0 < alpha <= BASE
    ensures 0 <= tbl1[c] / 4 <= TBL2_LAST
    ensures Blend(tbl1, tbl2, c, c, alpha) == tbl2[tbl1[c] / 4]
    ensures Inverts(tbl1, tbl1[c] / 4 * 4, tbl2[tbl1[c] / 4])
  {
    MixedInRange(tbl1, c, c, alpha);
    MixedByDifference(tbl1[c], tbl1[c], alpha);
    assert tbl1[c] * BASE / 65536 == tbl1[c] / 4;
  }

  lemma IsInverse(tbl1: seq<int>, n: int, p: nat, r: int)
    requires GammaTable(tbl1) && Inverts(tbl1, n, r) && p < 255 && tbl1[p] <= n < tbl1[p + 1]
    ensures r == p
  {}

  // The curve of a negative gamma mode, which is linear (ft.cpp:287-288).
  function Linear(): (tbl1: seq<int>)
    ensures |tbl1| == 257 && forall p :: 0 <= p < 256 ==> tbl1[p] == p * BASE / 255
    ensures tbl1[256] == BASE
  {
    seq(256, p => p * BASE / 255) + [BASE]
  }

  lemma LinearIsGamma()
    ensures GammaTable(Linear())
  {
    forall p, q | 0 <= p <= q <= 256
      ensures Linear()[p] <= Linear()[q]
    {
      if q < 256 {
        Scaled(p, q, BASE);
      }
    }
  }

  // The largest byte up to p whose linear value is at most n.
  function InverseUpTo(tbl1: seq<int>, n: int, p: int): (r: int)
    requires GammaTable(tbl1) && 0 <= p < 256 && n >= 0
    ensures 0 <= r <= p && tbl1[r] <= n && forall q :: r < q <= p ==> tbl1[q] > n
  {
    if tbl1[p] <= n then p else InverseUpTo(tbl1, n, p - 1)
  }

  function InverseTable(tbl1: seq<int>): (tbl2: seq<int>)
    requires GammaTable(tbl1)
    ensures ValidTables(tbl1, tbl2)
  {
    seq(TBL2_LAST + 1, i requires 0 <= i <= TBL2_LAST => InverseUpTo(tbl1, 4 * i, 255))
  }

  /** With the linear curve the colour 4, whose linear value is 257, turns into 3. */
  lemma LinearDarkens(alpha: int)
    requires 0 < alpha <= BASE
    ensures GammaTable(Linear())
    ensures Blend(Linear(), InverseTable(Linear()), 4, 4, alpha) == 3
  {
    hide Linear, InverseTable, GammaTable;
    LinearIsGamma();
    var tbl1 := Linear();
    assert tbl1[4] == 4 * BASE / 255 == 257 && tbl1[3] == 3 * BASE / 255 == 192;
    OverItself(tbl1, InverseTable(tbl1), 4, alpha);
    IsInverse(tbl1, 256, 3, InverseTable(tbl1)[64]);
  }

  // CAlphaBlend::doAB (ft.cpp:450-460), the older entry point with its shortcuts.
  function BlendShortcut(tbl1: seq<int>, tbl2: seq<int>, fg: Byte, bg: Byte, alpha: int, convalpha: int): (r: Byte)
    requires ValidTables(tbl1, tbl2) && 0 <= convalpha <= BASE
  {
    MixedInRange(tbl1, fg, bg, convalpha);
    if fg == bg || alpha <= 0 then bg
    else if alpha >= 255 then fg
    else tbl2[Mixed(tbl1, fg, bg, convalpha) / (BASE * BASE / TBL2_LAST)]
  }

  // A colour that painting over itself leaves alone.
  predicate OnGrid(tbl1: seq<int>, c: Byte)
    requires |tbl1| == 257
  {
    tbl1[c] % 4 == 0 && (c == 255 || tbl1[c + 1] > tbl1[c])
  }

  /** The older blend agrees with the tuned one for equal colours, on a transparent pixel whose
      curve value is 0 and on an opaque one whose curve value is BASE exactly where painting over
      itself does nothing to the colour that comes out; elsewhere always. */
  lemma ShortcutAgrees(tbl1: seq<int>, tbl2: seq<int>, fg: Byte, bg: Byte, alpha: int, convalpha: int)
    requires ValidTables(tbl1, tbl2) && 0 <= convalpha <= BASE
    requires (alpha <= 0 ==> convalpha == 0) && (alpha >= 255 ==> convalpha == BASE)
    ensures BlendShortcut(tbl1, tbl2, fg, bg, alpha, convalpha) == Blend(tbl1, tbl2, fg, bg, convalpha) <==>
            if convalpha == 0 then alpha <= 0 || fg == bg || OnGrid(tbl1, bg)
            else if alpha >= 255 || fg == bg then OnGrid(tbl1, fg)
            else true
  {
    if convalpha == 0 {
      if alpha > 0 && fg != bg {
        ThroughTable(tbl1, tbl2, bg, Mixed(tbl1, fg, bg, 0));
      }
    } else if fg == bg {
      BlendOverItself(tbl1, tbl2, fg, convalpha);
    } else if alpha >= 255 {
      ThroughTable(tbl1, tbl2, fg, Mixed(tbl1, fg, bg, BASE));
    }
  }

  /** The older blend answers at its shortcuts without the tables, and between them with the
      weighted mean. */
  lemma ShortcutIsWeighted(tbl1: seq<int>, tbl2: seq<int>, fg: Byte, bg: Byte, alpha: int, convalpha: int)
    requires ValidTables(tbl1, tbl2) && 0 <= convalpha <= BASE
    ensures var r := BlendShortcut(tbl1, tbl2, fg, bg, alpha, convalpha);
            var mean := tbl1[bg] * (BASE - convalpha) + tbl1[fg] * convalpha;
            && (fg == bg || alpha <= 0 ==> r == bg)
            && (alpha >= 255 ==> r == fg || alpha <= 0)
            && (fg != bg && 0 < alpha < 255 ==>
                  && tbl1[r] * BASE <= mean
                  && (r == 255 || mean < (tbl1[r + 1] + 3) * BASE)
                  && Inverts(tbl1, mean / (4 * BASE) * 4, r))
  {
    MixedInRange(tbl1, fg, bg, convalpha);
    var mean := Mixed(tbl1, fg, bg, convalpha);
    if fg != bg && 0 < alpha < 255 {
      LooksUpMean(tbl1, tbl2, mean, tbl2[mean / 65536]);
    }
  }

  // A colour alone comes back from the tables exactly when it is on the grid.
  lemma ThroughTable(tbl1: seq<int>, tbl2: seq<int>, c: Byte, mixed: int)
    requires ValidTables(tbl1, tbl2) && mixed == tbl1[c] * BASE
    ensures 0 <= mixed / (BASE * BASE / TBL2_LAST) <= TBL2_LAST
    ensures tbl2[mixed / (BASE * BASE / TBL2_LAST)] == c <==> OnGrid(tbl1, c)
  {
    var index := mixed / 65536;
    assert index == tbl1[c] / 4;
    assert Inverts(tbl1, 4 * index, tbl2[index]);
  }

  // ---------------------------------------------------------------- colour glyphs

  // One channel of _rgbamixer (ft.cpp:703-706).
  function MixChannel(bk: Byte, a: Byte, c: Byte): int {
    bk - a * bk / 255 + c
  }

  /** The sum stays inside its eight bits for every background exactly when the source channel
      is premultiplied, so that the four shifted channels cannot run into each other. */
  lemma MixerNeedsPremultiplied(a: Byte, c: Byte)
    ensures (forall bk: Byte :: 0 <= MixChannel(bk, a, c) <= 255) <==> c <= a
  {
    if c <= a {
      forall bk: Byte
        ensures 0 <= MixChannel(bk, a, c) <= 255
      {
        FadedBackground(bk, a);
      }
    } else {
      assert MixChannel(255, a, c) == 255 - a + c;
    }
  }

  /** A mixed channel is the source over the faded background, rounded up by less than one. */
  lemma MixIsWeighted(bk: Byte, a: Byte, c: Byte)
    ensures 255 * c + bk * (255 - a) <= 255 * MixChannel(bk, a, c) < 255 * c + bk * (255 - a) + 255
    ensures MixChannel(bk, 0, 0) == bk && MixChannel(bk, 255, c) == c
  {
    var q := a * bk / 255;
    assert 255 * q <= a * bk < 255 * q + 255;
    assert bk * (255 - a) == 255 * bk - a * bk;
    assert 255 * bk / 255 == bk;
  }

  // The faded background leaves room for exactly a.
  lemma FadedBackground(bk: Byte, a: Byte)
    ensures 0 <= bk - a * bk / 255 <= 255 - a
  {
    Scaled(a, 255, bk);
    Scaled(bk, 255, 255 - a);
    var q := a * bk / 255;
    assert 255 * q <= a * bk < 255 * q + 255;
    assert (255 - a) * bk == 255 * bk - a * bk;
  }
}
