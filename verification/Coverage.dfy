/**
  Vertical glyph substitution in ft2vert.c: scanning a GSUB lookup, and searching it by
  coverage (OpenType specification, Common Table Formats, "Coverage Table"; GSUB,
  "LookupType 1: Single Substitution Subtable").
 */
module Coverage {
  import opened Common

  datatype Range = Range(start: nat, end: nat)

  datatype Cover = Glyphs(glyphs: seq<nat>) | Ranges(ranges: seq<Range>) | UnknownCover

  datatype Subst = Delta(delta: nat) | List(substitute: seq<nat>) | UnknownSubst

  datatype SubTable = SubTable(cover: Cover, subst: Subst)

  // What a lookup returns: a glyph (0 when there is none), or a read outside Substitute.
  datatype Answer = Glyph(gid: nat) | OutsideArray

  // get_vert_nth_gid
  function Nth(t: SubTable, gid: nat, n: int): Answer {
    match t.subst
    case Delta(delta) => Glyph(gid + delta)
    case List(substitute) => if 0 <= n < |substitute| then Glyph(substitute[n]) else OutsideArray
    case UnknownSubst => Glyph(0)
  }

  // ---------------------------------------------------------------- coverage

  // The index of the first occurrence.
  function IndexOf(glyphs: seq<nat>, gid: nat): (i: Option<int>)
    ensures i.Some? <==> gid in glyphs
    ensures i.Some? ==> 0 <= i.value < |glyphs| && glyphs[i.value] == gid
    ensures i.Some? ==> forall m :: 0 <= m < i.value ==> glyphs[m] != gid
  {
    if glyphs == [] then None
    else if glyphs[0] == gid then Some(0)
    else match IndexOf(glyphs[1..], gid)
      case None => None
      case Some(k) => Some(k + 1)
  }

  function Width(r: Range): int {
    r.end - r.start + 1
  }

  function Widths(ranges: seq<Range>): int {
    if ranges == [] then 0 else Width(ranges[0]) + Widths(ranges[1..])
  }

  predicate Covers(r: Range, gid: nat) {
    r.start <= gid <= r.end
  }

  // The coverage index the range loop computes, starting at index j.
  function RangeIndex(ranges: seq<Range>, gid: nat, j: int): Option<int> {
    if ranges == [] then None
    else if Covers(ranges[0], gid) then Some(gid - ranges[0].start + j)
    else RangeIndex(ranges[1..], gid, j + Width(ranges[0]))
  }

  // The glyphs start, start + 1, ..., end.
  function Span(r: Range): (s: seq<nat>)
    ensures |s| == if r.start <= r.end then r.end - r.start + 1 else 0
    ensures forall k :: 0 <= k < |s| ==> s[k] == r.start + k
  {
    seq(if r.start <= r.end then r.end - r.start + 1 else 0, k requires k >= 0 => r.start + k)
  }

  // The format 1 coverage that lists the same glyphs in the same order.
  function Expand(ranges: seq<Range>): seq<nat> {
    if ranges == [] then [] else Span(ranges[0]) + Expand(ranges[1..])
  }

  // The ranges the loop passes before it reaches one that covers the glyph.
  function Passed(ranges: seq<Range>, gid: nat): seq<Range> {
    if ranges == [] || Covers(ranges[0], gid) then [] else [ranges[0]] + Passed(ranges[1..], gid)
  }

  lemma {:induction false} IndexOfConcat(a: seq<nat>, b: seq<nat>, gid: nat)
    ensures IndexOf(a + b, gid) ==
            if gid in a then IndexOf(a, gid)
            else match IndexOf(b, gid) case None => None case Some(k) => Some(k + |a|)
  {
    if a == [] {
      assert a + b == b;
    } else {
      IndexOfConcat(a[1..], b, gid);
      assert (a + b)[1..] == a[1..] + b;
      assert gid in a <==> gid == a[0] || gid in a[1..];
    }
  }

  lemma SpanCovers(r: Range, gid: nat)
    ensures gid in Span(r) <==> Covers(r, gid)
    ensures Covers(r, gid) ==> IndexOf(Span(r), gid) == Some(gid - r.start)
  {
    if Covers(r, gid) {
      assert Span(r)[gid - r.start] == gid;
    }
  }

  /** The range loop finds a glyph exactly when the expanded list holds it; its index falls
      short of the listed one by the total of the negative widths it has passed. */
  lemma {:induction false} RangeIndexVersusList(ranges: seq<Range>, gid: nat, j: int)
    ensures RangeIndex(ranges, gid, j).Some? <==> gid in Expand(ranges)
    ensures RangeIndex(ranges, gid, j).Some? ==>
              RangeIndex(ranges, gid, j).value ==
              IndexOf(Expand(ranges), gid).value + j - Shortfall(Passed(ranges, gid))
  {
    if ranges != [] {
      SpanCovers(ranges[0], gid);
      IndexOfConcat(Span(ranges[0]), Expand(ranges[1..]), gid);
      RangeIndexVersusList(ranges[1..], gid, j + Width(ranges[0]));
      if !Covers(ranges[0], gid) {
        assert Passed(ranges, gid)[1..] == Passed(ranges[1..], gid);
      }
    }
  }

  function Shortfall(ranges: seq<Range>): (n: nat)
    ensures n == 0 <==> forall r :: r in ranges ==> r.start <= r.end + 1
  {
    if ranges == [] then 0
    else
      assert ranges == [ranges[0]] + ranges[1..];
      (if Width(ranges[0]) < 0 then -Width(ranges[0]) else 0) + Shortfall(ranges[1..])
  }

  /** Format 2 coverage is format 1 coverage of the expanded list: for a given glyph, exactly
      when every range before the one that covers it is at worst empty. */
  lemma FormatsAgreeIff(ranges: seq<Range>, gid: nat)
    ensures RangeIndex(ranges, gid, 0) == IndexOf(Expand(ranges), gid) <==>
            gid !in Expand(ranges) || forall r :: r in Passed(ranges, gid) ==> r.start <= r.end + 1
  {
    hide IndexOf, RangeIndex, Expand, Passed, Shortfall;
    RangeIndexVersusList(ranges, gid, 0);
  }

  // ---------------------------------------------------------------- the tables in the file

  // The file holds these 16-bit words, high byte first, from `at` on.
  ghost predicate HoldsWords(m: Memory, at: nat, words: seq<nat>) {
    forall k :: 0 <= k < |words| ==> m(at + 2 * k) == words[k] / 0x100 && m(at + 2 * k + 1) == words[k] % 0x100
  }

  // The words of the ranges, with the coverage index of each start.
  function RangeWords(ranges: seq<Range>, index: nat): (words: seq<nat>)
    ensures |words| == 3 * |ranges|
  {
    if ranges == [] then []
    else [ranges[0].start, ranges[0].end, index] + RangeWords(ranges[1..], index + |Span(ranges[0])|)
  }

  // A coverage table of the OpenType specification.
  function CoverageWords(cover: Cover): seq<nat> {
    match cover
    case Glyphs(glyphs) => [1, |glyphs|] + glyphs
    case Ranges(ranges) => [2, |ranges|] + RangeWords(ranges, 0)
    case UnknownCover => [0, 0]
  }

  // A single substitution subtable, with its coverage table at `offset`.
  function SubstWords(subst: Subst, offset: nat): seq<nat> {
    match subst
    case Delta(delta) => [1, offset, delta]
    case List(substitute) => [2, offset, |substitute|] + substitute
    case UnknownSubst => [0, offset, 0]
  }

  lemma ReadsWordAt(m: Memory, at: nat, words: seq<nat>, k: nat)
    requires HoldsWords(m, at, words) && k < |words|
    ensures Byte2(m, at + 2 * k) == words[k]
  {}

  lemma {:induction false} RangeWordsAt(ranges: seq<Range>, index: nat, k: nat)
    requires k < |ranges|
    ensures RangeWords(ranges, index)[3 * k] == ranges[k].start
    ensures RangeWords(ranges, index)[3 * k + 1] == ranges[k].end
    decreases |ranges|
  {
    if k > 0 {
      RangeWordsAt(ranges[1..], index + |Span(ranges[0])|, k - 1);
    }
  }

  /** A coverage table in the file is read as what it says. */
  lemma ReadsCoverage(m: Memory, top: nat, cover: Cover)
    requires HoldsWords(m, top, CoverageWords(cover))
    ensures ScanCoverage(m, top) == cover
  {
    hide HoldsWords, Byte2, RangeWords;
    var words := CoverageWords(cover);
    ReadsWordAt(m, top, words, 0);
    ReadsWordAt(m, top, words, 1);
    match cover {
      case Glyphs(glyphs) =>
        forall k | 0 <= k < |glyphs|
          ensures Byte2(m, top + 4 + 2 * k) == glyphs[k]
        {
          ReadsWordAt(m, top, words, 2 + k);
        }
        assert Words(m, top + 4, |glyphs|) == glyphs;
      case Ranges(ranges) =>
        forall k | 0 <= k < |ranges|
          ensures Range(Byte2(m, top + 4 + 6 * k), Byte2(m, top + 6 + 6 * k)) == ranges[k]
        {
          RangeWordsAt(ranges, 0, k);
          ReadsWordAt(m, top, words, 2 + 3 * k);
          ReadsWordAt(m, top, words, 3 + 3 * k);
        }
        assert ScanCoverage(m, top).ranges == ranges;
      case UnknownCover =>
    }
  }

  /** A substitution subtable in the file is read as what it says. */
  lemma ReadsSubTable(m: Memory, top: nat, t: SubTable, offset: nat)
    requires HoldsWords(m, top, SubstWords(t.subst, offset))
    requires HoldsWords(m, top + offset, CoverageWords(t.cover))
    ensures ScanSubTable(m, top) == t
  {
    hide HoldsWords, Byte2, CoverageWords, ScanCoverage;
    ReadsCoverage(m, top + offset, t.cover);
    var words := SubstWords(t.subst, offset);
    ReadsWordAt(m, top, words, 0);
    ReadsWordAt(m, top, words, 1);
    ReadsWordAt(m, top, words, 2);
    if t.subst.List? {
      var substitute := t.subst.substitute;
      forall k | 0 <= k < |substitute|
        ensures Byte2(m, top + 6 + 2 * k) == substitute[k]
      {
        ReadsWordAt(m, top, words, 3 + k);
      }
      assert Words(m, top + 6, |substitute|) == substitute;
    }
  }

  // ---------------------------------------------------------------- searching a lookup

  // The search with running index j; it is carried from one subtable to the next.
  function Search(ts: seq<SubTable>, gid: nat, j: int): Answer {
    if ts == [] then Glyph(0)
    else match ts[0].cover
      case Glyphs(glyphs) =>
        (match IndexOf(glyphs, gid)
         case Some(i) => Nth(ts[0], gid, i)
         case None => Search(ts[1..], gid, j))
      case Ranges(ranges) =>
        (match RangeIndex(ranges, gid, j)
         case Some(n) => Nth(ts[0], gid, n)
         case None => Search(ts[1..], gid, j + Widths(ranges)))
      case UnknownCover => Search(ts[1..], gid, j)
  }

  /** ft2gsub_get_gid */
  method Ft2GsubGetGid(lookup: seq<SubTable>, gid: nat) returns (answer: Answer)
    ensures answer == Search(lookup, gid, 0)
  {
    var j := 0;
    var k := 0;
    while k < |lookup|
      invariant 0 <= k <= |lookup|
      invariant Search(lookup, gid, 0) == Search(lookup[k..], gid, j)
    {
      var t := lookup[k];
      assert lookup[k..][0] == t && lookup[k..][1..] == lookup[k + 1..];
      match t.cover {
        case Glyphs(glyphs) =>
          var i := SearchGlyphs(glyphs, gid);
          if i.Some? {
            return Nth(t, gid, i.value);
          }
        case Ranges(ranges) =>
          var n, passed := SearchRanges(ranges, gid, j);
          if n.Some? {
            return Nth(t, gid, n.value);
          }
          j := passed;
        case UnknownCover =>
      }
      k := k + 1;
    }
    answer := Glyph(0);
  }

  // Lines 485-490.
  method SearchGlyphs(glyphs: seq<nat>, gid: nat) returns (found: Option<int>)
    ensures found == IndexOf(glyphs, gid)
  {
    var i := 0;
    while i < |glyphs|
      invariant 0 <= i <= |glyphs|
      invariant forall m :: 0 <= m < i ==> glyphs[m] != gid
    {
      if glyphs[i] == gid {
        return Some(i);
      }
      i := i + 1;
    }
    found := None;
  }

  // Lines 492-498: the index, if a range covers the glyph, and the running index otherwise.
  method SearchRanges(ranges: seq<Range>, gid: nat, j0: int) returns (found: Option<int>, j: int)
    ensures found == RangeIndex(ranges, gid, j0)
    ensures found.None? ==> j == j0 + Widths(ranges)
  {
    j := j0;
    var i := 0;
    assert ranges[0..] == ranges;
    while i < |ranges|
      invariant 0 <= i <= |ranges|
      invariant j + Widths(ranges[i..]) == j0 + Widths(ranges)
      invariant RangeIndex(ranges, gid, j0) == RangeIndex(ranges[i..], gid, j)
    {
      var r := ranges[i];
      if r.start <= gid && gid <= r.end {
        return Some(gid - r.start + j), j;
      }
      assert ranges[i..][1..] == ranges[i + 1..];
      j := j + (r.end - r.start + 1);
      i := i + 1;
    }
    found := None;
  }

  // ---------------------------------------------------------------- scanning a lookup

  // The bytes from the start of the table on.
  type Memory = nat -> nat

  function Byte2(m: Memory, at: nat): nat {
    m(at) * 256 + m(at + 1)
  }

  function Words(m: Memory, at: nat, count: nat): seq<nat> {
    seq(count, k requires k >= 0 => Byte2(m, at + 2 * k))
  }

  function ScanCoverage(m: Memory, top: nat): Cover {
    var count := Byte2(m, top + 2);
    match Byte2(m, top)
    case 1 => Glyphs(Words(m, top + 4, count))
    case 2 => Ranges(seq(count, k requires k >= 0 => Range(Byte2(m, top + 4 + 6 * k), Byte2(m, top + 6 + 6 * k))))
    case _ => UnknownCover
  }

  function ScanSubTable(m: Memory, top: nat): SubTable {
    var subst :=
      match Byte2(m, top)
      case 1 => Delta(Byte2(m, top + 4))
      case 2 => List(Words(m, top + 6, Byte2(m, top + 4)))
      case _ => UnknownSubst;
    SubTable(ScanCoverage(m, top + Byte2(m, top + 2)), subst)
  }

  // A slot that was only cleared.
  const BLANK: SubTable := SubTable(UnknownCover, UnknownSubst)

  /** scan_Lookup clears a new array of slots, reads the first subtable offset once and scans
      that subtable every time; a slot counts only if its coverage format is known. `counted`
      is the number of slots an earlier scan of the same index has counted; it goes on from
      there, while the array is new. `leaves` is a write behind that array. */
  method ScanLookup(m: Memory, top: nat, counted: nat) returns (slots: seq<SubTable>, count: nat, leaves: bool)
    ensures var t := ScanSubTable(m, top + Byte2(m, top + 6));
            var n := Byte2(m, top + 4);
            && (leaves <==> ScanLeaves(t, n, counted))
            && (!leaves ==>
                  && |slots| == n && count == (if t.cover.UnknownCover? then counted else counted + n)
                  && forall k :: 0 <= k < n ==>
                       slots[k] == if k == counted || (k > counted && !t.cover.UnknownCover?) then t else BLANK)
  {
    var subTableCount := Byte2(m, top + 4);
    var subTable := Byte2(m, top + 6);
    ghost var t0 := ScanSubTable(m, top + subTable);
    slots := seq(subTableCount, _ => BLANK);
    count := counted;
    var i := 0;
    while i < subTableCount
      invariant 0 <= i <= subTableCount == |slots|
      invariant count == if t0.cover.UnknownCover? then counted else counted + i
      invariant i > 0 ==> counted < |slots| && count <= |slots|
      invariant forall k :: 0 <= k < |slots| ==>
                  slots[k] == if i > 0 && (k == counted || (counted < k < count)) then t0 else BLANK
    {
      var t := ScanSubTable(m, top + subTable);
      if count >= |slots| {
        return slots, count, true;
      }
      slots := slots[count := t];
      if !t.cover.UnknownCover? {
        count := count + 1;
      }
      i := i + 1;
    }
    leaves := false;
  }

  // A scan leaves its array when it counts anything after an earlier scan has, and when it
  // counts nothing but has fewer slots than were counted.
  predicate ScanLeaves(t: SubTable, n: nat, counted: nat) {
    n > 0 && if t.cover.UnknownCover? then counted >= n else counted > 0
  }

  /** A second scan of an index, after one that counted its slots, leaves the array unless it
      has no slots at all, or more than the first and an unknown coverage format. */
  lemma SecondScanLeavesIff(first: SubTable, n: nat, second: SubTable, k: nat)
    requires !first.cover.UnknownCover? && !ScanLeaves(first, n, 0) && n > 0
    ensures ScanLeaves(second, k, n) <==> k > 0 && (!second.cover.UnknownCover? || k <= n)
  {}

  // Whether a subtable has an answer for the glyph, whatever the running index.
  predicate HasGlyph(t: SubTable, gid: nat) {
    match t.cover
    case Glyphs(glyphs) => gid in glyphs
    case Ranges(ranges) => gid in Expand(ranges)
    case UnknownCover => false
  }

  lemma {:induction false} SearchMisses(ts: seq<SubTable>, gid: nat, j: int)
    requires forall t :: t in ts ==> !HasGlyph(t, gid)
    ensures Search(ts, gid, j) == Glyph(0)
  {
    if ts != [] {
      assert ts[0] in ts && !HasGlyph(ts[0], gid);
      match ts[0].cover {
        case Glyphs(_) => SearchMisses(ts[1..], gid, j);
        case Ranges(ranges) =>
          RangeIndexVersusList(ranges, gid, j);
          SearchMisses(ts[1..], gid, j + Widths(ranges));
        case UnknownCover => SearchMisses(ts[1..], gid, j);
      }
    }
  }

  /** In a scanned lookup all subtables are copies of the first, so the running index that is
      never reset does no harm: the search is the search of the first subtable alone. */
  lemma ScannedSearchIsFirst(lookup: seq<SubTable>, gid: nat)
    requires lookup != [] && forall k :: 0 <= k < |lookup| ==> lookup[k] == lookup[0]
    ensures Search(lookup, gid, 0) == Search(lookup[..1], gid, 0)
  {
    var t := lookup[0];
    assert lookup[..1] == [t];
    if t.cover.Ranges? {
      RangeIndexVersusList(t.cover.ranges, gid, 0);
    }
    if !HasGlyph(t, gid) {
      SearchMisses(lookup, gid, 0);
      SearchMisses([t], gid, 0);
    }
  }

  // The widths of the range coverages in front of the first subtable that has the glyph.
  function Carried(ts: seq<SubTable>, gid: nat): int {
    if ts == [] || HasGlyph(ts[0], gid) then 0
    else (if ts[0].cover.Ranges? then Widths(ts[0].cover.ranges) else 0) + Carried(ts[1..], gid)
  }

  function FirstWith(ts: seq<SubTable>, gid: nat): Option<SubTable> {
    if ts == [] then None else if HasGlyph(ts[0], gid) then Some(ts[0]) else FirstWith(ts[1..], gid)
  }

  /** In a lookup with different subtables the index of a range coverage is off by exactly the
      widths carried over from the subtables before it. */
  lemma {:induction false} SearchCarries(ts: seq<SubTable>, gid: nat, j: int)
    ensures match FirstWith(ts, gid)
            case None => Search(ts, gid, j) == Glyph(0)
            case Some(t) =>
              match t.cover
              case Glyphs(glyphs) =>
                IndexOf(glyphs, gid).Some? && Search(ts, gid, j) == Nth(t, gid, IndexOf(glyphs, gid).value)
              case Ranges(ranges) =>
                && RangeIndex(ranges, gid, 0).Some?
                && Search(ts, gid, j) == Nth(t, gid, RangeIndex(ranges, gid, 0).value + j + Carried(ts, gid))
              case UnknownCover => false
  {
    hide IndexOf, RangeIndex, Expand, Widths, Nth;
    if ts != [] {
      var rest := ts[1..];
      match ts[0].cover {
        case Glyphs(_) => SearchCarries(rest, gid, j);
        case Ranges(ranges) =>
          RangeIndexVersusList(ranges, gid, j);
          RangeIndexVersusList(ranges, gid, 0);
          SearchCarries(rest, gid, j + Widths(ranges));
        case UnknownCover => SearchCarries(rest, gid, j);
      }
    }
  }

  // The index into the substitutes that the search from running index j arrives at.
  function Arrives(ts: seq<SubTable>, gid: nat, j: int): Option<int> {
    match FirstWith(ts, gid)
    case None => None
    case Some(t) =>
      match t.cover
      case Glyphs(glyphs) => IndexOf(glyphs, gid)
      case Ranges(ranges) =>
        (match RangeIndex(ranges, gid, 0) case None => None case Some(n) => Some(n + j + Carried(ts, gid)))
      case UnknownCover => None
  }

  /** The glyph plus the delta, or the substitute at the index, of the first subtable that has
      the glyph; no glyph when none has it. */
  lemma SearchAnswers(ts: seq<SubTable>, gid: nat, j: int)
    ensures match FirstWith(ts, gid)
            case None => Search(ts, gid, j) == Glyph(0)
            case Some(t) =>
              && Arrives(ts, gid, j).Some?
              && match t.subst
                 case Delta(delta) => Search(ts, gid, j) == Glyph(gid + delta)
                 case List(substitute) =>
                   (var n := Arrives(ts, gid, j).value;
                    0 <= n < |substitute| ==> Search(ts, gid, j) == Glyph(substitute[n]))
                 case UnknownSubst => Search(ts, gid, j) == Glyph(0)
  {
    hide IndexOf, RangeIndex, Search, FirstWith, Carried;
    SearchCarries(ts, gid, j);
  }

  /** The search reads outside the substitutes exactly when the first subtable that has the glyph
      lists its substitutes and has none at the index carried to it. */
  lemma OutsideArrayIff(ts: seq<SubTable>, gid: nat, j: int)
    ensures Search(ts, gid, j) == OutsideArray <==>
            && FirstWith(ts, gid).Some? && Arrives(ts, gid, j).Some?
            && var t, n := FirstWith(ts, gid).value, Arrives(ts, gid, j).value;
               t.subst.List? && !(0 <= n < |t.subst.substitute|)
  {
    hide IndexOf, RangeIndex, Search, FirstWith, Carried;
    SearchCarries(ts, gid, j);
  }
}
