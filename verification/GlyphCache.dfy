/**
  Reference-counted glyphs (ftref.c) and the glyph cache of one font size (fteng.cpp, fteng.h).

  `recs` is the heap of FT_Referenced_GlyphRec: an address in it is allocated. `held` maps every
  variable that holds a handle (a caller's variable, or one of the two slots of a cache entry)
  to the address in it; a variable that is NULL is not in the map.
 */
module GlyphCache {
  import opened Common

  type Ptr = nat

  // `none` is FT_GLYPH_FORMAT_NONE.
  datatype Rec = Rec(refcount: int, none: bool)

  datatype Cell = Local(i: nat) | Slot(key: int, mono: bool)

  // FreeTypeCharData without its two glyph slots.
  datatype CharData = CharData(glyphindex: nat, width: int, gdiWidth: int, aaMode: int)

  datatype State = State(recs: map<Ptr, Rec>, held: map<Cell, Ptr>, cache: map<int, CharData>, addCount: nat)

  const EMPTY: State := State(map[], map[], map[], 0)

  // ---------------------------------------------------------------- handles

  ghost function Holders(s: State, p: Ptr): set<Cell> {
    set c | c in s.held && s.held[c] == p
  }

  ghost predicate RefsOk(s: State) {
    && 0 !in s.recs
    && (forall c :: c in s.held ==> s.held[c] in s.recs)
    && (forall p :: p in s.recs ==> s.recs[p].refcount == |Holders(s, p)| > 0)
  }

  // New_FT_Ref_Glyph, into a variable.
  function New(s: State, c: Cell, p: Ptr, none: bool): State {
    s.(recs := s.recs[p := Rec(1, none)], held := s.held[c := p])
  }

  // The error FT_Glyph_Ref_Copy reports.
  function CopyError(r: Rec): int {
    if r.refcount < 0 then 1 else if r.none then 2 else 0
  }

  // FT_Glyph_Ref_Copy
  function Copy(s: State, source: Ptr, target: Cell): State
    requires source in s.recs
  {
    var r := s.recs[source];
    if CopyError(r) != 0 then s
    else s.(recs := s.recs[source := r.(refcount := r.refcount + 1)], held := s.held[target := source])
  }

  // FT_Done_Ref_Glyph
  function Done(s: State, c: Cell): State
    requires c in s.held && s.held[c] in s.recs
  {
    var p := s.held[c];
    var r := s.recs[p];
    s.(recs := if r.refcount - 1 == 0 then s.recs - {p} else s.recs[p := r.(refcount := r.refcount - 1)],
       held := s.held - {c})
  }

  lemma NewKeeps(s: State, c: Cell, p: Ptr, none: bool)
    requires RefsOk(s) && p !in s.recs && p != 0 && c !in s.held
    ensures RefsOk(New(s, c, p, none))
  {
    var t := New(s, c, p, none);
    assert Holders(t, p) == {c};
    forall q | q in s.recs
      ensures Holders(t, q) == Holders(s, q)
    {}
  }

  lemma CopyKeeps(s: State, source: Ptr, target: Cell)
    requires RefsOk(s) && source in s.recs && target !in s.held
    ensures RefsOk(Copy(s, source, target))
    ensures CopyError(s.recs[source]) == if s.recs[source].none then 2 else 0
  {
    var t := Copy(s, source, target);
    if !s.recs[source].none {
      assert Holders(t, source) == Holders(s, source) + {target};
      forall q | q in s.recs && q != source
        ensures Holders(t, q) == Holders(s, q)
      {}
    }
  }

  /** A record is freed exactly when the last handle to it is given up. */
  lemma DoneKeeps(s: State, c: Cell)
    requires RefsOk(s) && c in s.held
    ensures var t := Done(s, c);
            && RefsOk(t)
            && forall p :: p in t.recs <==> exists d :: d in s.held && d != c && s.held[d] == p
  {
    var p := s.held[c];
    var t := Done(s, c);
    assert Holders(s, p) == Holders(t, p) + {c};
    forall q | q != p
      ensures Holders(t, q) == Holders(s, q)
    {}
    forall q
      ensures q in t.recs <==> exists d :: d in s.held && d != c && s.held[d] == q
    {
      if q in t.recs {
        assert |Holders(t, q)| > 0;
        var d :| d in Holders(t, q);
        assert d in s.held && d != c && s.held[d] == q;
      } else if q == p {
        assert Holders(t, p) == {};
        assert forall d :: d in s.held && d != c && s.held[d] == p ==> d in Holders(t, p);
      }
    }
  }

  // ---------------------------------------------------------------- SetGlyph

  function DoneIfHeld(s: State, c: Cell): State
    requires c in s.held ==> s.held[c] in s.recs
  {
    if c in s.held then Done(s, c) else s
  }

  // FreeTypeCharData::SetGlyph reads the source record after it has released the slot.
  ghost predicate SetGlyphSafe(s: State, slot: Cell, source: Ptr)
    requires RefsOk(s)
  {
    source in DoneIfHeld(s, slot).recs
  }

  function SetGlyph(s: State, slot: Cell, source: Ptr): State
    requires slot in s.held ==> s.held[slot] in s.recs
  {
    var t := DoneIfHeld(s, slot);
    if source in t.recs then Copy(t, source, slot) else t
  }

  /** Storing a glyph is safe exactly when some other variable holds it, be it the glyph that is
      stored already or not. */
  lemma SetGlyphSafeIff(s: State, slot: Cell, source: Ptr)
    requires RefsOk(s)
    ensures SetGlyphSafe(s, slot, source) <==> exists d :: d in s.held && d != slot && s.held[d] == source
  {
    if slot in s.held {
      DoneKeeps(s, slot);
    } else if source in s.recs {
      assert |Holders(s, source)| > 0;
      var d :| d in Holders(s, source);
    }
  }

  // Only the slot may hold something else, and then it holds the source.
  ghost predicate GlyphSet(s: State, t: State, slot: Cell, source: Ptr) {
    && t.cache == s.cache && t.addCount == s.addCount
    && t.held - {slot} == s.held - {slot}
    && (slot in t.held ==> t.held[slot] == source)
  }

  lemma SetGlyphKeeps(s: State, slot: Cell, source: Ptr, own: Cell)
    requires RefsOk(s) && own in s.held && s.held[own] == source && own != slot
    ensures var t := SetGlyph(s, slot, source);
            && RefsOk(t) && GlyphSet(s, t, slot, source)
            && (slot in t.held <==> !s.recs[source].none)
  {
    hide Holders, Copy, Done;
    SetGlyphSafeIff(s, slot, source);
    var u := DoneIfHeld(s, slot);
    DoneFrame(s, slot);
    if slot in s.held {
      DoneKeeps(s, slot);
    }
    CopyKeeps(u, source, slot);
    CopyFrame(u, source, slot);
  }

  lemma DoneFrame(s: State, c: Cell)
    requires c in s.held ==> s.held[c] in s.recs
    ensures var t := DoneIfHeld(s, c);
            && t.held == s.held - {c} && t.cache == s.cache && t.addCount == s.addCount
            && forall p :: p in t.recs ==> p in s.recs && t.recs[p].none == s.recs[p].none
  {}

  lemma CopyFrame(s: State, source: Ptr, c: Cell)
    requires source in s.recs && s.recs[source].refcount >= 0
    ensures var t := Copy(s, source, c);
            && t.held == (if s.recs[source].none then s.held else s.held[c := source])
            && t.cache == s.cache && t.addCount == s.addCount
  {}

  // ---------------------------------------------------------------- eviction

  // FREETYPE_REQCOUNTMAX, FREETYPE_GC_COUNTER
  const REQ_COUNT_MAX: nat := 2048
  const GC_COUNTER: nat := 1024

  ghost predicate SlotsOk(s: State) {
    forall k, m :: Slot(k, m) in s.held ==> k in s.cache
  }

  // Variables outside the evicted entries keep their handles; nothing else gets one.
  ghost predicate Untouched(s: State, t: State) {
    && (forall c :: c in t.held ==> c in s.held && t.held[c] == s.held[c])
    && (forall c :: c in s.held && (c.Local? || c.key in t.cache) ==> c in t.held)
    && (forall k :: k in t.cache ==> k in s.cache && t.cache[k] == s.cache[k])
    && (forall p :: p in t.recs ==> p in s.recs && t.recs[p].none == s.recs[p].none)
  }

  // The destructor of FreeTypeCharData, and the entry leaves the map.
  ghost function Evict(s: State, key: int): (t: State)
    requires RefsOk(s)
    ensures RefsOk(t)
  {
    var t := Drop(Drop(s, Slot(key, false)), Slot(key, true));
    t.(cache := t.cache - {key})
  }

  ghost function Drop(s: State, c: Cell): (t: State)
    requires RefsOk(s)
    ensures RefsOk(t)
    ensures t.held == s.held - {c} && t.cache == s.cache && t.addCount == s.addCount
    ensures forall p :: p in t.recs ==> p in s.recs && t.recs[p].none == s.recs[p].none
  {
    DoneFrame(s, c);
    if c in s.held then DoneKeeps(s, c); DoneIfHeld(s, c) else s
  }

  lemma EvictFrame(s: State, key: int)
    requires RefsOk(s) && SlotsOk(s)
    ensures var t := Evict(s, key);
            SlotsOk(t) && Untouched(s, t) && t.cache.Keys == s.cache.Keys - {key} && t.addCount == s.addCount
  {}

  // The first key of the map.
  ghost function First(keys: set<int>): (k: int)
    requires keys != {}
    ensures k in keys && forall j :: j in keys ==> k <= j
  {
    NonEmpty(keys);
    var x :| x in keys;
    if keys == {x} then x
    else
      NotSingle(keys, x);
      var y := First(keys - {x});
      assert forall j :: j in keys ==> j == x || j in keys - {x};
      if x < y then x else y
  }

  lemma NonEmpty(keys: set<int>)
    requires keys != {}
    ensures exists x :: x in keys
  {
    if forall x :: x !in keys {
      NoElements(keys);
    }
  }

  lemma NoElements(keys: set<int>)
    requires forall x :: x !in keys
    ensures keys == {}
  {
    var none: set<int> := {};
    assert forall x :: x in keys <==> x in none;
  }

  lemma NotSingle(keys: set<int>, x: int)
    requires x in keys && keys != {x}
    ensures keys - {x} != {}
  {
    assert keys - {x} + {x} == keys;
  }

  // One set holds the largest elements of the other.
  ghost predicate Largest(kept: set<int>, keys: set<int>) {
    kept <= keys && forall a, b :: a in kept && b in keys && b !in kept ==> b < a
  }

  lemma LargestOfRest(kept: set<int>, keys: set<int>)
    requires keys != {} && Largest(kept, keys - {First(keys)})
    ensures Largest(kept, keys)
  {}

  // CompactMap: erases from the front.
  ghost function EvictFirst(s: State, n: nat): (t: State)
    requires RefsOk(s) && n <= |s.cache|
    ensures RefsOk(t)
    decreases n
  {
    if n == 0 then s else EvictFirst(EvictOne(s), n - 1)
  }

  ghost function EvictOne(s: State): (t: State)
    requires RefsOk(s) && |s.cache| > 0
    ensures RefsOk(t) && |t.cache| == |s.cache| - 1
  {
    assert s.cache.Keys != {};
    var k := First(s.cache.Keys);
    assert (s.cache - {k}).Keys == s.cache.Keys - {k};
    Evict(s, k)
  }

  /** What eviction keeps is exactly the largest keys, with all they hold. */
  lemma {:induction false} EvictFirstKeepsLargest(s: State, n: nat)
    requires RefsOk(s) && SlotsOk(s) && n <= |s.cache|
    ensures var t := EvictFirst(s, n);
            && SlotsOk(t) && Untouched(s, t) && t.addCount == s.addCount
            && |t.cache| == |s.cache| - n
            && Largest(t.cache.Keys, s.cache.Keys)
    decreases n
  {
    hide RefsOk, SlotsOk, Evict, Largest, Untouched, First;
    if n == 0 {
      UntouchedItself(s);
    } else {
      var u := EvictOne(s);
      EvictFrame(s, First(s.cache.Keys));
      EvictFirstKeepsLargest(u, n - 1);
      UntouchedTwice(s, u, EvictFirst(u, n - 1));
      LargestOfRest(EvictFirst(u, n - 1).cache.Keys, s.cache.Keys);
    }
  }

  lemma UntouchedItself(s: State)
    ensures Untouched(s, s) && Largest(s.cache.Keys, s.cache.Keys)
  {}

  lemma UntouchedTwice(s: State, t: State, u: State)
    requires Untouched(s, t) && Untouched(t, u)
    ensures Untouched(s, u)
  {}

  // FreeTypeFontCache::Compact
  ghost function Compact(s: State): (t: State)
    requires RefsOk(s)
    ensures RefsOk(t)
  {
    var r := s.(addCount := 0);
    assert forall p :: Holders(r, p) == Holders(s, p);
    EvictFirst(r, if |s.cache| > GC_COUNTER then |s.cache| - GC_COUNTER else 0)
  }

  /** A compaction leaves the 1024 largest keys, or all when there are no more. */
  lemma CompactKeepsLargest(s: State)
    requires RefsOk(s) && SlotsOk(s)
    ensures var t := Compact(s);
            && SlotsOk(t) && Untouched(s, t) && t.addCount == 0
            && |t.cache| == (if |s.cache| > GC_COUNTER then GC_COUNTER else |s.cache|)
            && Largest(t.cache.Keys, s.cache.Keys)
  {
    hide RefsOk, SlotsOk, Untouched, Largest;
    var r := s.(addCount := 0);
    RefsSame(s, r);
    CountOnly(s, r);
    EvictFirstKeepsLargest(r, if |s.cache| > GC_COUNTER then |s.cache| - GC_COUNTER else 0);
  }

  // FreeTypeFontCache::Erase: every entry goes, front to back; the counter stays.
  ghost function EraseAll(s: State): (t: State)
    requires RefsOk(s)
    ensures RefsOk(t)
  {
    EvictFirst(s, |s.cache|)
  }

  /** Erasing empties the cache and its slots, and leaves every other variable its handle. */
  lemma EraseAllEmpties(s: State)
    requires RefsOk(s) && SlotsOk(s)
    ensures var t := EraseAll(s);
            && t.cache == map[] && t.addCount == s.addCount && SlotsOk(t)
            && (forall c :: c in t.held <==> c in s.held && c.Local?)
            && (forall c :: c in t.held ==> t.held[c] == s.held[c])
  {
    hide RefsOk, SlotsOk, Untouched, Largest, EvictFirst;
    EvictFirstKeepsLargest(s, |s.cache|);
    var t := EraseAll(s);
    NoEntries(t.cache);
    OnlyVariables(s, t);
  }

  lemma OnlyVariables(s: State, t: State)
    requires Untouched(s, t) && SlotsOk(t) && t.cache == map[]
    ensures forall c :: c in t.held <==> c in s.held && c.Local?
    ensures forall c :: c in t.held ==> t.held[c] == s.held[c]
  {
    forall c | c in t.held
      ensures c.Local?
    {
      CellCases(c);
    }
  }

  lemma CellCases(c: Cell)
    ensures c.Local? || c == Slot(c.key, c.mono)
  {}

  lemma SomeEntry(cache: map<int, CharData>)
    ensures |cache.Keys| == |cache|
    ensures cache.Keys != {} <==> |cache| > 0
  {
    assert |cache.Keys| == |cache|;
    if cache.Keys == {} {
      assert |cache.Keys| == 0;
    }
  }

  lemma NoEntries(cache: map<int, CharData>)
    requires |cache| == 0
    ensures cache == map[]
  {
    assert |cache.Keys| == 0;
  }

  // ---------------------------------------------------------------- adding

  // AddIncrement, and Compact when the count is reached.
  ghost function Counted(s: State): (t: State)
    requires RefsOk(s)
    ensures RefsOk(t)
  {
    var r := s.(addCount := s.addCount + 1);
    assert forall p :: Holders(r, p) == Holders(s, p);
    if s.addCount + 1 >= REQ_COUNT_MAX then Compact(r) else r
  }

  // The entry the glyph goes to: an old one gets new widths only.
  function EntryOf(cache: map<int, CharData>, key: int, d: CharData): CharData {
    if key in cache then cache[key].(width := d.width, gdiWidth := d.gdiWidth) else d
  }

  ghost function WithEntry(s: State, key: int, d: CharData): (t: State)
    requires RefsOk(s)
    ensures RefsOk(t)
  {
    var t := s.(cache := s.cache[key := EntryOf(s.cache, key, d)]);
    assert forall p :: Holders(t, p) == Holders(s, p);
    t
  }

  // AddCharData and AddGlyphData, which differ in the key.
  ghost function Add(s: State, key: int, d: CharData, source: Ptr, mono: bool): State
    requires RefsOk(s)
  {
    if d.glyphindex >= 0x1_0000 then s
    else SetGlyph(WithEntry(Counted(s), key, d), Slot(key, mono), source)
  }

  // All a caller may rely on after every call: at most 1025 entries more than counted adds.
  ghost predicate Valid(s: State) {
    && RefsOk(s) && SlotsOk(s)
    && s.addCount < REQ_COUNT_MAX
    && |s.cache| <= GC_COUNTER + 1 + s.addCount
  }

  /** No run holds more than 3072 entries. */
  lemma NeverMoreThan3072(s: State)
    requires Valid(s)
    ensures |s.cache| <= 3072
  {}

  lemma CountedKeeps(s: State)
    requires Valid(s)
    ensures var t := Counted(s);
            && SlotsOk(t) && Untouched(s, t)
            && t.addCount < REQ_COUNT_MAX && |t.cache| <= GC_COUNTER + t.addCount
            && |t.cache| == (if s.addCount + 1 < REQ_COUNT_MAX || |s.cache| <= GC_COUNTER then |s.cache| else GC_COUNTER)
            && t.addCount == if s.addCount + 1 < REQ_COUNT_MAX then s.addCount + 1 else 0
  {
    hide Holders, RefsOk, SlotsOk, Untouched;
    var r := s.(addCount := s.addCount + 1);
    CountOnly(s, r);
    RefsSame(s, r);
    if s.addCount + 1 >= REQ_COUNT_MAX {
      CompactKeepsLargest(r);
    }
  }

  lemma CountOnly(s: State, t: State)
    requires t == s.(addCount := t.addCount)
    ensures Untouched(s, t) && (forall u :: Untouched(t, u) <==> Untouched(s, u)) && (SlotsOk(s) <==> SlotsOk(t))
  {}

  // Neither the count nor the entries have a part in the handles.
  lemma RefsSame(s: State, t: State)
    requires t.recs == s.recs && t.held == s.held
    ensures RefsOk(s) <==> RefsOk(t)
  {
    assert forall p :: Holders(t, p) == Holders(s, p);
  }

  lemma WithEntryFrame(s: State, key: int, d: CharData)
    requires RefsOk(s) && SlotsOk(s)
    ensures var t := WithEntry(s, key, d);
            && SlotsOk(t) && EntrySet(s, t, key, d)
            && |t.cache| == (if key in s.cache then |s.cache| else |s.cache| + 1)
  {
    hide RefsOk, Holders;
    OneEntry(s.cache, key, EntryOf(s.cache, key, d));
  }

  lemma OneEntry(cache: map<int, CharData>, key: int, e: CharData)
    ensures |cache[key := e]| == if key in cache then |cache| else |cache| + 1
  {
    var t := cache[key := e];
    assert t.Keys == cache.Keys + {key};
    assert |t.Keys| == |t| && |cache.Keys| == |cache|;
  }

  ghost predicate EntrySet(s: State, t: State, key: int, d: CharData) {
    && t.held == s.held && t.recs == s.recs && t.addCount == s.addCount
    && t.cache == s.cache[key := EntryOf(s.cache, key, d)]
  }

  // What an add does to the state after its counting: the one entry, and in its slot the
  // glyph or nothing; every other entry, slot and variable is as it was.
  ghost predicate Added(u: State, t: State, key: int, d: CharData, source: Ptr, mono: bool) {
    && t.addCount == u.addCount
    && t.cache == u.cache[key := EntryOf(u.cache, key, d)]
    && t.held - {Slot(key, mono)} == u.held - {Slot(key, mono)}
    && (Slot(key, mono) in t.held ==> t.held[Slot(key, mono)] == source)
  }

  /** An add counts, evicting when it is time, and then changes its one entry and its one slot;
      the slot holds the glyph unless that has no format. */
  lemma AddKeeps(s: State, key: int, d: CharData, holder: nat, mono: bool)
    requires Valid(s) && Local(holder) in s.held && d.glyphindex < 0x1_0000
    ensures var source := s.held[Local(holder)];
            var t := Add(s, key, d, source, mono);
            && Valid(t)
            && Untouched(s, Counted(s)) && Added(Counted(s), t, key, d, source, mono)
            && (Slot(key, mono) in t.held <==> !s.recs[source].none)
            && (forall i :: Local(i) in t.held <==> Local(i) in s.held)
            && |t.cache| == |Counted(s).cache| + if key in Counted(s).cache then 0 else 1
  {
    hide Holders, SetGlyph, RefsOk, Counted, WithEntry, Untouched, EntrySet, GlyphSet, Added, SlotsOk;
    var source := s.held[Local(holder)];
    var u := Counted(s);
    CountedKeeps(s);
    var v := WithEntry(u, key, d);
    WithEntryFrame(u, key, d);
    HeldAlive(v);
    UpToSetGlyph(s, u, v, key, d, holder);
    var t := SetGlyph(v, Slot(key, mono), source);
    SetGlyphKeeps(v, Slot(key, mono), source, Local(holder));
    ThenAdded(u, v, t, key, d, source, mono);
    VariablesKept(s, u, t, key, d, source, mono);
  }

  lemma HeldAlive(s: State)
    requires RefsOk(s)
    ensures forall c :: c in s.held ==> s.held[c] in s.recs
  {
    hide Holders;
  }

  lemma UpToSetGlyph(s: State, u: State, v: State, key: int, d: CharData, holder: nat)
    requires RefsOk(s) && RefsOk(v) && Local(holder) in s.held
    requires Untouched(s, u) && EntrySet(u, v, key, d)
    ensures Local(holder) in v.held && v.held[Local(holder)] == s.held[Local(holder)]
    ensures var source := s.held[Local(holder)];
            source in s.recs && source in v.recs && v.recs[source].none == s.recs[source].none
  {
    hide Holders;
  }

  lemma ThenAdded(u: State, v: State, t: State, key: int, d: CharData, source: Ptr, mono: bool)
    requires EntrySet(u, v, key, d) && GlyphSet(v, t, Slot(key, mono), source) && SlotsOk(v)
    ensures Added(u, t, key, d, source, mono) && SlotsOk(t)
    ensures t.addCount == u.addCount && |t.cache| == |v.cache|
  {
    OtherSlots(v, t, Slot(key, mono));
  }

  lemma VariablesKept(s: State, u: State, t: State, key: int, d: CharData, source: Ptr, mono: bool)
    requires Untouched(s, u) && Added(u, t, key, d, source, mono)
    ensures forall i :: Local(i) in t.held <==> Local(i) in s.held
  {
    OtherSlots(u, t, Slot(key, mono));
    assert forall i :: Local(i) in s.held ==> Local(i) in u.held by {
      forall i | Local(i) in s.held
        ensures Local(i) in u.held
      {
        assert Local(i).Local?;
      }
    }
  }

  lemma OtherSlots(u: State, t: State, slot: Cell)
    requires t.held - {slot} == u.held - {slot}
    ensures forall c :: c != slot ==> (c in t.held <==> c in u.held) && (c in t.held ==> t.held[c] == u.held[c])
  {
    forall c | c != slot
      ensures (c in t.held <==> c in u.held) && (c in t.held ==> t.held[c] == u.held[c])
    {
      assert c in t.held - {slot} <==> c in u.held - {slot};
      assert c in t.held ==> (t.held - {slot})[c] == (u.held - {slot})[c];
    }
  }

  // ---------------------------------------------------------------- two caches in one map

  function CharKey(wch: nat): int {
    wch
  }

  function GlyphKey(glyphindex: nat): int {
    0 - glyphindex
  }

  /** A character and a glyph share a key exactly when both are 0. */
  lemma KeysMeetIff(wch: nat, glyphindex: nat)
    ensures CharKey(wch) == GlyphKey(glyphindex) <==> wch == 0 && glyphindex == 0
  {}

  /** Keys tell characters apart, and glyphs. */
  lemma KeysInjective(m: nat, n: nat)
    ensures CharKey(m) == CharKey(n) <==> m == n
    ensures GlyphKey(m) == GlyphKey(n) <==> m == n
  {}

  // What was stored last: 0 for a mode that never was.
  datatype Facts = Facts(width: int, gdiWidth: int, colour: Ptr, mono: Ptr)

  // Two maps that forget nothing.
  datatype Ideal = Ideal(chars: map<int, Facts>, glyphs: map<int, Facts>)

  function Stored(m: map<int, Facts>, key: int, d: CharData, glyph: Ptr, mono: bool): map<int, Facts> {
    var f := if key in m then m[key] else Facts(0, 0, 0, 0);
    m[key := if mono then Facts(d.width, d.gdiWidth, f.colour, glyph) else Facts(d.width, d.gdiWidth, glyph, f.mono)]
  }

  predicate Agrees(s: State, k: int, m: map<int, Facts>, key: int)
    requires k in s.cache
  {
    && key in m
    && s.cache[k].width == m[key].width && s.cache[k].gdiWidth == m[key].gdiWidth
    && (Slot(k, false) in s.held ==> s.held[Slot(k, false)] == m[key].colour)
    && (Slot(k, true) in s.held ==> s.held[Slot(k, true)] == m[key].mono)
  }

  // Nonnegative keys are characters, negative ones glyphs.
  ghost predicate Refines(s: State, ideal: Ideal) {
    forall k :: k in s.cache ==> Agrees(s, k, if k >= 0 then ideal.chars else ideal.glyphs, if k >= 0 then k else -k)
  }

  // Nothing in the cache changed.
  ghost predicate SameCache(s: State, t: State) {
    && t.cache == s.cache && t.addCount == s.addCount
    && forall k, m :: (Slot(k, m) in t.held <==> Slot(k, m) in s.held)
                      && (Slot(k, m) in t.held ==> t.held[Slot(k, m)] == s.held[Slot(k, m)])
  }

  ghost predicate OneStored(before: Ideal, after: Ideal, key: int, d: CharData, glyph: Ptr, mono: bool) {
    if key >= 0 then after == before.(chars := Stored(before.chars, key, d, glyph, mono))
    else after == before.(glyphs := Stored(before.glyphs, -key, d, glyph, mono))
  }

  lemma AddRefines(s: State, u: State, t: State, key: int, d: CharData, source: Ptr, mono: bool, i: Ideal, j: Ideal, none: bool)
    requires Untouched(s, u) && Added(u, t, key, d, source, mono) && Refines(s, i) && SlotsOk(u)
    requires Slot(key, mono) in t.held <==> !none
    requires OneStored(i, j, key, d, if none then 0 else source, mono)
    ensures Refines(t, j)
  {
    hide Untouched, Refines, Added, OneStored;
    AddedKeys(u, t, key, d, source, mono);
    forall k | k in t.cache
      ensures AgreesIn(t, k, j)
    {
      if k == key {
        StoredAgrees(s, u, t, key, d, source, mono, i, j, none);
      } else {
        OthersAgree(s, u, t, key, d, source, mono, i, j, if none then 0 else source, k);
      }
    }
    AllAgree(t, j);
  }

  // The entry of key k against the cache it belongs to.
  ghost predicate AgreesIn(s: State, k: int, ideal: Ideal)
    requires k in s.cache
  {
    Agrees(s, k, if k >= 0 then ideal.chars else ideal.glyphs, if k >= 0 then k else -k)
  }

  lemma AllAgree(s: State, ideal: Ideal)
    ensures Refines(s, ideal) <==> forall k :: k in s.cache ==> AgreesIn(s, k, ideal)
  {
    hide Agrees;
  }

  lemma AddedKeys(u: State, t: State, key: int, d: CharData, source: Ptr, mono: bool)
    requires Added(u, t, key, d, source, mono)
    ensures forall k :: k in t.cache <==> k == key || k in u.cache
  {}

  lemma StoredAgrees(s: State, u: State, t: State, key: int, d: CharData, source: Ptr, mono: bool, i: Ideal, j: Ideal, none: bool)
    requires Untouched(s, u) && Added(u, t, key, d, source, mono) && Refines(s, i) && SlotsOk(u)
    requires Slot(key, mono) in t.held <==> !none
    requires OneStored(i, j, key, d, if none then 0 else source, mono)
    ensures key in t.cache && AgreesIn(t, key, j)
  {
    OtherSlots(u, t, Slot(key, mono));
    if key in u.cache {
      assert AgreesIn(s, key, i);
    }
  }

  lemma OthersAgree(s: State, u: State, t: State, key: int, d: CharData, source: Ptr, mono: bool, i: Ideal, j: Ideal, glyph: Ptr, k: int)
    requires Untouched(s, u) && Added(u, t, key, d, source, mono) && Refines(s, i)
    requires OneStored(i, j, key, d, glyph, mono)
    requires k in t.cache && k != key
    ensures AgreesIn(t, k, j)
  {
    OtherSlots(u, t, Slot(key, mono));
    assert k in s.cache && AgreesIn(s, k, i);
  }

  // ---------------------------------------------------------------- lookups

  // A lookup that finds an entry copies the glyph in the slot of the mode asked for; NullGlyph
  // is an empty slot, which FT_Glyph_Ref_Copy reads through.
  datatype Lookup = Miss | NullGlyph | Hit(glyph: Ptr, width: int, gdiWidth: int)

  function Find(s: State, key: int, mono: bool): Lookup {
    if key !in s.cache then Miss
    else if Slot(key, mono) !in s.held then NullGlyph
    else Hit(s.held[Slot(key, mono)], s.cache[key].width, s.cache[key].gdiWidth)
  }

  function FindChar(s: State, wch: nat, mono: bool): Lookup {
    Find(s, CharKey(wch), mono)
  }

  function FindGlyphIndex(s: State, glyph: nat, mono: bool): Lookup {
    if glyph >= 0x1_0000 then Miss else Find(s, GlyphKey(glyph), mono)
  }

  predicate Last(l: Lookup, m: map<int, Facts>, key: int, mono: bool) {
    match l
    case Miss => true
    case NullGlyph => key in m
    case Hit(glyph, width, gdiWidth) =>
      && key in m
      && glyph == (if mono then m[key].mono else m[key].colour)
      && width == m[key].width && gdiWidth == m[key].gdiWidth
  }

  /** What a lookup gives is what was stored last under that character or that glyph. */
  lemma LookupIsLast(s: State, ideal: Ideal, n: nat, mono: bool)
    requires Refines(s, ideal)
    ensures Last(FindChar(s, n, mono), ideal.chars, n, mono)
    ensures n != 0 ==> Last(FindGlyphIndex(s, n, mono), ideal.glyphs, n, mono)
  {
    assert n in s.cache ==> Agrees(s, n, ideal.chars, n);
    assert n != 0 && GlyphKey(n) in s.cache ==> Agrees(s, GlyphKey(n), ideal.glyphs, n);
  }

  /** Right after an add the lookup of its mode hits, unless the glyph has no format; that of the
      other mode reads through a null slot exactly when that slot was empty before, as it always
      is when the entry is new. */
  lemma LookupAfterAdd(s: State, key: int, d: CharData, holder: nat, mono: bool)
    requires Valid(s) && Local(holder) in s.held && d.glyphindex < 0x1_0000
    ensures var source := s.held[Local(holder)];
            var t := Add(s, key, d, source, mono);
            && source in s.recs
            && Find(t, key, mono) == (if s.recs[source].none then NullGlyph else Hit(source, d.width, d.gdiWidth))
            && (Find(t, key, !mono).NullGlyph? <==> Slot(key, !mono) !in Counted(s).held)
            && (key !in s.cache ==> Find(t, key, !mono).NullGlyph?)
  {
    hide RefsOk;
    var source := s.held[Local(holder)];
    var t := Add(s, key, d, source, mono);
    HeldAlive(s);
    AddKeeps(s, key, d, holder, mono);
    CountedKeeps(s);
    OtherSlots(Counted(s), t, Slot(key, mono));
  }

  /** What was added under a character or a glyph index is what the lookup under it then gives;
      the entry is new with all of the data, or keeps its glyph index and antialiasing mode. */
  lemma FoundAfterAdd(s: State, n: nat, d: CharData, holder: nat, mono: bool)
    requires Valid(s) && Local(holder) in s.held && d.glyphindex < 0x1_0000
    requires s.held[Local(holder)] in s.recs && !s.recs[s.held[Local(holder)]].none
    ensures var source := s.held[Local(holder)];
            var t := Add(s, CharKey(n), d, source, mono);
            && FindChar(t, n, mono) == Hit(source, d.width, d.gdiWidth)
            && n in t.cache
            && (n !in s.cache ==> t.cache[n] == d)
            && (n in s.cache ==> t.cache[n] == d || t.cache[n] == s.cache[n].(width := d.width, gdiWidth := d.gdiWidth))
    ensures n < 0x1_0000 ==>
              var source := s.held[Local(holder)];
              var t := Add(s, GlyphKey(n), d, source, mono);
              FindGlyphIndex(t, n, mono) == Hit(source, d.width, d.gdiWidth)
  {
    hide RefsOk, Added, Valid;
    LookupAfterAdd(s, n, d, holder, mono);
    LookupAfterAdd(s, 0 - n, d, holder, mono);
    EntryAfterAdd(s, n, d, holder, mono);
  }

  lemma EntryAfterAdd(s: State, key: int, d: CharData, holder: nat, mono: bool)
    requires Valid(s) && Local(holder) in s.held && d.glyphindex < 0x1_0000
    ensures var t := Add(s, key, d, s.held[Local(holder)], mono);
            && key in t.cache
            && (key !in s.cache ==> t.cache[key] == d)
            && (key in s.cache ==> t.cache[key] == d || t.cache[key] == s.cache[key].(width := d.width, gdiWidth := d.gdiWidth))
  {
    hide RefsOk;
    AddKeeps(s, key, d, holder, mono);
  }

  // ---------------------------------------------------------------- the history of an entry

  // What the adds so far say about the cache: how many since the last compaction, and for
  // each entry the modes whose last add since the entry was created had a glyph with a format.
  datatype Past = Past(count: nat, modes: map<int, set<bool>>)

  const NO_PAST: Past := Past(0, map[])

  // The keys left after the n smallest are gone.
  ghost function Survivors(keys: set<int>, n: nat): (kept: set<int>)
    requires n <= |keys|
    ensures kept <= keys
    decreases n
  {
    if n == 0 then keys else EmptyHasNone(keys); Survivors(keys - {First(keys)}, n - 1)
  }

  lemma EmptyHasNone(keys: set<int>)
    ensures |keys| > 0 ==> keys != {}
  {}

  ghost function PastCounted(past: Past): Past {
    if past.count + 1 < REQ_COUNT_MAX then past.(count := past.count + 1)
    else
      var keys := past.modes.Keys;
      var kept := Survivors(keys, if |keys| > GC_COUNTER then |keys| - GC_COUNTER else 0);
      Past(0, map k | k in past.modes && k in kept :: past.modes[k])
  }

  ghost function PastAdd(past: Past, key: int, mono: bool, none: bool): Past {
    var p := PastCounted(past);
    var modes := if key in p.modes then p.modes[key] else {};
    p.(modes := p.modes[key := if none then modes - {mono} else modes + {mono}])
  }

  ghost predicate Remembers(s: State, past: Past) {
    && past.count == s.addCount
    && past.modes.Keys == s.cache.Keys
    && forall k, m :: k in s.cache ==> (Slot(k, m) in s.held <==> m in past.modes[k])
  }

  /** A lookup reads through a null slot exactly when the entry exists and its last add of that
      mode since it was created, if any, had no glyph with a format. */
  lemma NullGlyphIff(s: State, past: Past, key: int, mono: bool)
    requires Remembers(s, past)
    ensures Find(s, key, mono).NullGlyph? <==> key in past.modes && mono !in past.modes[key]
    ensures Find(s, key, mono).Hit? <==> key in past.modes && mono in past.modes[key]
  {
    assert key in past.modes.Keys <==> key in s.cache.Keys;
  }

  /** The lookups by character and by glyph index miss, read through a null slot or hit by the
      history alone; a glyph index of more than 16 bits is refused. */
  lemma LookupsByHistory(s: State, past: Past, n: nat, mono: bool)
    requires Remembers(s, past)
    ensures FindChar(s, n, mono).Miss? <==> n !in past.modes
    ensures FindChar(s, n, mono).NullGlyph? <==> n in past.modes && mono !in past.modes[n]
    ensures FindGlyphIndex(s, n, mono).Miss? <==> n >= 0x1_0000 || 0 - n !in past.modes
    ensures FindGlyphIndex(s, n, mono).NullGlyph? <==> n < 0x1_0000 && 0 - n in past.modes && mono !in past.modes[0 - n]
  {
    assert n in past.modes.Keys <==> n in s.cache.Keys;
    assert 0 - n in past.modes.Keys <==> 0 - n in s.cache.Keys;
  }

  lemma {:induction false} EvictKeys(s: State, n: nat)
    requires RefsOk(s) && n <= |s.cache|
    ensures |s.cache.Keys| == |s.cache|
    ensures EvictFirst(s, n).cache.Keys == Survivors(s.cache.Keys, n)
    decreases n
  {
    hide RefsOk, First;
    if n > 0 {
      EvictKeys(EvictOne(s), n - 1);
      assert (s.cache - {First(s.cache.Keys)}).Keys == s.cache.Keys - {First(s.cache.Keys)};
    }
  }

  lemma CountedRemembers(s: State, past: Past)
    requires Valid(s) && Remembers(s, past)
    ensures Remembers(Counted(s), PastCounted(past))
  {
    hide RefsOk, Holders, Survivors, EvictFirst;
    var u := Counted(s);
    CountedKeeps(s);
    CountedKeys(s);
    var p := PastCounted(past);
    assert p.modes.Keys == u.cache.Keys;
  }

  lemma CountedKeys(s: State)
    requires RefsOk(s)
    ensures |s.cache.Keys| == |s.cache|
    ensures Counted(s).cache.Keys ==
            if s.addCount + 1 < REQ_COUNT_MAX then s.cache.Keys
            else Survivors(s.cache.Keys, if |s.cache| > GC_COUNTER then |s.cache| - GC_COUNTER else 0)
  {
    hide RefsOk, Holders, Survivors, EvictFirst;
    var r := s.(addCount := s.addCount + 1);
    RefsSame(s, r);
    if s.addCount + 1 >= REQ_COUNT_MAX {
      CompactKeys(r);
    }
    assert |s.cache.Keys| == |s.cache|;
  }

  lemma CompactKeys(s: State)
    requires RefsOk(s)
    ensures |s.cache.Keys| == |s.cache|
    ensures Compact(s).cache.Keys == Survivors(s.cache.Keys, if |s.cache| > GC_COUNTER then |s.cache| - GC_COUNTER else 0)
  {
    hide RefsOk, Holders, Survivors, EvictFirst;
    var r := s.(addCount := 0);
    RefsSame(s, r);
    EvictKeys(r, if |s.cache| > GC_COUNTER then |s.cache| - GC_COUNTER else 0);
  }

  lemma AddRemembers(s: State, past: Past, key: int, d: CharData, holder: nat, mono: bool)
    requires Valid(s) && Remembers(s, past) && Local(holder) in s.held && d.glyphindex < 0x1_0000
    ensures s.held[Local(holder)] in s.recs
    ensures Remembers(Add(s, key, d, s.held[Local(holder)], mono), PastAdd(past, key, mono, s.recs[s.held[Local(holder)]].none))
  {
    hide RefsOk, Counted, PastCounted, Add, Untouched;
    var source := s.held[Local(holder)];
    HeldAlive(s);
    AddKeeps(s, key, d, holder, mono);
    CountedKeeps(s);
    CountedRemembers(s, past);
    AddedRemembers(Counted(s), PastCounted(past), Add(s, key, d, source, mono), key, d, source, mono, s.recs[source].none);
  }

  lemma AddedRemembers(u: State, p: Past, t: State, key: int, d: CharData, source: Ptr, mono: bool, none: bool)
    requires Remembers(u, p) && SlotsOk(u) && Added(u, t, key, d, source, mono)
    requires Slot(key, mono) in t.held <==> !none
    ensures var modes := if key in p.modes then p.modes[key] else {};
            Remembers(t, p.(modes := p.modes[key := if none then modes - {mono} else modes + {mono}]))
  {
    OtherSlots(u, t, Slot(key, mono));
    assert key in p.modes.Keys <==> key in u.cache.Keys;
  }

  // ---------------------------------------------------------------- every run

  datatype Event =
    | NewGlyph(to: nat, p: Ptr, none: bool)
    | CopyGlyph(holder: nat, to: nat)
    | DoneGlyph(holder: nat)
    | AddChar(wch: nat, d: CharData, holder: nat, mono: bool)
    | AddGlyph(d: CharData, holder: nat, mono: bool)
    | HitChar(wch: nat, mono: bool, to: nat)
    | HitGlyph(glyph: nat, mono: bool, to: nat)
    | Erase

  // Callers copy into variables that are NULL and from ones that are not, and do not add glyph 0.
  ghost predicate Proper(s: State, e: Event) {
    match e
    case NewGlyph(to, p, _) => Local(to) !in s.held && p !in s.recs && p != 0
    case CopyGlyph(holder, to) => Local(holder) in s.held && Local(to) !in s.held
    case DoneGlyph(holder) => Local(holder) in s.held
    case AddChar(_, _, holder, _) => Local(holder) in s.held
    case AddGlyph(d, holder, _) => Local(holder) in s.held && d.glyphindex != 0
    case HitChar(_, _, to) => Local(to) !in s.held
    case HitGlyph(_, _, to) => Local(to) !in s.held
    case Erase => true
  }

  // A miss and a read through a null slot, which ends the process, leave the state alone.
  ghost function CopyHit(s: State, l: Lookup, to: nat): State {
    if l.Hit? && l.glyph in s.recs then Copy(s, l.glyph, Local(to)) else s
  }

  /** A hit gives the caller's variable a handle of its own to the glyph that is stored. */
  lemma HitHandsOver(s: State, key: int, mono: bool, to: nat)
    requires Valid(s) && Find(s, key, mono).Hit? && Local(to) !in s.held
    ensures var p := Find(s, key, mono).glyph;
            var t := CopyHit(s, Find(s, key, mono), to);
            && p in s.recs && s.held[Slot(key, mono)] == p
            && (!s.recs[p].none ==>
                  && t.held == s.held[Local(to) := p]
                  && t.recs == s.recs[p := s.recs[p].(refcount := s.recs[p].refcount + 1)])
            && t.cache == s.cache && t.addCount == s.addCount
  {
    hide Holders;
  }

  ghost function Step(s: State, e: Event): State
    requires Valid(s) && Proper(s, e)
  {
    match e
    case NewGlyph(to, p, none) => New(s, Local(to), p, none)
    case CopyGlyph(holder, to) => Copy(s, s.held[Local(holder)], Local(to))
    case DoneGlyph(holder) => Done(s, Local(holder))
    case AddChar(wch, d, holder, mono) => Add(s, CharKey(wch), d, s.held[Local(holder)], mono)
    case AddGlyph(d, holder, mono) => Add(s, GlyphKey(d.glyphindex), d, s.held[Local(holder)], mono)
    case HitChar(wch, mono, to) => CopyHit(s, FindChar(s, wch, mono), to)
    case HitGlyph(glyph, mono, to) => CopyHit(s, FindGlyphIndex(s, glyph, mono), to)
    case Erase => EraseAll(s)
  }

  // The glyph an add leaves in the slot.
  ghost function Source(s: State, holder: nat): Ptr
    requires Local(holder) in s.held && s.held[Local(holder)] in s.recs
  {
    var p := s.held[Local(holder)];
    if s.recs[p].none then 0 else p
  }

  ghost function IdealStep(s: State, ideal: Ideal, e: Event): Ideal
    requires Valid(s) && Proper(s, e)
  {
    match e
    case AddChar(wch, d, holder, mono) =>
      if d.glyphindex >= 0x1_0000 then ideal
      else ideal.(chars := Stored(ideal.chars, wch, d, Source(s, holder), mono))
    case AddGlyph(d, holder, mono) =>
      if d.glyphindex >= 0x1_0000 then ideal
      else ideal.(glyphs := Stored(ideal.glyphs, d.glyphindex, d, Source(s, holder), mono))
    case _ => ideal
  }

  lemma CopySameCache(s: State, source: Ptr, to: nat)
    requires Valid(s) && source in s.recs && Local(to) !in s.held
    ensures SameCache(s, Copy(s, source, Local(to))) && RefsOk(Copy(s, source, Local(to)))
  {
    hide Holders;
    CopyKeeps(s, source, Local(to));
  }

  lemma DoneSameCache(s: State, holder: nat)
    requires Valid(s) && Local(holder) in s.held
    ensures SameCache(s, Done(s, Local(holder))) && RefsOk(Done(s, Local(holder)))
  {
    hide Holders;
    DoneKeeps(s, Local(holder));
  }

  lemma NewSameCache(s: State, to: nat, p: Ptr, none: bool)
    requires Valid(s) && Local(to) !in s.held && p !in s.recs && p != 0
    ensures SameCache(s, New(s, Local(to), p, none)) && RefsOk(New(s, Local(to), p, none))
  {
    hide Holders;
    NewKeeps(s, Local(to), p, none);
  }

  // The history after a step.
  ghost function PastStep(s: State, past: Past, e: Event): Past
    requires Valid(s) && Proper(s, e)
  {
    match e
    case AddChar(wch, d, holder, mono) =>
      if d.glyphindex >= 0x1_0000 then past else PastAdd(past, CharKey(wch), mono, Source(s, holder) == 0)
    case AddGlyph(d, holder, mono) =>
      if d.glyphindex >= 0x1_0000 then past else PastAdd(past, GlyphKey(d.glyphindex), mono, Source(s, holder) == 0)
    case Erase => past.(modes := map[])
    case _ => past
  }

  // A state with what the two caches and the history say about it.
  datatype Account = Account(state: State, ideal: Ideal, past: Past)

  ghost predicate Holds(a: Account) {
    Valid(a.state) && Refines(a.state, a.ideal) && Remembers(a.state, a.past)
  }

  lemma SameCacheKeeps(a: Account, t: State)
    requires Holds(a) && SameCache(a.state, t) && RefsOk(t)
    ensures Holds(a.(state := t))
  {
    hide RefsOk;
    forall k | k in t.cache
      ensures Agrees(t, k, if k >= 0 then a.ideal.chars else a.ideal.glyphs, if k >= 0 then k else -k)
    {
      assert Agrees(a.state, k, if k >= 0 then a.ideal.chars else a.ideal.glyphs, if k >= 0 then k else -k);
    }
  }

  lemma AddStep(a: Account, key: int, d: CharData, holder: nat, mono: bool, j: Ideal)
    requires Holds(a) && Local(holder) in a.state.held && d.glyphindex < 0x1_0000
    requires a.state.held[Local(holder)] in a.state.recs
    requires OneStored(a.ideal, j, key, d, Source(a.state, holder), mono)
    ensures Holds(Account(Add(a.state, key, d, a.state.held[Local(holder)], mono), j,
                          PastAdd(a.past, key, mono, Source(a.state, holder) == 0)))
  {
    hide RefsOk, Refines, Added, Add, Counted, Remembers, PastAdd;
    var s := a.state;
    AddKeeps(s, key, d, holder, mono);
    var source := s.held[Local(holder)];
    CountedKeeps(s);
    NotNull(s);
    AddRefines(s, Counted(s), Add(s, key, d, source, mono), key, d, source, mono, a.ideal, j, s.recs[source].none);
    AddRemembers(s, a.past, key, d, holder, mono);
  }

  lemma NotNull(s: State)
    requires RefsOk(s)
    ensures 0 !in s.recs
  {}

  ghost function After(a: Account, e: Event): Account
    requires Valid(a.state) && Proper(a.state, e)
  {
    Account(Step(a.state, e), IdealStep(a.state, a.ideal, e), PastStep(a.state, a.past, e))
  }

  lemma StepKeeps(a: Account, e: Event)
    requires Holds(a) && Proper(a.state, e)
    ensures Holds(After(a, e))
  {
    hide RefsOk, Refines, Remembers, Add, PastAdd, SameCache, SlotsOk, Copy, Done, New, EraseAll;
    var s := a.state;
    HeldAlive(s);
    match e {
      case NewGlyph(to, p, none) =>
        NewSameCache(s, to, p, none);
        SameCacheKeeps(a, Step(s, e));
      case CopyGlyph(holder, to) =>
        CopySameCache(s, s.held[Local(holder)], to);
        SameCacheKeeps(a, Step(s, e));
      case DoneGlyph(holder) =>
        DoneSameCache(s, holder);
        SameCacheKeeps(a, Step(s, e));
      case AddChar(wch, d, holder, mono) =>
        if d.glyphindex < 0x1_0000 {
          AddStep(a, CharKey(wch), d, holder, mono, IdealStep(s, a.ideal, e));
        } else {
          AddTooLarge(s, CharKey(wch), d, s.held[Local(holder)], mono);
        }
      case AddGlyph(d, holder, mono) =>
        if d.glyphindex < 0x1_0000 {
          AddStep(a, GlyphKey(d.glyphindex), d, holder, mono, IdealStep(s, a.ideal, e));
        } else {
          AddTooLarge(s, GlyphKey(d.glyphindex), d, s.held[Local(holder)], mono);
        }
      case HitChar(wch, mono, to) => HitKeeps(a, FindChar(s, wch, mono), to);
      case HitGlyph(glyph, mono, to) => HitKeeps(a, FindGlyphIndex(s, glyph, mono), to);
      case Erase => EraseStep(a);
    }
  }

  lemma EraseStep(a: Account)
    requires Holds(a)
    ensures Holds(Account(EraseAll(a.state), a.ideal, a.past.(modes := map[])))
  {
    hide RefsOk;
    EraseAllEmpties(a.state);
  }

  lemma AddTooLarge(s: State, key: int, d: CharData, source: Ptr, mono: bool)
    requires RefsOk(s) && d.glyphindex >= 0x1_0000
    ensures Add(s, key, d, source, mono) == s
  {}

  lemma HitKeeps(a: Account, l: Lookup, to: nat)
    requires Holds(a) && Local(to) !in a.state.held
    ensures Holds(a.(state := CopyHit(a.state, l, to)))
  {
    hide RefsOk, Refines, Remembers;
    if l.Hit? && l.glyph in a.state.recs {
      CopySameCache(a.state, l.glyph, to);
      SameCacheKeeps(a, CopyHit(a.state, l, to));
    }
  }

  ghost predicate StepsTo(a: Account, e: Event, b: Account) {
    Valid(a.state) ==> Proper(a.state, e) && b == After(a, e)
  }

  const START: Account := Account(EMPTY, Ideal(map[], map[]), NO_PAST)

  ghost predicate Run(accounts: seq<Account>, events: seq<Event>) {
    && |accounts| == |events| + 1
    && accounts[0] == START
    && forall i :: 0 <= i < |events| ==> StepsTo(accounts[i], events[i], accounts[i + 1])
  }

  /** In every state of every run: reference counts are numbers of handles and every handle is
      to an allocated record, the size stays in its bound, the one map refines a character
      cache and a glyph cache that forget nothing, and a lookup reads through a null slot
      exactly when the history of its entry says so. */
  lemma {:induction false} RunKeeps(accounts: seq<Account>, events: seq<Event>, n: nat)
    requires Run(accounts, events) && n <= |events|
    ensures Holds(accounts[n])
    ensures forall key, mono :: Find(accounts[n].state, key, mono).NullGlyph? <==>
              key in accounts[n].past.modes && mono !in accounts[n].past.modes[key]
    ensures forall g: nat, mono ::
              && (FindChar(accounts[n].state, g, mono).Miss? <==> g !in accounts[n].past.modes)
              && (FindGlyphIndex(accounts[n].state, g, mono).Miss? <==>
                  g >= 0x1_0000 || 0 - g !in accounts[n].past.modes)
  {
    hide RefsOk, SlotsOk, Refines, After, Proper, Find, FindChar, FindGlyphIndex, Remembers;
    if n == 0 {
      EmptyValid();
    } else {
      var i := n - 1;
      RunKeeps(accounts, events, i);
      assert StepsTo(accounts[i], events[i], accounts[i + 1]);
      StepKeeps(accounts[i], events[i]);
    }
    forall key, mono
      ensures Find(accounts[n].state, key, mono).NullGlyph? <==>
              key in accounts[n].past.modes && mono !in accounts[n].past.modes[key]
    {
      NullGlyphIff(accounts[n].state, accounts[n].past, key, mono);
    }
    forall g: nat, mono
      ensures FindChar(accounts[n].state, g, mono).Miss? <==> g !in accounts[n].past.modes
      ensures FindGlyphIndex(accounts[n].state, g, mono).Miss? <==>
              g >= 0x1_0000 || 0 - g !in accounts[n].past.modes
    {
      LookupsByHistory(accounts[n].state, accounts[n].past, g, mono);
    }
  }

  lemma EmptyValid()
    ensures Holds(START)
  {}

  // Adds of the distinct keys 1, 2, ..., n of one glyph held by a caller.
  ghost function Filled(n: nat): (s: State)
    ensures Valid(s) && Local(0) in s.held
  {
    if n == 0 then EmptyNew()
    else
      var s := Filled(n - 1);
      HeldAlive(s);
      AddKeeps(s, n, ONE_GLYPH, 0, false);
      Add(s, n, ONE_GLYPH, s.held[Local(0)], false)
  }

  const ONE_GLYPH: CharData := CharData(1, 0, 0, 0)

  ghost function EmptyNew(): (s: State)
    ensures Valid(s) && Local(0) in s.held && s.cache == map[] && s.addCount == 0
  {
    EmptyValid();
    NewSameCache(EMPTY, 0, 1, false);
    var s := New(EMPTY, Local(0), 1, false);
    assert SlotsOk(s);
    s
  }

  /** One add for colour and a lookup for monochrome are enough to read through a null slot. */
  lemma OtherModeReadsNull()
    ensures Find(Filled(1), 1, true).NullGlyph?
  {
    hide Add, RefsOk;
    FilledSize(0);
    LookupAfterAdd(Filled(0), 1, ONE_GLYPH, 0, false);
  }

  /** The bound is reached: after 4095 adds there are 3072 entries. */
  lemma {:induction false} FilledSize(n: nat)
    requires n < 2 * REQ_COUNT_MAX
    ensures var s := Filled(n);
            && (forall k :: k in s.cache ==> k <= n)
            && |s.cache| == (if n < REQ_COUNT_MAX then n else n - REQ_COUNT_MAX + GC_COUNTER + 1)
            && s.addCount == if n < REQ_COUNT_MAX then n else n - REQ_COUNT_MAX
  {
    hide RefsOk, Add, Filled, Counted, Untouched;
    FilledStep(n);
    if n > 0 {
      var s := Filled(n - 1);
      FilledSize(n - 1);
      CountedKeeps(s);
      HeldAlive(s);
      AddKeeps(s, n, ONE_GLYPH, 0, false);
      KeysBelow(s, Counted(s), n);
    }
  }

  lemma FilledStep(n: nat)
    ensures n == 0 ==> Filled(n).cache == map[] && Filled(n).addCount == 0
    ensures n > 0 ==> Filled(n) == Add(Filled(n - 1), n, ONE_GLYPH, Filled(n - 1).held[Local(0)], false)
  {
    hide Add;
  }

  lemma KeysBelow(s: State, u: State, n: int)
    requires Untouched(s, u) && forall k :: k in s.cache ==> k < n
    ensures forall k :: k in u.cache ==> k < n
  {}

  lemma BoundIsReached()
    ensures |Filled(4095).cache| == 3072
  {
    FilledSize(4095);
  }

  // ---------------------------------------------------------------- which cache

  // getCacheHash, on 32-bit words
  function GetCacheHash(px: bv32, weight: bv32, italic: bv32, width: bv32): bv32 {
    (px << 20) | (width << 8) | (weight << 1) | italic
  }

  // The part of GetCache that finds the key; None when the size is refused.
  function CacheKey(height: bv32, width: bv32, lfWeight: int, lfItalic: int, lfWidth: int): Option<bv32> {
    if height > 0xfff || width > 0xfff then None
    else Some(GetCacheHash(height, if lfWeight < 700 then 0 else 1, if lfItalic != 0 then 1 else 0, if lfWidth != 0 then width else 0))
  }

  lemma HashInjective(px: bv32, weight: bv32, italic: bv32, width: bv32, px': bv32, weight': bv32, italic': bv32, width': bv32)
    requires px <= 0xfff && width <= 0xfff && weight <= 1 && italic <= 1
    requires px' <= 0xfff && width' <= 0xfff && weight' <= 1 && italic' <= 1
    requires GetCacheHash(px, weight, italic, width) == GetCacheHash(px', weight', italic', width')
    ensures px == px' && weight == weight' && italic == italic' && width == width'
  {
    hide GetCacheHash;
    HashParts(px, weight, italic, width);
    HashParts(px', weight', italic', width');
  }

  // Each part can be read off the hash.
  lemma HashParts(px: bv32, weight: bv32, italic: bv32, width: bv32)
    requires px <= 0xfff && width <= 0xfff && weight <= 1 && italic <= 1
    ensures var h := GetCacheHash(px, weight, italic, width);
            h >> 20 == px && (h >> 8) & 0xfff == width && (h >> 1) & 1 == weight && h & 1 == italic
  {}

  /** Two admitted requests get the same cache exactly when they ask for the same height, the
      same boldness and slant, and the same width or none. */
  lemma SameCacheIff(height: bv32, width: bv32, lfWeight: int, lfItalic: int, lfWidth: int,
                     height': bv32, width': bv32, lfWeight': int, lfItalic': int, lfWidth': int)
    requires height <= 0xfff && width <= 0xfff && height' <= 0xfff && width' <= 0xfff
    ensures CacheKey(height, width, lfWeight, lfItalic, lfWidth) == CacheKey(height', width', lfWeight', lfItalic', lfWidth')
            <==> && height == height'
                 && (lfWeight < 700 <==> lfWeight' < 700)
                 && (lfItalic == 0 <==> lfItalic' == 0)
                 && (if lfWidth != 0 then width else 0) == (if lfWidth' != 0 then width' else 0)
  {
    hide GetCacheHash;
    var w := if lfWidth != 0 then width else 0;
    var w' := if lfWidth' != 0 then width' else 0;
    var b := if lfWeight < 700 then 0 else 1;
    var b' := if lfWeight' < 700 then 0 else 1;
    var i := if lfItalic != 0 then 1 else 0;
    var i' := if lfItalic' != 0 then 1 else 0;
    if GetCacheHash(height, b, i, w) == GetCacheHash(height', b', i', w') {
      HashInjective(height, b, i, w, height', b', i', w');
    }
  }

  /** The refusal of larger sizes is needed: one more and two heights share a cache. */
  lemma LargerHeightsCollide()
    ensures GetCacheHash(0x1000, 0, 0, 0) == GetCacheHash(0, 0, 0, 0)
  {
    assert (0x1000 as bv32) << 20 == 0;
  }

  // ---------------------------------------------------------------- the cache object

  class FreeTypeFontCache {
    var recs: map<Ptr, Rec>
    var held: map<Cell, Ptr>
    var cache: map<int, CharData>
    var addCount: nat

    ghost function View(): State
      reads this
    {
      State(recs, held, cache, addCount)
    }

    constructor ()
      ensures View() == EMPTY
    {
      recs, held, cache, addCount := map[], map[], map[], 0;
    }

    /** New_FT_Ref_Glyph; the allocator answers with p. */
    method NewRefGlyph(c: Cell, p: Ptr, none: bool)
      modifies this`recs, this`held
      ensures View() == New(old(View()), c, p, none)
    {
      recs := recs[p := Rec(1, none)];
      held := held[c := p];
    }

    /** FT_Glyph_Ref_Copy */
    method GlyphRefCopy(source: Ptr, target: Cell) returns (error: int)
      requires source in recs
      modifies this`recs, this`held
      ensures View() == Copy(old(View()), source, target) && error == CopyError(old(recs)[source])
    {
      if recs[source].refcount < 0 {
        return 1;
      }
      if recs[source].none {
        return 2;
      }
      recs := recs[source := recs[source].(refcount := recs[source].refcount + 1)];
      held := held[target := source];
      error := 0;
    }

    /** FT_Done_Ref_Glyph */
    method DoneRefGlyph(c: Cell)
      requires c in held && held[c] in recs
      modifies this`recs, this`held
      ensures View() == Done(old(View()), c)
    {
      var p := held[c];
      var count := recs[p].refcount - 1;
      if count == 0 {
        recs := recs - {p};
      } else {
        recs := recs[p := recs[p].(refcount := count)];
      }
      held := held - {c};
    }

    /** FreeTypeCharData::SetGlyph, called with a glyph that the caller holds. */
    method SetGlyphOf(slot: Cell, glyph: Ptr, ghost own: Cell)
      requires RefsOk(View()) && own in held && held[own] == glyph && own != slot
      modifies this`recs, this`held
      ensures View() == SetGlyph(old(View()), slot, glyph)
    {
      hide Holders;
      SetGlyphSafeIff(View(), slot, glyph);
      HeldAlive(View());
      if slot in held {
        DoneRefGlyph(slot);
      }
      var _ := GlyphRefCopy(glyph, slot);
    }

    // The key std::map iteration starts with.
    method FirstKey() returns (k: int)
      requires cache.Keys != {}
      ensures k == First(cache.Keys)
    {
      var todo := cache.Keys;
      NonEmpty(todo);
      k :| k in todo;
      todo := todo - {k};
      while todo != {}
        invariant todo <= cache.Keys
        invariant k in cache && forall j :: j in cache ==> j in todo || k <= j
      {
        NonEmpty(todo);
        var x :| x in todo;
        if x < k {
          k := x;
        }
        todo := todo - {x};
      }
    }

    // erase(it++) after delete it->second
    method EvictEntry(key: int)
      requires RefsOk(View())
      modifies this`recs, this`held, this`cache
      ensures View() == Evict(old(View()), key)
    {
      hide Holders;
      HeldAlive(View());
      ghost var t := Drop(View(), Slot(key, false));
      if Slot(key, false) in held {
        DoneRefGlyph(Slot(key, false));
      }
      HeldAlive(View());
      if Slot(key, true) in held {
        DoneRefGlyph(Slot(key, true));
      }
      cache := cache - {key};
    }

    /** FreeTypeFontCache::Compact with CompactMap */
    method CompactCache()
      requires RefsOk(View())
      modifies this
      ensures View() == Compact(old(View()))
    {
      hide RefsOk, Evict;
      RefsSame(View(), View().(addCount := 0));
      addCount := 0;
      var reducecount := |cache| - GC_COUNTER;
      var i := 0;
      ghost var n: nat := if reducecount > 0 then reducecount else 0;
      while i < reducecount
        invariant 0 <= i <= n
        invariant RefsOk(View()) && n - i <= |cache|
        invariant EvictFirst(View(), n - i) == Compact(old(View()))
      {
        assert |cache.Keys| == |cache|;
        var k := FirstKey();
        ghost var next := EvictOne(View());
        EvictEntry(k);
        i := i + 1;
      }
    }

    /** FreeTypeFontCache::Erase */
    method Erase()
      requires RefsOk(View())
      modifies this
      ensures View() == EraseAll(old(View()))
    {
      hide RefsOk, Evict;
      while cache.Keys != {}
        invariant RefsOk(View())
        invariant EvictFirst(View(), |cache|) == EraseAll(old(View()))
        decreases |cache|
      {
        SomeEntry(cache);
        var k := FirstKey();
        ghost var next := EvictOne(View());
        EvictEntry(k);
      }
      SomeEntry(cache);
    }

    // The common part of AddCharData and AddGlyphData.
    method AddAt(key: int, d: CharData, glyph: Ptr, mono: bool, ghost own: nat)
      requires Valid(View()) && Local(own) in held && held[Local(own)] == glyph
      modifies this
      ensures View() == Add(old(View()), key, d, glyph, mono) && Valid(View())
    {
      hide RefsOk, Holders, Untouched, EntrySet, Counted, Compact, SetGlyph;
      if d.glyphindex >= 0x1_0000 {
        return;
      }
      ghost var s := View();
      AddKeeps(s, key, d, own, mono);
      CountedKeeps(s);
      CountUp();
      ghost var u := View();
      WithEntryFrame(u, key, d);
      if key in cache {
        cache := cache[key := cache[key].(width := d.width, gdiWidth := d.gdiWidth)];
      } else {
        cache := cache[key := d];
      }
      assert View() == WithEntry(u, key, d);
      HeldAlive(View());
      UpToSetGlyph(s, u, View(), key, d, own);
      SetGlyphOf(Slot(key, mono), glyph, Local(own));
    }

    // AddIncrement and the compaction it may call for.
    method CountUp()
      requires RefsOk(View())
      modifies this
      ensures View() == Counted(old(View()))
    {
      hide RefsOk, Compact;
      RefsSame(View(), View().(addCount := addCount + 1));
      addCount := addCount + 1;
      if addCount >= REQ_COUNT_MAX {
        CompactCache();
      }
    }

    /** AddCharData; `own` is the variable the caller holds the glyph in. */
    method AddCharData(wch: nat, d: CharData, glyph: Ptr, mono: bool, ghost own: nat)
      requires Valid(View()) && Local(own) in held && held[Local(own)] == glyph
      modifies this
      ensures View() == Add(old(View()), CharKey(wch), d, glyph, mono) && Valid(View())
    {
      hide Add, Valid;
      AddAt(wch, d, glyph, mono, own);
    }

    /** AddGlyphData */
    method AddGlyphData(d: CharData, glyph: Ptr, mono: bool, ghost own: nat)
      requires Valid(View()) && Local(own) in held && held[Local(own)] == glyph
      modifies this
      ensures View() == Add(old(View()), GlyphKey(d.glyphindex), d, glyph, mono) && Valid(View())
    {
      hide Add, Valid;
      AddAt(0 - d.glyphindex, d, glyph, mono, own);
    }

    /** The steps of ForEachGetGlyphFT that look a glyph up and copy what is found; `crashed` is
        a read through an empty slot. */
    method CopyFound(n: nat, isGlyphIndex: bool, mono: bool, to: nat) returns (found: bool, crashed: bool)
      requires Valid(View()) && Local(to) !in held
      modifies this`recs, this`held
      ensures var l := if isGlyphIndex then FindGlyphIndex(old(View()), n, mono) else FindChar(old(View()), n, mono);
              && View() == CopyHit(old(View()), l, to)
              && (found <==> !l.Miss?) && (crashed <==> l.NullGlyph?)
    {
      hide RefsOk;
      HeldAlive(View());
      var key: int := if isGlyphIndex then 0 - n else n;
      found, crashed := key in cache && !(isGlyphIndex && n >= 0x1_0000), false;
      if found {
        if Slot(key, mono) !in held {
          return true, true;
        }
        var _ := GlyphRefCopy(held[Slot(key, mono)], Local(to));
      }
    }

    /** The steps of ForEachGetGlyphFT that make a glyph when the cache has none: into a local
        variable, from there into the caller's array, then emboldened and rasterised in place.
        The arguments say what FreeType and the allocator answer; `crashed` is a read through
        the null glyph that a failed FT_Glyph_Copy leaves. */
    method RenderMissing(i: nat, j: nat, p: Ptr, copied: bool, none: bool, isBitmap: bool, emboldened: bool, rasterised: bool)
      returns (ok: bool, crashed: bool)
      requires RefsOk(View()) && i != j && Local(i) !in held && Local(j) !in held
      requires p !in recs && p != 0
      modifies this`recs, this`held
      ensures crashed <==> !copied
      ensures ok <==> copied && !none && (isBitmap || (emboldened && rasterised))
      ensures !crashed && !ok ==> View() == old(View())
      ensures ok ==> View() == New(old(View()), Local(i), p, none)
    {
      hide RefsOk, New, Copy, Done;
      ghost var s := View();
      NewThenCopied(s, i, j, p, none);
      var error: int;
      NewRefGlyph(Local(j), p, none);
      if !copied {
        return false, true;
      }
      error := GlyphRefCopy(p, Local(i));
      DoneRefGlyph(Local(j));
      if error != 0 {
        return false, false;
      }
      if !isBitmap {
        OnlyHandle(s, Local(i), p, none);
        if !emboldened {
          DoneRefGlyph(Local(i));
          return false, false;
        }
        assert recs[p].refcount == 1 && Holders(View(), p) == {Local(i)};
        if !rasterised {
          DoneRefGlyph(Local(i));
          return false, false;
        }
      }
      return true, false;
    }

    /** What IMPL_ExtTextOutW does with its glyph array in the end. */
    method ReleaseArray(n: nat)
      requires RefsOk(View())
      modifies this`recs, this`held
      ensures RefsOk(View()) && cache == old(cache) && addCount == old(addCount)
      ensures held == map c | c in old(held) && !(c.Local? && c.i < n) :: old(held)[c]
    {
      hide RefsOk;
      var i := 0;
      while i < n
        invariant 0 <= i <= n
        invariant RefsOk(View())
        invariant held == map c | c in old(held) && !(c.Local? && c.i < i) :: old(held)[c]
      {
        HeldAlive(View());
        if Local(i) in held {
          DoneKeeps(View(), Local(i));
          DoneRefGlyph(Local(i));
        }
        i := i + 1;
      }
    }
  }

  // The handle moves from the local variable to the array, or is given up on an error.
  lemma NewThenCopied(s: State, i: nat, j: nat, p: Ptr, none: bool)
    requires i != j && Local(i) !in s.held && Local(j) !in s.held && p !in s.recs
    ensures var t := New(s, Local(j), p, none);
            && p in t.recs && CopyError(t.recs[p]) == (if none then 2 else 0)
            && var u := Copy(t, p, Local(i));
               && Local(j) in u.held && u.held[Local(j)] in u.recs
               && Done(u, Local(j)) == if none then s else New(s, Local(i), p, none)
  {
    var u := Copy(New(s, Local(j), p, none), p, Local(i));
    var v := Done(u, Local(j));
    if none {
      assert v.recs == s.recs && v.held == s.held;
    } else {
      assert v.recs == s.recs[p := Rec(1, none)] && v.held == s.held[Local(i) := p];
    }
  }

  // While a new glyph is changed in place, no other variable holds it; giving it up undoes it.
  lemma OnlyHandle(s: State, c: Cell, p: Ptr, none: bool)
    requires RefsOk(s) && p !in s.recs && c !in s.held
    ensures var t := New(s, c, p, none);
            && p in t.recs && t.recs[p].refcount == 1 && Holders(t, p) == {c}
            && c in t.held && t.held[c] == p && Done(t, c) == s
  {
    var t := New(s, c, p, none);
    assert forall d :: d in s.held ==> s.held[d] != p;
    assert Done(t, c).recs == s.recs && Done(t, c).held == s.held;
  }
}
