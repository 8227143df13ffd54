/**
  The font registry of fteng.cpp and fteng.h: two name maps, a vector indexed by font id, a
  reference count per font and the font-link lists, under add, alias, find and remove.

  A FreeTypeFontInfo is a record in a heap from addresses (0 is NULL) to records; deleting it
  takes it out of the heap, so a pointer is dangling when its address is not in the heap. What
  the operating system knows about a font name (`Made`) and where the allocator puts a new
  record are inputs.
 */
module FontRegistry {

  // What the constructor of FreeTypeFontInfo finds out: the full name ("" for a bitmap font)
  // and the font handle (0 when it could not be created).
  datatype Made = Made(fullName: string, ggoFont: nat)

  datatype Key = Key(name: string, hash: int)

  // faceIdLink and ggoLink are the first m_linknum entries of the two arrays.
  datatype Font = Font(id: int, fullName: string, count: int, ggoFont: nat, faceIdLink: seq<int>, ggoLink: seq<nat>, simSunId: int)

  datatype State = State(holder: int, heap: map<nat, Font>, fontMap: map<Key, nat>, fullMap: map<string, nat>, fontList: seq<nat>)

  // A font (or NULL), and what bIsFontLoaded becomes.
  datatype Found = Found(state: State, font: nat, loaded: bool)

  // Where new puts the record that gets an id, given the addresses in use. Every id is given
  // out at most once to a record that stays, so the addresses of a run are free choices.
  type Allocator = (int, set<nat>) -> nat

  ghost predicate Allocates(alloc: Allocator) {
    forall id, used :: alloc(id, used) !in used && alloc(id, used) != 0
  }

  // ---------------------------------------------------------------- keys

  // (nitalic << 31) | nweight on 32-bit ints: only the lowest bit of nitalic survives.
  function Hash(nitalic: int, nweight: int): int {
    if nitalic % 2 != 0 && nweight >= 0 then nweight - 0x8000_0000 else nweight
  }

  function MyFont(name: string, nweight: int, nitalic: int): Key {
    Key(name, Hash(nitalic, nweight))
  }

  function CalcBoldWeight(weight: int): int {
    if weight < 700 then 0 else 700
  }

  // !!italic
  function Truth(italic: int): int {
    if italic != 0 then 1 else 0
  }

  predicate PlainItalic(italic: int) {
    italic == 0 || italic % 2 != 0
  }

  lemma RawKeyAgreesIff(name: string, weight: int, italic: int)
    ensures MyFont(name, CalcBoldWeight(weight), italic) == MyFont(name, CalcBoldWeight(weight), Truth(italic))
            <==> PlainItalic(italic)
  {}

  /** For the weights the system gives, a key tells name, weight and slant apart. */
  lemma KeyInjective(name: string, weight: int, italic: int, name': string, weight': int, italic': int)
    requires 0 <= weight < 0x8000_0000 && 0 <= weight' < 0x8000_0000
    ensures MyFont(name, weight, Truth(italic)) == MyFont(name', weight', Truth(italic'))
            <==> name == name' && weight == weight' && (italic == 0 <==> italic' == 0)
  {}

  // ---------------------------------------------------------------- consistency

  // FONTMAX * 2 + 1
  const LINK_CAPACITY: nat := 63

  // What CFontFaceNamesEnumerator yields after the name it skips: 30 links and a system font.
  const MAX_LINK_NAMES: nat := 31

  ghost function Names(s: State, p: nat): set<string> {
    set k | k in s.fullMap && s.fullMap[k] == p
  }

  ghost predicate SlotsOk(s: State) {
    && s.holder == |s.fontList|
    && 0 !in s.heap
    && (forall i :: 0 <= i < |s.fontList| && s.fontList[i] != 0 ==>
          s.fontList[i] in s.heap && s.heap[s.fontList[i]].id == i + 1)
    && (forall p :: p in s.heap ==> 1 <= s.heap[p].id <= |s.fontList| && s.fontList[s.heap[p].id - 1] == p)
  }

  ghost predicate FontMapOk(s: State) {
    forall k :: k in s.fontMap ==> s.fontMap[k] in s.heap
  }

  ghost predicate FullMapOk(s: State) {
    && (forall k :: k in s.fullMap ==> s.fullMap[k] in s.heap)
    && (forall p :: p in s.heap ==> s.heap[p].fullName in s.fullMap && s.fullMap[s.heap[p].fullName] == p)
  }

  ghost predicate CountsOk(s: State) {
    forall p :: p in s.heap ==> s.heap[p].count == |Names(s, p)|
  }

  // Link ids denote live slots and go with the handles of those fonts; no id occurs twice.
  ghost predicate Links(s: State, ids: seq<int>, handles: seq<nat>) {
    && |ids| == |handles|
    && (forall j :: 0 <= j < |ids| ==>
          && 1 <= ids[j] <= |s.fontList| && s.fontList[ids[j] - 1] in s.heap
          && s.heap[s.fontList[ids[j] - 1]].ggoFont == handles[j])
    && (forall i, j :: 0 <= i < j < |ids| ==> ids[i] != ids[j])
  }

  ghost predicate LinksOk(s: State, p: nat)
    requires p in s.heap
  {
    var f := s.heap[p];
    && Links(s, f.faceIdLink, f.ggoLink)
    && (f.faceIdLink != [] ==> f.faceIdLink[0] == f.id)
    && |f.faceIdLink| <= MAX_LINK_NAMES + 1 <= LINK_CAPACITY
    && (f.simSunId == 0 || f.simSunId in f.faceIdLink)
  }

  // Everything but the link lists.
  ghost predicate Registry(s: State) {
    SlotsOk(s) && FontMapOk(s) && FullMapOk(s) && CountsOk(s)
  }

  ghost predicate Valid(s: State) {
    Registry(s) && forall p :: p in s.heap ==> LinksOk(s, p)
  }

  const EMPTY: State := State(0, map[], map[], map[], [])

  // ---------------------------------------------------------------- adding

  // The common part of both AddFont: the font with that full name, entered if it is new.
  function Enter(s: State, alloc: Allocator, made: Made): Found {
    if made.fullName in s.fullMap then Found(s, s.fullMap[made.fullName], true)
    else
      var p := alloc(s.holder + 1, s.heap.Keys);
      Found(WithNew(s, p, made), p, false)
  }

  function WithNew(s: State, p: nat, made: Made): State {
    State(s.holder + 1, s.heap[p := Font(s.holder + 1, made.fullName, 1, made.ggoFont, [], [], 0)],
          s.fontMap, s.fullMap[made.fullName := p], s.fontList + [p])
  }

  function Mapped(s: State, key: Key, p: nat): State {
    s.(fontMap := s.fontMap[key := p])
  }

  // AddFont(lpFaceName, weight, italic)
  function AddFont(s: State, alloc: Allocator, name: string, weight: int, italic: int, made: Made): Found {
    if name == "" || made.fullName == "" then Found(s, 0, false)
    else
      var e := Enter(s, alloc, made);
      Found(Mapped(e.state, MyFont(name, weight, italic), e.font), e.font, e.loaded)
  }

  // AddRef and a second full name.
  function Aliased(s: State, p: nat, name: string): State
    requires p in s.heap
  {
    if s.heap[p].fullName == name then s
    else s.(heap := s.heap[p := s.heap[p].(count := s.heap[p].count + 1)], fullMap := s.fullMap[name := p])
  }

  datatype Params = Params(faceName: string, weight: int, italic: int, tmItalic: int, strFullName: string)

  // AddFont(params)
  function AddFontParams(s: State, alloc: Allocator, params: Params, made: Made): Found {
    if params.faceName == "" || made.fullName == "" then Found(s, 0, false)
    else
      var e := Enter(s, alloc, made);
      if e.font !in e.state.heap then e
      else
        var t := Aliased(e.state, e.font, params.strFullName);
        Found(Mapped(t, MyFont(params.faceName, params.weight, Truth(params.tmItalic)), e.font), e.font, e.loaded)
  }

  // FindFont(lpFaceName, weight, italic)
  function FindFont(s: State, alloc: Allocator, name: string, weight: int, italic: int, made: Made): Found {
    var key := MyFont(name, CalcBoldWeight(weight), italic);
    if key in s.fontMap then Found(s, s.fontMap[key], true)
    else AddFont(s, alloc, name, CalcBoldWeight(weight), italic, made)
  }

  // FindFont(params); p->GetFullName() reads the record of p.
  function FindFontParams(s: State, alloc: Allocator, params: Params, made: Made): Found
    requires FullMapOk(s)
  {
    if params.strFullName in s.fullMap then
      var p := s.fullMap[params.strFullName];
      if s.heap[p].fullName != params.strFullName then
        FindFont(s, alloc, params.faceName, params.weight, Truth(params.italic), made)
      else Found(s, p, false)
    else AddFontParams(s, alloc, params, made)
  }

  lemma NamesAfterNew(s: State, t: State, name: string, p: nat, q: nat)
    requires name !in s.fullMap && t.fullMap == s.fullMap[name := p]
    ensures Names(t, q) == if q == p then Names(s, p) + {name} else Names(s, q)
  {
    assert forall k :: k in Names(t, q) <==> k in if q == p then Names(s, p) + {name} else Names(s, q);
  }

  lemma LinksKept(s: State, t: State, ids: seq<int>, handles: seq<nat>)
    requires Links(s, ids, handles)
    requires |s.fontList| <= |t.fontList|
    requires forall i :: 0 <= i < |s.fontList| ==> t.fontList[i] == s.fontList[i]
    requires forall p :: p in s.heap ==> p in t.heap && t.heap[p].ggoFont == s.heap[p].ggoFont
    ensures Links(t, ids, handles)
  {}

  // t has the fonts of s, with the same identity and links, and possibly more.
  ghost predicate Extends(s: State, t: State) {
    && |s.fontList| <= |t.fontList|
    && (forall i :: 0 <= i < |s.fontList| ==> t.fontList[i] == s.fontList[i])
    && (forall p :: p in s.heap ==>
          p in t.heap && t.heap[p] == s.heap[p].(count := t.heap[p].count))
    && (forall p :: p in t.heap && p !in s.heap ==> t.heap[p].faceIdLink == [] && t.heap[p].ggoLink == [] && t.heap[p].simSunId == 0)
  }

  lemma ExtendsTransitive(s: State, t: State, u: State)
    requires Extends(s, t) && Extends(t, u)
    ensures Extends(s, u)
  {}

  lemma NewSlots(s: State, p: nat, made: Made)
    requires SlotsOk(s) && p !in s.heap && p != 0
    ensures SlotsOk(WithNew(s, p, made))
  {
    var t := WithNew(s, p, made);
    forall q | q in t.heap
      ensures 1 <= t.heap[q].id <= |t.fontList| && t.fontList[t.heap[q].id - 1] == q
    {}
    forall i | 0 <= i < |t.fontList| && t.fontList[i] != 0
      ensures t.fontList[i] in t.heap && t.heap[t.fontList[i]].id == i + 1
    {}
  }

  lemma NewExtends(s: State, p: nat, made: Made)
    requires p !in s.heap
    ensures Extends(s, WithNew(s, p, made))
  {}

  lemma NewMaps(s: State, p: nat, made: Made)
    requires FontMapOk(s) && FullMapOk(s)
    requires p !in s.heap && made.fullName !in s.fullMap
    ensures FontMapOk(WithNew(s, p, made)) && FullMapOk(WithNew(s, p, made))
  {}

  lemma NewCounts(s: State, p: nat, made: Made)
    requires FullMapOk(s) && CountsOk(s)
    requires p !in s.heap && made.fullName !in s.fullMap
    ensures CountsOk(WithNew(s, p, made))
    ensures Names(WithNew(s, p, made), p) == {made.fullName}
  {
    var t := WithNew(s, p, made);
    assert Names(s, p) == {};
    forall q | q in t.heap
      ensures t.heap[q].count == |Names(t, q)|
      ensures q == p ==> Names(t, q) == {made.fullName}
    {
      NamesAfterNew(s, t, made.fullName, p, q);
    }
  }

  lemma EnterKeeps(s: State, alloc: Allocator, made: Made)
    requires Registry(s) && Allocates(alloc)
    ensures var e := Enter(s, alloc, made);
            && Registry(e.state) && Extends(s, e.state)
            && e.font in e.state.heap
            && (!e.loaded ==> Names(e.state, e.font) == {made.fullName} && e.state.heap[e.font].fullName == made.fullName)
  {
    hide Names, Extends, SlotsOk, CountsOk, FontMapOk;
    var p := alloc(s.holder + 1, s.heap.Keys);
    if made.fullName in s.fullMap {
      ExtendsItself(s);
    } else {
      NewSlots(s, p, made);
      NewExtends(s, p, made);
      NewMaps(s, p, made);
      NewCounts(s, p, made);
    }
  }

  lemma ExtendsItself(s: State)
    ensures Extends(s, s)
  {}

  lemma ExtendsLinks(s: State, t: State)
    requires Extends(s, t)
    requires forall p :: p in s.heap ==> LinksOk(s, p)
    ensures forall p :: p in t.heap ==> LinksOk(t, p)
  {
    forall p | p in t.heap
      ensures LinksOk(t, p)
    {
      if p in s.heap {
        assert LinksOk(s, p);
        LinksKept(s, t, s.heap[p].faceIdLink, s.heap[p].ggoLink);
      }
    }
  }

  // What both lookups leave: a registry that only grew, and a font of it.
  ghost predicate Grown(s: State, r: Found) {
    && Registry(r.state) && Extends(s, r.state)
    && (r.font != 0 ==> r.font in r.state.heap)
  }

  lemma MappedGrown(s: State, alloc: Allocator, made: Made, key: Key)
    requires Registry(s) && Allocates(alloc)
    ensures var e := Enter(s, alloc, made);
            var r := Mapped(e.state, key, e.font);
            && Registry(r) && Extends(s, r) && e.font in r.heap
            && (!e.loaded ==> Names(r, e.font) == {made.fullName} && r.heap[e.font].fullName == made.fullName)
  {
    hide Extends, SlotsOk, CountsOk, FullMapOk, Enter;
    var e := Enter(s, alloc, made);
    EnterKeeps(s, alloc, made);
    MappedRegistryIff(e.state, key, e.font);
    ExtendsTransitive(s, e.state, Mapped(e.state, key, e.font));
    assert Names(Mapped(e.state, key, e.font), e.font) == Names(e.state, e.font);
  }

  lemma UnloadedIsNew(s: State, alloc: Allocator, name: string, weight: int, italic: int, made: Made)
    requires Allocates(alloc)
    ensures var r := FindFont(s, alloc, name, weight, italic, made);
            r.font != 0 && !r.loaded ==> r.font !in s.heap
  {}

  // FindFont and AddFont by face name keep the registry and only add to it; a font they
  // report as not loaded is new and has no other full name.
  lemma FindFontKeeps(s: State, alloc: Allocator, name: string, weight: int, italic: int, made: Made)
    requires Registry(s) && Allocates(alloc)
    ensures var r := FindFont(s, alloc, name, weight, italic, made);
            && Grown(s, r)
            && (r.font != 0 && !r.loaded ==>
                  && r.font !in s.heap
                  && r.state.heap[r.font].fullName == made.fullName && Names(r.state, r.font) == {made.fullName})
  {
    hide Names, Extends, SlotsOk, CountsOk, FullMapOk, Enter;
    UnloadedIsNew(s, alloc, name, weight, italic, made);
    var key := MyFont(name, CalcBoldWeight(weight), italic);
    ExtendsItself(s);
    MappedGrown(s, alloc, made, key);
  }

  // ---------------------------------------------------------------- aliases

  lemma AliasedKeepsIff(s: State, p: nat, name: string)
    requires Registry(s) && p in s.heap && s.heap[p].fullName != name
    ensures Registry(Aliased(s, p, name)) <==> name !in s.fullMap
    ensures FontMapOk(Aliased(s, p, name))
    ensures name !in s.fullMap ==> Extends(s, Aliased(s, p, name))
  {
    hide Names, CountsOk, SlotsOk, Extends, FullMapOk;
    assert FontMapOk(Aliased(s, p, name));
    if name in s.fullMap {
      AliasTaken(s, p, name);
    } else {
      AliasedCounts(s, p, name);
      AliasedSlots(s, p, name);
      AliasedMaps(s, p, name);
      AliasedExtends(s, p, name);
    }
  }

  lemma AliasTaken(s: State, p: nat, name: string)
    requires FullMapOk(s) && CountsOk(s) && p in s.heap && s.heap[p].fullName != name && name in s.fullMap
    ensures !CountsOk(Aliased(s, p, name))
  {
    var t := Aliased(s, p, name);
    var q := s.fullMap[name];
    if q == p {
      assert Names(t, p) == Names(s, p);
      assert t.heap[p].count != |Names(t, p)|;
    } else {
      assert Names(t, q) == Names(s, q) - {name};
      assert name in Names(s, q);
      assert t.heap[q].count != |Names(t, q)|;
    }
  }

  // Slots depend on addresses and ids only.
  lemma SameSlots(s: State, t: State)
    requires SlotsOk(s) && t.holder == s.holder && t.fontList == s.fontList
    requires t.heap.Keys == s.heap.Keys && forall q :: q in s.heap ==> t.heap[q].id == s.heap[q].id
    ensures SlotsOk(t)
  {}

  lemma AliasedMaps(s: State, p: nat, name: string)
    requires FullMapOk(s)
    requires p in s.heap && s.heap[p].fullName != name && name !in s.fullMap
    ensures FullMapOk(Aliased(s, p, name))
  {}

  lemma AliasedExtends(s: State, p: nat, name: string)
    requires p in s.heap
    ensures Extends(s, Aliased(s, p, name))
  {}

  lemma AliasedSlots(s: State, p: nat, name: string)
    requires SlotsOk(s) && p in s.heap
    ensures SlotsOk(Aliased(s, p, name))
  {
    hide SlotsOk;
    assert Aliased(s, p, name).heap.Keys == s.heap.Keys;
    SameSlots(s, Aliased(s, p, name));
  }

  lemma AliasedCounts(s: State, p: nat, name: string)
    requires CountsOk(s) && p in s.heap && s.heap[p].fullName != name && name !in s.fullMap
    ensures CountsOk(Aliased(s, p, name))
  {
    var t := Aliased(s, p, name);
    forall q | q in t.heap
      ensures t.heap[q].count == |Names(t, q)|
    {
      NamesAfterNew(s, t, name, p, q);
      assert name !in Names(s, p);
    }
  }

  // The full name the font of AddFont(params) will have.
  function EnteredName(s: State, made: Made): string
    requires FullMapOk(s)
  {
    if made.fullName in s.fullMap then s.heap[s.fullMap[made.fullName]].fullName else made.fullName
  }

  /** AddFont(params) keeps every count equal to the number of full-name keys exactly when the
      full name asked for is not taken yet (or is the font's own): the guard of FindFont(params). */
  lemma AddFontParamsKeepsIff(s: State, alloc: Allocator, params: Params, made: Made)
    requires Registry(s) && Allocates(alloc)
    ensures var r := AddFontParams(s, alloc, params, made);
            && (r.font == 0 <==> params.faceName == "" || made.fullName == "")
            && (Registry(r.state) <==>
                r.font == 0 || params.strFullName !in s.fullMap || params.strFullName == EnteredName(s, made))
            && (Registry(r.state) ==> Grown(s, r))
  {
    hide Names, Extends, SlotsOk, CountsOk;
    ExtendsItself(s);
    if params.faceName != "" && made.fullName != "" {
      var e := Enter(s, alloc, made);
      EnterKeeps(s, alloc, made);
      AddParamsStep(s, e.state, e.font, params);
      HeapSkipsNull(e.state);
    }
  }

  lemma HeapSkipsNull(s: State)
    requires SlotsOk(s)
    ensures 0 !in s.heap
  {}

  lemma AddParamsStep(s: State, e: State, p: nat, params: Params)
    requires Registry(e) && Extends(s, e) && p in e.heap
    ensures var name := params.strFullName;
            var key := MyFont(params.faceName, params.weight, Truth(params.tmItalic));
            var r := Mapped(Aliased(e, p, name), key, p);
            && (Registry(r) <==> name !in e.fullMap || name == e.heap[p].fullName)
            && (Registry(r) ==> Extends(s, r) && p in r.heap)
  {
    hide Names, Extends, SlotsOk, CountsOk, FullMapOk;
    var name := params.strFullName;
    var key := MyFont(params.faceName, params.weight, Truth(params.tmItalic));
    var t := Aliased(e, p, name);
    if name == e.heap[p].fullName {
      ExtendsItself(e);
    } else {
      AliasedKeepsIff(e, p, name);
    }
    MappedRegistryIff(t, key, p);
    if Registry(t) {
      ExtendsTransitive(s, e, t);
      ExtendsTransitive(s, t, Mapped(t, key, p));
    }
  }

  // The secondary map has no part in the rest of the registry.
  lemma MappedRegistryIff(t: State, key: Key, p: nat)
    requires FontMapOk(t) && p in t.heap
    ensures Registry(Mapped(t, key, p)) <==> Registry(t)
    ensures Extends(t, Mapped(t, key, p))
  {
    hide SlotsOk;
    var u := Mapped(t, key, p);
    if SlotsOk(t) {
      SameSlots(t, u);
    }
    if SlotsOk(u) {
      SameSlots(u, t);
    }
    assert forall q :: Names(u, q) == Names(t, q);
  }

  lemma FindFontParamsKeeps(s: State, alloc: Allocator, params: Params, made: Made)
    requires Registry(s) && Allocates(alloc)
    ensures Grown(s, FindFontParams(s, alloc, params, made))
  {
    hide Names, Extends, SlotsOk, CountsOk, FindFont, AddFontParams;
    ExtendsItself(s);
    FindFontKeeps(s, alloc, params.faceName, params.weight, Truth(params.italic), made);
    AddFontParamsKeepsIff(s, alloc, params, made);
  }

  // ---------------------------------------------------------------- what a lookup answers

  // A font that has just been made, and nothing else.
  ghost predicate OneNew(s: State, t: State, p: nat, key: Key, made: Made) {
    && p !in s.heap && p != 0
    && t.heap == s.heap[p := Font(s.holder + 1, made.fullName, 1, made.ggoFont, [], [], 0)]
    && t.holder == s.holder + 1 && t.fontList == s.fontList + [p]
    && t.fontMap == s.fontMap[key := p] && t.fullMap == s.fullMap[made.fullName := p]
  }

  /** The font under the key, unchanged, if there is one; nothing for an empty name or a bitmap
      font; the font that has the full name, which gets the key; or a new one with the next id,
      both keys and the last slot. */
  lemma FindFontAnswers(s: State, alloc: Allocator, name: string, weight: int, italic: int, made: Made)
    requires Allocates(alloc)
    ensures var r := FindFont(s, alloc, name, weight, italic, made);
            var key := MyFont(name, if weight < 700 then 0 else 700, italic);
            if key in s.fontMap then r == Found(s, s.fontMap[key], true)
            else if name == "" || made.fullName == "" then r == Found(s, 0, false)
            else if made.fullName in s.fullMap then
              r.font == s.fullMap[made.fullName] && r.loaded && r.state == s.(fontMap := s.fontMap[key := r.font])
            else !r.loaded && OneNew(s, r.state, r.font, key, made)
  {}

  /** A known full name leads to its font, unchanged, unless it is an alias, for which the face
      name is looked up; an unknown one makes a font or gives the one that the system names a
      second full name, and enters the face name under the weight as it is given. */
  lemma FindFontParamsAnswers(s: State, alloc: Allocator, params: Params, made: Made)
    requires Registry(s) && Allocates(alloc)
    ensures var r := FindFontParams(s, alloc, params, made);
            var full := params.strFullName;
            var key := MyFont(params.faceName, params.weight, Truth(params.tmItalic));
            if full in s.fullMap then
              if s.heap[s.fullMap[full]].fullName == full then r.font == s.fullMap[full] && r.state == s
              else r == FindFont(s, alloc, params.faceName, params.weight, Truth(params.italic), made)
            else if params.faceName == "" || made.fullName == "" then r.font == 0 && r.state == s
            else
              && key in r.state.fontMap && r.state.fontMap[key] == r.font
              && full in r.state.fullMap && r.state.fullMap[full] == r.font
              && made.fullName in r.state.fullMap && r.state.fullMap[made.fullName] == r.font
              && (made.fullName in s.fullMap ==> r.font == s.fullMap[made.fullName] && r.state.heap.Keys == s.heap.Keys)
              && (made.fullName !in s.fullMap ==> r.font !in s.heap && r.state.heap.Keys == s.heap.Keys + {r.font})
              && (forall k :: k in s.fontMap && k != key ==> k in r.state.fontMap && r.state.fontMap[k] == s.fontMap[k])
              && (forall k :: k in s.fullMap ==> k in r.state.fullMap && r.state.fullMap[k] == s.fullMap[k])
  {
    hide CountsOk, SlotsOk, FindFont;
  }

  // ---------------------------------------------------------------- finding again

  /** A font that was found is found again under the same face name, slant and boldness,
      whatever the system says by then, and finding it changes nothing. */
  lemma FindAgain(s: State, alloc: Allocator, name: string, weight: int, italic: int, made: Made,
                  alloc': Allocator, weight': int, made': Made)
    requires FindFont(s, alloc, name, weight, italic, made).font != 0
    requires weight < 700 <==> weight' < 700
    ensures var r := FindFont(s, alloc, name, weight, italic, made);
            FindFont(r.state, alloc', name, weight', italic, made') == Found(r.state, r.font, true)
  {}

  /** A font found by parameters is the one its full name leads to. Asked for again it is found
      again; under an alias exactly when its face name does not lead elsewhere. */
  lemma FindParamsAgain(s: State, alloc: Allocator, params: Params, made: Made, alloc': Allocator)
    requires Registry(s) && Allocates(alloc) && params.strFullName !in s.fullMap
    requires FindFontParams(s, alloc, params, made).font != 0
    ensures var r := FindFontParams(s, alloc, params, made);
            var key := MyFont(params.faceName, CalcBoldWeight(params.weight), Truth(params.italic));
            && FullMapOk(r.state) && r.font in r.state.heap
            && params.strFullName in r.state.fullMap && r.state.fullMap[params.strFullName] == r.font
            && (FindFontParams(r.state, alloc', params, made).font == r.font <==>
                  r.state.heap[r.font].fullName == params.strFullName ||
                  key !in r.state.fontMap || r.state.fontMap[key] == r.font)
  {
    hide SlotsOk, CountsOk, Extends, Names;
    FindFontParamsKeeps(s, alloc, params, made);
    var e := Enter(s, alloc, made);
    EnterKeeps(s, alloc, made);
    assert made.fullName in e.state.fullMap && e.state.fullMap[made.fullName] == e.font;
    assert params.strFullName in FindFontParams(s, alloc, params, made).state.fullMap;
  }

  /** The key that AddFont(params) enters is the one a later lookup by face name computes
      exactly for the weights 0 and 700 and equal slants; other keys are never looked up. */
  lemma ParamsKeyIsLookupKeyIff(name: string, weight: int, tmItalic: int, italic: int)
    requires 0 <= weight < 0x8000_0000
    ensures MyFont(name, weight, Truth(tmItalic)) == MyFont(name, CalcBoldWeight(weight), Truth(italic))
            <==> (weight == 0 || weight == 700) && (tmItalic == 0 <==> italic == 0)
  {}

  // ---------------------------------------------------------------- removing

  function Without<K>(m: map<K, nat>, p: nat): map<K, nat> {
    map k | k in m && m[k] != p :: m[k]
  }

  lemma WithoutValues<K>(m: map<K, nat>, p: nat)
    ensures Without(m, p).Values == set k | k in m && m[k] != p :: m[k]
  {
    var w := Without(m, p);
    forall x | x in w.Values
      ensures exists k :: k in m && m[k] != p && m[k] == x
    {
      var k :| k in w && w[k] == x;
      assert k in m;
    }
    forall k | k in m && m[k] != p
      ensures m[k] in w.Values
    {
      assert w[k] == m[k];
    }
  }

  // UpdateFontSetting
  function Unlinked(f: Font): Font {
    f.(faceIdLink := [], ggoLink := [], simSunId := 0)
  }

  // RemoveFont(fontinfo)
  function RemoveFont(s: State, p: nat): State {
    var kept := Without(s.fullMap, p);
    State(s.holder,
          map q | q in s.heap && q != p :: if q in kept.Values then Unlinked(s.heap[q]) else s.heap[q],
          Without(s.fontMap, p), kept, s.fontList)
  }

  // An entry of the array the system gives for a font file; a zero `head` byte ends the array.
  datatype Entry = Entry(head: nat, faceName: string, weight: int, italic: int, made: Made)

  // RemoveThisFont(fontinfo, lg)
  function RemoveThisFont(s: State, p: nat, entry: Entry): State
    requires p in s.heap
  {
    State(s.holder, s.heap - {p},
          s.fontMap - {MyFont(entry.faceName, CalcBoldWeight(entry.weight), entry.italic)},
          s.fullMap - {s.heap[p].fullName}, s.fontList)
  }

  function ClearSlot(s: State, id: int): State {
    if 1 <= id <= |s.fontList| then s.(fontList := s.fontList[id - 1 := 0]) else s
  }

  function FindEntry(s: State, alloc: Allocator, entry: Entry): Found {
    FindFont(s, alloc, entry.faceName, entry.weight, Truth(entry.italic), entry.made)
  }

  // The body of the loop in RemoveFont(FontName).
  ghost function RemoveEntry(s: State, alloc: Allocator, entry: Entry): State
    requires Registry(s) && Allocates(alloc)
  {
    FindFontKeeps(s, alloc, entry.faceName, entry.weight, Truth(entry.italic), entry.made);
    var r := FindEntry(s, alloc, entry);
    if r.font == 0 then r.state
    else
      var id := r.state.heap[r.font].id;
      ClearSlot(if r.loaded then RemoveFont(r.state, r.font) else RemoveThisFont(r.state, r.font, entry), id)
  }

  // A slot used up by a font that came and went.
  function Retired(s: State): State {
    s.(holder := s.holder + 1, fontList := s.fontList + [0])
  }

  lemma RetiredKeeps(s: State)
    requires Valid(s)
    ensures Valid(Retired(s))
  {
    hide Links;
    var t := Retired(s);
    assert SlotsOk(t);
    hide SlotsOk;
    forall q | q in t.heap
      ensures t.heap[q].count == |Names(t, q)| && LinksOk(t, q)
    {
      assert Names(t, q) == Names(s, q);
      assert LinksOk(s, q);
      LinksKept(s, t, s.heap[q].faceIdLink, s.heap[q].ggoLink);
    }
  }

  /** Removing a font that was not loaded undoes the addition that finding it made, up to the
      used slot, and up to the key that a raw italic byte may miss. */
  lemma RemovingUnloadedUndoes(s: State, alloc: Allocator, entry: Entry)
    requires Registry(s) && Allocates(alloc)
    requires var r := FindEntry(s, alloc, entry); r.font != 0 && !r.loaded
    ensures var p := alloc(s.holder + 1, s.heap.Keys);
            var key := MyFont(entry.faceName, CalcBoldWeight(entry.weight), Truth(entry.italic));
            var raw := MyFont(entry.faceName, CalcBoldWeight(entry.weight), entry.italic);
            && key !in s.fontMap
            && RemoveEntry(s, alloc, entry) ==
               Retired(s).(fontMap := if PlainItalic(entry.italic) then s.fontMap else s.fontMap[key := p] - {raw})
  {
    var key := MyFont(entry.faceName, CalcBoldWeight(entry.weight), Truth(entry.italic));
    var p := alloc(s.holder + 1, s.heap.Keys);
    var u := Mapped(WithNew(s, p, entry.made), key, p);
    assert FindEntry(s, alloc, entry) == Found(u, p, false);
    RemovedFresh(s, p, key, entry);
  }

  lemma RemovedFresh(s: State, p: nat, key: Key, entry: Entry)
    requires s.holder == |s.fontList| && p !in s.heap
    requires entry.made.fullName !in s.fullMap && key !in s.fontMap
    requires key == MyFont(entry.faceName, CalcBoldWeight(entry.weight), Truth(entry.italic))
    ensures var raw := MyFont(entry.faceName, CalcBoldWeight(entry.weight), entry.italic);
            var u := Mapped(WithNew(s, p, entry.made), key, p);
            ClearSlot(RemoveThisFont(u, p, entry), s.holder + 1) ==
            Retired(s).(fontMap := if PlainItalic(entry.italic) then s.fontMap else s.fontMap[key := p] - {raw})
  {
    var raw := MyFont(entry.faceName, CalcBoldWeight(entry.weight), entry.italic);
    RawKeyAgreesIff(entry.faceName, entry.weight, entry.italic);
    var u := Mapped(WithNew(s, p, entry.made), key, p);
    var t := ClearSlot(RemoveThisFont(u, p, entry), s.holder + 1);
    assert t.heap == s.heap;
    assert t.fullMap == s.fullMap;
    assert t.fontList == s.fontList + [0];
    if raw == key {
      assert s.fontMap[key := p] - {key} == s.fontMap;
    }
  }

  lemma RemovedSlots(s: State, p: nat)
    requires SlotsOk(s) && p in s.heap
    ensures SlotsOk(ClearSlot(RemoveFont(s, p), s.heap[p].id))
  {
    var t := ClearSlot(RemoveFont(s, p), s.heap[p].id);
    RemovedIds(s, p);
    hide RemoveFont;
    SlotsWithout(s, t, p);
  }

  lemma RemovedIds(s: State, p: nat)
    ensures var r := RemoveFont(s, p);
            && r.heap.Keys == s.heap.Keys - {p} && r.holder == s.holder && r.fontList == s.fontList
            && forall q :: q in r.heap ==> r.heap[q].id == s.heap[q].id
  {}

  lemma SlotsWithout(s: State, t: State, p: nat)
    requires SlotsOk(s) && p in s.heap
    requires t.holder == s.holder && t.heap.Keys == s.heap.Keys - {p}
    requires forall q :: q in t.heap ==> t.heap[q].id == s.heap[q].id
    requires var i := s.heap[p].id - 1; 0 <= i < |s.fontList| && t.fontList == s.fontList[i := 0]
    ensures SlotsOk(t)
  {
    forall i | 0 <= i < |t.fontList| && t.fontList[i] != 0
      ensures t.fontList[i] in t.heap && t.heap[t.fontList[i]].id == i + 1
    {
      assert s.fontList[i] in s.heap;
    }
    forall q | q in t.heap
      ensures 1 <= t.heap[q].id <= |t.fontList| && t.fontList[t.heap[q].id - 1] == q
    {
      assert q in s.heap && q != p;
    }
  }

  lemma RemovedMaps(s: State, p: nat)
    requires FontMapOk(s) && FullMapOk(s) && p in s.heap
    ensures var t := ClearSlot(RemoveFont(s, p), s.heap[p].id); FontMapOk(t) && FullMapOk(t)
  {}

  lemma RemovedCounts(s: State, p: nat)
    requires CountsOk(s) && p in s.heap
    ensures CountsOk(ClearSlot(RemoveFont(s, p), s.heap[p].id))
  {
    var t := ClearSlot(RemoveFont(s, p), s.heap[p].id);
    forall q | q in t.heap
      ensures t.heap[q].count == |Names(t, q)|
    {
      assert Names(t, q) == Names(s, q);
    }
  }

  // Every font that remains has a full name, so every link list is cleared.
  lemma RemovedLinks(s: State, p: nat)
    requires FullMapOk(s)
    ensures forall q :: q in RemoveFont(s, p).heap ==> RemoveFont(s, p).heap[q] == Unlinked(s.heap[q])
  {
    var kept := Without(s.fullMap, p);
    forall q | q in s.heap && q != p
      ensures q in kept.Values
    {
      assert kept[s.heap[q].fullName] == q;
    }
  }

  /** After a removal no key leads to the font, every other key leads where it did, and the
      registry is consistent. */
  lemma RemoveFontKeeps(s: State, p: nat)
    requires Registry(s) && p in s.heap
    ensures var t := ClearSlot(RemoveFont(s, p), s.heap[p].id);
            && Valid(t) && t.heap.Keys == s.heap.Keys - {p}
            && (forall k :: k in t.fontMap <==> k in s.fontMap && s.fontMap[k] != p)
            && (forall k :: k in t.fontMap ==> t.fontMap[k] == s.fontMap[k])
            && (forall k :: k in t.fullMap <==> k in s.fullMap && s.fullMap[k] != p)
            && (forall k :: k in t.fullMap ==> t.fullMap[k] == s.fullMap[k])
  {
    hide SlotsOk, CountsOk, FontMapOk, FullMapOk, LinksOk, RemoveFont;
    RemovedSlots(s, p);
    RemovedMaps(s, p);
    RemovedCounts(s, p);
    RemovedLinks(s, p);
    RemovedKeys(s, p);
    var t := ClearSlot(RemoveFont(s, p), s.heap[p].id);
    forall q | q in t.heap
      ensures LinksOk(t, q)
    {
      UnlinkedOk(t, q, s.heap[q]);
    }
  }

  lemma UnlinkedOk(t: State, q: nat, f: Font)
    requires q in t.heap && t.heap[q] == Unlinked(f)
    ensures LinksOk(t, q)
  {}

  lemma RemovedKeys(s: State, p: nat)
    ensures var t := RemoveFont(s, p);
            && t.heap.Keys == s.heap.Keys - {p}
            && (forall k :: k in t.fontMap <==> k in s.fontMap && s.fontMap[k] != p)
            && (forall k :: k in t.fontMap ==> t.fontMap[k] == s.fontMap[k])
            && (forall k :: k in t.fullMap <==> k in s.fullMap && s.fullMap[k] != p)
            && (forall k :: k in t.fullMap ==> t.fullMap[k] == s.fullMap[k])
  {}

  lemma NoneFound(s: State, alloc: Allocator, entry: Entry)
    requires Registry(s) && Allocates(alloc) && FindEntry(s, alloc, entry).font == 0
    ensures FindEntry(s, alloc, entry).state == s
  {
    hide CountsOk;
  }

  /** Removing a file's font keeps the registry exactly when the font had been loaded, is none,
      or the italic byte is zero or odd; otherwise the font map keeps a dangling pointer. */
  lemma RemoveEntryKeepsIff(s: State, alloc: Allocator, entry: Entry)
    requires Valid(s) && Allocates(alloc)
    ensures var r := FindEntry(s, alloc, entry);
            Valid(RemoveEntry(s, alloc, entry)) <==> r.font == 0 || r.loaded || PlainItalic(entry.italic)
  {
    hide SlotsOk, CountsOk, FullMapOk, LinksOk, Extends;
    var r := FindEntry(s, alloc, entry);
    var t := RemoveEntry(s, alloc, entry);
    FindFontKeeps(s, alloc, entry.faceName, entry.weight, Truth(entry.italic), entry.made);
    if r.font == 0 {
      NoneFound(s, alloc, entry);
    } else if r.loaded {
      RemoveFontKeeps(r.state, r.font);
    } else {
      RemovingUnloadedUndoes(s, alloc, entry);
      if PlainItalic(entry.italic) {
        RetiredKeeps(s);
        assert t == Retired(s);
      } else {
        var p := alloc(s.holder + 1, s.heap.Keys);
        var key := MyFont(entry.faceName, CalcBoldWeight(entry.weight), Truth(entry.italic));
        RawKeyAgreesIff(entry.faceName, entry.weight, entry.italic);
        assert t.fontMap[key] == p && p !in t.heap;
      }
    }
  }

  // The condition of RemoveEntryKeepsIff for every entry the loop comes to.
  ghost predicate Removable(s: State, alloc: Allocator, entries: seq<Entry>)
    requires Valid(s) && Allocates(alloc)
    decreases |entries|
  {
    entries == [] || entries[0].head == 0 ||
    (EntryRemovable(s, alloc, entries[0]) && Removable(RemoveOne(s, alloc, entries[0]), alloc, entries[1..]))
  }

  ghost predicate EntryRemovable(s: State, alloc: Allocator, entry: Entry) {
    var r := FindEntry(s, alloc, entry);
    r.font == 0 || r.loaded || PlainItalic(entry.italic)
  }

  ghost function RemoveOne(s: State, alloc: Allocator, entry: Entry): (t: State)
    requires Valid(s) && Allocates(alloc) && EntryRemovable(s, alloc, entry)
    ensures Valid(t)
  {
    RemoveEntryKeepsIff(s, alloc, entry);
    RemoveEntry(s, alloc, entry)
  }

  // The loop of RemoveFont(FontName).
  ghost function RemoveFile(s: State, alloc: Allocator, entries: seq<Entry>): (t: State)
    requires Valid(s) && Allocates(alloc) && Removable(s, alloc, entries)
    ensures Valid(t)
    decreases |entries|
  {
    if entries == [] || entries[0].head == 0 then s
    else RemoveFile(RemoveOne(s, alloc, entries[0]), alloc, entries[1..])
  }

  /** The system's own italic bytes, 0 and 255, always meet the condition. */
  lemma {:induction false} PlainIsRemovable(s: State, alloc: Allocator, entries: seq<Entry>)
    requires Valid(s) && Allocates(alloc)
    requires forall e :: e in entries ==> PlainItalic(e.italic)
    ensures Removable(s, alloc, entries)
    decreases |entries|
  {
    hide Registry, LinksOk, FindFont, RemoveEntry;
    if entries != [] && entries[0].head != 0 {
      PlainIsRemovable(RemoveOne(s, alloc, entries[0]), alloc, entries[1..]);
    }
  }

  // ---------------------------------------------------------------- what removing a file removes

  // The font an entry names among those of s that are not gone: by its face name, weight and
  // slant, or else by the full name the system gives.
  ghost function Victim(s: State, e: Entry, gone: set<nat>): set<nat> {
    var key := MyFont(e.faceName, if e.weight < 700 then 0 else 700, if e.italic == 0 then 0 else 1);
    var full := e.made.fullName;
    if key in s.fontMap && s.fontMap[key] !in gone then {s.fontMap[key]}
    else if e.faceName != "" && full != "" && full in s.fullMap && s.fullMap[full] !in gone then {s.fullMap[full]}
    else {}
  }

  // The fonts named by the entries in front of the terminator, one after the other.
  ghost function Victims(s: State, entries: seq<Entry>, gone: set<nat>): set<nat> {
    if entries == [] || entries[0].head == 0 then gone
    else Victims(s, entries[1..], gone + Victim(s, entries[0], gone))
  }

  ghost predicate ClearedFonts(s: State, u: State, gone: set<nat>) {
    && gone <= s.heap.Keys
    && u.heap.Keys == s.heap.Keys - gone
    && forall q :: q in u.heap ==> u.heap[q] == if gone == {} then s.heap[q] else Unlinked(s.heap[q])
  }

  ghost predicate ClearedMaps(s: State, u: State, gone: set<nat>) {
    && (forall k :: k in u.fontMap <==> k in s.fontMap && s.fontMap[k] !in gone)
    && (forall k :: k in u.fontMap ==> u.fontMap[k] == s.fontMap[k])
    && (forall k :: k in u.fullMap <==> k in s.fullMap && s.fullMap[k] !in gone)
    && (forall k :: k in u.fullMap ==> u.fullMap[k] == s.fullMap[k])
  }

  ghost predicate ClearedSlots(s: State, u: State, gone: set<nat>) {
    && |u.fontList| >= |s.fontList|
    && (forall i :: 0 <= i < |s.fontList| ==> u.fontList[i] == if s.fontList[i] in gone then 0 else s.fontList[i])
    && (forall i :: |s.fontList| <= i < |u.fontList| ==> u.fontList[i] == 0)
  }

  // u is s without the fonts that are gone: they are in no map, no slot and no longer
  // allocated; the others keep all their keys and slots; links are reset once a font is gone.
  ghost predicate Cleared(s: State, u: State, gone: set<nat>) {
    ClearedFonts(s, u, gone) && ClearedMaps(s, u, gone) && ClearedSlots(s, u, gone)
  }

  // One round that finds a loaded font takes exactly that font away.
  lemma LoadedRound(u: State, alloc: Allocator, e: Entry)
    requires Registry(u) && Allocates(alloc) && FindEntry(u, alloc, e).loaded
    ensures var p := FindEntry(u, alloc, e).font;
            var v := RemoveEntry(u, alloc, e);
            && p in u.heap && Victim(u, e, {}) == {p}
            && Cleared(u, v, {p})
  {
    hide Registry, Extends, SlotsOk, Victim, FindEntry, RemoveFont, Cleared;
    var r := FindEntry(u, alloc, e);
    RegistryParts(u);
    FoundLoaded(u, alloc, e);
    assert RemoveEntry(u, alloc, e) == ClearSlot(RemoveFont(r.state, r.font), u.heap[r.font].id);
    LoadedCleared(u, r.state, r.font, MyFont(e.faceName, CalcBoldWeight(e.weight), Truth(e.italic)));
  }

  lemma RegistryParts(u: State)
    requires Registry(u)
    ensures SlotsOk(u) && FontMapOk(u) && FullMapOk(u)
  {}

  lemma LoadedCleared(u: State, r: State, p: nat, key: Key)
    requires SlotsOk(u) && FontMapOk(u) && FullMapOk(u) && p in u.heap
    requires r.heap == u.heap && r.fullMap == u.fullMap && r.fontList == u.fontList
    requires r.fontMap == u.fontMap || (key !in u.fontMap && r.fontMap == u.fontMap[key := p])
    ensures Cleared(u, ClearSlot(RemoveFont(r, p), u.heap[p].id), {p})
  {
    hide SlotsOk, RemoveFont;
    var v := ClearSlot(RemoveFont(r, p), u.heap[p].id);
    RemovedKeys(r, p);
    RemovedLinks(r, p);
    RemovedSlot(u, p);
    SameList(r, p);
    assert ClearedFonts(u, v, {p});
    assert ClearedMaps(u, v, {p});
    assert ClearedSlots(u, v, {p});
  }

  lemma SameList(r: State, p: nat)
    ensures RemoveFont(r, p).fontList == r.fontList
  {}

  lemma FoundLoaded(u: State, alloc: Allocator, e: Entry)
    requires FontMapOk(u) && FullMapOk(u) && SlotsOk(u) && FindEntry(u, alloc, e).loaded
    ensures var r := FindEntry(u, alloc, e);
            var key := MyFont(e.faceName, CalcBoldWeight(e.weight), Truth(e.italic));
            && r.font in u.heap && r.font != 0 && Victim(u, e, {}) == {r.font}
            && r.state.heap == u.heap && r.state.fullMap == u.fullMap && r.state.fontList == u.fontList
            && (r.state.fontMap == u.fontMap || r.state.fontMap == u.fontMap[key := r.font])
            && (key in u.fontMap ==> r.state.fontMap == u.fontMap)
  {}

  lemma RemovedSlot(u: State, p: nat)
    requires SlotsOk(u) && p in u.heap
    ensures 1 <= u.heap[p].id <= |u.fontList|
    ensures forall i :: 0 <= i < |u.fontList| ==>
              u.fontList[u.heap[p].id - 1 := 0][i] == if u.fontList[i] == p then 0 else u.fontList[i]
  {}

  // A round that finds no loaded font leaves everything but a used slot.
  lemma UnloadedRound(u: State, alloc: Allocator, e: Entry)
    requires Valid(u) && Allocates(alloc) && EntryRemovable(u, alloc, e) && !FindEntry(u, alloc, e).loaded
    ensures Victim(u, e, {}) == {}
    ensures Cleared(u, RemoveEntry(u, alloc, e), {})
  {
    hide Registry, LinksOk, Extends, RemoveEntry, FindEntry, Victim, Cleared;
    RegistryParts(u);
    NoVictim(u, alloc, e);
    EntryLeaves(u, alloc, e);
    ClearedItself(u);
    RetiredClears(u);
  }

  lemma NoVictim(u: State, alloc: Allocator, e: Entry)
    requires !FindEntry(u, alloc, e).loaded
    ensures Victim(u, e, {}) == {}
  {}

  lemma EntryLeaves(u: State, alloc: Allocator, e: Entry)
    requires Registry(u) && Allocates(alloc) && EntryRemovable(u, alloc, e) && !FindEntry(u, alloc, e).loaded
    ensures RemoveEntry(u, alloc, e) == u || RemoveEntry(u, alloc, e) == Retired(u)
  {
    hide Registry, FindFont, RemoveFont, RemoveThisFont, ClearSlot;
    if FindEntry(u, alloc, e).font == 0 {
      NoneFound(u, alloc, e);
    } else {
      RemovingUnloadedUndoes(u, alloc, e);
    }
  }

  lemma RetiredClears(u: State)
    ensures Cleared(u, Retired(u), {})
  {}

  // Two clearances in a row.
  lemma ClearedTwice(s: State, u: State, v: State, gone: set<nat>, more: set<nat>)
    requires Cleared(s, u, gone) && Cleared(u, v, more) && more !! gone
    requires 0 !in s.heap
    ensures Cleared(s, v, gone + more)
  {
    ClearedFontsTwice(s, u, v, gone, more);
    hide ClearedFonts;
    assert ClearedMaps(s, v, gone + more);
  }

  lemma ClearedFontsTwice(s: State, u: State, v: State, gone: set<nat>, more: set<nat>)
    requires ClearedFonts(s, u, gone) && ClearedFonts(u, v, more)
    ensures ClearedFonts(s, v, gone + more)
  {}

  // What an entry names among the fonts of u is what it names among those of s not gone.
  lemma SameVictim(s: State, u: State, e: Entry, gone: set<nat>)
    requires ClearedMaps(s, u, gone)
    ensures Victim(u, e, {}) == Victim(s, e, gone)
  {}

  lemma Round(s: State, u: State, gone: set<nat>, alloc: Allocator, e: Entry)
    requires Valid(u) && Allocates(alloc) && EntryRemovable(u, alloc, e)
    requires Cleared(s, u, gone) && 0 !in s.heap
    ensures Cleared(s, RemoveOne(u, alloc, e), gone + Victim(s, e, gone))
    ensures FindEntry(u, alloc, e).loaded <==> Victim(s, e, gone) != {}
  {
    hide Registry, LinksOk, RemoveEntry, FindEntry, Victim;
    SameVictim(s, u, e, gone);
    var v := RemoveOne(u, alloc, e);
    if FindEntry(u, alloc, e).loaded {
      assert Registry(u);
      LoadedRound(u, alloc, e);
    } else {
      UnloadedRound(u, alloc, e);
    }
    ClearedTwice(s, u, v, gone, Victim(s, e, gone));
  }

  lemma NoNull(s: State)
    requires Valid(s)
    ensures 0 !in s.heap
  {
    hide CountsOk, FontMapOk, FullMapOk, LinksOk;
  }

  lemma ClearedItself(s: State)
    ensures Cleared(s, s, {})
  {}

  /** Removing a file takes away exactly the fonts its entries name, all of them up to the
      terminator: they are left in no map, no slot and not allocated, and every other font keeps
      its keys and its slot. */
  lemma {:induction false} RemoveFileClears(s: State, u: State, gone: set<nat>, alloc: Allocator, entries: seq<Entry>)
    requires Valid(u) && Allocates(alloc) && Removable(u, alloc, entries)
    requires Cleared(s, u, gone) && 0 !in s.heap
    ensures Cleared(s, RemoveFile(u, alloc, entries), Victims(s, entries, gone))
    decreases |entries|
  {
    hide Registry, LinksOk, RemoveEntry, FindEntry, Victim, Cleared;
    if entries != [] && entries[0].head != 0 {
      Round(s, u, gone, alloc, entries[0]);
      RemoveFileClears(s, RemoveOne(u, alloc, entries[0]), gone + Victim(s, entries[0], gone), alloc, entries[1..]);
    }
  }

  // The entries in front of the terminator.
  function Listed(entries: seq<Entry>): seq<Entry> {
    if entries == [] || entries[0].head == 0 then [] else [entries[0]] + Listed(entries[1..])
  }

  /** No listed entry's key is left, whatever font it led to. */
  lemma {:induction false} ListedAreGone(s: State, entries: seq<Entry>, gone: set<nat>, e: Entry)
    requires e in Listed(entries)
    ensures gone <= Victims(s, entries, gone)
    ensures var key := MyFont(e.faceName, CalcBoldWeight(e.weight), Truth(e.italic));
            key in s.fontMap ==> s.fontMap[key] in Victims(s, entries, gone)
    decreases |entries|
  {
    VictimsGrow(s, entries, gone);
    var more := gone + Victim(s, entries[0], gone);
    VictimsGrow(s, entries[1..], more);
    if e != entries[0] {
      ListedAreGone(s, entries[1..], more, e);
    }
  }

  lemma {:induction false} VictimsGrow(s: State, entries: seq<Entry>, gone: set<nat>)
    ensures gone <= Victims(s, entries, gone)
  {
    if entries != [] && entries[0].head != 0 {
      VictimsGrow(s, entries[1..], gone + Victim(s, entries[0], gone));
    }
  }

  /** And only fonts that some listed entry names are taken away. */
  lemma {:induction false} VictimsAreNamed(s: State, entries: seq<Entry>, gone: set<nat>, p: nat)
    requires p in Victims(s, entries, gone) && p !in gone
    ensures exists e :: e in Listed(entries) &&
              var key := MyFont(e.faceName, CalcBoldWeight(e.weight), Truth(e.italic));
              || (key in s.fontMap && s.fontMap[key] == p)
              || (e.made.fullName in s.fullMap && s.fullMap[e.made.fullName] == p)
    decreases |entries|
  {
    var more := gone + Victim(s, entries[0], gone);
    if p in more {
      assert entries[0] in Listed(entries);
    } else {
      VictimsAreNamed(s, entries[1..], more, p);
    }
  }

  // ---------------------------------------------------------------- font links

  // A name of the enumerator, whether it is the font's own family name, what CopyForceFont then
  // puts in its place, whether it is that of the SimSun font, and what the system knows about
  // the name that is looked up.
  datatype Asked = Asked(name: string, own: bool, forced: string, isSimSun: bool, made: Made) {
    function LookedUp(): string {
      if own then forced else name
    }
  }

  function AddLink(s: State, p: nat, q: nat, isSimSun: bool): State
    requires p in s.heap && q in s.heap
  {
    var f := s.heap[p];
    s.(heap := s.heap[p := f.(
      faceIdLink := f.faceIdLink + [s.heap[q].id],
      ggoLink := f.ggoLink + [s.heap[q].ggoFont],
      simSunId := if f.simSunId == 0 && isSimSun then s.heap[q].id else f.simSunId)])
  }

  lemma AddLinkRegistry(s: State, p: nat, q: nat, simSun: bool)
    requires Registry(s) && p in s.heap && q in s.heap
    ensures Registry(AddLink(s, p, q, simSun))
  {
    hide SlotsOk;
    var t := AddLink(s, p, q, simSun);
    assert t.heap.Keys == s.heap.Keys;
    SameSlots(s, t);
    assert forall x :: Names(t, x) == Names(s, x);
  }

  // The loop of Createlink; `seen` is linkset.
  ghost function LinkNames(s: State, alloc: Allocator, p: nat, names: seq<Asked>, seen: set<int>): State
    requires Registry(s) && Allocates(alloc) && p in s.heap
    decreases |names|
  {
    if names == [] then s
    else
      FindFontKeeps(s, alloc, names[0].LookedUp(), 0, 0, names[0].made);
      var r := FindFont(s, alloc, names[0].LookedUp(), 0, 0, names[0].made);
      if r.font == 0 || r.state.heap[r.font].id in seen then LinkNames(r.state, alloc, p, names[1..], seen)
      else
        AddLinkRegistry(r.state, p, r.font, names[0].isSimSun);
        LinkNames(AddLink(r.state, p, r.font, names[0].isSimSun), alloc, p, names[1..], seen + {r.state.heap[r.font].id})
  }

  ghost function Createlink(s: State, alloc: Allocator, p: nat, names: seq<Asked>): State
    requires Registry(s) && Allocates(alloc) && p in s.heap
  {
    AddLinkRegistry(s, p, p, false);
    LinkNames(AddLink(s, p, p, false), alloc, p, names, {s.heap[p].id})
  }

  ghost function GetFTLink(s: State, alloc: Allocator, p: nat, names: seq<Asked>): State
    requires Registry(s) && Allocates(alloc) && p in s.heap
  {
    var l := s.heap[p].faceIdLink;
    if l == [] || l[0] == 0 then Createlink(s, alloc, p, names) else s
  }

  ghost function GetGGOLink(s: State, alloc: Allocator, p: nat, names: seq<Asked>): State
    requires Registry(s) && Allocates(alloc) && p in s.heap
  {
    var l := s.heap[p].ggoLink;
    if l == [] || l[0] == 0 then Createlink(s, alloc, p, names) else s
  }

  lemma AddLinkLinks(s: State, p: nat, q: nat, simSun: bool)
    requires SlotsOk(s) && p in s.heap && q in s.heap
    requires forall x :: x in s.heap ==> LinksOk(s, x)
    requires s.heap[q].id !in s.heap[p].faceIdLink
    requires s.heap[p].faceIdLink == [] ==> q == p
    requires |s.heap[p].faceIdLink| <= MAX_LINK_NAMES
    ensures forall x :: x in s.heap ==> LinksOk(AddLink(s, p, q, simSun), x)
  {
    hide LinksOk, Links;
    forall x | x in s.heap
      ensures LinksOk(AddLink(s, p, q, simSun), x)
    {
      if x == p {
        SlotOf(s, q);
        AddLinkOwn(s, p, q, simSun);
      } else {
        AddLinkOther(s, p, q, simSun, x);
      }
    }
  }

  lemma SlotOf(s: State, q: nat)
    requires SlotsOk(s) && q in s.heap
    ensures 1 <= s.heap[q].id <= |s.fontList| && s.fontList[s.heap[q].id - 1] == q
  {}

  lemma AddLinkOther(s: State, p: nat, q: nat, simSun: bool, x: nat)
    requires p in s.heap && q in s.heap && x in s.heap && x != p && LinksOk(s, x)
    ensures LinksOk(AddLink(s, p, q, simSun), x)
  {
    hide Links;
    SameLinks(s, AddLink(s, p, q, simSun), s.heap[x].faceIdLink, s.heap[x].ggoLink);
  }

  lemma AddLinkOwn(s: State, p: nat, q: nat, simSun: bool)
    requires p in s.heap && q in s.heap && LinksOk(s, p)
    requires 1 <= s.heap[q].id <= |s.fontList| && s.fontList[s.heap[q].id - 1] == q
    requires s.heap[q].id !in s.heap[p].faceIdLink
    requires s.heap[p].faceIdLink == [] ==> q == p
    requires |s.heap[p].faceIdLink| <= MAX_LINK_NAMES
    ensures LinksOk(AddLink(s, p, q, simSun), p)
  {
    hide Links;
    var t := AddLink(s, p, q, simSun);
    SameLinks(s, t, s.heap[p].faceIdLink, s.heap[p].ggoLink);
    AppendLink(t, s.heap[p].faceIdLink, s.heap[p].ggoLink, q);
  }

  lemma SameLinks(s: State, t: State, ids: seq<int>, handles: seq<nat>)
    requires Links(s, ids, handles) && t.fontList == s.fontList
    requires forall p :: p in s.heap ==> p in t.heap && t.heap[p].ggoFont == s.heap[p].ggoFont
    ensures Links(t, ids, handles)
  {}

  lemma AppendLink(s: State, ids: seq<int>, handles: seq<nat>, q: nat)
    requires Links(s, ids, handles)
    requires q in s.heap && 1 <= s.heap[q].id <= |s.fontList| && s.fontList[s.heap[q].id - 1] == q
    requires s.heap[q].id !in ids
    ensures Links(s, ids + [s.heap[q].id], handles + [s.heap[q].ggoFont])
  {}

  lemma {:induction false} LinkNamesKeeps(s: State, alloc: Allocator, p: nat, names: seq<Asked>, seen: set<int>)
    requires Valid(s) && Allocates(alloc) && p in s.heap
    requires s.heap[p].faceIdLink != [] && seen == set x | x in s.heap[p].faceIdLink
    requires |s.heap[p].faceIdLink| + |names| <= MAX_LINK_NAMES + 1
    ensures Valid(LinkNames(s, alloc, p, names, seen))
    decreases |names|
  {
    hide SlotsOk, CountsOk, FontMapOk, FullMapOk, LinksOk, FindFont;
    if names != [] {
      FindFontKeeps(s, alloc, names[0].LookedUp(), 0, 0, names[0].made);
      var r := FindFont(s, alloc, names[0].LookedUp(), 0, 0, names[0].made);
      ExtendsLinks(s, r.state);
      if r.font == 0 || r.state.heap[r.font].id in seen {
        LinkNamesKeeps(r.state, alloc, p, names[1..], seen);
      } else {
        AddLinkRegistry(r.state, p, r.font, names[0].isSimSun);
        AddLinkLinks(r.state, p, r.font, names[0].isSimSun);
        LinkNamesKeeps(AddLink(r.state, p, r.font, names[0].isSimSun), alloc, p, names[1..], seen + {r.state.heap[r.font].id});
      }
    }
  }

  // Links are only appended.
  lemma {:induction false} LinkNamesAppends(s: State, alloc: Allocator, p: nat, names: seq<Asked>, seen: set<int>)
    requires Registry(s) && Allocates(alloc) && p in s.heap
    ensures var t := LinkNames(s, alloc, p, names, seen);
            p in t.heap && s.heap[p].faceIdLink <= t.heap[p].faceIdLink
    decreases |names|
  {
    hide SlotsOk, CountsOk, FontMapOk, FullMapOk, FindFont;
    if names != [] {
      FindFontKeeps(s, alloc, names[0].LookedUp(), 0, 0, names[0].made);
      var r := FindFont(s, alloc, names[0].LookedUp(), 0, 0, names[0].made);
      if r.font == 0 || r.state.heap[r.font].id in seen {
        LinkNamesAppends(r.state, alloc, p, names[1..], seen);
      } else {
        AddLinkRegistry(r.state, p, r.font, names[0].isSimSun);
        LinkNamesAppends(AddLink(r.state, p, r.font, names[0].isSimSun), alloc, p, names[1..], seen + {r.state.heap[r.font].id});
      }
    }
  }

  /** Building the links of a font keeps the lists free of duplicates and inside the arrays
      exactly when that font has no links yet. */
  lemma CreatelinkKeepsIff(s: State, alloc: Allocator, p: nat, names: seq<Asked>)
    requires Valid(s) && Allocates(alloc) && p in s.heap && |names| <= MAX_LINK_NAMES
    ensures Valid(Createlink(s, alloc, p, names)) <==> s.heap[p].faceIdLink == []
  {
    hide SlotsOk, CountsOk, FontMapOk, FullMapOk;
    var l := s.heap[p].faceIdLink;
    var id := s.heap[p].id;
    assert LinksOk(s, p);
    AddLinkRegistry(s, p, p, false);
    var t := AddLink(s, p, p, false);
    if l == [] {
      AddLinkLinks(s, p, p, false);
      LinkNamesKeeps(t, alloc, p, names, {id});
    } else {
      LinkNamesAppends(t, alloc, p, names, {id});
      var m := Createlink(s, alloc, p, names).heap[p].faceIdLink;
      assert m[0] == id == m[|l|];
    }
  }

  lemma NoLinks(s: State, p: nat)
    requires Valid(s) && p in s.heap && s.heap[p].faceIdLink == []
    ensures s.heap[p].ggoLink == []
  {
    assert LinksOk(s, p);
  }

  lemma LinkHeads(s: State, p: nat)
    requires Valid(s) && p in s.heap && s.heap[p].faceIdLink != []
    ensures s.heap[p].ggoLink != [] && s.heap[p].ggoLink[0] == s.heap[p].ggoFont
    ensures s.heap[p].faceIdLink[0] != 0
  {
    assert LinksOk(s, p);
  }

  /** A font always has its own id in front, so asking for the face links never relinks. */
  lemma GetFTLinkKeeps(s: State, alloc: Allocator, p: nat, names: seq<Asked>)
    requires Valid(s) && Allocates(alloc) && p in s.heap && |names| <= MAX_LINK_NAMES
    ensures Valid(GetFTLink(s, alloc, p, names))
  {
    hide Registry, LinksOk, Createlink;
    CreatelinkKeepsIff(s, alloc, p, names);
    if s.heap[p].faceIdLink != [] {
      LinkHeads(s, p);
    } else {
      NoLinks(s, p);
    }
  }

  /** Asking for the handle links relinks a font that has links but no handle of its own, and
      breaks the lists exactly then. */
  lemma GetGGOLinkKeepsIff(s: State, alloc: Allocator, p: nat, names: seq<Asked>)
    requires Valid(s) && Allocates(alloc) && p in s.heap && |names| <= MAX_LINK_NAMES
    ensures Valid(GetGGOLink(s, alloc, p, names)) <==> s.heap[p].faceIdLink == [] || s.heap[p].ggoFont != 0
  {
    hide Registry, LinksOk, Createlink;
    CreatelinkKeepsIff(s, alloc, p, names);
    if s.heap[p].faceIdLink != [] {
      LinkHeads(s, p);
    } else {
      NoLinks(s, p);
    }
  }

  // ---------------------------------------------------------------- what the links are

  datatype Link = Link(id: int, isSimSun: bool)

  // The fonts the names lead to, in the final state; `known` are the keys the map has before.
  ghost function NamedLinks(t: State, names: seq<Asked>, known: set<Key>): seq<Link> {
    if names == [] then []
    else
      var name := if names[0].own then names[0].forced else names[0].name;
      var key := MyFont(name, 0, 0);
      if key in known || (name != "" && names[0].made.fullName != "") then
        LinkTo(t, key, names[0].isSimSun) + NamedLinks(t, names[1..], known + {key})
      else NamedLinks(t, names[1..], known)
  }

  ghost function LinkTo(t: State, key: Key, isSimSun: bool): seq<Link> {
    if key in t.fontMap && t.fontMap[key] in t.heap then [Link(t.heap[t.fontMap[key]].id, isSimSun)] else []
  }

  // The first link to each font, in order, leaving out those in `seen`.
  function FirstLinks(links: seq<Link>, seen: set<int>): seq<Link> {
    if links == [] then []
    else if links[0].id in seen then FirstLinks(links[1..], seen)
    else [links[0]] + FirstLinks(links[1..], seen + {links[0].id})
  }

  function Ids(links: seq<Link>): (ids: seq<int>)
    ensures |ids| == |links| && forall i :: 0 <= i < |ids| ==> ids[i] == links[i].id
  {
    seq(|links|, i requires 0 <= i < |links| => links[i].id)
  }

  function FirstSimSun(links: seq<Link>): int {
    if links == [] then 0 else if links[0].isSimSun then links[0].id else FirstSimSun(links[1..])
  }

  // Keys and ids that are there stay.
  ghost predicate KeepsKeys(s: State, t: State) {
    && (forall k :: k in s.fontMap ==> k in t.fontMap && t.fontMap[k] == s.fontMap[k])
    && (forall p :: p in s.heap ==> p in t.heap && t.heap[p].id == s.heap[p].id)
  }

  lemma FindKeepsKeys(s: State, alloc: Allocator, name: string, made: Made)
    requires Registry(s) && Allocates(alloc)
    ensures var r := FindFont(s, alloc, name, 0, 0, made);
            var key := MyFont(name, 0, 0);
            && Registry(r.state) && KeepsKeys(s, r.state)
            && (r.font != 0 <==> key in s.fontMap || (name != "" && made.fullName != ""))
            && (r.font != 0 ==> r.font in r.state.heap && key in r.state.fontMap && r.state.fontMap[key] == r.font)
            && r.state.fontMap.Keys == (if r.font != 0 then s.fontMap.Keys + {key} else s.fontMap.Keys)
            && forall p :: p in s.heap ==>
                 r.state.heap[p].faceIdLink == s.heap[p].faceIdLink && r.state.heap[p].simSunId == s.heap[p].simSunId
  {
    hide CountsOk, SlotsOk, FindFont;
    FindFontKeeps(s, alloc, name, 0, 0, made);
    FindFontAnswers(s, alloc, name, 0, 0, made);
    HeapSkipsNull(s);
  }

  lemma {:induction false} LinkNamesKeepsKeys(s: State, alloc: Allocator, p: nat, names: seq<Asked>, seen: set<int>)
    requires Registry(s) && Allocates(alloc) && p in s.heap
    ensures KeepsKeys(s, LinkNames(s, alloc, p, names, seen))
    decreases |names|
  {
    hide Registry, FindFont;
    if names != [] {
      var name := names[0].LookedUp();
      FindFontKeeps(s, alloc, name, 0, 0, names[0].made);
      FindKeepsKeys(s, alloc, name, names[0].made);
      var r := FindFont(s, alloc, name, 0, 0, names[0].made);
      if r.font == 0 || r.state.heap[r.font].id in seen {
        LinkNamesKeepsKeys(r.state, alloc, p, names[1..], seen);
      } else {
        AddLinkRegistry(r.state, p, r.font, names[0].isSimSun);
        LinkNamesKeepsKeys(AddLink(r.state, p, r.font, names[0].isSimSun), alloc, p, names[1..], seen + {r.state.heap[r.font].id});
      }
    }
  }

  // One name puts one link in front of those of the rest, or none.
  lemma NextNamedLink(s: State, r: Found, t: State, names: seq<Asked>, seen: set<int>)
    requires names != []
    requires var name := names[0].LookedUp();
             var key := MyFont(name, 0, 0);
             && (r.font != 0 <==> key in s.fontMap || (name != "" && names[0].made.fullName != ""))
             && (r.font != 0 ==> r.font in r.state.heap && key in r.state.fontMap && r.state.fontMap[key] == r.font)
             && r.state.fontMap.Keys == if r.font != 0 then s.fontMap.Keys + {key} else s.fontMap.Keys
    requires KeepsKeys(r.state, t)
    ensures var rest := NamedLinks(t, names[1..], r.state.fontMap.Keys);
            FirstLinks(NamedLinks(t, names, s.fontMap.Keys), seen) ==
            if r.font == 0 || r.state.heap[r.font].id in seen then FirstLinks(rest, seen)
            else [Link(r.state.heap[r.font].id, names[0].isSimSun)] + FirstLinks(rest, seen + {r.state.heap[r.font].id})
  {
    var rest := NamedLinks(t, names[1..], r.state.fontMap.Keys);
    if r.font != 0 {
      var link := Link(r.state.heap[r.font].id, names[0].isSimSun);
      assert NamedLinks(t, names, s.fontMap.Keys) == [link] + rest;
      assert ([link] + rest)[1..] == rest;
    }
  }

  lemma MoreLinks(ids: seq<int>, l: Link, links: seq<Link>)
    ensures ids + [l.id] + Ids(links) == ids + Ids([l] + links)
    ensures FirstSimSun([l] + links) == if l.isSimSun then l.id else FirstSimSun(links)
  {
    hide Ids;
    assert ([l] + links)[1..] == links;
    IdsFirst(l, links);
  }

  lemma IdsFirst(l: Link, links: seq<Link>)
    ensures Ids([l] + links) == [l.id] + Ids(links)
  {
    forall i | 0 <= i < |links| + 1
      ensures Ids([l] + links)[i] == ([l.id] + Ids(links))[i]
    {
      assert ([l] + links)[i] == if i == 0 then l else links[i - 1];
    }
  }

  lemma NoMoreLinks(t: State, known: set<Key>, seen: set<int>, ids: seq<int>)
    ensures FirstLinks(NamedLinks(t, [], known), seen) == [] && ids + Ids([]) == ids && FirstSimSun([]) == 0
  {}

  lemma IdsArePositive(s: State)
    requires SlotsOk(s)
    ensures forall p :: p in s.heap ==> s.heap[p].id > 0
  {}

  lemma {:induction false} LinkNamesExact(s: State, alloc: Allocator, p: nat, names: seq<Asked>, seen: set<int>)
    requires Registry(s) && Allocates(alloc) && p in s.heap
    ensures var t := LinkNames(s, alloc, p, names, seen);
            var links := FirstLinks(NamedLinks(t, names, s.fontMap.Keys), seen);
            && p in t.heap
            && t.heap[p].faceIdLink == s.heap[p].faceIdLink + Ids(links)
            && t.heap[p].simSunId == if s.heap[p].simSunId != 0 then s.heap[p].simSunId else FirstSimSun(links)
    decreases |names|
  {
    hide SlotsOk, CountsOk, FontMapOk, FullMapOk, FindFont, NamedLinks, KeepsKeys, FirstLinks, Ids, FirstSimSun;
    var t := LinkNames(s, alloc, p, names, seen);
    if names == [] {
      NoMoreLinks(t, s.fontMap.Keys, seen, s.heap[p].faceIdLink);
    } else {
      var name := names[0].LookedUp();
      FindFontKeeps(s, alloc, name, 0, 0, names[0].made);
      FindKeepsKeys(s, alloc, name, names[0].made);
      var r := FindFont(s, alloc, name, 0, 0, names[0].made);
      IdsArePositive(r.state);
      HasFont(s, r.state, p);
      if r.font == 0 || r.state.heap[r.font].id in seen {
        LinkNamesKeepsKeys(r.state, alloc, p, names[1..], seen);
        NextNamedLink(s, r, t, names, seen);
        LinkNamesExact(r.state, alloc, p, names[1..], seen);
      } else {
        var id := r.state.heap[r.font].id;
        AddLinkRegistry(r.state, p, r.font, names[0].isSimSun);
        var u := AddLink(r.state, p, r.font, names[0].isSimSun);
        LinkNamesKeepsKeys(u, alloc, p, names[1..], seen + {id});
        LinkedKeeps(r.state, t, p, r.font, names[0].isSimSun);
        NextNamedLink(s, r, t, names, seen);
        LinkNamesExact(u, alloc, p, names[1..], seen + {id});
        MoreLinks(s.heap[p].faceIdLink, Link(id, names[0].isSimSun),
                  FirstLinks(NamedLinks(t, names[1..], u.fontMap.Keys), seen + {id}));
      }
    }
  }

  lemma HasFont(s: State, t: State, p: nat)
    requires KeepsKeys(s, t) && p in s.heap
    ensures p in t.heap
  {}

  lemma LinkedKeeps(s: State, t: State, p: nat, q: nat, simSun: bool)
    requires p in s.heap && q in s.heap && KeepsKeys(AddLink(s, p, q, simSun), t)
    ensures KeepsKeys(s, t)
  {}

  /** The links of a font are those it had, itself, and the fonts its names lead to, each where a
      name leads to it first; the SimSun id is the first of these that a SimSun name led to. */
  lemma CreatelinkExact(s: State, alloc: Allocator, p: nat, names: seq<Asked>)
    requires Registry(s) && Allocates(alloc) && p in s.heap
    ensures var t := Createlink(s, alloc, p, names);
            var links := FirstLinks(NamedLinks(t, names, s.fontMap.Keys), {s.heap[p].id});
            && p in t.heap
            && t.heap[p].faceIdLink == s.heap[p].faceIdLink + [s.heap[p].id] + Ids(links)
            && t.heap[p].simSunId == if s.heap[p].simSunId != 0 then s.heap[p].simSunId else FirstSimSun(links)
  {
    hide Registry, LinkNames, NamedLinks, FirstLinks;
    AddLinkRegistry(s, p, p, false);
    LinkNamesExact(AddLink(s, p, p, false), alloc, p, names, {s.heap[p].id});
  }

  /** Asking for links builds them when the first is missing and changes nothing otherwise. */
  lemma AskedLinks(s: State, alloc: Allocator, p: nat, names: seq<Asked>)
    requires Valid(s) && Allocates(alloc) && p in s.heap
    ensures s.heap[p].faceIdLink == [] ==>
              && GetFTLink(s, alloc, p, names) == Createlink(s, alloc, p, names)
              && GetGGOLink(s, alloc, p, names) == Createlink(s, alloc, p, names)
    ensures s.heap[p].faceIdLink != [] ==>
              && GetFTLink(s, alloc, p, names) == s
              && (s.heap[p].ggoFont != 0 ==> GetGGOLink(s, alloc, p, names) == s)
  {
    hide Registry, LinksOk, Createlink;
    if s.heap[p].faceIdLink != [] {
      LinkHeads(s, p);
    } else {
      NoLinks(s, p);
    }
  }

  // ReloadAll: every font that a full name leads to forgets its links.
  function ReloadAll(s: State): State {
    s.(heap := map q | q in s.heap :: if q in s.fullMap.Values then Unlinked(s.heap[q]) else s.heap[q])
  }

  lemma ReloadedFonts(s: State)
    requires FullMapOk(s)
    ensures ReloadAll(s).heap.Keys == s.heap.Keys
    ensures forall p :: p in s.heap ==> ReloadAll(s).heap[p] == Unlinked(s.heap[p])
  {
    forall p | p in s.heap
      ensures p in s.fullMap.Values
    {
      assert s.fullMap[s.heap[p].fullName] == p;
    }
  }

  lemma ReloadedRest(s: State, t: State)
    requires Registry(s)
    requires t == s.(heap := t.heap) && t.heap.Keys == s.heap.Keys
    requires forall p :: p in s.heap ==> t.heap[p] == Unlinked(s.heap[p])
    ensures FontMapOk(t) && FullMapOk(t) && CountsOk(t)
  {
    hide SlotsOk;
    assert forall p :: Names(t, p) == Names(s, p);
  }

  /** Reloading keeps the registry and leaves no font with a link. */
  lemma ReloadAllKeeps(s: State)
    requires Valid(s)
    ensures Valid(ReloadAll(s))
    ensures forall p :: p in ReloadAll(s).heap ==> ReloadAll(s).heap[p] == Unlinked(s.heap[p])
  {
    hide SlotsOk, CountsOk, FontMapOk, FullMapOk;
    ReloadedFonts(s);
    SameSlots(s, ReloadAll(s));
    ReloadedRest(s, ReloadAll(s));
  }

  // ---------------------------------------------------------------- lookup by id

  datatype Slot = BeforeFirst | Slot(font: nat)

  // FindFont(faceid): the comparison with the unsigned size turns away negative ids.
  function FindFontId(s: State, faceid: int): Slot {
    if faceid < 0 || faceid > |s.fontList| then Slot(0)
    else if faceid == 0 then BeforeFirst
    else Slot(s.fontList[faceid - 1])
  }

  /** Looking up an id reads in front of the vector exactly for id 0, and otherwise gives a font
      exactly when it is allocated and has that id. */
  lemma FindFontIdExact(s: State, faceid: int, p: nat)
    requires Valid(s)
    ensures FindFontId(s, faceid).BeforeFirst? <==> faceid == 0
    ensures p != 0 ==> (FindFontId(s, faceid) == Slot(p) <==> p in s.heap && s.heap[p].id == faceid)
  {
    hide CountsOk, FontMapOk, FullMapOk, LinksOk;
  }

  // ---------------------------------------------------------------- every run

  datatype Event =
    | Find(name: string, weight: int, italic: bool, made: Made)
    | FindBy(params: Params, made: Made)
    | Remove(entries: seq<Entry>)
    | FTLink(font: nat, names: seq<Asked>)
    | GGOLink(font: nat, names: seq<Asked>)
    | Reload

  // What a caller has to see to: fonts are live, the entries of a removed file meet their
  // condition, and a font with links but no handle is not asked for its handle links.
  ghost predicate Proper(s: State, alloc: Allocator, e: Event)
    requires Valid(s) && Allocates(alloc)
  {
    match e
    case Find(_, _, _, _) => true
    case FindBy(_, _) => true
    case Remove(entries) => Removable(s, alloc, entries)
    case FTLink(p, names) => p in s.heap && |names| <= MAX_LINK_NAMES
    case GGOLink(p, names) =>
      p in s.heap && |names| <= MAX_LINK_NAMES && (s.heap[p].faceIdLink == [] || s.heap[p].ggoFont != 0)
    case Reload => true
  }

  ghost function Step(s: State, alloc: Allocator, e: Event): State
    requires Valid(s) && Allocates(alloc) && Proper(s, alloc, e)
  {
    match e
    case Find(name, weight, italic, made) => FindFont(s, alloc, name, weight, if italic then 1 else 0, made).state
    case FindBy(params, made) => FindFontParams(s, alloc, params, made).state
    case Remove(entries) => RemoveFile(s, alloc, entries)
    case FTLink(p, names) => GetFTLink(s, alloc, p, names)
    case GGOLink(p, names) => GetGGOLink(s, alloc, p, names)
    case Reload => ReloadAll(s)
  }

  lemma GrownKeeps(s: State, r: Found)
    requires Valid(s) && Grown(s, r)
    ensures Valid(r.state)
  {
    hide Registry, LinksOk;
    ExtendsLinks(s, r.state);
  }

  lemma StepKeeps(s: State, alloc: Allocator, e: Event)
    requires Valid(s) && Allocates(alloc) && Proper(s, alloc, e)
    ensures Valid(Step(s, alloc, e))
  {
    hide LinksOk, SlotsOk, CountsOk, Extends, FindFont, FindFontParams, GetFTLink, GetGGOLink, RemoveFile, ReloadAll;
    match e {
      case Find(name, weight, italic, made) =>
        FindFontKeeps(s, alloc, name, weight, if italic then 1 else 0, made);
        GrownKeeps(s, FindFont(s, alloc, name, weight, if italic then 1 else 0, made));
      case FindBy(params, made) =>
        FindFontParamsKeeps(s, alloc, params, made);
        GrownKeeps(s, FindFontParams(s, alloc, params, made));
      case Remove(entries) =>
        var t := RemoveFile(s, alloc, entries);
      case FTLink(p, names) => GetFTLinkKeeps(s, alloc, p, names);
      case GGOLink(p, names) => GetGGOLinkKeepsIff(s, alloc, p, names);
      case Reload => ReloadAllKeeps(s);
    }
  }

  ghost predicate Run(states: seq<State>, alloc: Allocator, events: seq<Event>) {
    && Allocates(alloc)
    && |states| == |events| + 1
    && states[0] == EMPTY
    && forall i :: 0 <= i < |events| ==> StepsTo(states[i], alloc, events[i], states[i + 1])
  }

  ghost predicate StepsTo(s: State, alloc: Allocator, e: Event, t: State)
    requires Allocates(alloc)
  {
    Valid(s) ==> Proper(s, alloc, e) && t == Step(s, alloc, e)
  }

  /** In every state of every run: the id counter is the length of the vector, slot i is NULL or
      the font with id i + 1, both maps and all link lists lead to live fonts, link lists are
      free of duplicates and start with the font itself, and counts are numbers of full names. */
  lemma {:induction false} RunKeeps(states: seq<State>, alloc: Allocator, events: seq<Event>, n: nat)
    requires Run(states, alloc, events) && n <= |events|
    ensures Valid(states[n])
  {
    hide SlotsOk, CountsOk, FontMapOk, FullMapOk, LinksOk, Extends;
    if n == 0 {
      EmptyValid();
    } else {
      var i := n - 1;
      RunKeeps(states, alloc, events, i);
      assert StepsTo(states[i], alloc, events[i], states[i + 1]);
      StepKeeps(states[i], alloc, events[i]);
    }
  }

  // ---------------------------------------------------------------- handles

  // Every font has a handle.
  ghost predicate Handled(s: State) {
    forall p :: p in s.heap ==> s.heap[p].ggoFont != 0
  }

  // A font that could not be created has no full name: the device context then still holds
  // its own font, a bitmap font, and it is that font which is asked for metrics.
  predicate Usual(made: Made) {
    made.ggoFont == 0 ==> made.fullName == ""
  }

  predicate UsualEvent(e: Event) {
    match e
    case Find(_, _, _, made) => Usual(made)
    case FindBy(_, made) => Usual(made)
    case Remove(entries) => forall x :: x in entries ==> Usual(x.made)
    case FTLink(_, names) => UsualNames(names)
    case GGOLink(_, names) => UsualNames(names)
    case Reload => true
  }

  predicate UsualNames(names: seq<Asked>) {
    forall x :: x in names ==> Usual(x.made)
  }

  lemma FindFontHandled(s: State, alloc: Allocator, name: string, weight: int, italic: int, made: Made)
    requires Handled(s) && Usual(made)
    ensures Handled(FindFont(s, alloc, name, weight, italic, made).state)
  {}

  lemma AddFontParamsHandled(s: State, alloc: Allocator, params: Params, made: Made)
    requires Handled(s) && Usual(made)
    ensures Handled(AddFontParams(s, alloc, params, made).state)
  {}

  lemma RemoveEntryHandled(s: State, alloc: Allocator, entry: Entry)
    requires Registry(s) && Allocates(alloc) && Handled(s) && Usual(entry.made)
    ensures Handled(RemoveEntry(s, alloc, entry))
  {
    hide Registry, FindFont;
    FindFontHandled(s, alloc, entry.faceName, entry.weight, Truth(entry.italic), entry.made);
  }

  lemma {:induction false} RemoveFileHandled(s: State, alloc: Allocator, entries: seq<Entry>)
    requires Valid(s) && Allocates(alloc) && Handled(s)
    requires Removable(s, alloc, entries) && forall e :: e in entries ==> Usual(e.made)
    ensures Handled(RemoveFile(s, alloc, entries))
    decreases |entries|
  {
    hide Registry, LinksOk, RemoveEntry, Handled;
    if entries != [] && entries[0].head != 0 {
      RemoveEntryHandled(s, alloc, entries[0]);
      RemoveFileHandled(RemoveOne(s, alloc, entries[0]), alloc, entries[1..]);
    }
  }

  lemma {:induction false} LinkNamesHandled(s: State, alloc: Allocator, p: nat, names: seq<Asked>, seen: set<int>)
    requires Registry(s) && Allocates(alloc) && p in s.heap && Handled(s) && UsualNames(names)
    ensures Handled(LinkNames(s, alloc, p, names, seen))
    decreases |names|
  {
    hide SlotsOk, CountsOk, FontMapOk, FullMapOk, FindFont;
    if names != [] {
      FindFontKeeps(s, alloc, names[0].LookedUp(), 0, 0, names[0].made);
      FindFontHandled(s, alloc, names[0].LookedUp(), 0, 0, names[0].made);
      var r := FindFont(s, alloc, names[0].LookedUp(), 0, 0, names[0].made);
      if r.font == 0 || r.state.heap[r.font].id in seen {
        LinkNamesHandled(r.state, alloc, p, names[1..], seen);
      } else {
        AddLinkRegistry(r.state, p, r.font, names[0].isSimSun);
        LinkNamesHandled(AddLink(r.state, p, r.font, names[0].isSimSun), alloc, p, names[1..], seen + {r.state.heap[r.font].id});
      }
    }
  }

  lemma CreatelinkHandled(s: State, alloc: Allocator, p: nat, names: seq<Asked>)
    requires Registry(s) && Allocates(alloc) && p in s.heap && Handled(s) && UsualNames(names)
    ensures Handled(Createlink(s, alloc, p, names))
  {
    hide Registry, LinkNames;
    AddLinkRegistry(s, p, p, false);
    LinkNamesHandled(AddLink(s, p, p, false), alloc, p, names, {s.heap[p].id});
  }

  lemma StepHandled(s: State, alloc: Allocator, e: Event)
    requires Valid(s) && Allocates(alloc) && Proper(s, alloc, e) && Handled(s) && UsualEvent(e)
    ensures Handled(Step(s, alloc, e))
  {
    hide LinksOk, SlotsOk, CountsOk, Extends, FindFont, AddFontParams, Createlink, RemoveFile;
    match e {
      case Find(name, weight, italic, made) =>
        FindFontHandled(s, alloc, name, weight, if italic then 1 else 0, made);
      case FindBy(params, made) =>
        FindFontHandled(s, alloc, params.faceName, params.weight, Truth(params.italic), made);
        AddFontParamsHandled(s, alloc, params, made);
      case Remove(entries) => RemoveFileHandled(s, alloc, entries);
      case FTLink(p, names) => CreatelinkHandled(s, alloc, p, names);
      case GGOLink(p, names) => CreatelinkHandled(s, alloc, p, names);
      case Reload =>
    }
  }

  /** With the answers the system gives, every font of every run has a handle, so asking for its
      handle links never relinks it. */
  lemma {:induction false} RunHandled(states: seq<State>, alloc: Allocator, events: seq<Event>, n: nat)
    requires Run(states, alloc, events) && n <= |events|
    requires forall i :: 0 <= i < n ==> UsualEvent(events[i])
    ensures Valid(states[n]) && Handled(states[n])
    ensures forall p, names :: p in states[n].heap && |names| <= MAX_LINK_NAMES ==> Proper(states[n], alloc, GGOLink(p, names))
  {
    hide SlotsOk, CountsOk, FontMapOk, FullMapOk, LinksOk, Extends, Step, UsualEvent;
    RunKeeps(states, alloc, events, n);
    if n > 0 {
      var i := n - 1;
      RunHandled(states, alloc, events, i);
      assert StepsTo(states[i], alloc, events[i], states[i + 1]);
      StepHandled(states[i], alloc, events[i]);
    }
  }

  /** Were a full name found for a font without a handle, two calls after it was added would
      break the lists. */
  lemma NoHandleRelinks(alloc: Allocator)
    requires Allocates(alloc)
    ensures var r := FindFont(EMPTY, alloc, "Arial", 0, 0, Made("Arial", 0));
            && r.font in r.state.heap && Valid(r.state)
            && var t := GetFTLink(r.state, alloc, r.font, []);
               r.font in t.heap && Valid(t) && !Valid(GetGGOLink(t, alloc, r.font, []))
  {
    EmptyValid();
    var made := Made("Arial", 0);
    var r := FindFont(EMPTY, alloc, "Arial", 0, 0, made);
    FindFontKeeps(EMPTY, alloc, "Arial", 0, 0, made);
    GrownKeeps(EMPTY, r);
    assert r.font == alloc(1, EMPTY.heap.Keys) && r.state.heap[r.font] == Font(1, "Arial", 1, 0, [], [], 0);
    hide Registry, LinksOk, FindFont;
    GetFTLinkKeeps(r.state, alloc, r.font, []);
    var t := GetFTLink(r.state, alloc, r.font, []);
    assert t == AddLink(r.state, r.font, r.font, false);
    GetGGOLinkKeepsIff(t, alloc, r.font, []);
  }

  lemma EmptyValid()
    ensures Valid(EMPTY)
  {}

  // ---------------------------------------------------------------- the engine

  // The fonts, those in `done` without their links.
  ghost function Marked(fonts: map<nat, Font>, done: set<nat>): map<nat, Font> {
    map q | q in fonts :: if q in done then Unlinked(fonts[q]) else fonts[q]
  }

  lemma NoneMarked(fonts: map<nat, Font>)
    ensures Marked(fonts, {}) == fonts
  {}

  lemma MarkOne(fonts: map<nat, Font>, done: set<nat>, q: nat)
    requires q in fonts
    ensures var m := Marked(fonts, done);
            q in m && m[q := Unlinked(m[q])] == Marked(fonts, done + {q})
  {}

  lemma MarkedIs(fonts: map<nat, Font>, done: set<nat>)
    ensures Marked(fonts, done) == map q | q in fonts :: if q in done then Unlinked(fonts[q]) else fonts[q]
    ensures Marked(fonts, done).Keys == fonts.Keys
  {}

  class FreeTypeFontEngine {
    var faceIdHolder: int
    var heap: map<nat, Font>
    var fontMap: map<Key, nat>
    var fullMap: map<string, nat>
    var fontList: seq<nat>
    const alloc: Allocator

    ghost function View(): State
      reads this
    {
      State(faceIdHolder, heap, fontMap, fullMap, fontList)
    }

    constructor (alloc: Allocator)
      ensures View() == EMPTY && this.alloc == alloc
    {
      faceIdHolder, heap, fontMap, fullMap, fontList := 0, map[], map[], map[], [];
      this.alloc := alloc;
    }

    method GetFaceID() returns (id: int)
      modifies this`faceIdHolder
      ensures id == faceIdHolder == old(faceIdHolder) + 1
    {
      faceIdHolder := faceIdHolder + 1;
      id := faceIdHolder;
    }

    method ReleaseFaceID()
      modifies this`faceIdHolder
      ensures faceIdHolder == old(faceIdHolder) - 1
    {
      faceIdHolder := faceIdHolder - 1;
    }

    // new FreeTypeFontInfo(GetFaceID(), ...); for a bitmap font, or for one whose full name is
    // known, it is deleted again. The answer is NULL for a bitmap font.
    method EnterFont(made: Made) returns (p: nat, loaded: bool)
      requires Registry(View()) && Allocates(alloc)
      modifies this
      ensures Found(View(), p, loaded) ==
              if made.fullName == "" then Found(old(View()), 0, false) else Enter(old(View()), alloc, made)
    {
      hide SlotsOk, CountsOk, FontMapOk, FullMapOk;
      var id := GetFaceID();
      var pfi := alloc(id, heap.Keys);
      heap := heap[pfi := Font(id, made.fullName, 1, made.ggoFont, [], [], 0)];
      if heap[pfi].fullName == "" {
        heap := heap - {pfi};
        ReleaseFaceID();
        assert heap == old(heap);
        return 0, false;
      }
      if heap[pfi].fullName in fullMap {
        p, loaded := fullMap[heap[pfi].fullName], true;
        heap := heap - {pfi};
        ReleaseFaceID();
        assert heap == old(heap);
      } else {
        fullMap := fullMap[heap[pfi].fullName := pfi];
        fontList := fontList + [pfi];
        p, loaded := pfi, false;
      }
    }

    /** AddFont(lpFaceName, weight, italic, bIsFontLoaded) */
    method AddFontByName(name: string, weight: int, italic: int, made: Made) returns (p: nat, loaded: bool)
      requires Registry(View()) && Allocates(alloc)
      modifies this
      ensures Found(View(), p, loaded) == AddFont(old(View()), alloc, name, weight, italic, made)
    {
      if name == "" {
        return 0, false;
      }
      p, loaded := EnterFont(made);
      if made.fullName == "" {
        return;
      }
      fontMap := fontMap[MyFont(name, weight, italic) := p];
    }

    /** AddFont(params) */
    method AddFontByParams(params: Params, made: Made) returns (p: nat, loaded: bool)
      requires Registry(View()) && Allocates(alloc)
      modifies this
      ensures Found(View(), p, loaded) == AddFontParams(old(View()), alloc, params, made)
    {
      hide SlotsOk, CountsOk, FontMapOk, FullMapOk, Extends, Names;
      if params.faceName == "" {
        return 0, false;
      }
      EnterKeeps(View(), alloc, made);
      p, loaded := EnterFont(made);
      if made.fullName == "" {
        return;
      }
      if heap[p].fullName != params.strFullName {
        heap := heap[p := heap[p].(count := heap[p].count + 1)];
        fullMap := fullMap[params.strFullName := p];
      }
      fontMap := fontMap[MyFont(params.faceName, params.weight, Truth(params.tmItalic)) := p];
    }

    /** FindFont(lpFaceName, weight, italic, AddOnFind, bIsFontLoaded) */
    method FindFontByName(name: string, weight0: int, italic: int, made: Made) returns (p: nat, loaded: bool)
      requires Registry(View()) && Allocates(alloc)
      modifies this
      ensures Found(View(), p, loaded) == FindFont(old(View()), alloc, name, weight0, italic, made)
    {
      var weight := CalcBoldWeight(weight0);
      var font := MyFont(name, weight, italic);
      if font in fontMap {
        return fontMap[font], true;
      }
      p, loaded := AddFontByName(name, weight, italic, made);
    }

    /** FindFont(params) */
    method FindFontByParams(params: Params, made: Made) returns (p: nat)
      requires Registry(View()) && Allocates(alloc)
      modifies this
      ensures var r := FindFontParams(old(View()), alloc, params, made); View() == r.state && p == r.font
    {
      hide SlotsOk, CountsOk, AddFontParams, FindFont;
      var loaded;
      if params.strFullName in fullMap {
        p := fullMap[params.strFullName];
        if heap[p].fullName != params.strFullName {
          p, loaded := FindFontByName(params.faceName, params.weight, Truth(params.italic), made);
        }
      } else {
        p, loaded := AddFontByParams(params, made);
      }
    }

    /** FindFont(faceid); `inside` is false when the element in front of the first is read. */
    method FindFontById(faceid: int) returns (p: nat, inside: bool)
      ensures FindFontId(View(), faceid) == if inside then Slot(p) else BeforeFirst
    {
      if faceid < 0 || faceid > |fontList| {
        return 0, true;
      }
      if faceid - 1 < 0 {
        return 0, false;
      }
      return fontList[faceid - 1], true;
    }

    method UpdateFontSetting(p: nat)
      requires p in heap
      modifies this`heap
      ensures heap == old(heap)[p := Unlinked(old(heap)[p])]
    {
      heap := heap[p := heap[p].(faceIdLink := [], ggoLink := [], simSunId := 0)];
    }

    // The first loop of RemoveFont(fontinfo).
    method EraseFromFontMap(p: nat)
      modifies this`fontMap
      ensures fontMap == Without(old(fontMap), p)
    {
      var todo := fontMap.Keys;
      ghost var was := fontMap;
      while todo != {}
        invariant todo <= was.Keys
        invariant fontMap == map k | k in was && (k in todo || was[k] != p) :: was[k]
      {
        var k :| k in todo;
        if fontMap[k] == p {
          fontMap := fontMap - {k};
        }
        todo := todo - {k};
      }
    }

    // The second loop: fonts that stay forget their links.
    method EraseFromFullMap(p: nat)
      requires forall k :: k in fullMap ==> fullMap[k] in heap
      modifies this`fullMap, this`heap
      ensures fullMap == Without(old(fullMap), p)
      ensures heap == map q | q in old(heap) :: if q in fullMap.Values then Unlinked(old(heap)[q]) else old(heap)[q]
    {
      var todo := fullMap.Keys;
      hide Marked;
      ghost var was, fonts := fullMap, heap;
      ghost var done: set<nat> := {};
      NoneMarked(fonts);
      while todo != {}
        invariant todo <= was.Keys
        invariant fullMap == map k | k in was && (k in todo || was[k] != p) :: was[k]
        invariant done == set k | k in was && k !in todo && was[k] != p :: was[k]
        invariant heap == Marked(fonts, done)
      {
        var k :| k in todo;
        if fullMap[k] == p {
          fullMap := fullMap - {k};
        } else {
          MarkOne(fonts, done, was[k]);
          UpdateFontSetting(fullMap[k]);
          done := done + {was[k]};
        }
        todo := todo - {k};
      }
      WithoutValues(was, p);
      MarkedIs(fonts, done);
    }

    /** RemoveFont(fontinfo) */
    method RemoveFontInfo(p: nat)
      requires Registry(View()) && p in heap
      modifies this
      ensures View() == RemoveFont(old(View()), p)
    {
      hide SlotsOk, CountsOk, FontMapOk, Without;
      EraseFromFontMap(p);
      EraseFromFullMap(p);
      heap := heap - {p};
    }

    /** RemoveThisFont(fontinfo, lg) */
    method RemoveThis(p: nat, entry: Entry)
      requires p in heap
      modifies this
      ensures View() == RemoveThisFont(old(View()), p, entry)
    {
      fontMap := fontMap - {MyFont(entry.faceName, CalcBoldWeight(entry.weight), entry.italic)};
      fullMap := fullMap - {heap[p].fullName};
      heap := heap - {p};
    }

    /** RemoveFont(FontName) with the entries of the file; whether it was an entry in use. */
    method RemoveFontFile(entries: seq<Entry>) returns (fileLoaded: bool)
      requires Valid(View()) && Allocates(alloc) && Removable(View(), alloc, entries)
      modifies this
      ensures View() == RemoveFile(old(View()), alloc, entries) && Valid(View())
      ensures Cleared(old(View()), View(), Victims(old(View()), entries, {}))
      ensures fileLoaded <==> Victims(old(View()), entries, {}) != {}
    {
      hide Registry, LinksOk, FindFont, RemoveEntry, FindEntry, Victim, Cleared;
      fileLoaded := false;
      var i := 0;
      ghost var s := View();
      ghost var gone: set<nat> := {};
      assert entries[0..] == entries;
      ClearedItself(s);
      NoNull(s);
      while i < |entries| && entries[i].head != 0
        invariant 0 <= i <= |entries|
        invariant Valid(View()) && Removable(View(), alloc, entries[i..])
        invariant RemoveFile(View(), alloc, entries[i..]) == RemoveFile(s, alloc, entries)
        invariant Cleared(s, View(), gone) && Victims(s, entries[i..], gone) == Victims(s, entries, {})
        invariant fileLoaded <==> gone != {}
      {
        var entry := entries[i];
        assert entries[i..][0] == entry && entries[i..][1..] == entries[i + 1..];
        ghost var before := View();
        ghost var next := RemoveOne(before, alloc, entry);
        Round(s, before, gone, alloc, entry);
        var loaded := RemoveEntryOf(entry);
        gone := gone + Victim(s, entry, gone);
        fileLoaded := fileLoaded || loaded;
        i := i + 1;
      }
    }

    // The body of that loop.
    method RemoveEntryOf(entry: Entry) returns (loaded: bool)
      requires Registry(View()) && Allocates(alloc)
      modifies this
      ensures View() == RemoveEntry(old(View()), alloc, entry)
      ensures loaded == FindEntry(old(View()), alloc, entry).loaded
    {
      hide SlotsOk, CountsOk, FontMapOk, FullMapOk, Extends, Names, FindFont;
      var result;
      FindFontKeeps(View(), alloc, entry.faceName, entry.weight, Truth(entry.italic), entry.made);
      result, loaded := FindFontByName(entry.faceName, entry.weight, Truth(entry.italic), entry.made);
      if result != 0 {
        var fid := heap[result].id;
        if loaded {
          RemoveFontInfo(result);
        } else {
          RemoveThis(result, entry);
        }
        if 1 <= fid <= |fontList| {
          fontList := fontList[fid - 1 := 0];
        }
      }
    }

    /** ReloadAll */
    method Reload()
      requires FullMapOk(View())
      modifies this`heap
      ensures View() == ReloadAll(old(View()))
    {
      var todo := fullMap.Keys;
      hide Marked;
      ghost var fonts := heap;
      ghost var done: set<nat> := {};
      NoneMarked(fonts);
      while todo != {}
        invariant todo <= fullMap.Keys
        invariant done == set k | k in fullMap && k !in todo :: fullMap[k]
        invariant heap == Marked(fonts, done)
      {
        var k :| k in todo;
        MarkOne(fonts, done, fullMap[k]);
        UpdateFontSetting(fullMap[k]);
        done := done + {fullMap[k]};
        todo := todo - {k};
      }
      assert done == fullMap.Values;
      MarkedIs(fonts, done);
    }

    // One link of the font at p, to the font at q.
    method PutLink(p: nat, q: nat, isSimSun: bool)
      requires p in heap && q in heap
      modifies this`heap
      ensures View() == AddLink(old(View()), p, q, isSimSun)
    {
      var id := heap[q].id;
      heap := heap[p := heap[p].(faceIdLink := heap[p].faceIdLink + [id], ggoLink := heap[p].ggoLink + [heap[q].ggoFont])];
      if heap[p].simSunId == 0 && isSimSun {
        heap := heap[p := heap[p].(simSunId := id)];
      }
    }

    /** Createlink of the font at p; the names are those after the one that is skipped. */
    method CreateLinks(p: nat, names: seq<Asked>)
      requires Registry(View()) && Allocates(alloc) && p in heap
      modifies this
      ensures View() == Createlink(old(View()), alloc, p, names)
    {
      hide SlotsOk, CountsOk, FontMapOk, FullMapOk, Names, FindFont;
      var linkset := {heap[p].id};
      AddLinkRegistry(View(), p, p, false);
      PutLink(p, p, false);
      var i := 0;
      assert names[0..] == names;
      while i < |names|
        invariant 0 <= i <= |names|
        invariant Registry(View()) && p in heap
        invariant LinkNames(View(), alloc, p, names[i..], linkset) == Createlink(old(View()), alloc, p, names)
      {
        assert names[i..][0] == names[i] && names[i..][1..] == names[i + 1..];
        ghost var s := View();
        FindFontKeeps(s, alloc, names[i].LookedUp(), 0, 0, names[i].made);
        var item, _ := FindFontByName(names[i].LookedUp(), 0, 0, names[i].made);
        if item != 0 && heap[item].id !in linkset {
          AddLinkRegistry(View(), p, item, names[i].isSimSun);
          linkset := linkset + {heap[item].id};
          PutLink(p, item, names[i].isSimSun);
        }
        i := i + 1;
      }
    }

    /** GetFTLink of the font at p */
    method FTLink(p: nat, names: seq<Asked>) returns (links: seq<int>)
      requires Registry(View()) && Allocates(alloc) && p in heap
      modifies this
      ensures View() == GetFTLink(old(View()), alloc, p, names)
      ensures p in heap ==> links == heap[p].faceIdLink
    {
      hide Registry, Createlink;
      if heap[p].faceIdLink == [] || heap[p].faceIdLink[0] == 0 {
        CreateLinks(p, names);
      }
      links := if p in heap then heap[p].faceIdLink else [];
    }

    /** GetGGOLink of the font at p */
    method GGOLink(p: nat, names: seq<Asked>) returns (links: seq<nat>)
      requires Registry(View()) && Allocates(alloc) && p in heap
      modifies this
      ensures View() == GetGGOLink(old(View()), alloc, p, names)
      ensures p in heap ==> links == heap[p].ggoLink
    {
      hide Registry, Createlink;
      if heap[p].ggoLink == [] || heap[p].ggoLink[0] == 0 {
        CreateLinks(p, names);
      }
      links := if p in heap then heap[p].ggoLink else [];
    }

    /** The destructor releases every font once per full name; each is deleted exactly once, at
        the last of its names, and none is left. */
    method Destroy() returns (deleted: seq<nat>)
      requires Registry(View())
      modifies this`heap
      ensures heap == map[]
      ensures forall p :: p in old(heap) <==> p in deleted
      ensures forall i, j :: 0 <= i < j < |deleted| ==> deleted[i] != deleted[j]
    {
      hide SlotsOk, FontMapOk, FullMapOk, CountsOk, Left, Holders;
      deleted := [];
      var todo := fullMap.Keys;
      ghost var s := View();
      AllNamed(s);
      while todo != {}
        invariant todo <= fullMap.Keys
        invariant heap.Keys == Holders(s, todo) <= s.heap.Keys
        invariant forall p :: p in heap ==> heap[p].count == Left(s, p, todo)
        invariant forall p :: p in s.heap <==> p in heap || p in deleted
        invariant forall p :: p in heap ==> p !in deleted
        invariant forall i, j :: 0 <= i < j < |deleted| ==> deleted[i] != deleted[j]
      {
        var k :| k in todo;
        DropName(s, todo, k);
        var p := fullMap[k];
        heap := heap[p := heap[p].(count := heap[p].count - 1)];
        todo := todo - {k};
        if heap[p].count == 0 {
          heap := heap - {p};
          deleted := deleted + [p];
        }
      }
      assert heap.Keys == {} by { HoldersOfNone(s); }
    }
  }

  // The names of p that are still ahead, and the fonts that have such names.
  ghost function Left(s: State, p: nat, todo: set<string>): nat {
    |Names(s, p) * todo|
  }

  ghost function Holders(s: State, todo: set<string>): set<nat> {
    set k | k in todo && k in s.fullMap :: s.fullMap[k]
  }

  lemma HoldersOfNone(s: State)
    ensures Holders(s, {}) == {}
  {}

  // Every font has all its names ahead of it when the destructor starts.
  lemma AllNamed(s: State)
    requires FullMapOk(s) && CountsOk(s)
    ensures Holders(s, s.fullMap.Keys) == s.heap.Keys
    ensures forall p :: p in s.heap ==> s.heap[p].count == Left(s, p, s.fullMap.Keys)
  {
    forall p | p in s.heap
      ensures s.heap[p].count == Left(s, p, s.fullMap.Keys)
    {
      assert Names(s, p) * s.fullMap.Keys == Names(s, p);
    }
  }

  // Taking a name off the list takes one off the count of its font only; the font loses its
  // last name exactly when nothing is left of the count.
  lemma DropName(s: State, todo: set<string>, k: string)
    requires k in todo && todo <= s.fullMap.Keys
    ensures var p := s.fullMap[k];
            var rest := todo - {k};
            && p in Holders(s, todo)
            && (forall q :: Left(s, q, rest) == Left(s, q, todo) - if q == p then 1 else 0)
            && Holders(s, rest) == if Left(s, p, rest) == 0 then Holders(s, todo) - {p} else Holders(s, todo)
  {
    var p := s.fullMap[k];
    var rest := todo - {k};
    forall q
      ensures Left(s, q, rest) == Left(s, q, todo) - if q == p then 1 else 0
    {
      if q == p {
        assert Names(s, q) * todo == Names(s, q) * rest + {k};
      } else {
        assert Names(s, q) * todo == Names(s, q) * rest;
      }
    }
    assert Holders(s, todo) == Holders(s, rest) + {p};
    if Left(s, p, rest) == 0 {
      NotHeld(s, p, rest);
    } else {
      var j :| j in Names(s, p) * rest;
      assert s.fullMap[j] == p;
    }
  }

  lemma NotHeld(s: State, p: nat, rest: set<string>)
    requires Left(s, p, rest) == 0
    ensures p !in Holders(s, rest)
  {
    assert Names(s, p) * rest == {};
    assert forall k :: k in rest && k in s.fullMap && s.fullMap[k] == p ==> k in Names(s, p) * rest;
  }
}
