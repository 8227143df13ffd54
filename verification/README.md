# MacType rendering core: a verified model

MacType replaces GDI text rendering in every process it is loaded into. This project models the
parts of its C and C++ core that carry an algorithm or a protocol of their own, and proves what
they promise. What Windows, FreeType, the allocator and the settings answer is an input of the
models, so every statement holds for all such answers. A `class` models an object whose fields the
source updates; its methods do so step by step and are tied to a function of the old state, about
which the lemmas are proved.

| file | what it models |
|---|---|
| `Common.dfy` | what several models share |
| `OwnedLock.dfy` | the owner-based critical section, under any number of threads |
| `FontRegistry.dfy` | font ids, the two name maps, reference counts and font links of the engine |
| `GlyphCache.dfy` | reference-counted glyphs and the glyph cache of one font size |
| `AlphaBlend.dfy` | the gamma tables, their inversion, and blending through them |
| `Blit.dfy` | the clipped mono, grey, LCD and BGRA drawing loops |
| `BitmapCache.dfy` | the grow-and-shrink bitmap and its horizontal line |
| `Outline.dfy` | the two passes that turn a GDI outline buffer into a FreeType outline |
| `ChildRelay.dfy` | injection into a suspended child process and its obligation |
| `Crc32.dfy` | the table-driven CRC-32 |
| `Advance.dfy` | extents to advances, logical to device advances |
| `MultiSz.dfy` | multi-string blocks |
| `Tokenizer.dfy` | the comma-separated setting tokenizer |
| `Coverage.dfy` | vertical glyph substitution by OpenType coverage |

Some promises do not hold of the code for all inputs. In each such case the code is modelled as it
is and a lemma gives the exact condition:

- The lock stores the new owner and its count in two exchanges. A thread that enters with that
  owner between them is not counted (`OwnedLock.EntryMidPublication`), and a run of three threads
  then has two owners inside (`OwnedLock.OvertakenBreaksExclusion`). The invariants hold
  throughout a run exactly when it has no such entry (`OwnedLock.RunInv`), and every run that has
  one can be continued to two owners inside (`OwnedLock.DisturbedRunBreaks`).
- Removing a font file that was not loaded leaves a dangling pointer in the font map when the
  italic byte is even but not zero (`FontRegistry.RemoveEntryKeepsIff`); this is a generalisation,
  the system's own bytes being 0 and 255 (`FontRegistry.PlainIsRemovable`). Adding by parameters
  breaks the reference counts when the full name is taken (`FontRegistry.AddFontParamsKeepsIff`);
  its one caller, the lookup by parameters, adds free names only
  (`FontRegistry.FindFontParamsKeeps`). Handle links are built twice for a font with links but no
  handle (`FontRegistry.GetGGOLinkKeepsIff`); this is a generalisation over the answers of the
  system, because a font that could not be created leaves a bitmap font in the device context,
  which has no full name, and then it cannot happen (`FontRegistry.RunHandled`). Font id 0 is
  looked up in front of the vector (`FontRegistry.FindFontIdExact`). Keys entered by parameters
  under weights other than 0 and 700 are never looked up (`FontRegistry.ParamsKeyIsLookupKeyIff`).
- Character 0 and glyph 0 share a cache entry (`GlyphCache.KeysMeetIff`). An entry asked for a
  mode whose last add since its creation is missing, or had no glyph with a format, is read through
  a null pointer, and no other (`GlyphCache.NullGlyphIff`, `GlyphCache.OtherModeReadsNull`).
- A colour blended over itself gets darker when its linear value is off the grid of the inverse
  table (`AlphaBlend.BlendOverItself`, `AlphaBlend.LinearDarkens`), and a colour glyph channel
  overflows unless it is premultiplied (`AlphaBlend.MixerNeedsPremultiplied`).
- A glyph that starts left of a canvas narrower than it loses columns (`Blit.ClipsIdeallyIff`), the
  rows of a bitmap with negative pitch are looked for behind it (`Blit.RowInsideIff`), and
  a line that starts above the bitmap is drawn too low (`BitmapCache.LineIsIdealIff`).
- An outline makes the second pass leave its arrays when an empty curve comes before any point,
  when its counts do not fit 16 bits, or when the `short` write position runs past 32767
  (`Outline.StraysIff`, `Outline.LongLineStrays`). The counts are taken as 16 bits without a sign,
  which is what the `unsigned short` of `ft.cpp:1224` goes with; FreeType's headers are not part
  of this model.
- A setting that ends right after a quote that opens an argument sends the tokenizer past the end
  of the string (`Tokenizer.LeavesIff`).
- A multi-string block loses what follows an empty string (`MultiSz.RoundTrip`).
- Coverage ranges that end more than one before they start shift the coverage index
  (`Coverage.FormatsAgreeIff`), and the running index is not reset between subtables
  (`Coverage.SearchCarries`); the latter is harmless in lookups that one scan has filled
  (`Coverage.ScannedSearchIsFirst`). Where that leads out of the substitutes is
  `Coverage.OutsideArrayIff`. A second scan of the same index writes behind its array
  (`Coverage.ScanLookup`, `Coverage.SecondScanLeavesIff`).

The comment at `fteng.h:93-95` says that compaction keeps recently used entries; the map build
keeps the largest keys, and that is what is proved. The `AddOnFind` argument of the lookup by face
name has no effect in the code (`fteng.cpp:775-806`), so removing a font file adds fonts it has not
seen before it removes them; the model does the same.

## Model

| member | source | states |
|---|---|---|
| OwnedLock.OwnedCriticalSection.constructor | ownedcs.cpp:8-15 | a new section has no owner, no request, count 0 and the event clear |
| OwnedLock.OwnedCriticalSection.EnterLocked | ownedcs.cpp:24-40 | the part of entering under the lock: re-entry is counted, otherwise a ticket is taken and the caller waits or is admitted |
| OwnedLock.OwnedCriticalSection.EndWait | ownedcs.cpp:37 | the end of the wait clears the event and nothing else |
| OwnedLock.OwnedCriticalSection.PublishOwner | ownedcs.cpp:41 | the first publication exchange stores the owner alone |
| OwnedLock.OwnedCriticalSection.PublishCount | ownedcs.cpp:42 | the second publication exchange stores count 1 alone |
| OwnedLock.OwnedCriticalSection.Leave | ownedcs.cpp:46-61 | leaving takes one off the count; at the last one the owner and a ticket are given back and the event is set for the next |
| OwnedLock.StartInv | ownedcs.cpp:8-15 | the invariant of owners, tickets and token holds of a fresh section with any number of threads |
| OwnedLock.StepTickets | ownedcs.cpp:24-61 | every step that does not enter mid-publication conserves tickets, keeps exactly one token while any ticket is out, and keeps the count exact |
| OwnedLock.StepInv | ownedcs.cpp:24-61 | a step from the invariant keeps it, and keeps the ticket equations, if and only if it does not enter mid-publication |
| OwnedLock.RunInv | ownedcs.cpp:24-61 | the invariant, and ticket conservation, hold in every state of a run of any length and interleaving if and only if no step of it enters mid-publication |
| OwnedLock.MutualExclusion | ownedcs.cpp:24-61 | without an entry mid-publication all entries inside share one owner, which is the published one; the recursion count is their number; the owner is -1 exactly when nobody is inside or publishing; the invariant behind this holds throughout a run if and only if there is no such entry |
| OwnedLock.NoLostWakeup | ownedcs.cpp:34-55 | without an entry mid-publication requests + 1 is waiters plus admitted plus one if owned, and when positive exactly one of event, admitted thread and ownership holds the token; this holds throughout a run if and only if there is no such entry |
| OwnedLock.LeaveMatchesOwner | ownedcs.cpp:49-59 | bracketed use never takes the mismatched-owner branch, and the event is only ever set when it is clear |
| OwnedLock.ClaimsAreNamed | ownedcs.cpp:24-61 | in every run, disturbed or not, the owners a thread is inside for and on its way in for are exactly those it has named and not left, in that order |
| OwnedLock.PublishesWhatItNamed | ownedcs.cpp:37-41 | the owner a thread publishes is the one it named last |
| OwnedLock.ExchangeInsideEnter | ownedcs.cpp:26-42 | a publication exchange between the test and the count of an entering thread has the effect of one before or after the whole entry |
| OwnedLock.NoExchangeInsideLeave | ownedcs.cpp:46-61 | no publication exchange can fall into the locked part of a leave |
| OwnedLock.EntryMidPublication | ownedcs.cpp:41-42 | an entry between the two exchanges leaves the count exact if and only if it names another owner |
| OwnedLock.OvertakenBreaksExclusion | ownedcs.cpp:41-42 | a concrete run with such an entry ends with two owners inside |
| OwnedLock.MidPublicationLeadsToTwo | ownedcs.cpp:24-61 | every entry mid-publication, from any state of the invariant, can be followed by steps that bring two owners inside |
| OwnedLock.DisturbedRunBreaks | ownedcs.cpp:24-61 | every run that has an entry mid-publication can be continued from there to two owners inside |
| OwnedLock.StallsOnlyOnItself | ownedcs.cpp:34-55 | with a waiter, only new entries are possible if and only if all threads inside wait for the section themselves |
| OwnedLock.Drains | ownedcs.cpp:46-61 | without nested owners and new entries every run ends within a computed number of steps, and where it can go no further the section is back in its initial state |
| FontRegistry.RawKeyAgreesIff | fteng.cpp:529 | the removal key built from a raw italic byte equals the lookup key if and only if the byte is 0 or odd |
| FontRegistry.KeyInjective | fteng.h:55-66 | a key tells name, weight and slant apart |
| FontRegistry.EnterKeeps | fteng.cpp:606-636 | creating a font, or giving it up again for a bitmap or known font, keeps ids, slots, maps and counts consistent and only adds |
| FontRegistry.FindFontKeeps | fteng.cpp:672-731 | finding or adding by face name keeps the registry; a font reported as not loaded is new and has exactly one full name |
| FontRegistry.FindAgain | fteng.cpp:775-806 | a font that was found is found again under the same face name, slant and boldness, without a change |
| FontRegistry.FindFontAnswers | fteng.cpp:672-806 | which font the lookup by face name gives, and what it changes: nothing for a known key, an empty name or a bitmap font, one key for a known full name, and otherwise one new font with the next id, both keys and the last slot |
| FontRegistry.FindFontParamsAnswers | fteng.cpp:596-773 | which font the lookup by parameters gives: that of the full name, or for an alias that of the face name, or the added one, to which the full name and the raw face-name key then lead |
| FontRegistry.FindParamsAgain | fteng.cpp:758-773 | a font found by parameters is the one its full name leads to; asked for again it is found again, under an alias if and only if its face name does not lead elsewhere |
| FontRegistry.ParamsKeyIsLookupKeyIff | fteng.cpp:646-654 | the key entered by parameters is the key of a later lookup by face name if and only if the weight is 0 or 700 and the slants agree |
| FontRegistry.AddFontParamsKeepsIff | fteng.cpp:596-654 | adding with an alias keeps every count equal to the number of full names if and only if the alias is free or is the font's own name |
| FontRegistry.FindFontParamsKeeps | fteng.cpp:758-773 | finding by parameters, which only adds free names, always keeps the registry |
| FontRegistry.RemovingUnloadedUndoes | fteng.cpp:525-540 | removing a font that the lookup had just created restores the registry up to the retired slot, and up to the key a raw italic byte misses |
| FontRegistry.RemoveFontKeeps | fteng.cpp:493-523 | after removing a loaded font and clearing its slot no key and no link leads to it, every other key leads where it did, and the registry is consistent |
| FontRegistry.RemoveEntryKeepsIff | fteng.cpp:553-571 | one round of removing a file keeps the registry if and only if no font was found, it was loaded, or the italic byte is 0 or odd |
| FontRegistry.PlainIsRemovable | fteng.cpp:552-571 | a file whose italic bytes are 0 or odd meets that condition at every entry |
| FontRegistry.RemoveFileClears | fteng.cpp:542-583 | removing a file takes exactly the fonts its entries name, all of them up to the terminator, out of both maps, the slots and the heap; every other font keeps its keys and slot |
| FontRegistry.ListedAreGone | fteng.cpp:552-571 | the font under the lookup key of every entry in front of the terminator is among them |
| FontRegistry.VictimsAreNamed | fteng.cpp:552-571 | only fonts that such an entry names by its key or its full name are among them |
| FontRegistry.ReloadAllKeeps | fteng.h:619-646 | reloading keeps the registry and leaves no font with a link |
| FontRegistry.CreatelinkKeepsIff | fteng.cpp:383-413 | building links keeps link lists duplicate-free, live, led by the font's own id and inside the arrays, and the SimSun id in the list, if and only if the font had no links |
| FontRegistry.CreatelinkExact | fteng.cpp:383-413 | the links are those there were, the font itself, and the fonts its names lead to, each where a name leads to it first; the SimSun id is the first of these under a SimSun name |
| FontRegistry.AskedLinks | fteng.h:482-497 | links that are missing are built, and others are left alone |
| FontRegistry.GetFTLinkKeeps | fteng.h:482-489 | asking for face links builds them at most once, so it always keeps the registry |
| FontRegistry.GetGGOLinkKeepsIff | fteng.h:490-497 | asking for handle links keeps the registry if and only if the font has no links yet or has a handle |
| FontRegistry.RunHandled | fteng.h:388-398 | when a font without a handle has no full name, as with a bitmap font in the device context, every font of every run has a handle and the links are never built twice |
| FontRegistry.NoHandleRelinks | fteng.h:490-497 | were there a full name without a handle, two calls after the font was added would break its lists |
| FontRegistry.FindFontIdExact | fteng.cpp:808-814 | lookup by id reads in front of the vector if and only if the id is 0, and otherwise finds a font if and only if it is allocated and has that id |
| FontRegistry.StepKeeps | fteng.cpp:493-816 | every operation called within its condition keeps the registry consistent |
| FontRegistry.RunKeeps | fteng.cpp:383-816 | in every state of every run of such calls the id counter is the vector length, slot i is NULL or the font with id i + 1, maps and links lead to live fonts, and counts are numbers of full names |
| FontRegistry.FreeTypeFontEngine.constructor | fteng.h:558-568 | the engine starts empty |
| FontRegistry.FreeTypeFontEngine.GetFaceID | fteng.cpp:585-589 | the next id is one more than the last |
| FontRegistry.FreeTypeFontEngine.ReleaseFaceID | fteng.cpp:591-594 | an id is given back |
| FontRegistry.FreeTypeFontEngine.AddFontByName | fteng.cpp:672-731 | the new state, the font and the loaded flag of AddFont by face name |
| FontRegistry.FreeTypeFontEngine.AddFontByParams | fteng.cpp:596-670 | the new state and font of AddFont by parameters |
| FontRegistry.FreeTypeFontEngine.FindFontByName | fteng.cpp:775-806 | the new state, font and loaded flag of FindFont by face name |
| FontRegistry.FreeTypeFontEngine.FindFontByParams | fteng.cpp:758-773 | the new state and font of FindFont by parameters |
| FontRegistry.FreeTypeFontEngine.FindFontById | fteng.cpp:808-814 | the slot a font id is looked up in, or that it lies in front of the vector |
| FontRegistry.FreeTypeFontEngine.UpdateFontSetting | fteng.h:472-481 | the font forgets its links, and no other font changes |
| FontRegistry.FreeTypeFontEngine.Reload | fteng.h:619-646 | the loop resets the links of every font a full name leads to and nothing else |
| FontRegistry.FreeTypeFontEngine.RemoveFontInfo | fteng.cpp:493-523 | the two erasing loops take out all keys of the font, reset the links of the others, and the font is deleted |
| FontRegistry.FreeTypeFontEngine.RemoveThis | fteng.cpp:525-540 | one key of each map is erased and the font is deleted |
| FontRegistry.FreeTypeFontEngine.RemoveFontFile | fteng.cpp:542-583 | the loop over the entries of a file leaves exactly the registry without the fonts its entries name up to the terminator, consistent, whenever each entry it comes to meets the condition of RemoveEntryKeepsIff; it reports a file in use if and only if one of them was in the registry |
| FontRegistry.FreeTypeFontEngine.CreateLinks | fteng.cpp:383-413 | the link-building loop, with the substitution of the own name, the fonts it adds on the way and the SimSun id |
| FontRegistry.FreeTypeFontEngine.FTLink | fteng.h:482-489 | the face links of a font, built when missing |
| FontRegistry.FreeTypeFontEngine.GGOLink | fteng.h:490-497 | the handle links of a font, built when the first handle is NULL |
| FontRegistry.FreeTypeFontEngine.Destroy | fteng.h:569-578 | the destructor deletes every font exactly once and leaves none |
| GlyphCache.NewKeeps | ftref.c:36-42 | a new record counts its one handle |
| GlyphCache.CopyKeeps | ftref.c:7-16 | copying keeps every count equal to the number of handles; the only error for a live record is that of a glyph without format |
| GlyphCache.DoneKeeps | ftref.c:18-27 | giving up a handle keeps the counts, and a record survives if and only if another handle holds it |
| GlyphCache.SetGlyphSafeIff | fteng.cpp:215-230 | storing a glyph reads a live record if and only if a variable other than the slot holds that glyph |
| GlyphCache.SetGlyphKeeps | fteng.cpp:215-230 | storing a glyph its caller holds keeps the counts, changes that slot alone, and is empty only for a glyph without format |
| GlyphCache.EvictFirstKeepsLargest | fteng.cpp:123-136 | erasing n entries from the front keeps exactly the largest keys with all they hold |
| GlyphCache.CompactKeepsLargest | fteng.cpp:254-264 | compaction leaves the 1024 largest keys, or all of fewer, and resets the counter |
| GlyphCache.EraseAllEmpties | fteng.cpp:266-278 | erasing empties the cache and its slots, keeps the counter, and leaves every other variable its handle |
| GlyphCache.AddKeeps | fteng.cpp:280-369 | an add evicts when it is time and then changes exactly its one entry, with the given widths, and its one slot, which holds the glyph unless that has no format; every other entry, slot and variable stays; counts and size bound are kept |
| GlyphCache.NeverMoreThan3072 | fteng.cpp:280-369 | the invariant of all runs bounds the cache by 3072 entries |
| GlyphCache.BoundIsReached | fteng.cpp:280-369 | after 4095 adds of distinct keys there are exactly 3072 entries |
| GlyphCache.KeysMeetIff | fteng.cpp:297-367 | a character key equals a glyph key if and only if both are 0 |
| GlyphCache.KeysInjective | fteng.cpp:297-367 | different characters, and different glyphs, have different keys |
| GlyphCache.LookupIsLast | fteng.h:258-276 | a hit gives the widths and the glyph that were stored last under that character or that glyph, per mode |
| GlyphCache.FoundAfterAdd | fteng.cpp:280-369 | for every character and every 16-bit glyph index, what was added is what the lookup then gives, with its widths; an old entry keeps its other data |
| GlyphCache.LookupsByHistory | fteng.h:258-276 | the lookups by character and by glyph index miss, read a null slot or hit by the history alone; only glyph indices of more than 16 bits are refused |
| GlyphCache.HitHandsOver | ft.cpp:1855-1868 | a hit gives the caller a counted handle of its own to the stored glyph |
| GlyphCache.LookupAfterAdd | ft.cpp:1855-1868 | after an add the lookup of its mode hits, unless the glyph has no format; that of the other mode reads a null slot if and only if that slot was empty after the eviction, as for every new entry |
| GlyphCache.OtherModeReadsNull | ft.cpp:1855-1868 | one add for colour and one lookup for monochrome read through a null slot |
| GlyphCache.NullGlyphIff | ft.cpp:1855-1868 | a lookup reads a null slot if and only if the entry exists and its last add of that mode since it was created, if any, had no glyph with a format |
| GlyphCache.AddRemembers | fteng.cpp:280-369 | every add keeps that history, which evicts the same keys by itself |
| GlyphCache.StepKeeps | ftref.c:7-42 | every handle and cache operation keeps the counts, the size bound, the refinement of two caches that forget nothing, and the history of every entry |
| GlyphCache.RunKeeps | fteng.cpp:190-369 | the same in every state of every run of new, copy, done, add, hit, eviction and erasure, for callers that copy into NULL variables and do not add glyph 0; in each state a lookup misses, and reads a null slot, if and only if the history says so |
| GlyphCache.OnlyHandle | ft.cpp:2142-2200 | while a new glyph is emboldened and rasterised in place its count is 1 and the array holds its only handle |
| GlyphCache.HashInjective | fteng.h:372 | for sizes up to 0xfff the cache hash determines size, weight, slant and width |
| GlyphCache.SameCacheIff | fteng.cpp:448-459 | two admitted requests share a cache if and only if they agree in height, boldness, slant and effective width |
| GlyphCache.LargerHeightsCollide | fteng.cpp:451-452 | one size beyond the refusal the hash is no longer injective |
| GlyphCache.FreeTypeFontCache.constructor | fteng.cpp:234-246 | a cache starts empty |
| GlyphCache.FreeTypeFontCache.NewRefGlyph | ftref.c:36-42 | a record with count 1 in the given variable |
| GlyphCache.FreeTypeFontCache.GlyphRefCopy | ftref.c:7-16 | the error, or one more handle |
| GlyphCache.FreeTypeFontCache.DoneRefGlyph | ftref.c:18-27 | one handle less, and the record freed at count 0 |
| GlyphCache.FreeTypeFontCache.SetGlyphOf | fteng.cpp:215-230 | the slot is released before the new glyph is copied into it |
| GlyphCache.FreeTypeFontCache.CompactCache | fteng.cpp:123-136 | the erasing loop of the compaction |
| GlyphCache.FreeTypeFontCache.Erase | fteng.cpp:266-278 | the loop that deletes every entry |
| GlyphCache.FreeTypeFontCache.AddCharData | fteng.cpp:280-322 | the new state of adding under a character |
| GlyphCache.FreeTypeFontCache.AddGlyphData | fteng.cpp:324-369 | the new state of adding under a glyph index |
| GlyphCache.FreeTypeFontCache.RenderMissing | ft.cpp:2134-2202 | making a missing glyph ends with one handle in the caller's array, or, on a failure, in exactly the state before; it reads a null glyph if and only if FreeType's copy failed |
| GlyphCache.FreeTypeFontCache.CopyFound | ft.cpp:1855-1868 | the lookup and the copy of what it finds, and the read through an empty slot |
| GlyphCache.FreeTypeFontCache.ReleaseArray | override.cpp:1662-1671 | the final loop releases exactly the array's handles and keeps the counts |
| AlphaBlend.CAlphaBlend.RConv1 | ft.cpp:345-362 | the unrolled search finds the largest byte whose linear value is at most n |
| AlphaBlend.CAlphaBlend.Init | ft.cpp:276-318 | every entry of tbl2 inverts tbl1 on its grid of four |
| AlphaBlend.CAlphaBlend.InitTune | ft.cpp:328-342 | tune tables are cut off at 0 only; they stay at or below BASE if and only if the contrast curve does |
| AlphaBlend.InverseMonotone | ft.cpp:345-362 | the inverse of the gamma table is monotone |
| AlphaBlend.MixedInRange | ft.cpp:205-210 | a blend never leaves tbl2 |
| AlphaBlend.BlendBetween | ft.cpp:388-395 | a blend lies between its colours in linear light, up to less than one step of the grid |
| AlphaBlend.BlendIsWeighted | ft.cpp:388-395 | in linear light the blend is the mean of the colours weighted by alpha and BASE - alpha, rounded down to the grid and then to a byte |
| AlphaBlend.ShortcutIsWeighted | ft.cpp:450-460 | the older blend gives a colour unchanged at its shortcuts and the same weighted mean between them |
| AlphaBlend.BlendMonotoneInColours | ft.cpp:388-395 | lighter text or background never gives a darker pixel |
| AlphaBlend.BlendMonotoneInAlpha | ft.cpp:388-395 | more coverage moves the pixel towards the text colour |
| AlphaBlend.BlendOverItself | ft.cpp:388-395 | a colour over itself is unchanged if and only if its linear value is on the grid and the next byte is lighter, and gets darker if and only if its linear value is off the grid |
| AlphaBlend.LinearDarkens | ft.cpp:287-289 | with the linear curve of a negative gamma mode colour 4 over itself turns into 3 at every alpha |
| AlphaBlend.ShortcutAgrees | ft.cpp:450-460 | the older blend agrees with the tuned one if and only if, on its shortcuts, the colour that comes out is on the grid; elsewhere always; at alpha 0 and 255 the curve is taken at its ends |
| AlphaBlend.MixerNeedsPremultiplied | ft.cpp:703-706 | a mixed channel stays a byte for every background if and only if the source channel is at most alpha |
| AlphaBlend.MixIsWeighted | ft.cpp:703-706 | a mixed channel is the source over the background faded by 255 - alpha, rounded up by less than one |
| Blit.Draw | ft.cpp:537-839 | every cell holds what its source pixel makes of it where the code's clip lets it, and what it held elsewhere |
| Blit.DrawRow | ft.cpp:569-580 | the same for the inner loop of one row |
| Blit.ClipsIdeallyIff | ft.cpp:557-567 | the clip is ideal if and only if the glyph starts on the canvas, is no wider than it, ends left of it, or the canvas is empty |
| Blit.DrawnIsWanted | ft.cpp:557-579 | what is drawn lies on the canvas and in the bitmap |
| Blit.DrawnIff | ft.cpp:557-579 | a column is drawn if and only if it falls on the canvas and, for a glyph starting left of it, within the canvas width from its start |
| Blit.ShadeMono | ft.cpp:575-579 | a mono pixel is painted if and only if its bit is set, the highest bit first |
| Blit.ShadeGray | ft.cpp:832-837 | a grey sample is the coverage of all channels |
| Blit.ShadeLcd | ft.cpp:623-697 | which of an LCD pixel's samples goes to which place of the blender, by antialiasing mode |
| Blit.ShadeBgra | ft.cpp:778-788 | which of a colour pixel's samples goes to which place of the mixer |
| Blit.RowInsideIff | ft.cpp:571-573 | the address of a row lies in the bitmap if and only if the pitch is positive |
| Canvas.IndexInjective | ft.cpp:574-577 | different cells are different array elements |
| BitmapCache.CBitmapCache.CreateDIB | cache.cpp:16-62 | the new bitmap, size, counter and deletions, and the returned bitmap; NULL exactly on a failure |
| BitmapCache.CBitmapCache.DrawHorizontalLine | cache.cpp:102-168 | exactly the cells of the clipped rectangle change |
| BitmapCache.LineIsIdealIff | cache.cpp:114-121 | the rectangle is the one asked for if and only if the line starts on the bitmap, reaches its bottom, or has no column |
| BitmapCache.ServeCovers | cache.cpp:16-62 | a returned bitmap covers the request with a width divisible by four, a misfit grows componentwise, a failure changes nothing |
| BitmapCache.RunAccounts | cache.cpp:16-62 | in any run the counter is the number of fitting requests since the last rebuild or reset, and every bitmap is current or was deleted once |
| BitmapCache.ShrinksOnlyAfter255 | cache.cpp:21-32 | a dimension shrinks only after 255 fitting requests |
| BitmapCache.ShrinksExactly | cache.cpp:16-62 | in any run a dimension shrinks if and only if 255 requests have fitted, the request fits, differs in size and a bitmap can be made, and then to exactly the request; before that a fitting request is served from what there is |
| BitmapCache.RunValid | cache.cpp:16-62 | sizes stay divisible by four in every run |
| Outline.FillFits | ft.cpp:1203-1283 | when the second pass stays inside its arrays it writes as many contour ends as were counted and no more points, and the arrays have the counted lengths |
| Outline.StraysIff | ft.cpp:1203-1282 | the second pass leaves its arrays if and only if an empty curve comes before any point, the counts do not fit 16 bits, or the 16-bit position runs out: more than 32768 points, or a curve that ends at the 32768th |
| Outline.LongLineStrays | ft.cpp:1230-1282 | a buffer with one line of 40000 points is counted, allocated and left by the second pass |
| Outline.ReadsEncoded | ft.cpp:1200-1247 | a buffer in the system's format is read as exactly the contours that were put into it |
| Outline.ConversionsMean | ft.cpp:1143-1157 | coordinates are rounded down to 26.6, and what the bits of a tag say |
| Outline.CurveTagsMean | ft.cpp:1253-1278 | the points of a line are on the curve, those of a spline conic, and the last is on the curve with its fraction bits |
| Outline.EndsIncreaseIff | ft.cpp:1234-1283 | as long as nothing strays, the stored contour ends increase strictly to the last point if and only if every contour has a point to write |
| Outline.FillExact | ft.cpp:1246-1279 | as long as nothing strays, for nonempty curves the arrays hold each start that differs from its contour's last point, then the curve points with their tags |
| Outline.ContoursEndOnCurve | ft.cpp:1277-1280 | as long as nothing strays, every stored contour end is a written point with an ON tag |
| Outline.OutlineIsWellFormed | ft.cpp:1203-1284 | for contours of nonempty curves the second pass stays inside if and only if there are at most 32767 points, and then points, tags and ends are those of the contours |
| Outline.LastIsLastPoint | ft.cpp:1238-1243 | the scanning pointer stops at the last point of the last curve |
| Outline.CountPass | ft.cpp:1200-1221 | the first pass accepts exactly the buffers whose records end at their end, and counts their points and contours modulo 65536 |
| Outline.FillCurve | ft.cpp:1254-1278 | one curve is written behind what was there, with its last tag on the curve, or strays |
| Outline.FillPass | ft.cpp:1230-1283 | the second pass, with its 16-bit position, strays exactly where its specification does, and otherwise leaves exactly its points, tags and ends |
| Outline.CGGOOutlineGlyph.Init | ft.cpp:1178-1284 | when it succeeds, when it leaves its arrays, and what points, tags, contour ends and counts it leaves |
| ChildRelay.QuietSkipRoundTrip | child_process_relay.cpp:138-152 | a code decodes to a reason if and only if it encodes that reason and the reason is not none |
| ChildRelay.HelperProtocol | child_process_relay.cpp:724-749 | the parent reads back exactly what the helper found; success, each skip and failure never collide |
| ChildRelay.UnsafeMeansHelperMayStillRun | child_process_relay.cpp:507-600 | an attempt is unsafe if and only if a helper was started and its wait did not complete |
| ChildRelay.AttemptExplained | child_process_relay.cpp:455-600 | injected if and only if every check passed and Detours or the helper succeeded; skipped with a reason if and only if the target or the helper was classified so; failed with the reason and error of the first failing test; unsafe with those of the wait |
| ChildRelay.ReleaseOnce | child_process_relay.cpp:664-676 | the calls of a release: end and wait before the handles are closed, each once |
| ChildRelay.SuspendedChildObligation.constructor | child_process_relay.cpp:605-609 | the obligation starts open |
| ChildRelay.SuspendedChildObligation.TerminateAndRelease | child_process_relay.cpp:664-676 | the child is ended and waited for, each handle closed once, and the information zeroed |
| ChildRelay.SuspendedChildObligation.Complete | child_process_relay.cpp:617-661 | which of left to the caller, resumed once and ended once happens, and the exact result in each |
| ChildRelay.SuspendedChildObligation.Dispose | child_process_relay.cpp:611-615 | a completed obligation does nothing more, an open one ends the child |
| ChildRelay.ExecuteVerifiedChildInjection | child_process_relay.cpp:752-805 | for all answers of the system the created child is exactly one of left suspended on request, resumed once, ended once; it is ended if and only if a helper may still run or it cannot be resumed, with the exact calls, reason and error in each case; no resume is attempted while a helper may still run; otherwise the caller sees the original outcome, and relay, reason and error say exactly what happened, in terms of the answers alone |
| ChildRelay.IsInnoUninstaller | child_process_relay.cpp:219-241 | accepts exactly `_?unins[0-9]*` with extension exe or tmp, with the scan never past the last dot |
| ChildRelay.PiecesAreForced | child_process_relay.cpp:223-240 | the pieces of such a name can only lie where the scan looks |
| Crc32.TableDivides | crc32.h:5-49 | every table entry is eight bit-steps of its index |
| Crc32.ShiftsLinear | crc32.h:50-62 | division by the polynomial is linear |
| Crc32.TableStep | crc32.h:57-58 | one table step is eight bit-steps of the register |
| Crc32.GetCrc32 | crc32.h:50-62 | the loop computes the bit-by-bit CRC of section 8 of RFC 1952 for every buffer and start value |
| Crc32.CrcConcat | crc32.h:50-62 | a CRC can be continued piece by piece |
| Crc32.CheckValue | crc32.h:50-62 | the CRC of the digits 1 to 9 is the published 0xCBF43926, and no data changes nothing |
| Crc32.DivideInjective | crc32.h:50-62 | equal data keeps different registers different |
| Crc32.DivideWord | crc32.h:50-62 | up to four bytes divide as one word |
| Crc32.BurstDetected | crc32.h:50-62 | strings that differ only within four neighbouring bytes have different CRCs |
| Crc32.ChangedByteDetected | crc32.h:50-62 | one changed byte always changes the CRC |
| Advance.RoundIsNearest | ft.h:27 | ROUND is within one half, ties away from zero, and negative exactly from -1/2 down |
| Advance.TransformlpDx | ft.h:123-134 | the loop writes the device advances and nothing behind them |
| Advance.DriftBound | ft.h:123-134 | every device position is within 1/2 of the zoomed logical position, after any number of advances |
| Advance.PositionForced | ft.h:123-134 | away from ties a device position does not depend on how it was reached |
| Advance.StepsBackIff | ft.h:123-134 | a nonnegative advance becomes negative if and only if it is invisible and the position before was half a pixel too far |
| Advance.DifferenceInPlace | override.cpp:1158-1160 | the backward loop replaces extents by their differences |
| Advance.DifferencesSum | override.cpp:1158-1160 | the running sums of the differences are the extents |
| Advance.ExtentsKept | override.cpp:1153-1162 | differenced and zoomed, every position is within 1/2 of the zoomed extent |
| MultiSz.HoldsOne | expfunc.cpp:1414-1426 | a block holds at most one list |
| MultiSz.HoldsIff | expfunc.cpp:1414-1426 | a block holds a list of nonempty strings if and only if it starts with a NUL or has two in a row |
| MultiSz.FirstEnd | expfunc.cpp:1390-1399 | the list ends at the first such place |
| MultiSz.PrintParsed | expfunc.cpp:1414-1446 | reading a terminated block and printing the list gives the block back up to its first end, if there is memory for the list |
| MultiSz.Strlendb | expfunc.cpp:1390-1399 | the length of the block with its final NUL |
| MultiSz.SkipString | expfunc.cpp:1422-1423 | the pointer moves behind one string of the block |
| MultiSz.Strdupdb | expfunc.cpp:1401-1410 | the block and its padding, or NULL without memory |
| MultiSz.MultiSzToArray | expfunc.cpp:1414-1426 | exactly the list of the block, or as many strings as there was memory for |
| MultiSz.CchCopyEx | expfunc.cpp:1441 | a copy that is made only if it fits, with pointer and room left in front of the NUL; otherwise the empty string |
| MultiSz.ArrayToMultiSz | expfunc.cpp:1428-1446 | exactly the printed block in exactly its size; no copy is refused although the room left is overstated |
| MultiSz.PrintedHolds | expfunc.cpp:1414-1446 | a printed list reads as its strings up to the first empty one |
| MultiSz.RoundTrip | expfunc.cpp:1414-1446 | printing and parsing give the list back if and only if it has no empty string |
| Tokenizer.Seek | strtoken.h:97 | the scan stops at the first such character or the end |
| Tokenizer.SkipSpace | strtoken.h:74 | the scan stops at the first character that is no tab or space |
| Tokenizer.TakeText | strtoken.h:94-103 | where unquoted text ends once trailing blanks in front of the comma are dropped |
| Tokenizer.TakeQuoted | strtoken.h:84-93 | where quoted text ends, and that a quote at the end of the string sends the cursor past it |
| Tokenizer.SkipPast | strtoken.h:106-116 | a blank after the field becomes NUL, and the cursor moves behind the next comma |
| Tokenizer.TakeField | strtoken.h:79-116 | one round takes exactly the first field of the rest and leaves the rest of the buffer as it was |
| Tokenizer.CStringTokenizer.Parse | strtoken.h:46-123 | for every string the recorded arguments read as exactly its tokens, at most sixteen, also when the cursor leaves the string (those in front of it); nothing for NULL, an empty string or no memory |
| Tokenizer.LeavesIff | strtoken.h:84-88 | the cursor leaves the string if and only if reading it ends right after a quote that opens an argument |
| Tokenizer.TokensAreLexed | strtoken.h:63-117 | for every string the tokens are those of a reading one character at a time, with blanks, commas and quotes as the source treats them |
| Tokenizer.RoundTrip | strtoken.h:46-123 | parsing the comma-joined rendering of admissible fields gives those fields, or the first sixteen, if and only if they are not the single empty field |
| Coverage.RangeIndexVersusList | ft2vert.c:491-498 | the range loop finds a glyph if and only if the expanded list has it, at an index short by the negative widths passed |
| Coverage.FormatsAgreeIff | ft2vert.c:484-498 | format 2 lookup equals format 1 lookup of the expanded list if and only if no range passed ends more than one before it starts |
| Coverage.Ft2GsubGetGid | ft2vert.c:477-508 | the nested loops compute the search with one running index |
| Coverage.SearchRanges | ft2vert.c:491-498 | the loop over the ranges, and the running index it leaves |
| Coverage.ScanLookup | ft2vert.c:160-255 | for any number of slots counted by earlier scans of the same index: exactly when the scan writes behind its new array, and otherwise what every slot and the count become |
| Coverage.SecondScanLeavesIff | ft2vert.c:257-277 | a second scan of an index leaves its array if and only if it has slots and counts any, or has no more slots than the first counted |
| Coverage.ScannedSearchIsFirst | ft2vert.c:228-247 | in a scanned lookup the search is the search of the first subtable |
| Coverage.SearchCarries | ft2vert.c:477-508 | in any lookup the range index is off by exactly the widths of the subtables before |
| Coverage.OutsideArrayIff | ft2vert.c:463-508 | the search reads outside the substitutes if and only if the first subtable that has the glyph lists its substitutes and has none at the index carried to it |
| Coverage.SearchAnswers | ft2vert.c:463-508 | the search gives the glyph plus the delta or the substitute at the index it arrives at, of the first subtable that has the glyph, and no glyph if none has |
| Coverage.ReadsCoverage | ft2vert.c:160-194 | a coverage table of the OpenType specification in the file is read as what it says |
| Coverage.ReadsSubTable | ft2vert.c:196-226 | a single substitution subtable in the file is read as what it says |

## Left out

- Hook installation, code injection into the process itself, the PE loader, DirectWrite and GDI+ wrappers: foreign calls and machine code.
- FreeType, GDI, kernel and allocator behaviour: their answers are inputs.
- Locks other than the owner-based one: operations that the source runs under its critical sections are single steps.
- 32-bit overflow of counters, ids and reference counts.
- The gamma and contrast curves (`pow`): any nondecreasing table and any table up to BASE.
- Floating point: `double` positions are real numbers.
- Vertical text, underlines and alpha-channel output of the blitters.
- Blit.Draw: draws bitmaps with a nonnegative pitch; for others `Blit.RowInsideIff` shows that every row is read outside the bitmap.
- The drawing contexts that are torn down after a font file in use is removed (`fteng.cpp:573-581`).
- Memory-use counters, the statistics of most recent use, and the number of caches per font, which the code does not bound.
- `AnsiDxToUnicodeDx`, `StrToBestInt` and the vertical advances of `ETO_PDY`: they add only simple members.
- FontRegistry.FreeTypeFontEngine.RemoveFontFile: what the loop does after an entry that leaves a dangling pointer is not modelled; `FontRegistry.RemoveEntryKeepsIff` says which entries do.
- FontRegistry.FreeTypeFontEngine.AddFontByName: a font object is a record in the engine's heap, not a class of its own, so that deletion and dangling pointers can be stated.
- FontRegistry.CreatelinkKeepsIff: what the settings put in place of a font's own name (`fteng.cpp:402-403`) is an input.
- GlyphCache.SetGlyphKeeps: a caller without a handle of its own is covered by `GlyphCache.SetGlyphSafeIff` only.
- GlyphCache.LookupIsLast: the antialiasing mode is not part of it, because an overwritten entry keeps its old one (`fteng.cpp:300-306`).
- ChildRelay.IsInnoUninstaller: case is folded for the ASCII letters only.
- MultiSz.MultiSzToArray: reads blocks that are terminated (`MultiSz.HoldsIff`); an unterminated block is read past its end.
- Tokenizer.RoundTrip: an empty quoted argument is not admissible, because the character after an opening quote is taken unseen.
- Tokenizer.CStringTokenizer.Parse: the last argument and the count after the cursor has left the string are not modelled.
- Outline.CountPass: a record that is cut off by the end of the buffer is read from unknown memory behind it.
- Coverage.ScanLookup: the table is read as an unbounded memory; its length is not checked by the code either.
- Coverage.Ft2GsubGetGid: the glyph plus its delta is not reduced modulo 65536, as in the code.
