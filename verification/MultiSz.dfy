/**
  The multi-string blocks of expfunc.cpp:1390-1446: NUL-terminated strings one after the
  other, and one more NUL at the end.
 */
module MultiSz {
  import opened Common

  // A C string has no NUL inside, and an empty one would end a block.
  ghost predicate NulFree(s: string) {
    NUL !in s
  }

  ghost predicate NulFreeList(list: seq<string>) {
    forall s :: s in list ==> NulFree(s)
  }

  ghost predicate Storable(list: seq<string>) {
    NulFreeList(list) && "" !in list
  }

  function Flat(list: seq<string>): string {
    if list == [] then [] else list[0] + [NUL] + Flat(list[1..])
  }

  // The printed block of a list.
  function Print(list: seq<string>): string {
    Flat(list) + [NUL]
  }

  lemma PrintCons(s: string, rest: seq<string>)
    ensures Print([s] + rest) == s + [NUL] + Print(rest)
  {
    assert ([s] + rest)[1..] == rest;
  }

  lemma {:induction false} FlatAppend(a: seq<string>, b: seq<string>)
    ensures Flat(a + b) == Flat(a) + Flat(b)
  {
    if a == [] {
      assert a + b == b;
    } else {
      FlatAppend(a[1..], b);
      assert (a + b)[1..] == a[1..] + b;
      assert Flat(a) + Flat(b) == a[0] + [NUL] + (Flat(a[1..]) + Flat(b));
    }
  }

  // `block` starts with the printed form of `list`.
  ghost predicate Holds(block: seq<char>, list: seq<string>) {
    Print(list) <= block
  }

  // A block that holds a nonempty list starts with its first string.
  lemma FirstString(block: seq<char>, list: seq<string>)
    requires Holds(block, list) && Storable(list) && list != []
    ensures var n := |list[0]|;
            && 0 < n < |block| && block[..n] == list[0] && block[n] == NUL
            && (forall k :: 0 <= k < n ==> block[k] != NUL)
            && Holds(block[n + 1..], list[1..])
  {
    var n := |list[0]|;
    assert list == [list[0]] + list[1..];
    PrintCons(list[0], list[1..]);
    assert list[0] in list;
    var whole := Print(list);
    assert whole == block[..|whole|];
    assert whole[n + 1..] == Print(list[1..]);
    assert block[n + 1..][..|Print(list[1..])|] == whole[n + 1..];
    forall k | 0 <= k < n
      ensures block[k] != NUL
    {
      assert block[k] == whole[k] == list[0][k];
    }
  }

  // The first character tells whether there is a string at all.
  lemma FirstChar(block: seq<char>, list: seq<string>)
    requires Holds(block, list) && Storable(list)
    ensures block != [] && (block[0] == NUL <==> list == [])
  {
    if list == [] {
      assert Print(list)[0] == NUL;
    } else {
      FirstString(block, list);
    }
  }

  /** A block holds at most one list. */
  lemma {:induction false} HoldsOne(block: seq<char>, a: seq<string>, b: seq<string>)
    requires Storable(a) && Storable(b) && Holds(block, a) && Holds(block, b)
    ensures a == b
  {
    FirstChar(block, a);
    FirstChar(block, b);
    if a != [] {
      FirstString(block, a);
      FirstString(block, b);
      assert |a[0]| == |b[0]|;
      HoldsOne(block[|a[0]| + 1..], a[1..], b[1..]);
      assert a == [a[0]] + a[1..] && b == [b[0]] + b[1..];
    }
  }

  // Somewhere a NUL ends the block: at its very start, or right after another one.
  ghost predicate Terminated(block: seq<char>) {
    exists e :: EndsAt(block, e)
  }

  predicate EndsAt(block: seq<char>, e: int) {
    0 <= e < |block| && block[e] == NUL && (e == 0 || block[e - 1] == NUL)
  }

  // The first string of a block that ends at e.
  function FirstNul(block: seq<char>): (n: nat)
    requires NUL in block
    ensures n < |block| && block[n] == NUL
    ensures forall k :: 0 <= k < n ==> block[k] != NUL
  {
    if block[0] == NUL then 0
    else
      assert block == [block[0]] + block[1..];
      FirstNul(block[1..]) + 1
  }

  lemma {:induction false} Parses(block: seq<char>, e: nat) returns (list: seq<string>)
    requires EndsAt(block, e)
    ensures Storable(list) && Holds(block, list)
    decreases |block|
  {
    if block[0] == NUL {
      list := [];
    } else {
      assert block[e] in block;
      var n := FirstNul(block);
      var rest := block[n + 1..];
      var tail := Parses(rest, e - n - 1);
      list := [block[..n]] + tail;
      PrintCons(block[..n], tail);
      assert block == block[..n] + [NUL] + rest;
      assert Print(list) == block[..n] + [NUL] + rest[..|Print(tail)|];
    }
  }

  lemma {:induction false} PrintEnds(list: seq<string>)
    ensures EndsAt(Print(list), |Print(list)| - 1)
  {
    if list != [] {
      var front, s := list[..|list| - 1], list[|list| - 1];
      assert list == front + [s];
      FlatAppend(front, [s]);
      assert Flat([s]) == s + [NUL];
    }
  }

  /** A block holds a list of nonempty strings exactly when it is terminated. */
  lemma HoldsIff(block: seq<char>)
    ensures Terminated(block) <==> exists list :: Storable(list) && Holds(block, list)
  {
    if Terminated(block) {
      var e :| EndsAt(block, e);
      var list := Parses(block, e);
    }
    forall list | Storable(list) && Holds(block, list)
      ensures Terminated(block)
    {
      PrintEnds(list);
      assert EndsAt(block, |Print(list)| - 1);
    }
  }

  // ---------------------------------------------------------------- reading

  /** strlendb counts the block with its final NUL. */
  method Strlendb(psz: array<char>, ghost list: seq<string>) returns (len: nat)
    requires Storable(list) && Holds(psz[..], list)
    ensures len == |Print(list)|
  {
    var p := 0;
    ghost var rest := list;
    assert psz[0..] == psz[..];
    FirstChar(psz[..], list);
    while psz[p] != NUL
      invariant 0 <= p < psz.Length && p + |Print(rest)| == |Print(list)|
      invariant Storable(rest) && Holds(psz[p..], rest)
      decreases |rest|
    {
      FirstChar(psz[p..], rest);
      p := SkipString(psz, p, rest);
      assert rest == [rest[0]] + rest[1..];
      PrintCons(rest[0], rest[1..]);
      rest := rest[1..];
    }
    FirstChar(psz[p..], rest);
    len := p + 1;
  }

  // for (; *p; p++); p++;
  method SkipString(psz: array<char>, p: nat, ghost list: seq<string>) returns (q: nat)
    requires p < psz.Length && list != [] && Storable(list) && Holds(psz[p..], list)
    ensures q == p + |list[0]| + 1 && q < psz.Length
    ensures psz[p..q - 1] == list[0] && Holds(psz[q..], list[1..])
  {
    FirstString(psz[p..], list);
    ghost var n := |list[0]|;
    assert psz[p..][..n] == psz[p..p + n] && psz[p..][n] == psz[p + n] && psz[p..][n + 1..] == psz[p + n + 1..];
    assert forall k :: p <= k < p + n ==> psz[k] == psz[p..][k - p];
    q := p;
    while psz[q] != NUL
      invariant p <= q <= p + n
      decreases p + n - q
    {
      q := q + 1;
    }
    q := q + 1;
  }

  /** strdupdb copies the block and pads it with zeros. */
  method Strdupdb(psz: array<char>, pad: nat, memory: bool, ghost list: seq<string>) returns (copy: array?<char>)
    requires Storable(list) && Holds(psz[..], list)
    ensures copy != null <==> memory
    ensures copy != null ==> fresh(copy) && copy[..] == Print(list) + seq(pad, _ => NUL)
  {
    var len := Strlendb(psz, list);
    if !memory {
      return null;
    }
    copy := new char[len + pad](_ => NUL);
    for i := 0 to len
      invariant forall k :: 0 <= k < i ==> copy[k] == psz[k]
      invariant forall k :: i <= k < len + pad ==> copy[k] == NUL
    {
      copy[i] := psz[i];
    }
  }

  /** MultiSzToArray reads back exactly the list, or, when memory runs out after `capacity`
      strings, as many strings as there was room for. */
  method MultiSzToArray(psz: array<char>, capacity: nat, ghost list: seq<string>) returns (ok: bool, arr: seq<string>)
    requires Storable(list) && Holds(psz[..], list)
    ensures ok <==> |list| <= capacity
    ensures arr == if ok then list else list[..capacity]
  {
    arr := [];
    var p := 0;
    ghost var rest := list;
    assert psz[0..] == psz[..];
    FirstChar(psz[..], list);
    while psz[p] != NUL
      invariant 0 <= p < psz.Length
      invariant Storable(rest) && Holds(psz[p..], rest)
      invariant arr + rest == list && |arr| <= capacity
      decreases |rest|
    {
      FirstChar(psz[p..], rest);
      if |arr| == capacity {
        return false, arr;
      }
      var q := SkipString(psz, p, rest);
      arr := arr + [psz[p..q - 1]];
      rest := rest[1..];
      p := q;
    }
    FirstChar(psz[p..], rest);
    ok := true;
  }

  // ---------------------------------------------------------------- writing

  ghost function Chars(list: seq<string>): nat {
    if list == [] then 0 else Chars(list[..|list| - 1]) + |list[|list| - 1]|
  }

  lemma {:induction false} FlatLength(list: seq<string>)
    ensures |Flat(list)| == Chars(list) + |list|
    decreases |list|
  {
    if list != [] {
      var front := list[..|list| - 1];
      FlatLength(front);
      assert list == front + [list[|list| - 1]];
      FlatAppend(front, [list[|list| - 1]]);
    }
  }

  /** StringCchCopyExW without truncation: the copy is made only if it fits into `cch`; the end
      pointer and what is left of `cch` both stop in front of the terminating NUL. A copy that
      does not fit leaves the empty string. */
  method CchCopyEx(dest: array<char>, p: nat, cch: nat, src: string) returns (p': nat, cch': nat)
    requires |src| + 1 <= cch ==> p + |src| + 1 <= dest.Length
    requires 0 < cch <= |src| ==> p < dest.Length
    modifies dest
    ensures |src| + 1 <= cch ==> p' == p + |src| && cch' == cch - |src|
    ensures |src| + 1 <= cch ==> dest[..] == old(dest[..p]) + src + [NUL] + old(dest[p + |src| + 1..])
    ensures |src| + 1 > cch ==> p' == p && cch' == cch
    ensures 0 < cch <= |src| ==> dest[..] == old(dest[..])[p := NUL]
    ensures cch == 0 ==> dest[..] == old(dest[..])
  {
    if |src| + 1 > cch {
      if cch > 0 {
        dest[p] := NUL;
      }
      return p, cch;
    }
    for i := 0 to |src|
      invariant forall k :: 0 <= k < i ==> dest[p + k] == src[k]
      invariant forall k :: 0 <= k < dest.Length && !(p <= k < p + i) ==> dest[k] == old(dest[k])
    {
      dest[p + i] := src[i];
    }
    dest[p + |src|] := NUL;
    p' := p + |src|;
    cch' := cch - |src|;
  }

  /** ArrayToMultiSz allocates and writes exactly the printed block. `cch` is not reduced for
      the terminators, so it says more room is left than there is; no copy is refused and none
      leaves the allocation. */
  method ArrayToMultiSz(arr: seq<string>, memory: bool) returns (pmsz: array?<char>)
    requires NulFreeList(arr)
    ensures pmsz != null <==> memory
    ensures pmsz != null ==> fresh(pmsz) && pmsz[..] == Print(arr)
  {
    var cch := 1;
    var i := 0;
    while i < |arr|
      invariant 0 <= i <= |arr| && cch == |Flat(arr[..i])| + 1
    {
      FlatTake(arr, i);
      cch := cch + |arr[i]| + 1;
      i := i + 1;
    }
    assert arr[..|arr|] == arr;
    if !memory {
      return null;
    }
    var block := new char[cch](_ => NUL);
    ghost var total := cch;
    var p := 0;
    i := 0;
    while i < |arr|
      invariant 0 <= i <= |arr|
      invariant p == |Flat(arr[..i])| < total && block[..p] == Flat(arr[..i])
      invariant cch == total - Chars(arr[..i])
      invariant forall k :: p <= k < total ==> block[k] == NUL
    {
      FlatTake(arr, i);
      FlatLength(arr[..i]);
      ghost var before := block[..p];
      FlatFits(arr, i + 1);
      assert arr[..i + 1][..i] == arr[..i];
      p, cch := CchCopyEx(block, p, cch, arr[i]);
      p := p + 1;
      assert block[..p] == before + arr[i] + [NUL];
      i := i + 1;
    }
    block[p] := NUL;
    assert block[..] == block[..p] + [NUL];
    pmsz := block;
  }

  lemma FlatTake(arr: seq<string>, i: nat)
    requires i < |arr|
    ensures Flat(arr[..i + 1]) == Flat(arr[..i]) + arr[i] + [NUL]
  {
    assert arr[..i + 1] == arr[..i] + [arr[i]];
    FlatAppend(arr[..i], [arr[i]]);
  }

  lemma FlatFits(arr: seq<string>, i: nat)
    requires i <= |arr|
    ensures |Flat(arr[..i])| <= |Flat(arr)|
  {
    assert arr == arr[..i] + arr[i..];
    FlatAppend(arr[..i], arr[i..]);
  }

  // ---------------------------------------------------------------- round trip

  // How many strings stand before the first empty one.
  function BeforeEmpty(list: seq<string>): (k: nat)
    ensures k <= |list|
    ensures "" !in list[..k] && (k < |list| ==> list[k] == "")
  {
    if list == [] || list[0] == "" then 0
    else
      var k := 1 + BeforeEmpty(list[1..]);
      assert list[..k] == [list[0]] + list[1..][..k - 1];
      k
  }

  /** A printed list reads back as its strings up to the first empty one. */
  lemma PrintedHolds(list: seq<string>)
    requires NulFreeList(list)
    ensures Storable(list[..BeforeEmpty(list)])
    ensures Holds(Print(list), list[..BeforeEmpty(list)])
  {
    var k := BeforeEmpty(list);
    var rest := list[k..];
    PrintStart(rest);
    hide Flat;
    assert list == list[..k] + rest;
    FlatAppend(list[..k], rest);
    assert Print(list) == Flat(list[..k]) + Print(rest);
    assert Print(list[..k]) == Flat(list[..k]) + [NUL];
  }

  lemma PrintStart(rest: seq<string>)
    requires rest == [] || rest[0] == ""
    ensures Print(rest)[0] == NUL
  {
  }

  /** Printing and reading return a list unchanged exactly when it holds no empty string. */
  method RoundTrip(list: seq<string>, capacity: nat) returns (ok: bool, arr: seq<string>)
    requires NulFreeList(list) && |list| <= capacity
    ensures ok && arr == list[..BeforeEmpty(list)]
    ensures arr == list <==> "" !in list
  {
    var block := ArrayToMultiSz(list, true);
    PrintedHolds(list);
    ok, arr := MultiSzToArray(block, capacity, list[..BeforeEmpty(list)]);
    assert list == list[..BeforeEmpty(list)] + list[BeforeEmpty(list)..];
  }

  // A block that holds a list ends nowhere before the list does.
  lemma {:induction false} FirstEnd(block: seq<char>, list: seq<string>, e: int)
    requires Storable(list) && Holds(block, list) && EndsAt(block, e)
    ensures e >= |Print(list)| - 1
    decreases |list|
  {
    if list != [] {
      FirstString(block, list);
      var n := |list[0]|;
      assert list == [list[0]] + list[1..];
      PrintCons(list[0], list[1..]);
      assert block[n - 1] != NUL && e > n;
      FirstEnd(block[n + 1..], list[1..], e - n - 1);
    }
  }

  /** Reading a terminated block and printing the list gives the block back, up to the first NUL
      that ends it; it fails exactly when there is no memory for the list. */
  method PrintParsed(psz: array<char>, capacity: nat) returns (pmsz: array?<char>)
    requires Terminated(psz[..])
    ensures pmsz != null <==> exists list :: Storable(list) && Holds(psz[..], list) && |list| <= capacity
    ensures pmsz != null ==> 0 < pmsz.Length <= psz.Length && pmsz[..] == psz[..pmsz.Length]
    ensures pmsz != null ==> EndsAt(psz[..], pmsz.Length - 1) && forall e :: EndsAt(psz[..], e) ==> e >= pmsz.Length - 1
  {
    hide Print, Flat, EndsAt, Storable;
    HoldsIff(psz[..]);
    ghost var list :| Storable(list) && Holds(psz[..], list);
    forall other | Storable(other) && Holds(psz[..], other)
      ensures other == list
    {
      HoldsOne(psz[..], other, list);
    }
    var ok, arr := MultiSzToArray(psz, capacity, list);
    if !ok {
      return null;
    }
    ListIsFree(list);
    pmsz := ArrayToMultiSz(arr, true);
    ghost var n := pmsz.Length;
    assert psz[..n] == psz[..][..n] == Print(list);
    BlockEnds(psz[..], list);
    forall e | EndsAt(psz[..], e)
      ensures e >= n - 1
    {
      FirstEnd(psz[..], list, e);
    }
  }

  lemma ListIsFree(list: seq<string>)
    requires Storable(list)
    ensures NulFreeList(list)
  {}

  lemma BlockEnds(block: seq<char>, list: seq<string>)
    requires Holds(block, list)
    ensures 0 < |Print(list)| <= |block| && EndsAt(block, |Print(list)| - 1)
  {
    PrintEnds(list);
  }
}
