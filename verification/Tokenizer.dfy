/**
  CStringTokenizer::Parse of strtoken.h: it copies the string, writes NULs into the copy and
  records where each argument starts.
 */
module Tokenizer {
  import opened Common

  const MAX_ARGUMENTS: nat := 16

  predicate IsSpace(c: char) {
    c == '\t' || c == ' '
  }

  predicate IsCString(s: string) {
    NUL !in s
  }

  // ---------------------------------------------------------------- what Parse means

  // The first position of c at or after `start`, or the length.
  function Find(s: string, c: char, start: nat): (i: nat)
    requires start <= |s|
    ensures start <= i <= |s|
    ensures i < |s| ==> s[i] == c
    ensures forall k :: start <= k < i ==> s[k] != c
    decreases |s| - start
  {
    if start == |s| || s[start] == c then start else Find(s, c, start + 1)
  }

  function Blanks(s: string, start: nat): (i: nat)
    requires start <= |s|
    ensures start <= i <= |s|
    ensures i < |s| ==> !IsSpace(s[i])
    ensures forall k :: start <= k < i ==> IsSpace(s[k])
    decreases |s| - start
  {
    if start == |s| || !IsSpace(s[start]) then start else Blanks(s, start + 1)
  }

  function TrimmedLength(s: string): (n: nat)
    ensures n <= |s|
    ensures n > 0 ==> !IsSpace(s[n - 1])
    ensures forall k :: n <= k < |s| ==> IsSpace(s[k])
  {
    if s == "" || !IsSpace(s[|s| - 1]) then |s| else TrimmedLength(s[..|s| - 1])
  }

  // What the text at the cursor holds: a field with more after it, the last field, or an
  // opening quote after which the cursor leaves the string.
  datatype Cut = Field(text: string, next: nat) | Last(text: string) | LeavesString

  function FirstField(t: string): (cut: Cut)
    requires t != ""
    ensures cut.Field? ==> 0 < cut.next <= |t|
  {
    if t[0] == ',' then Field("", 1)
    else if t[0] == '"' then
      if |t| == 1 then LeavesString
      else
        var q := Find(t, '"', 2);
        if q == |t| then Last(t[1..])
        else
          var c := Find(t, ',', q + 1);
          if c == |t| then Last(t[1..q]) else Field(t[1..q], c + 1)
    else
      var c := Find(t, ',', 1);
      if c == |t| then Last(t) else Field(t[..TrimmedLength(t[..c])], c + 1)
  }

  datatype Outcome = Outcome(tokens: seq<string>, leaves: bool)

  function Prepend(text: string, o: Outcome): Outcome {
    Outcome([text] + o.tokens, o.leaves)
  }

  // The tokens of the rest of the string while `room` arguments still fit.
  function Tokens(s: string, room: nat): (o: Outcome)
    ensures |o.tokens| <= room
    decreases |s|
  {
    if room == 0 then Outcome([], false)
    else if s == "" then Outcome([""], false)
    else
      var t := s[Blanks(s, 0)..];
      if t == "" then Outcome([], false)
      else match FirstField(t)
        case LeavesString => Outcome([], true)
        case Last(text) => Outcome([text], false)
        case Field(text, next) =>
          Prepend(text, Tokens(t[next..], room - 1))
  }

  // ---------------------------------------------------------------- the cursor loops

  // From p on the buffer still holds the input and its terminator.
  predicate Holds(b: array<char>, p: nat, s: string)
    reads b
  {
    && b.Length == |s| + 1
    && p <= |s|
    && (forall i :: p <= i < |s| ==> b[i] == s[i] && b[i] != NUL)
    && b[|s|] == NUL
  }

  // for (; *p && *p != c; p++);
  method Seek(b: array<char>, p0: nat, c: char, ghost s: string) returns (p: nat)
    requires Holds(b, p0, s) && c != NUL
    ensures p == Find(s, c, p0) && Holds(b, p, s)
    ensures b[p] == (if p == |s| then NUL else c)
  {
    p := p0;
    while b[p] != NUL && b[p] != c
      invariant p0 <= p <= |s|
      invariant Find(s, c, p0) == Find(s, c, p)
      decreases |s| - p
    {
      p := p + 1;
    }
  }

  // for (; _isspace(*p); *p++);
  method SkipSpace(b: array<char>, p0: nat, ghost s: string) returns (p: nat)
    requires Holds(b, p0, s)
    ensures p == Blanks(s, p0) && Holds(b, p, s)
    ensures b[p] == (if p == |s| then NUL else s[p])
  {
    p := p0;
    while IsSpace(b[p])
      invariant p0 <= p <= |s|
      invariant Blanks(s, p0) == Blanks(s, p)
      decreases |s| - p
    {
      p := p + 1;
    }
  }

  lemma FindShift(s: string, d: nat, c: char, start: nat)
    requires d <= start <= |s|
    ensures Find(s, c, start) == Find(s[d..], c, start - d) + d
    decreases |s| - start
  {
    if start < |s| && s[start] != c {
      FindShift(s, d, c, start + 1);
    }
  }

  lemma BlanksBefore(s: string, start: nat, c: char)
    requires start <= |s| && !IsSpace(c)
    ensures Find(s, c, start) == Find(s, c, Blanks(s, start))
    decreases |s| - start
  {
    if start < |s| && IsSpace(s[start]) {
      BlanksBefore(s, start + 1, c);
    }
  }

  // The argument at `start` reads as text.
  ghost predicate Token(b: array<char>, start: nat, end: nat, text: string)
    reads b
  {
    && end == start + |text| && end < b.Length
    && (forall k :: 0 <= k < |text| ==> b[start + k] == text[k] && b[start + k] != NUL)
    && b[end] == NUL
  }

  lemma TrimmedIs(s: string, n: nat)
    requires n <= |s|
    requires n > 0 ==> !IsSpace(s[n - 1])
    requires forall k :: n <= k < |s| ==> IsSpace(s[k])
    ensures TrimmedLength(s) == n
  {}

  lemma TrimmedSlice(s: string, start: nat, end: nat, c: nat)
    requires start < end <= c <= |s|
    requires !IsSpace(s[end - 1])
    requires forall k :: end <= k < c ==> IsSpace(s[k])
    ensures TrimmedLength(s[start..][..c - start]) == end - start
  {
    hide IsSpace, TrimmedLength;
    var u := s[start..][..c - start];
    forall k | end - start <= k < |u|
      ensures IsSpace(u[k])
    {
      assert u[k] == s[start + k];
    }
    assert u[end - start - 1] == s[end - 1];
    TrimmedIs(u, end - start);
  }

  // The default case: where the text ends, if a comma follows.
  method TakeText(b: array<char>, start: nat, ghost s: string) returns (end: nat, more: bool)
    requires Holds(b, start, s)
    requires start < |s| && !IsSpace(s[start])
    ensures more <==> Find(s, ',', start + 1) < |s|
    ensures more ==> start < end <= Find(s, ',', start + 1) && !IsSpace(s[end - 1])
    ensures more ==> forall k :: end <= k < Find(s, ',', start + 1) ==> IsSpace(s[k])
  {
    hide Find, IsSpace;
    var p := start;
    p := p + 1;
    var ps := p;
    p := Seek(b, p, ',', s);
    if b[p] == NUL {
      return p, false;
    }
    ghost var c := p;
    p := p - 1;
    while IsSpace(b[p]) && p >= ps
      invariant start <= p < c
      invariant forall k :: p < k < c ==> IsSpace(s[k])
    {
      p := p - 1;
    }
    p := p + 1;
    return p, true;
  }

  // The quoted case; the character after the opening quote is taken unseen.
  method TakeQuoted(b: array<char>, p0: nat, ghost s: string) returns (end: nat, more: bool, leaves: bool)
    requires Holds(b, p0, s) && p0 < |s|
    modifies b
    ensures leaves <==> p0 + 1 == |s|
    ensures !leaves ==>
              var q := Find(s, '"', p0 + 2);
              && end == q && b[end] == NUL
              && (forall i :: p0 < i < end ==> b[i] == s[i] && b[i] != NUL)
              && (more <==> q < |s|)
              && (more ==> Holds(b, end + 1, s))
    ensures forall i :: 0 <= i <= p0 ==> b[i] == old(b[i])
  {
    var p := p0 + 1;
    p := p + 1;
    if p >= b.Length {
      return p, false, true;
    }
    p := Seek(b, p, '"', s);
    end, leaves := p, false;
    if b[p] == NUL {
      more := false;
      return;
    }
    b[p] := NUL;
    more := true;
  }

  // After the switch: blank out one blank, skip to the comma and step over it.
  method SkipPast(b: array<char>, p0: nat, ghost s: string) returns (p: nat, more: bool)
    requires Holds(b, p0, s)
    modifies b
    ensures forall i :: 0 <= i < p0 ==> b[i] == old(b[i])
    ensures p0 < |s| && (IsSpace(s[p0]) || s[p0] == ',') ==> b[p0] == NUL
    ensures var c := Find(s, ',', p0);
            && (more <==> c < |s|)
            && (more ==> p == c + 1 && Holds(b, p, s))
  {
    p := p0;
    BlanksBefore(s, p0, ',');
    if IsSpace(b[p]) {
      b[p] := NUL;
      p := p + 1;
      p := SkipSpace(b, p, s);
      if b[p] == NUL {
        return p, false;
      }
    }
    p := Seek(b, p, ',', s);
    if b[p] == NUL {
      return p, false;
    }
    b[p] := NUL;
    p := p + 1;
    more := true;
  }

  // What one round leaves behind.
  ghost predicate Taken(b: array<char>, p0: nat, s: string,
                        start: nat, end: nat, more: bool, leaves: bool, p: nat)
    requires p0 < |s|
    reads b
  {
    match FirstField(s[p0..])
    case LeavesString => leaves
    case Last(text) => !leaves && !more && p0 <= end && Token(b, start, end, text)
    case Field(text, next) =>
      && !leaves && more && p == p0 + next
      && Holds(b, p, s)
      && Token(b, start, end, text) && p0 <= end < p
  }

  // One round of the switch: the cursor is at a character that is neither blank nor the end.
  method TakeField(b: array<char>, p0: nat, ghost s: string)
    returns (start: nat, more: bool, leaves: bool, p: nat, ghost end: nat)
    requires Holds(b, p0, s)
    requires p0 < |s| && !IsSpace(s[p0])
    modifies b
    ensures forall i :: 0 <= i < p0 ==> b[i] == old(b[i])
    ensures Taken(b, p0, s, start, end, more, leaves, p)
  {
    hide Find, Blanks, TrimmedLength, IsSpace;
    p, end, more, leaves := p0, p0, true, false;
    if b[p] == ',' {
      b[p] := NUL;
      start := p;
      p := p + 1;
    } else if b[p] == '"' {
      start, end, more, leaves, p := TakeQuotedField(b, p, s);
    } else {
      start, end, more, p := TakeTextField(b, p, s);
    }
  }

  method TakeQuotedField(b: array<char>, p0: nat, ghost s: string)
    returns (start: nat, ghost end: nat, more: bool, leaves: bool, p: nat)
    requires Holds(b, p0, s) && p0 < |s| && s[p0] == '"'
    modifies b
    ensures forall i :: 0 <= i < p0 ==> b[i] == old(b[i])
    ensures Taken(b, p0, s, start, end, more, leaves, p)
  {
    hide Find, Blanks, TrimmedLength, IsSpace;
    var close: nat;
    start, p := p0 + 1, p0;
    close, more, leaves := TakeQuoted(b, p0, s);
    end := close;
    if !leaves {
      ghost var t := s[p0..];
      FindShift(s, p0, '"', p0 + 2);
      if more {
        FindShift(s, p0, ',', close + 1);
        assert |t[1..end - p0]| == end - start;
        p, more := SkipPast(b, close + 1, s);
      }
    }
  }

  method TakeTextField(b: array<char>, p0: nat, ghost s: string)
    returns (start: nat, ghost end: nat, more: bool, p: nat)
    requires Holds(b, p0, s) && p0 < |s|
    requires !IsSpace(s[p0]) && s[p0] != ',' && s[p0] != '"'
    modifies b
    ensures forall i :: 0 <= i < p0 ==> b[i] == old(b[i])
    ensures Taken(b, p0, s, start, end, more, false, p)
  {
    hide Find, Blanks, TrimmedLength, IsSpace;
    var close: nat;
    ghost var t := s[p0..];
    ghost var c := Find(s, ',', p0 + 1);
    start, p := p0, p0;
    close, more := TakeText(b, p0, s);
    FindShift(s, p0, ',', p0 + 1);
    if more {
      end := close;
      TrimmedSlice(s, p0, end, c);
      CommaAfter(s, p0 + 1, end);
      p, more := SkipPast(b, close, s);
    } else {
      end := |s|;
    }
  }

  lemma CommaAfter(s: string, start: nat, end: nat)
    requires start <= |s| && start <= end <= Find(s, ',', start)
    ensures Find(s, ',', start) == Find(s, ',', end)
  {}

  // ---------------------------------------------------------------- the tokenizer

  // The string a pointer into memory reads as.
  function StringAt(memory: seq<char>, start: nat): string
    decreases |memory| - start
  {
    if start >= |memory| || memory[start] == NUL then "" else [memory[start]] + StringAt(memory, start + 1)
  }

  lemma {:induction false} TokenReads(b: array<char>, start: nat, end: nat, text: string)
    requires Token(b, start, end, text)
    ensures StringAt(b[..], start) == text
    decreases |text|
  {
    if text != "" {
      assert b[start + 0] == text[0];
      forall k | 0 <= k < |text| - 1
        ensures b[start + 1 + k] == text[1..][k] && b[start + 1 + k] != NUL
      {
        assert b[start + (k + 1)] == text[k + 1];
      }
      TokenReads(b, start + 1, end, text[1..]);
    }
  }

  lemma BlanksShift(s: string, d: nat, start: nat)
    requires d <= start <= |s|
    ensures Blanks(s, start) == Blanks(s[d..], start - d) + d
    decreases |s| - start
  {
    if start < |s| && IsSpace(s[start]) {
      BlanksShift(s, d, start + 1);
    }
  }

  function Before(texts: seq<string>, o: Outcome): Outcome {
    Outcome(texts + o.tokens, o.leaves)
  }

  // One unfolding of Tokens in positions of the whole string.
  lemma TokensStep(s: string, p: nat, room: nat)
    requires p < |s| && room > 0
    ensures var q := Blanks(s, p);
            Tokens(s[p..], room) ==
            if q == |s| then Outcome([], false)
            else match FirstField(s[q..])
              case LeavesString => Outcome([], true)
              case Last(text) => Outcome([text], false)
              case Field(text, next) =>
                Prepend(text, Tokens(s[q + next..], room - 1))
  {
    hide FirstField, Blanks, Tokens;
    var q := Blanks(s, p);
    BlanksShift(s, p, p);
    assert s[p..][q - p..] == s[q..];
    TokensUnfold(s[p..], room);
    if q < |s| && FirstField(s[q..]).Field? {
      var next := FirstField(s[q..]).next;
      assert s[q..][next..] == s[q + next..];
    }
  }

  lemma TokensUnfold(s: string, room: nat)
    requires s != "" && room > 0
    ensures var t := s[Blanks(s, 0)..];
            Tokens(s, room) ==
            if t == "" then Outcome([], false)
            else match FirstField(t)
              case LeavesString => Outcome([], true)
              case Last(text) => Outcome([text], false)
              case Field(text, next) => Prepend(text, Tokens(t[next..], room - 1))
  {
    hide FirstField, Blanks;
  }

  // Parse of a whole string: the empty string has no arguments at all.
  function Parsed(s: string): Outcome {
    if s == "" then Outcome([], false) else Tokens(s, MAX_ARGUMENTS)
  }

  function Texts(memory: seq<char>, argv: seq<nat>): seq<string> {
    seq(|argv|, i requires 0 <= i < |argv| => StringAt(memory, argv[i]))
  }

  ghost predicate AllTokens(b: array<char>, argv: seq<nat>, ends: seq<nat>, texts: seq<string>, bound: int)
    reads b
  {
    && |argv| == |texts| == |ends|
    && forall i :: 0 <= i < |argv| ==> Token(b, argv[i], ends[i], texts[i]) && ends[i] < bound
  }

  lemma AllRead(b: array<char>, argv: seq<nat>, ends: seq<nat>, texts: seq<string>, bound: int)
    requires AllTokens(b, argv, ends, texts, bound)
    ensures Texts(b[..], argv) == texts
    ensures Before(texts, Outcome([], false)) == Outcome(texts, false)
    ensures Before(texts, Outcome([], true)) == Outcome(texts, true)
  {
    hide Token;
    assert texts + [] == texts;
    forall i | 0 <= i < |argv|
      ensures StringAt(b[..], argv[i]) == texts[i]
    {
      TokenReads(b, argv[i], ends[i], texts[i]);
    }
  }

  // What a round writes does not touch the tokens in front of it.
  method TakeNext(b: array<char>, p0: nat, ghost s: string, ghost argv: seq<nat>, ghost ends: seq<nat>, ghost texts: seq<string>)
    returns (start: nat, more: bool, leaves: bool, p: nat, ghost end: nat)
    requires Holds(b, p0, s)
    requires p0 < |s| && !IsSpace(s[p0])
    requires AllTokens(b, argv, ends, texts, p0)
    modifies b
    ensures Taken(b, p0, s, start, end, more, leaves, p)
    ensures AllTokens(b, argv, ends, texts, p0)
  {
    start, more, leaves, p, end := TakeField(b, p0, s);
    forall i | 0 <= i < |argv|
      ensures Token(b, argv[i], ends[i], texts[i])
    {
      assert old(Token(b, argv[i], ends[i], texts[i]));
    }
  }

  lemma NoneYet(b: array<char>, s: string)
    ensures AllTokens(b, [], [], [], 0)
    ensures Before([], Tokens(s[0..], MAX_ARGUMENTS)) == Tokens(s, MAX_ARGUMENTS)
  {
    assert s[0..] == s;
  }

  lemma TokensEnd(s: string, p: nat, room: nat)
    requires p <= |s|
    ensures room == 0 ==> Tokens(s[p..], room) == Outcome([], false)
    ensures room > 0 && p == |s| ==> Tokens(s[p..], room) == Outcome([""], false)
  {}

  lemma EmptyToken(b: array<char>, p: nat, s: string)
    requires Holds(b, p, s) && b[p] == NUL
    ensures p == |s| && Token(b, p, p, "")
  {}

  lemma Later(b: array<char>, argv: seq<nat>, ends: seq<nat>, texts: seq<string>, p: nat, q: nat)
    requires AllTokens(b, argv, ends, texts, p) && p <= q
    ensures AllTokens(b, argv, ends, texts, q)
  {}

  lemma TakenCases(b: array<char>, p0: nat, s: string, start: nat, end: nat, more: bool, leaves: bool, p: nat)
    requires p0 < |s| && Taken(b, p0, s, start, end, more, leaves, p)
    ensures leaves <==> FirstField(s[p0..]).LeavesString?
    ensures !leaves ==> !FirstField(s[p0..]).LeavesString? && Token(b, start, end, FirstField(s[p0..]).text)
    ensures !leaves && !more ==> FirstField(s[p0..]).Last?
    ensures !leaves && more ==>
              && FirstField(s[p0..]).Field?
              && Holds(b, p, s) && p0 <= end < p == p0 + FirstField(s[p0..]).next
  {}

  lemma OneMore(b: array<char>, argv: seq<nat>, ends: seq<nat>, texts: seq<string>, p0: nat,
                start: nat, end: nat, text: string, p: nat)
    requires AllTokens(b, argv, ends, texts, p0) && p0 <= p
    requires Token(b, start, end, text) && end < p
    ensures AllTokens(b, argv + [start], ends + [end], texts + [text], p)
  {}

  lemma BeforeOneMore(texts: seq<string>, text: string, o: Outcome)
    ensures Before(texts, Prepend(text, o)) == Before(texts + [text], o)
    ensures Before(texts, Outcome([text], false)) == Before(texts + [text], Outcome([], false))
  {
    assert texts + ([text] + o.tokens) == texts + [text] + o.tokens;
  }

  // The loop of Parse.
  method Scan(b: array<char>, ghost s: string) returns (argv: seq<nat>, leaves: bool)
    requires Holds(b, 0, s)
    modifies b
    ensures var o := Tokens(s, MAX_ARGUMENTS);
            leaves == o.leaves && Texts(b[..], argv) == o.tokens
  {
    hide Tokens, Find, IsSpace, FirstField, Blanks, Token, AllTokens, Before, Prepend, Texts, Taken;
    argv, leaves := [], false;
    var p: nat := 0;
    ghost var texts: seq<string> := [];
    ghost var ends: seq<nat> := [];
    NoneYet(b, s);
    while true
      invariant Holds(b, p, s) && !leaves
      invariant |argv| <= MAX_ARGUMENTS
      invariant AllTokens(b, argv, ends, texts, p)
      invariant Tokens(s, MAX_ARGUMENTS) == Before(texts, Tokens(s[p..], MAX_ARGUMENTS - |argv|))
      decreases MAX_ARGUMENTS - |argv|
    {
      ghost var room := MAX_ARGUMENTS - |argv|;
      TokensEnd(s, p, room);
      if |argv| >= MAX_ARGUMENTS {
        AllRead(b, argv, ends, texts, p);
        return;
      }
      if b[p] == NUL {
        EmptyToken(b, p, s);
        OneMore(b, argv, ends, texts, p, p, p, "", p + 1);
        BeforeOneMore(texts, "", Outcome([], false));
        argv, texts, ends := argv + [p], texts + [""], ends + [p];
        AllRead(b, argv, ends, texts, p + 1);
        return;
      }
      TokensStep(s, p, room);
      Later(b, argv, ends, texts, p, Blanks(s, p));
      p := SkipSpace(b, p, s);
      if b[p] == NUL {
        AllRead(b, argv, ends, texts, p);
        return;
      }
      ghost var p0 := p;
      var start, more;
      ghost var end;
      start, more, leaves, p, end := TakeNext(b, p, s, argv, ends, texts);
      TakenCases(b, p0, s, start, end, more, leaves, p);
      if leaves {
        AllRead(b, argv, ends, texts, p0);
        return;
      }
      ghost var text := FirstField(s[p0..]).text;
      ghost var bound := if more then p else end + 1;
      OneMore(b, argv, ends, texts, p0, start, end, text, bound);
      BeforeOneMore(texts, text, if more then Tokens(s[p..], room - 1) else Outcome([], false));
      argv, texts, ends := argv + [start], texts + [text], ends + [end];
      if !more {
        AllRead(b, argv, ends, texts, bound);
        return;
      }
    }
  }

  class CStringTokenizer {
    var argv: seq<nat>
    var buffer: array?<char>

    ghost function Arguments(): (args: seq<string>)
      reads this, buffer
    {
      if buffer == null then [] else Texts(buffer[..], argv)
    }

    constructor ()
      ensures Arguments() == [] && argv == []
    {
      argv, buffer := [], null;
    }

    /** Parse. `duplicated` is whether the copy could be allocated; `leaves` tells that the
        cursor ran past the terminator, where the model stops, with the arguments in front of
        the quote that opened the last one. */
    method Parse(pszStr: Option<string>, duplicated: bool) returns (count: nat, leaves: bool)
      requires pszStr.Some? ==> IsCString(pszStr.value)
      modifies this
      ensures buffer != null ==> fresh(buffer)
      ensures var o := if pszStr.Some? && duplicated then Parsed(pszStr.value) else Outcome([], false);
              leaves == o.leaves && Arguments() == o.tokens && count == |argv| == |o.tokens|
    {
      argv, buffer, count, leaves := [], null, 0, false;
      if pszStr.None? || pszStr.value == "" || !duplicated {
        return;
      }
      var s := pszStr.value;
      buffer := new char[|s| + 1](i requires 0 <= i <= |s| => if i < |s| then s[i] else NUL);
      argv, leaves := Scan(buffer, s);
      count := |argv|;
    }
  }

  // ---------------------------------------------------------------- when the cursor leaves the string

  // Reading the string one character at a time, left to right.
  datatype Mode = Start | Text | Opened | Quoted | Closed

  function Read(s: string, mode: Mode, room: nat): Mode
    decreases |s|
  {
    if s == "" || (mode.Start? && room == 0) then mode
    else
      var c := s[0];
      match mode
      case Start =>
        if IsSpace(c) then Read(s[1..], Start, room)
        else if c == ',' then Read(s[1..], Start, room - 1)
        else if c == '"' then Read(s[1..], Opened, room - 1)
        else Read(s[1..], Text, room - 1)
      case Text => Read(s[1..], if c == ',' then Start else Text, room)
      case Opened => Read(s[1..], Quoted, room)
      case Quoted => Read(s[1..], if c == '"' then Closed else Quoted, room)
      case Closed => Read(s[1..], if c == ',' then Start else Closed, room)
  }

  lemma {:induction false} ReadBlanks(s: string, i: nat, room: nat)
    requires i <= |s| && room > 0
    ensures Read(s[i..], Start, room) == Read(s[Blanks(s, i)..], Start, room)
    decreases |s| - i
  {
    if i < |s| && IsSpace(s[i]) {
      assert s[i..][1..] == s[i + 1..];
      ReadBlanks(s, i + 1, room);
    }
  }

  // In Text and Closed everything up to the next comma is passed over, in Quoted up to the quote.
  lemma {:induction false} ReadUntil(s: string, i: nat, mode: Mode, room: nat)
    requires i <= |s| && (mode.Text? || mode.Quoted? || mode.Closed?)
    ensures var q := Find(s, if mode.Quoted? then '"' else ',', i);
            Read(s[i..], mode, room) ==
            if q == |s| then mode else Read(s[q + 1..], if mode.Quoted? then Closed else Start, room)
    decreases |s| - i
  {
    if i < |s| {
      assert s[i..][1..] == s[i + 1..];
      ReadUntil(s, i + 1, mode, room);
    }
  }

  lemma ReadField(t: string, room: nat)
    requires t != "" && !IsSpace(t[0]) && room > 0
    ensures match FirstField(t)
            case LeavesString => Read(t, Start, room) == Opened
            case Last(_) => Read(t, Start, room) != Opened
            case Field(_, next) => Read(t, Start, room) == Read(t[next..], Start, room - 1)
  {
    hide Find, IsSpace;
    if t[0] == '"' {
      if |t| > 1 {
        assert t[1..][1..] == t[2..];
        assert Read(t, Start, room) == Read(t[2..], Quoted, room - 1);
        ReadUntil(t, 2, Quoted, room - 1);
        var q := Find(t, '"', 2);
        if q < |t| {
          ReadUntil(t, q + 1, Closed, room - 1);
        }
      }
    } else if t[0] != ',' {
      ReadUntil(t, 1, Text, room - 1);
    }
  }

  lemma TokensNone(s: string, room: nat)
    ensures s == "" || room == 0 ==> !Tokens(s, room).leaves
  {}

  lemma ReadNone(s: string, room: nat)
    ensures s == "" || room == 0 ==> Read(s, Start, room) == Start
  {}

  /** The cursor leaves the string exactly when reading it ends right after a quote that opens
      an argument. */
  lemma {:induction false} LeavesIff(s: string, room: nat)
    ensures Tokens(s, room).leaves <==> Read(s, Start, room) == Opened
    decreases |s|
  {
    hide FirstField, Blanks, Find, IsSpace, Read, Tokens;
    TokensNone(s, room);
    ReadNone(s, room);
    if room > 0 && s != "" {
      assert s[0..] == s;
      TokensUnfold(s, room);
      ReadBlanks(s, 0, room);
      ReadNone(s[Blanks(s, 0)..], room);
      var t := s[Blanks(s, 0)..];
      if t != "" {
        ReadField(t, room);
        if FirstField(t).Field? {
          LeavesIff(t[FirstField(t).next..], room - 1);
        }
      }
    }
  }

  // ---------------------------------------------------------------- one character at a time

  datatype Place = AtStart | AfterBlank | InText | JustOpened | InsideQuotes | AfterQuote

  function Trim(s: string): string {
    if s != "" && (s[|s| - 1] == ' ' || s[|s| - 1] == '\t') then Trim(s[..|s| - 1]) else s
  }

  // The arguments by reading the string left to right, without looking ahead; `read` is what
  // the current argument has so far.
  function Lexed(s: string, place: Place, read: string, room: nat): Outcome
    decreases |s|, 1
  {
    match place
    case AtStart =>
      if room == 0 then Outcome([], false)
      else if s == "" then Outcome([""], false)
      else LexedFirst(s[0], s[1..], room)
    case AfterBlank =>
      if room == 0 || s == "" then Outcome([], false) else LexedFirst(s[0], s[1..], room)
    case InText =>
      if s == "" then Outcome([read], false)
      else if s[0] == ',' then Prepend(Trim(read), Lexed(s[1..], AtStart, "", if room > 0 then room - 1 else 0))
      else Lexed(s[1..], InText, read + [s[0]], room)
    case JustOpened =>
      if s == "" then Outcome([], true) else Lexed(s[1..], InsideQuotes, [s[0]], room)
    case InsideQuotes =>
      if s == "" then Outcome([read], false)
      else if s[0] == '"' then Prepend(read, Lexed(s[1..], AfterQuote, "", if room > 0 then room - 1 else 0))
      else Lexed(s[1..], InsideQuotes, read + [s[0]], room)
    case AfterQuote =>
      if s == "" then Outcome([], false)
      else Lexed(s[1..], if s[0] == ',' then AtStart else AfterQuote, "", room)
  }

  // The first character of an argument, or a blank or a comma in its place.
  function LexedFirst(c: char, rest: string, room: nat): Outcome
    requires room > 0
    decreases |rest| + 1, 0
  {
    if c == ' ' || c == '\t' then Lexed(rest, AfterBlank, "", room)
    else if c == ',' then Prepend("", Lexed(rest, AtStart, "", room - 1))
    else if c == '"' then Lexed(rest, JustOpened, "", room)
    else Lexed(rest, InText, [c], room)
  }

  lemma {:induction false} TrimIs(s: string)
    ensures Trim(s) == s[..TrimmedLength(s)]
    decreases |s|
  {
    if s != "" && IsSpace(s[|s| - 1]) {
      TrimIs(s[..|s| - 1]);
      assert s[..|s| - 1][..TrimmedLength(s[..|s| - 1])] == s[..TrimmedLength(s[..|s| - 1])];
    } else {
      assert s[..|s|] == s;
    }
  }

  lemma {:induction false} LexBlanks(s: string, i: nat, room: nat)
    requires i <= |s| && room > 0
    ensures Lexed(s[i..], AfterBlank, "", room) == Lexed(s[Blanks(s, i)..], AfterBlank, "", room)
    decreases |s| - i
  {
    if i < |s| && IsSpace(s[i]) {
      assert s[i..][1..] == s[i + 1..];
      LexBlanks(s, i + 1, room);
    }
  }

  lemma ReadOn(s: string, i: nat, j: nat, read: string)
    requires i < j <= |s|
    ensures read + [s[i]] + s[i + 1..j] == read + s[i..j]
  {}

  lemma {:induction false} LexText(s: string, i: nat, read: string, room: nat)
    requires i <= |s| && room > 0
    ensures var c := Find(s, ',', i);
            Lexed(s[i..], InText, read, room) ==
            if c == |s| then Outcome([read + s[i..]], false)
            else Prepend(Trim(read + s[i..c]), Lexed(s[c + 1..], AtStart, "", room - 1))
    decreases |s| - i
  {
    hide Trim;
    if i == |s| {
      assert read + s[i..] == read;
    } else {
      assert s[i..][1..] == s[i + 1..];
      if s[i] == ',' {
        assert read + s[i..i] == read;
      } else {
        LexText(s, i + 1, read + [s[i]], room);
        ReadOn(s, i, |s|, read);
        ReadOn(s, i, Find(s, ',', i), read);
        assert s[i..|s|] == s[i..] && s[i + 1..|s|] == s[i + 1..];
      }
    }
  }

  lemma {:induction false} LexQuotes(s: string, i: nat, read: string, room: nat)
    requires i <= |s| && room > 0
    ensures var q := Find(s, '"', i);
            Lexed(s[i..], InsideQuotes, read, room) ==
            if q == |s| then Outcome([read + s[i..]], false)
            else Prepend(read + s[i..q], Lexed(s[q + 1..], AfterQuote, "", room - 1))
    decreases |s| - i
  {
    if i == |s| {
      assert read + s[i..] == read;
    } else {
      assert s[i..][1..] == s[i + 1..];
      if s[i] == '"' {
        assert read + s[i..i] == read;
      } else {
        LexQuotes(s, i + 1, read + [s[i]], room);
        ReadOn(s, i, |s|, read);
        ReadOn(s, i, Find(s, '"', i), read);
        assert s[i..|s|] == s[i..] && s[i + 1..|s|] == s[i + 1..];
      }
    }
  }

  lemma {:induction false} LexAfterQuote(s: string, i: nat, room: nat)
    requires i <= |s|
    ensures var c := Find(s, ',', i);
            Lexed(s[i..], AfterQuote, "", room) ==
            if c == |s| then Outcome([], false) else Lexed(s[c + 1..], AtStart, "", room)
    decreases |s| - i
  {
    if i < |s| {
      assert s[i..][1..] == s[i + 1..];
      if s[i] != ',' {
        LexAfterQuote(s, i + 1, room);
      }
    }
  }

  lemma LexField(t: string, room: nat)
    requires t != "" && !IsSpace(t[0]) && room > 0
    ensures Lexed(t, AfterBlank, "", room) ==
            match FirstField(t)
            case LeavesString => Outcome([], true)
            case Last(text) => Outcome([text], false)
            case Field(text, next) => Prepend(text, Lexed(t[next..], AtStart, "", room - 1))
  {
    if t[0] == '"' {
      LexQuotedField(t, room);
    } else if t[0] != ',' {
      LexTextField(t, room);
    }
  }

  lemma LexTextField(t: string, room: nat)
    requires t != "" && !IsSpace(t[0]) && t[0] != '"' && t[0] != ',' && room > 0
    ensures var c := Find(t, ',', 1);
            Lexed(t, AfterBlank, "", room) ==
            if c == |t| then Outcome([t], false)
            else Prepend(t[..TrimmedLength(t[..c])], Lexed(t[c + 1..], AtStart, "", room - 1))
  {
    hide Find, Trim, TrimmedLength;
    LexText(t, 1, [t[0]], room);
    var c := Find(t, ',', 1);
    assert [t[0]] + t[1..] == t;
    assert [t[0]] + t[1..c] == t[..c];
    TrimIs(t[..c]);
    assert t[..c][..TrimmedLength(t[..c])] == t[..TrimmedLength(t[..c])];
  }

  lemma LexQuotedField(t: string, room: nat)
    requires t != "" && t[0] == '"' && room > 0
    ensures Lexed(t, AfterBlank, "", room) ==
            if |t| == 1 then Outcome([], true)
            else
              var q := Find(t, '"', 2);
              if q == |t| then Outcome([t[1..]], false)
              else
                var c := Find(t, ',', q + 1);
                if c == |t| then Outcome([t[1..q]], false)
                else Prepend(t[1..q], Lexed(t[c + 1..], AtStart, "", room - 1))
  {
    hide Find, Lexed;
    LexOpening(t, room);
    if |t| > 1 {
      LexQuotes(t, 2, [t[1]], room);
      var q := Find(t, '"', 2);
      assert [t[1]] + t[2..] == t[1..];
      assert [t[1]] + t[2..q] == t[1..q];
      if q < |t| {
        LexAfterQuote(t, q + 1, room - 1);
        assert Prepend(t[1..q], Outcome([], false)) == Outcome([t[1..q]], false);
      }
    }
  }

  lemma LexOpening(t: string, room: nat)
    requires t != "" && t[0] == '"' && room > 0
    ensures Lexed(t, AfterBlank, "", room) ==
            if |t| == 1 then Outcome([], true) else Lexed(t[2..], InsideQuotes, [t[1]], room)
  {
    assert Lexed(t, AfterBlank, "", room) == Lexed(t[1..], JustOpened, "", room);
    if |t| > 1 {
      assert t[1..][0] == t[1] && t[1..][1..] == t[2..];
    }
  }

  /** For every string the tokens are what reading it one character at a time gives: blanks in
      front of an argument and behind unquoted text in front of a comma are dropped, unquoted
      text ends at a comma, quoted text at the second quote, and what follows up to the comma is
      passed over. */
  lemma {:induction false} TokensAreLexed(s: string, room: nat)
    ensures Tokens(s, room) == Lexed(s, AtStart, "", room)
    decreases |s|
  {
    hide FirstField, Blanks, Tokens;
    TokensNothing(s, room);
    if room > 0 && s != "" {
      TokensUnfold(s, room);
      var q := Blanks(s, 0);
      var t := s[q..];
      assert s[0..] == s;
      LexBlanks(s, 0, room);
      LexStart(s, room);
      if t != "" {
        LexField(t, room);
        if FirstField(t).Field? {
          TokensAreLexed(t[FirstField(t).next..], room - 1);
        }
      }
    }
  }

  lemma TokensNothing(s: string, room: nat)
    ensures room == 0 ==> Tokens(s, room) == Outcome([], false)
    ensures room > 0 && s == "" ==> Tokens(s, room) == Outcome([""], false)
  {}

  // At the start of a nonempty string it does not matter whether there was a blank before.
  lemma LexStart(s: string, room: nat)
    requires s != "" && room > 0
    ensures Lexed(s, AtStart, "", room) == Lexed(s, AfterBlank, "", room)
  {}

  // ---------------------------------------------------------------- round trip

  // An argument as a caller writes it.
  datatype Argument = Bare(text: string) | InQuotes(text: string)

  // Bare text is trimmed, free of commas and does not start with a quote; quoted text is
  // nonempty and free of quotes.
  predicate Admissible(a: Argument) {
    match a
    case Bare(x) => x == "" || (',' !in x && x[0] != '"' && !IsSpace(x[0]) && !IsSpace(x[|x| - 1]))
    case InQuotes(x) => x != "" && '"' !in x
  }

  function Render(a: Argument): string {
    match a
    case Bare(x) => x
    case InQuotes(x) => "\"" + x + "\""
  }

  function Join(args: seq<Argument>): string {
    if args == [] then ""
    else if |args| == 1 then Render(args[0])
    else Render(args[0]) + "," + Join(args[1..])
  }

  function TextsOf(args: seq<Argument>): (texts: seq<string>)
    ensures |texts| == |args| && forall i :: 0 <= i < |args| ==> texts[i] == args[i].text
  {
    seq(|args|, i requires 0 <= i < |args| => args[i].text)
  }

  lemma FindIs(s: string, c: char, start: nat, i: nat)
    requires start <= i < |s| && s[i] == c
    requires forall k :: start <= k < i ==> s[k] != c
    ensures Find(s, c, start) == i
  {}

  lemma FindNone(s: string, c: char, start: nat)
    requires start <= |s|
    requires forall k :: start <= k < |s| ==> s[k] != c
    ensures Find(s, c, start) == |s|
  {}

  lemma CutFirst(a: Argument, rest: string)
    requires Admissible(a)
    ensures var t := Render(a) + "," + rest;
            && FirstField(t) == Field(a.text, |Render(a)| + 1)
            && t[|Render(a)| + 1..] == rest
            && Blanks(t, 0) == 0
  {
    hide Find;
    var r := Render(a);
    var t := r + "," + rest;
    match a {
      case Bare(x) =>
        if x != "" {
          FindIs(t, ',', 1, |x|);
          assert t[..|x|] == x;
          TrimmedIs(x, |x|);
        }
      case InQuotes(x) =>
        FindIs(t, '"', 2, |x| + 1);
        FindIs(t, ',', |x| + 2, |x| + 2);
        assert t[1..|x| + 1] == x;
    }
  }

  lemma CutLast(a: Argument)
    requires Admissible(a) && Render(a) != ""
    ensures FirstField(Render(a)) == Last(a.text)
    ensures Blanks(Render(a), 0) == 0
  {
    hide Find;
    var t := Render(a);
    match a {
      case Bare(x) => FindNone(t, ',', 1);
      case InQuotes(x) =>
        FindIs(t, '"', 2, |x| + 1);
        FindNone(t, ',', |x| + 2);
        assert t[1..|x| + 1] == x;
    }
  }

  lemma TokensFirst(a: Argument, rest: string, room: nat)
    requires Admissible(a) && room > 0
    ensures Tokens(Render(a) + "," + rest, room) == Prepend(a.text, Tokens(rest, room - 1))
  {
    hide FirstField, Blanks, Admissible, Render;
    var t := Render(a) + "," + rest;
    CutFirst(a, rest);
    assert t[0..] == t;
  }

  lemma TokensLast(a: Argument, room: nat)
    requires Admissible(a) && room > 0
    ensures Tokens(Render(a), room) == Outcome([a.text], false)
  {
    hide FirstField, Blanks;
    var t := Render(a);
    if t != "" {
      CutLast(a);
      assert t[0..] == t;
    }
  }

  function Capped(n: nat, room: nat): nat {
    if n < room then n else room
  }

  function FirstTexts(args: seq<Argument>, room: nat): seq<string> {
    TextsOf(args)[..Capped(|args|, room)]
  }

  lemma FirstTextsStep(args: seq<Argument>, room: nat)
    ensures room == 0 ==> FirstTexts(args, room) == []
    ensures room > 0 && |args| == 1 ==> FirstTexts(args, room) == [args[0].text]
    ensures room > 0 && |args| > 1 ==> FirstTexts(args, room) == [args[0].text] + FirstTexts(args[1..], room - 1)
  {}

  lemma {:induction false} TokensOfJoin(args: seq<Argument>, room: nat)
    requires args != [] && forall a :: a in args ==> Admissible(a)
    ensures Tokens(Join(args), room) == Outcome(FirstTexts(args, room), false)
    decreases |args|
  {
    hide Admissible, Render, FirstTexts, Tokens;
    assert args[0] in args;
    FirstTextsStep(args, room);
    if room == 0 {
      TokensEnd(Join(args), 0, 0);
      assert Join(args)[0..] == Join(args);
    } else if |args| == 1 {
      TokensLast(args[0], room);
    } else {
      TokensFirst(args[0], Join(args[1..]), room);
      TokensOfJoin(args[1..], room - 1);
    }
  }

  /** Parsing the comma-joined rendering of admissible arguments gives those arguments, or the
      first sixteen of them; the single empty argument is the one list that is lost. */
  lemma RoundTrip(args: seq<Argument>)
    requires forall a :: a in args ==> Admissible(a)
    ensures Parsed(Join(args)) == Outcome(FirstTexts(args, MAX_ARGUMENTS), false)
            <==> args != [Bare("")]
    ensures args != [Bare("")] && |args| <= 16 ==> Parsed(Join(args)).tokens == TextsOf(args)
  {
    if args != [] {
      TokensOfJoin(args, MAX_ARGUMENTS);
      assert args[0] in args;
    }
  }
}
