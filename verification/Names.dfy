/** 8.3 names under Shift-JIS: create_name, get_fileinfo and their round trip. */
module Names {
  import opened Bytes
  import opened DirMap

  // ---------------------------------------------------------------- characters of code page 932

  predicate IsDbcs1(c: Byte) { 0x81 <= c <= 0x9F || 0xE0 <= c <= 0xFC }
  predicate IsDbcs2(c: Byte) { 0x40 <= c <= 0x7E || 0x80 <= c <= 0xFC }
  predicate IsLower(c: Byte) { 0x61 <= c <= 0x7A }
  predicate IsSeparator(c: Byte) { c == 0x2F || c == 0x5C }

  /** The characters " * + , : ; < = > ? [ ] | and DEL. */
  predicate IsIllegal(c: Byte) {
    || c == 0x22 || (0x2A <= c <= 0x2C) || (0x3A <= c <= 0x3F)
    || c == 0x5B || c == 0x5D || c == 0x7C || c == 0x7F
  }

  /** Single-byte characters a stored name consists of: upper-case, neither separator nor dot nor illegal. */
  predicate IsStored(c: Byte) {
    c > 0x20 && !IsSeparator(c) && c != 0x2E && !IsDbcs1(c) && !IsIllegal(c) && !IsLower(c)
  }

  function ToUpper(c: Byte): Byte {
    if IsLower(c) then c - 0x20 else c
  }

  /** Byte si of a path, 0 from its end on. */
  function CharAt(p: seq<Byte>, si: nat): Byte {
    if si < |p| then p[si] else 0
  }

  // ---------------------------------------------------------------- create_name

  /** A parsed segment: the 11 bytes, whether the path ends here, whether it is a dot entry, where the next begins. */
  datatype Segment = Segment(fn: Name, last: bool, dot: bool, next: nat)

  const BLANK_NAME: Name :=
    [0x20, 0x20, 0x20, 0x20, 0x20, 0x20, 0x20, 0x20, 0x20, 0x20, 0x20]

  /** Position of the segment behind duplicated separators. */
  function Strip(p: seq<Byte>, si: nat): nat
    decreases |p| - si
  {
    if si < |p| && IsSeparator(p[si]) then Strip(p, si + 1) else si
  }

  /** The character loop of create_name from position si, with i bytes of a field of ni filled. */
  function Chars(p: seq<Byte>, si: nat, i: nat, ni: nat, fn: Name): Option<Segment>
    requires i <= ni <= 11
    decreases |p| - si
  {
    var c := CharAt(p, si);
    if c <= 0x20 || IsSeparator(c) then
      if i == 0 then None else Some(Segment(Swapped(fn), c <= 0x20, false, si + 1))
    else if c == 0x2E || i >= ni then
      if ni != 8 || c != 0x2E then None else Chars(p, si + 1, 8, 11, fn)
    else if IsDbcs1(c) then
      var d := CharAt(p, si + 1);
      if !IsDbcs2(d) || i + 1 >= ni then None else Chars(p, si + 2, i + 2, ni, fn[i := c][i + 1 := d])
    else if IsIllegal(c) then None
    else Chars(p, si + 1, i + 1, ni, fn[i := ToUpper(c)])
  }

  /** A first byte that collides with the deleted mark is replaced. */
  function Swapped(fn: Name): Name {
    if fn[0] == 0xE5 then fn[0 := 0x05] else fn
  }

  /** The dot entries. */
  function Dots(p: seq<Byte>, s: nat): Option<Segment> {
    var n := if CharAt(p, s + 1) == 0x2E then 2 else 1;
    var c := CharAt(p, s + n);
    if !IsSeparator(c) && c > 0x20 then None
    else Some(Segment(if n == 2 then BLANK_NAME[0 := 0x2E][1 := 0x2E] else BLANK_NAME[0 := 0x2E],
                      c <= 0x20, true, s + n + 1))
  }

  /** create_name on the path p from position 0. */
  function ParseName(p: seq<Byte>): Option<Segment> {
    var s := Strip(p, 0);
    if CharAt(p, s) == 0x2E then Dots(p, s) else Chars(p, s, 0, 8, BLANK_NAME)
  }

  // ---------------------------------------------------------------- get_fileinfo

  /** The bytes before the first space. */
  function UpToSpace(s: seq<Byte>): seq<Byte> {
    if s == [] || s[0] == 0x20 then [] else [s[0]] + UpToSpace(s[1..])
  }

  /** 0x05 stands for 0xE5. */
  function Unswap(s: seq<Byte>): (r: seq<Byte>)
    ensures |r| == |s|
    ensures forall i :: 0 <= i < |s| ==> r[i] == if s[i] == 0x05 then 0xE5 else s[i]
  {
    if s == [] then [] else [if s[0] == 0x05 then 0xE5 else s[0]] + Unswap(s[1..])
  }

  /** The name get_fileinfo prints for the first 11 bytes of an entry. */
  function PrintName(fn: Name): seq<Byte> {
    Unswap(UpToSpace(fn[..8])) + if fn[8] != 0x20 then [0x2E] + UpToSpace(fn[8..]) else []
  }

  // ---------------------------------------------------------------- name parts

  /** A body or extension: stored single-byte characters and whole two-byte characters. */
  predicate Part(b: seq<Byte>) {
    if b == [] then true
    else if IsDbcs1(b[0]) then |b| >= 2 && IsDbcs2(b[1]) && Part(b[2..])
    else IsStored(b[0]) && Part(b[1..])
  }

  /** A field of the given width. */
  function Padded(b: seq<Byte>, n: nat): (r: seq<Byte>)
    requires |b| <= n
    ensures |r| == n && r[..|b|] == b
    ensures forall k :: |b| <= k < n ==> r[k] == 0x20
  {
    b + seq(n - |b|, i => 0x20)
  }

  function Joined(body: seq<Byte>, ext: seq<Byte>): Name
    requires |body| <= 8 && |ext| <= 3
  {
    Padded(body, 8) + Padded(ext, 3)
  }

  /** What the 11 bytes of a body and an extension are. */
  ghost predicate Laid(fn: Name, body: seq<Byte>, ext: seq<Byte>) {
    && |body| <= 8 && |ext| <= 3
    && fn[..|body|] == body && (forall k :: |body| <= k < 8 ==> fn[k] == 0x20)
    && fn[8..8 + |ext|] == ext && (forall k :: 8 + |ext| <= k < 11 ==> fn[k] == 0x20)
  }

  lemma JoinedIsLaid(fn: Name, body: seq<Byte>, ext: seq<Byte>)
    requires |body| <= 8 && |ext| <= 3
    ensures Laid(fn, body, ext) <==> fn == Joined(body, ext)
  {
    var p, q := Padded(body, 8), Padded(ext, 3);
    hide Padded;
    assert Joined(body, ext) == p + q;
    if fn == p + q {
      assert fn[..|body|] == p[..|body|];
      assert fn[8..8 + |ext|] == q[..|ext|];
      assert forall k :: 8 + |ext| <= k < 11 ==> fn[k] == q[k - 8];
    }
    if Laid(fn, body, ext) {
      assert forall k :: 0 <= k < |body| ==> fn[k] == fn[..|body|][k] == p[..|body|][k];
      assert forall k :: 0 <= k < |ext| ==> fn[8 + k] == fn[8..8 + |ext|][k] == q[..|ext|][k];
      assert fn[..8] == p;
      assert fn[8..] == q;
      assert fn == fn[..8] + fn[8..];
    }
  }

  /** Parts can be extended at the end by whole characters. */
  lemma {:induction false} PartAppend(b: seq<Byte>, c: seq<Byte>)
    requires Part(b) && Part(c)
    ensures Part(b + c)
    decreases |b|
  {
    if b == [] {
      assert b + c == c;
    } else {
      var k := if IsDbcs1(b[0]) then 2 else 1;
      PartAppend(b[k..], c);
      assert (b + c)[k..] == b[k..] + c;
    }
  }

  /** No byte of a part is a space or 0x05. */
  lemma {:induction false} PartBytes(b: seq<Byte>)
    requires Part(b)
    ensures forall i :: 0 <= i < |b| ==> b[i] > 0x20
    decreases |b|
  {
    if b != [] {
      var k := if IsDbcs1(b[0]) then 2 else 1;
      PartBytes(b[k..]);
      forall i | 0 <= i < |b|
        ensures b[i] > 0x20
      {
        if i >= k {
          assert b[i] == b[k..][i - k];
        }
      }
    }
  }

  // ---------------------------------------------------------------- what create_name accepts

  /** The name buffer while a field is being filled. */
  ghost predicate Filling(fn: Name, i: nat, ni: nat) {
    || (ni == 8 && i <= 8 && Part(fn[..i]) && fn == Joined(fn[..i], []))
    || (ni == 11 && 8 <= i <= 11 && exists body :: FillingExt(fn, body, i))
  }

  ghost predicate FillingExt(fn: Name, body: seq<Byte>, i: nat) {
    && 8 <= i <= 11 && |body| <= 8 && body != [] && Part(body) && Part(fn[8..i])
    && fn == Joined(body, fn[8..i])
  }

  /** The 11 bytes of a body and an extension, with the swap of the first byte. */
  ghost predicate IsName(fn: Name, body: seq<Byte>, ext: seq<Byte>) {
    && body != [] && |body| <= 8 && |ext| <= 3 && Part(body) && Part(ext)
    && fn == Swapped(Joined(body, ext))
  }

  ghost predicate Accepted(fn: Name) {
    exists body, ext :: IsName(fn, body, ext)
  }

  /** fn with b stored from position i on. */
  function Put(fn: Name, i: nat, b: seq<Byte>): (r: Name)
    requires i + |b| <= 11
  {
    fn[..i] + b + fn[i + |b|..]
  }

  lemma PutTwo(fn: Name, i: nat, b: seq<Byte>, c: seq<Byte>)
    requires i + |b| + |c| <= 11
    ensures Put(Put(fn, i, b), i + |b|, c) == Put(fn, i, b + c)
  {
  }

  lemma FillBody(fn: Name, i: nat, c: seq<Byte>)
    requires i + |c| <= 8 && Part(fn[..i]) && fn == Joined(fn[..i], []) && Part(c)
    ensures Filling(Put(fn, i, c), i + |c|, 8)
  {
    PartAppend(fn[..i], c);
    hide Part, Joined, Put, FillingExt;
    PutBytes(fn, i, c);
    JoinedIsLaid(fn, fn[..i], []);
    PutInBody(fn, Put(fn, i, c), i, c);
    JoinedIsLaid(Put(fn, i, c), fn[..i] + c, []);
  }

  lemma PutInBody(fn: Name, gn: Name, i: nat, c: seq<Byte>)
    requires i + |c| <= 8 && Laid(fn, fn[..i], []) && IsPut(fn, gn, i, c)
    ensures gn[..i + |c|] == fn[..i] + c
    ensures Laid(gn, fn[..i] + c, [])
  {
    assert gn[..i + |c|] == gn[..i] + gn[i..i + |c|];
  }

  lemma FillExtension(fn: Name, body: seq<Byte>, i: nat, c: seq<Byte>)
    requires FillingExt(fn, body, i) && i + |c| <= 11 && Part(c)
    ensures FillingExt(Put(fn, i, c), body, i + |c|)
  {
    PartAppend(fn[8..i], c);
    hide Part, Joined, Put;
    PutBytes(fn, i, c);
    JoinedIsLaid(fn, body, fn[8..i]);
    PutInExtension(fn, Put(fn, i, c), body, i, c);
    JoinedIsLaid(Put(fn, i, c), body, fn[8..i] + c);
  }

  lemma PutInExtension(fn: Name, gn: Name, body: seq<Byte>, i: nat, c: seq<Byte>)
    requires 8 <= i && i + |c| <= 11 && Laid(fn, body, fn[8..i]) && IsPut(fn, gn, i, c)
    ensures gn[8..i + |c|] == fn[8..i] + c
    ensures Laid(gn, body, fn[8..i] + c)
  {
    assert gn[8..i + |c|] == gn[8..i] + gn[i..i + |c|];
    assert gn[8..i] == gn[..i][8..i];
    assert gn[..|body|] == gn[..i][..|body|];
  }

  ghost predicate IsPut(fn: Name, gn: Name, i: nat, c: seq<Byte>) {
    && i + |c| <= 11 && gn[..i] == fn[..i] && gn[i..i + |c|] == c
    && forall k :: i + |c| <= k < 11 ==> gn[k] == fn[k]
  }

  lemma PutBytes(fn: Name, i: nat, c: seq<Byte>)
    requires i + |c| <= 11
    ensures IsPut(fn, Put(fn, i, c), i, c)
  {
    var gn := Put(fn, i, c);
    forall k | i + |c| <= k < 11
      ensures gn[k] == fn[k]
    {
      assert gn[k] == fn[i + |c|..][k - i - |c|];
    }
  }

  lemma FillOne(fn: Name, i: nat, ni: nat, c: seq<Byte>)
    requires Filling(fn, i, ni) && Part(c) && i + |c| <= ni
    ensures Filling(Put(fn, i, c), i + |c|, ni)
  {
    hide Part, Joined, Put, FillingExt;
    if ni == 8 {
      FillBody(fn, i, c);
    } else {
      var body :| FillingExt(fn, body, i);
      FillExtension(fn, body, i, c);
    }
  }

  /** What one round of the loop does, as a store of whole characters. */
  lemma OneCharacter(p: seq<Byte>, si: nat, i: nat, ni: nat, fn: Name)
    requires i < ni <= 11
    requires var c := CharAt(p, si); c > 0x20 && !IsSeparator(c) && c != 0x2E
    ensures var c, d := CharAt(p, si), CharAt(p, si + 1);
      if IsDbcs1(c) then
        Chars(p, si, i, ni, fn) ==
          (if IsDbcs2(d) && i + 1 < ni then Chars(p, si + 2, i + 2, ni, Put(fn, i, [c, d])) else None)
        && (IsDbcs2(d) ==> Part([c, d]))
      else
        Chars(p, si, i, ni, fn) ==
          (if IsIllegal(c) then None else Chars(p, si + 1, i + 1, ni, Put(fn, i, [ToUpper(c)])))
        && (!IsIllegal(c) ==> Part([ToUpper(c)]))
  {
    var c, d := CharAt(p, si), CharAt(p, si + 1);
    if IsDbcs1(c) {
      if i + 1 < ni {
        assert fn[i := c][i + 1 := d] == Put(fn, i, [c, d]);
      }
    } else {
      assert fn[i := ToUpper(c)] == Put(fn, i, [ToUpper(c)]);
    }
  }

  /** The end of a segment, the dot, and characters that find the field full. */
  lemma NoCharacter(p: seq<Byte>, si: nat, i: nat, ni: nat, fn: Name)
    requires i <= ni <= 11
    requires var c := CharAt(p, si); c <= 0x20 || IsSeparator(c) || c == 0x2E || i >= ni
    ensures var c := CharAt(p, si);
      Chars(p, si, i, ni, fn) ==
        if c <= 0x20 || IsSeparator(c) then
          (if i == 0 then None else Some(Segment(Swapped(fn), c <= 0x20, false, si + 1)))
        else if ni == 8 && c == 0x2E then Chars(p, si + 1, 8, 11, fn)
        else None
  {
  }

  lemma DotAfterBody(fn: Name, i: nat)
    requires Filling(fn, i, 8) && i > 0
    ensures Filling(fn, 8, 11)
  {
    assert fn[8..8] == [];
    assert FillingExt(fn, fn[..i], 8);
  }

  /** Whatever the loop accepts from a buffer that is being filled is a name. */
  lemma {:induction false} CharsAccepted(p: seq<Byte>, si: nat, i: nat, ni: nat, fn: Name)
    requires i <= ni <= 11 && Filling(fn, i, ni) && (ni == 8 && i == 0 ==> CharAt(p, si) != 0x2E)
    ensures Chars(p, si, i, ni, fn).Some? ==> Accepted(Chars(p, si, i, ni, fn).value.fn)
    decreases |p| - si
  {
    hide Chars, Filling, Accepted, IsSeparator, Part, Put, IsDbcs1, IsDbcs2, IsIllegal, ToUpper, Swapped;
    var c, d := CharAt(p, si), CharAt(p, si + 1);
    if c <= 0x20 || IsSeparator(c) || c == 0x2E || i >= ni {
      NoCharacter(p, si, i, ni, fn);
      if c <= 0x20 || IsSeparator(c) {
        if i > 0 {
          FilledIsName(fn, i, ni);
        }
      } else if ni == 8 && c == 0x2E {
        DotAfterBody(fn, i);
        CharsAccepted(p, si + 1, 8, 11, fn);
      }
    } else {
      OneCharacter(p, si, i, ni, fn);
      if IsDbcs1(c) {
        if IsDbcs2(d) && i + 1 < ni {
          FillOne(fn, i, ni, [c, d]);
          CharsAccepted(p, si + 2, i + 2, ni, Put(fn, i, [c, d]));
        }
      } else if !IsIllegal(c) {
        FillOne(fn, i, ni, [ToUpper(c)]);
        CharsAccepted(p, si + 1, i + 1, ni, Put(fn, i, [ToUpper(c)]));
      }
    }
  }

  lemma FilledIsName(fn: Name, i: nat, ni: nat)
    requires Filling(fn, i, ni) && i > 0
    ensures Accepted(Swapped(fn))
  {
    if ni == 8 {
      assert IsName(Swapped(fn), fn[..i], []);
    } else {
      var body :| FillingExt(fn, body, i);
      assert IsName(Swapped(fn), body, fn[8..i]);
    }
  }

  // ---------------------------------------------------------------- parsing a printed name

  /** The first character of a part: one or two bytes. */
  function Width(b: seq<Byte>): nat {
    if b != [] && IsDbcs1(b[0]) then 2 else 1
  }

  lemma FirstOfPart(p: seq<Byte>, si: nat, i: nat, ni: nat, fn: Name, b: seq<Byte>)
    requires i + |b| <= ni <= 11 && Part(b) && b != [] && si + |b| <= |p| && p[si..si + |b|] == b
    ensures Width(b) <= |b| && Part(b[Width(b)..])
    ensures Chars(p, si, i, ni, fn) == Chars(p, si + Width(b), i + Width(b), ni, Put(fn, i, b[..Width(b)]))
  {
    assert p[si] == b[0];
    if Width(b) == 2 {
      assert p[si + 1] == b[1];
      assert b[..2] == [b[0], b[1]];
    } else {
      assert b[..1] == [b[0]];
    }
    OneCharacter(p, si, i, ni, fn);
  }

  /** create_name copies a part that stands in the path into the field. */
  lemma {:induction false} CharsCopy(p: seq<Byte>, si: nat, i: nat, ni: nat, fn: Name, b: seq<Byte>)
    requires i + |b| <= ni <= 11 && Part(b) && si + |b| <= |p| && p[si..si + |b|] == b
    ensures Chars(p, si, i, ni, fn) == Chars(p, si + |b|, i + |b|, ni, Put(fn, i, b))
    decreases |b|
  {
    hide Chars, Part, Width, IsSeparator;
    if b == [] {
      assert Put(fn, i, b) == fn;
    } else {
      hide Put;
      FirstOfPart(p, si, i, ni, fn, b);
      WidthPositive(b);
      var k := Width(b);
      assert p[si + k..si + |b|] == p[si..si + |b|][k..];
      CharsCopy(p, si + k, i + k, ni, Put(fn, i, b[..k]), b[k..]);
      PutTwo(fn, i, b[..k], b[k..]);
      assert b[..k] + b[k..] == b;
    }
  }

  lemma WidthPositive(b: seq<Byte>)
    ensures 0 < Width(b)
  {
  }

  // ---------------------------------------------------------------- the round trip

  /** The usual way of writing a name. */
  function Text(body: seq<Byte>, ext: seq<Byte>): seq<Byte> {
    body + if ext == [] then [] else [0x2E] + ext
  }

  /** What may stand behind a segment of a path: its end, a control character or space, a separator. */
  predicate EndsSegment(tail: seq<Byte>) {
    tail == [] || tail[0] <= 0x20 || IsSeparator(tail[0])
  }

  lemma {:induction false} UpToSpaceIs(s: seq<Byte>, n: nat)
    requires n <= |s| && (n < |s| ==> s[n] == 0x20) && forall k :: 0 <= k < n ==> s[k] != 0x20
    ensures UpToSpace(s) == s[..n]
    decreases n
  {
    if n > 0 {
      UpToSpaceIs(s[1..], n - 1);
      assert s[..n] == [s[0]] + s[1..][..n - 1];
    }
  }

  /** get_fileinfo prints a stored name as body, dot, extension. */
  lemma PrintedIsText(fn: Name, body: seq<Byte>, ext: seq<Byte>)
    requires IsName(fn, body, ext)
    ensures PrintName(fn) == Text(body, ext)
  {
    PartBytes(body);
    PartBytes(ext);
    var jn := Joined(body, ext);
    hide Part, Joined;
    JoinedIsLaid(jn, body, ext);
    SwappedBytes(jn);
    PrintBody(fn, jn, body, ext);
    PrintExtension(fn, jn, body, ext);
    hide Laid, Swapped, UpToSpace, Unswap;
  }

  lemma SwappedBytes(jn: Name)
    ensures var fn := Swapped(jn);
      && fn[0] == (if jn[0] == 0xE5 then 0x05 else jn[0])
      && forall k :: 1 <= k < 11 ==> fn[k] == jn[k]
  {
  }

  lemma PrintBody(fn: Name, jn: Name, body: seq<Byte>, ext: seq<Byte>)
    requires Laid(jn, body, ext) && body != [] && forall k :: 0 <= k < |body| ==> body[k] > 0x20
    requires fn[0] == (if jn[0] == 0xE5 then 0x05 else jn[0]) && forall k :: 1 <= k < 11 ==> fn[k] == jn[k]
    ensures Unswap(UpToSpace(fn[..8])) == body
  {
    hide UpToSpace, Unswap;
    var n := |body|;
    forall k | 0 <= k < n
      ensures jn[k] == body[k]
    {
      assert jn[k] == jn[..n][k];
    }
    UpToSpaceIs(fn[..8], n);
    assert fn[..8][..n] == fn[..n];
  }

  lemma PrintExtension(fn: Name, jn: Name, body: seq<Byte>, ext: seq<Byte>)
    requires Laid(jn, body, ext) && forall k :: 0 <= k < |ext| ==> ext[k] > 0x20
    requires forall k :: 1 <= k < 11 ==> fn[k] == jn[k]
    ensures UpToSpace(fn[8..]) == ext && (fn[8] == 0x20 <==> ext == [])
  {
    hide UpToSpace;
    var n := |ext|;
    forall k | 0 <= k < n
      ensures fn[8 + k] == ext[k]
    {
      assert jn[8 + k] == jn[8..8 + n][k];
    }
    UpToSpaceIs(fn[8..], n);
    assert fn[8..][..n] == ext;
  }

  /** create_name reads body, dot, extension back, whatever ends the segment. */
  lemma TextIsParsed(fn: Name, body: seq<Byte>, ext: seq<Byte>, tail: seq<Byte>)
    requires IsName(fn, body, ext) && EndsSegment(tail)
    ensures ParseName(Text(body, ext) + tail)
         == Some(Segment(fn, tail == [] || tail[0] <= 0x20, false, |Text(body, ext)| + 1))
  {
    PartStart(body);
    BlankPuts(body, ext);
    hide Part, Joined, Put, Chars, ParseName, IsSeparator, EndsSegment;
    if ext == [] {
      hide Swapped;
      assert Text(body, ext) == body;
      BodyAlone(body, tail);
      PlainStart(body + tail);
    } else {
      BodyAndExtension(body, ext, tail);
      TextParts(body, ext, tail);
      hide Swapped;
      PlainStart(Text(body, ext) + tail);
    }
  }

  lemma BodyAlone(body: seq<Byte>, tail: seq<Byte>)
    requires Part(body) && 0 < |body| <= 8 && EndsSegment(tail)
    ensures Chars(body + tail, 0, 0, 8, BLANK_NAME)
         == Some(Segment(Swapped(Put(BLANK_NAME, 0, body)), tail == [] || tail[0] <= 0x20, false, |body| + 1))
  {
    hide Part, Put, Chars, Swapped;
    BodyIsParsed(body, tail);
  }

  lemma BodyAndExtension(body: seq<Byte>, ext: seq<Byte>, tail: seq<Byte>)
    requires Part(body) && 0 < |body| <= 8 && Part(ext) && 0 < |ext| <= 3 && EndsSegment(tail)
    ensures Chars(Text(body, ext) + tail, 0, 0, 8, BLANK_NAME)
         == Some(Segment(Swapped(Put(Put(BLANK_NAME, 0, body), 8, ext)), tail == [] || tail[0] <= 0x20, false,
                         |Text(body, ext)| + 1))
  {
    TextParts(body, ext, tail);
    var p := Text(body, ext) + tail;
    hide Part, Put, Chars, Swapped, Text, EndsSegment;
    BodyIsParsed(body, [0x2E] + (ext + tail));
    ExtensionIsParsed(p, |body| + 1, Put(BLANK_NAME, 0, body), ext, tail);
  }

  lemma TextParts(body: seq<Byte>, ext: seq<Byte>, tail: seq<Byte>)
    requires ext != []
    ensures var p := Text(body, ext) + tail;
      && p == body + ([0x2E] + (ext + tail)) && p[|body| + 1..] == ext + tail
      && |Text(body, ext)| == |body| + 1 + |ext|
  {
  }

  lemma PartStart(b: seq<Byte>)
    requires Part(b) && b != []
    ensures !IsSeparator(b[0]) && b[0] != 0x2E
  {
  }

  lemma PlainStart(p: seq<Byte>)
    requires p != [] && !IsSeparator(p[0]) && p[0] != 0x2E
    ensures ParseName(p) == Chars(p, 0, 0, 8, BLANK_NAME)
  {
    hide Chars, Dots;
  }

  lemma BodyIsParsed(body: seq<Byte>, tail: seq<Byte>)
    requires Part(body) && 0 < |body| <= 8
    ensures var c := CharAt(tail, 0); var f := Put(BLANK_NAME, 0, body);
      Chars(body + tail, 0, 0, 8, BLANK_NAME) ==
        if c <= 0x20 || IsSeparator(c) then Some(Segment(Swapped(f), c <= 0x20, false, |body| + 1))
        else if c == 0x2E then Chars(body + tail, |body| + 1, 8, 11, f)
        else Chars(body + tail, |body|, |body|, 8, f)
  {
    var p := body + tail;
    hide Part, Put, Chars, Swapped, IsSeparator;
    assert p[0..|body|] == body;
    CharsCopy(p, 0, 0, 8, BLANK_NAME, body);
    if CharAt(tail, 0) <= 0x20 || IsSeparator(CharAt(tail, 0)) || CharAt(tail, 0) == 0x2E {
      NoCharacter(p, |body|, |body|, 8, Put(BLANK_NAME, 0, body));
    }
  }

  lemma ExtensionIsParsed(p: seq<Byte>, si: nat, f: Name, ext: seq<Byte>, tail: seq<Byte>)
    requires Part(ext) && |ext| <= 3 && EndsSegment(tail) && si <= |p| && p[si..] == ext + tail
    ensures Chars(p, si, 8, 11, f)
         == Some(Segment(Swapped(Put(f, 8, ext)), tail == [] || tail[0] <= 0x20, false, si + |ext| + 1))
  {
    var m := si + |ext|;
    hide Part, Put, Chars, Swapped, IsSeparator;
    assert |p| == m + |tail|;
    assert p[si..m] == p[si..][..|ext|];
    CharsCopy(p, si, 8, 11, f, ext);
    assert tail != [] ==> p[m] == p[si..][|ext|];
    assert CharAt(p, m) == if tail == [] then 0 else tail[0];
    NoCharacter(p, m, 8 + |ext|, 11, Put(f, 8, ext));
  }

  lemma BlankPuts(body: seq<Byte>, ext: seq<Byte>)
    requires |body| <= 8 && |ext| <= 3
    ensures Put(BLANK_NAME, 0, body) == Joined(body, [])
    ensures Put(Put(BLANK_NAME, 0, body), 8, ext) == Joined(body, ext)
  {
    hide Put, Joined;
    var f := Put(BLANK_NAME, 0, body);
    PutBytes(BLANK_NAME, 0, body);
    JoinedIsLaid(f, body, []);
    PutBytes(f, 8, ext);
    assert Put(f, 8, ext)[..|body|] == f[..|body|];
    JoinedIsLaid(Put(f, 8, ext), body, ext);
  }

  predicate IsDots(fn: Name) {
    fn == BLANK_NAME[0 := 0x2E] || fn == BLANK_NAME[0 := 0x2E][1 := 0x2E]
  }

  /** The only names create_name yields are those of a body and an extension, and the two dot entries. */
  lemma ParsedIsAccepted(p: seq<Byte>)
    requires ParseName(p).Some?
    ensures var s := ParseName(p).value; if s.dot then IsDots(s.fn) else Accepted(s.fn)
  {
    var s := Strip(p, 0);
    if CharAt(p, s) != 0x2E {
      assert Filling(BLANK_NAME, 0, 8) by {
        JoinedIsLaid(BLANK_NAME, [], []);
        assert BLANK_NAME[..0] == [];
      }
      CharsAccepted(p, s, 0, 8, BLANK_NAME);
      CharsNotDot(p, s, 0, 8, BLANK_NAME);
    }
  }

  lemma {:induction false} CharsNotDot(p: seq<Byte>, si: nat, i: nat, ni: nat, fn: Name)
    requires i <= ni <= 11
    ensures Chars(p, si, i, ni, fn).Some? ==> !Chars(p, si, i, ni, fn).value.dot
    decreases |p| - si
  {
    var c := CharAt(p, si);
    if si < |p| {
      if c == 0x2E {
        CharsNotDot(p, si + 1, 8, 11, fn);
      } else if i < ni && IsDbcs1(c) {
        if i + 1 < ni {
          CharsNotDot(p, si + 2, i + 2, ni, fn[i := c][i + 1 := CharAt(p, si + 1)]);
        }
      } else if i < ni {
        CharsNotDot(p, si + 1, i + 1, ni, fn[i := ToUpper(c)]);
      }
    }
  }

  lemma DotsPrinted(fn: Name, n: nat)
    requires n == 1 || n == 2
    requires fn == if n == 1 then BLANK_NAME[0 := 0x2E] else BLANK_NAME[0 := 0x2E][1 := 0x2E]
    ensures PrintName(fn) == if n == 1 then [0x2E] else [0x2E, 0x2E]
  {
    UpToSpaceIs(fn[..8], n);
    hide UpToSpace;
    assert fn[..8][..n] == if n == 1 then [0x2E] else [0x2E, 0x2E];
  }

  lemma DotsRoundTrip(fn: Name, tail: seq<Byte>)
    requires IsDots(fn) && EndsSegment(tail)
    ensures ParseName(PrintName(fn) + tail)
         == Some(Segment(fn, tail == [] || tail[0] <= 0x20, true, |PrintName(fn)| + 1))
  {
    var n := if fn[1] == 0x2E then 2 else 1;
    DotsPrinted(fn, n);
    hide PrintName, Chars;
    var p := PrintName(fn) + tail;
    assert CharAt(p, n) == if tail == [] then 0 else tail[0];
    assert CharAt(p, 0) == 0x2E && Strip(p, 0) == 0;
    assert n == 2 ==> CharAt(p, 1) == 0x2E;
  }

  /** For every path create_name accepts: the printed form of the stored 11 bytes, wherever it stands in a
      path, is parsed to the same 11 bytes. */
  lemma RoundTrip(p: seq<Byte>, tail: seq<Byte>)
    requires ParseName(p).Some? && EndsSegment(tail)
    ensures var s := ParseName(p).value; var t := PrintName(s.fn);
      ParseName(t + tail) == Some(Segment(s.fn, tail == [] || tail[0] <= 0x20, s.dot, |t| + 1))
  {
    ParsedIsAccepted(p);
    hide ParseName, PrintName, EndsSegment, IsName, Text;
    var s := ParseName(p).value;
    if s.dot {
      DotsRoundTrip(s.fn, tail);
    } else {
      var body, ext :| IsName(s.fn, body, ext);
      PrintedIsText(s.fn, body, ext);
      TextIsParsed(s.fn, body, ext, tail);
    }
  }

  /** Different stored names are printed differently. */
  lemma PrintIsInjective(p: seq<Byte>, q: seq<Byte>)
    requires ParseName(p).Some? && ParseName(q).Some?
    requires PrintName(ParseName(p).value.fn) == PrintName(ParseName(q).value.fn)
    ensures ParseName(p).value.fn == ParseName(q).value.fn
  {
    RoundTrip(p, []);
    RoundTrip(q, []);
  }

  /** create_name yields names a directory can hold. */
  lemma ParsedIsProper(p: seq<Byte>)
    requires ParseName(p).Some?
    ensures Proper(ParseName(p).value.fn)
  {
    ParsedIsAccepted(p);
    var s := ParseName(p).value;
    if !s.dot {
      var body, ext :| IsName(s.fn, body, ext);
      PartBytes(body);
      hide Part;
      SwappedBytes(Joined(body, ext));
      assert Joined(body, ext)[0] == body[0];
    }
  }

  // ---------------------------------------------------------------- case folding

  /** A path with its single-byte letters in upper case; the second byte of a two-byte character is no letter. */
  function Fold(p: seq<Byte>): (r: seq<Byte>)
    ensures |r| == |p|
  {
    if p == [] then []
    else if IsDbcs1(p[0]) && |p| >= 2 then p[..2] + Fold(p[2..])
    else [ToUpper(p[0])] + Fold(p[1..])
  }

  lemma FoldStep(p: seq<Byte>, q: seq<Byte>, si: nat)
    requires si <= |p| == |q| && q[si..] == Fold(p[si..])
    ensures CharAt(q, si) == ToUpper(CharAt(p, si))
    ensures si < |p| && IsDbcs1(p[si]) && si + 2 <= |p| ==> q[si + 1] == p[si + 1] && q[si + 2..] == Fold(p[si + 2..])
    ensures si < |p| && !IsDbcs1(p[si]) ==> q[si + 1..] == Fold(p[si + 1..])
  {
    var s, t := p[si..], q[si..];
    if si < |p| {
      assert s[0] == p[si] && t[0] == q[si];
      if si + 2 <= |p| {
        assert s[2..] == p[si + 2..] && t[2..] == q[si + 2..] && t[1] == q[si + 1] && s[1] == p[si + 1];
      }
      assert s[1..] == p[si + 1..] && t[1..] == q[si + 1..];
    }
  }

  lemma {:induction false} CharsFold(p: seq<Byte>, q: seq<Byte>, si: nat, i: nat, ni: nat, fn: Name)
    requires i <= ni <= 11 && si <= |p| == |q| && q[si..] == Fold(p[si..])
    ensures Chars(p, si, i, ni, fn) == Chars(q, si, i, ni, fn)
    decreases |p| - si
  {
    FoldStep(p, q, si);
    hide Fold;
    var c, d := CharAt(p, si), CharAt(p, si + 1);
    if c <= 0x20 || IsSeparator(c) {
    } else if c == 0x2E {
      CharsFold(p, q, si + 1, 8, 11, fn);
    } else if i < ni && !IsDbcs1(c) {
      CharsFold(p, q, si + 1, i + 1, ni, fn[i := ToUpper(c)]);
    } else if i + 1 < ni && si + 2 <= |p| {
      CharsFold(p, q, si + 2, i + 2, ni, fn[i := c][i + 1 := d]);
    }
  }

  lemma {:induction false} StripFold(p: seq<Byte>, q: seq<Byte>, si: nat)
    requires si <= |p| == |q| && q[si..] == Fold(p[si..])
    ensures Strip(q, si) == Strip(p, si) <= |p| && q[Strip(p, si)..] == Fold(p[Strip(p, si)..])
    decreases |p| - si
  {
    FoldStep(p, q, si);
    if si < |p| && IsSeparator(p[si]) {
      StripFold(p, q, si + 1);
    }
  }

  /** create_name does not distinguish lower-case letters from upper-case ones. */
  lemma CaseIsIgnored(p: seq<Byte>)
    ensures ParseName(p) == ParseName(Fold(p))
  {
    var q := Fold(p);
    assert p[0..] == p && q[0..] == q;
    StripFold(p, q, 0);
    var s := Strip(p, 0);
    FoldStep(p, q, s);
    if CharAt(p, s) == 0x2E {
      FoldStep(p, q, s + 1);
      if CharAt(p, s + 1) == 0x2E {
        FoldStep(p, q, s + 2);
      }
    } else {
      CharsFold(p, q, s, 0, 8, BLANK_NAME);
    }
  }

  // ---------------------------------------------------------------- what a stored name says

  /** The text of the segment from si to the end that seg tells, folded, is said; seg tells whether the path ends there. */
  ghost predicate Says(p: seq<Byte>, si: nat, seg: Segment, said: seq<Byte>) {
    && si < seg.next <= |p| + 1 && Fold(p[si..seg.next - 1]) == said && !seg.dot
    && EndsSegment(p[seg.next - 1..]) && seg.last == (CharAt(p, seg.next - 1) <= 0x20)
  }

  lemma SaysNothing(p: seq<Byte>, si: nat, seg: Segment)
    requires si <= |p| && (CharAt(p, si) <= 0x20 || IsSeparator(CharAt(p, si)))
    requires seg.next == si + 1 && !seg.dot && seg.last == (CharAt(p, si) <= 0x20)
    ensures Says(p, si, seg, [])
  {
    assert p[si..si] == [];
    assert si < |p| ==> p[si..][0] == p[si];
  }

  /** One character in front. */
  lemma SaysMore(p: seq<Byte>, si: nat, k: nat, seg: Segment, said: seq<Byte>)
    requires si + k <= |p| && Says(p, si + k, seg, said)
    requires if k == 2 then IsDbcs1(p[si]) else k == 1 && !IsDbcs1(p[si])
    ensures Says(p, si, seg, (if k == 2 then p[si..si + 2] else [ToUpper(p[si])]) + said)
  {
    var e := seg.next - 1;
    var t := p[si..e];
    assert t[0] == p[si] && t[k..] == p[si + k..e] && t[..k] == p[si..si + k];
  }

  lemma {:induction false} ExtensionSaid(p: seq<Byte>, si: nat, i: nat, fn: Name, body: seq<Byte>) returns (x: seq<Byte>)
    requires FillingExt(fn, body, i) && si <= |p| && Chars(p, si, i, 11, fn).Some?
    ensures var seg := Chars(p, si, i, 11, fn).value; IsName(seg.fn, body, fn[8..i] + x) && Says(p, si, seg, x)
    decreases |p| - si
  {
    hide Chars, Part, Joined, Put, IsDbcs1, IsDbcs2, IsIllegal, ToUpper, Swapped, Says, IsSeparator;
    var c, d := CharAt(p, si), CharAt(p, si + 1);
    if c <= 0x20 || IsSeparator(c) || c == 0x2E || i >= 11 {
      NoCharacter(p, si, i, 11, fn);
      x := [];
      assert fn[8..i] + x == fn[8..i];
      SaysNothing(p, si, Chars(p, si, i, 11, fn).value);
    } else {
      OneCharacter(p, si, i, 11, fn);
      var k := if IsDbcs1(c) then 2 else 1;
      var t := if IsDbcs1(c) then [c, d] else [ToUpper(c)];
      PathLongEnough(p, si, k);
      FillExtension(fn, body, i, t);
      PutBytes(fn, i, t);
      var y := ExtensionSaid(p, si + k, i + k, Put(fn, i, t), body);
      x := t + y;
      assert Put(fn, i, t)[8..i + k] == fn[8..i] + t by {
        PutExtends(fn, Put(fn, i, t), i, t);
      }
      assert fn[8..i] + t + y == fn[8..i] + x;
      SaysMore(p, si, k, Chars(p, si, i, 11, fn).value, y);
      assert k == 2 ==> p[si..si + 2] == t;
    }
  }

  lemma PutExtends(fn: Name, gn: Name, i: nat, c: seq<Byte>)
    requires IsPut(fn, gn, i, c)
    ensures gn[..i + |c|] == fn[..i] + c
    ensures 8 <= i ==> gn[8..i + |c|] == fn[8..i] + c
  {
    assert gn[..i + |c|] == gn[..i] + gn[i..i + |c|];
    if 8 <= i {
      assert gn[8..i + |c|] == gn[8..i] + gn[i..i + |c|];
      assert gn[8..i] == gn[..i][8..];
      assert fn[8..i] == fn[..i][8..];
    }
  }

  /** Characters that are stored stand in the path. */
  lemma PathLongEnough(p: seq<Byte>, si: nat, k: nat)
    requires si <= |p| && CharAt(p, si) > 0x20 && (k == 1 || (k == 2 && IsDbcs2(CharAt(p, si + 1))))
    ensures si + k <= |p|
  {
  }

  /** The dot behind the body and what follows it. */
  lemma DotSaid(p: seq<Byte>, si: nat, i: nat, fn: Name) returns (ext: seq<Byte>)
    requires i <= 8 && Part(fn[..i]) && fn == Joined(fn[..i], []) && si <= |p| && Chars(p, si, i, 8, fn).Some?
    requires CharAt(p, si) > 0x20 && !IsSeparator(CharAt(p, si)) && (CharAt(p, si) == 0x2E ==> i > 0)
    requires CharAt(p, si) == 0x2E || i >= 8
    ensures var seg := Chars(p, si, i, 8, fn).value; IsName(seg.fn, fn[..i], ext) && Says(p, si, seg, [0x2E] + ext)
  {
    hide Chars, Part, Joined, Put, IsDbcs1, IsDbcs2, IsIllegal, ToUpper, Swapped, Says, IsSeparator, FillingExt;
    NoCharacter(p, si, i, 8, fn);
    StartsExtension(fn, i);
    ext := ExtensionSaid(p, si + 1, 8, fn, fn[..i]);
    assert fn[8..8] + ext == ext;
    DotIsPlain();
    SaysMore(p, si, 1, Chars(p, si, i, 8, fn).value, ext);
  }

  /** Behind the stored head the path says x, and a dot and ext. */
  ghost predicate BodySays(p: seq<Byte>, si: nat, seg: Segment, head: seq<Byte>, x: seq<Byte>, ext: seq<Byte>, dot: bool) {
    && IsName(seg.fn, head + x, ext) && (!dot ==> ext == [])
    && Says(p, si, seg, x + if dot then [0x2E] + ext else [])
  }

  lemma BodySaysMore(p: seq<Byte>, si: nat, t: seq<Byte>, seg: Segment, head: seq<Byte>, y: seq<Byte>, ext: seq<Byte>, dot: bool)
    requires 0 < |t| && si + |t| <= |p| && BodySays(p, si + |t|, seg, head + t, y, ext, dot)
    requires if |t| == 2 then IsDbcs1(p[si]) && t == p[si..si + 2] else !IsDbcs1(p[si]) && t == [ToUpper(p[si])]
    ensures BodySays(p, si, seg, head, t + y, ext, dot)
  {
    hide IsName, Says, IsDbcs1, ToUpper;
    var rest := if dot then [0x2E] + ext else [];
    assert head + t + y == head + (t + y) && t + (y + rest) == t + y + rest;
    SaysMore(p, si, |t|, seg, y + rest);
  }

  lemma BodySaysNothing(p: seq<Byte>, si: nat, seg: Segment, head: seq<Byte>, ext: seq<Byte>, dot: bool)
    requires IsName(seg.fn, head, ext) && (!dot ==> ext == [])
    requires Says(p, si, seg, if dot then [0x2E] + ext else [])
    ensures BodySays(p, si, seg, head, [], ext, dot)
  {
    hide IsName, Says;
    var rest := if dot then [0x2E] + ext else [];
    assert head + [] == head && [] + rest == rest;
  }

  lemma {:induction false} BodySaid(p: seq<Byte>, si: nat, i: nat, fn: Name)
    returns (x: seq<Byte>, ext: seq<Byte>, dot: bool)
    requires i <= 8 && Part(fn[..i]) && fn == Joined(fn[..i], []) && si <= |p| && Chars(p, si, i, 8, fn).Some?
    requires i == 0 ==> CharAt(p, si) != 0x2E
    ensures BodySays(p, si, Chars(p, si, i, 8, fn).value, fn[..i], x, ext, dot)
    decreases |p| - si
  {
    hide Chars, Part, Joined, Put, IsDbcs1, IsDbcs2, IsIllegal, ToUpper, Swapped, Says, IsSeparator, FillingExt, IsName, BodySays;
    var c, d := CharAt(p, si), CharAt(p, si + 1);
    if c <= 0x20 || IsSeparator(c) {
      NoCharacter(p, si, i, 8, fn);
      NoExtension(fn, i);
      SaysNothing(p, si, Chars(p, si, i, 8, fn).value);
      x, ext, dot := [], [], false;
      BodySaysNothing(p, si, Chars(p, si, i, 8, fn).value, fn[..i], ext, dot);
    } else if c == 0x2E || i >= 8 {
      x, dot := [], true;
      ext := DotSaid(p, si, i, fn);
      BodySaysNothing(p, si, Chars(p, si, i, 8, fn).value, fn[..i], ext, dot);
    } else {
      OneCharacter(p, si, i, 8, fn);
      var k := if IsDbcs1(c) then 2 else 1;
      var t := if IsDbcs1(c) then [c, d] else [ToUpper(c)];
      PathLongEnough(p, si, k);
      FillsBody(fn, i, t);
      PutBytes(fn, i, t);
      PutExtends(fn, Put(fn, i, t), i, t);
      var y;
      y, ext, dot := BodySaid(p, si + k, i + k, Put(fn, i, t));
      x := t + y;
      BodySaysMore(p, si, t, Chars(p, si, i, 8, fn).value, fn[..i], y, ext, dot);
    }
  }

  lemma NoExtension(fn: Name, i: nat)
    requires 0 < i <= 8 && Part(fn[..i]) && fn == Joined(fn[..i], [])
    ensures IsName(Swapped(fn), fn[..i], [])
  {
  }

  lemma StartsExtension(fn: Name, i: nat)
    requires 0 < i <= 8 && Part(fn[..i]) && fn == Joined(fn[..i], [])
    ensures FillingExt(fn, fn[..i], 8)
  {
    assert fn[8..8] == [];
  }

  lemma FillsBody(fn: Name, i: nat, c: seq<Byte>)
    requires i + |c| <= 8 && Part(fn[..i]) && fn == Joined(fn[..i], []) && Part(c)
    ensures var gn := Put(fn, i, c); Part(gn[..i + |c|]) && gn == Joined(gn[..i + |c|], [])
  {
    FillBody(fn, i, c);
  }

  lemma DotIsPlain()
    ensures !IsDbcs1(0x2E) && ToUpper(0x2E) == 0x2E
  {
  }

  /** From b on the path reads, in upper case, what get_fileinfo prints for s, but for a trailing dot, up to where s says. */
  ghost predicate Reads(p: seq<Byte>, b: nat, s: Segment) {
    && b < s.next <= |p| + 1 && EndsSegment(p[s.next - 1..]) && s.last == (CharAt(p, s.next - 1) <= 0x20)
    && (Fold(p[b..s.next - 1]) == PrintName(s.fn) || (!s.dot && Fold(p[b..s.next - 1]) == PrintName(s.fn) + [0x2E]))
  }

  /** The name create_name stores says what the path says: the segment behind leading separators. */
  lemma NameSaysSegment(p: seq<Byte>)
    requires ParseName(p).Some?
    ensures Reads(p, Strip(p, 0), ParseName(p).value) && Strip(p, 0) <= |p|
    ensures !IsSeparator(CharAt(p, Strip(p, 0))) && forall k :: 0 <= k < Strip(p, 0) ==> IsSeparator(p[k])
  {
    hide *;
    ParseCases(p);
    StripStops(p, 0);
    var b := Strip(p, 0);
    if CharAt(p, b) == 0x2E {
      DotsSaid(p, b);
    } else {
      PlainSaid(p, b);
    }
  }

  lemma ParseCases(p: seq<Byte>)
    ensures var s := Strip(p, 0);
      ParseName(p) == if CharAt(p, s) == 0x2E then Dots(p, s) else Chars(p, s, 0, 8, BLANK_NAME)
  {
    hide Chars, Dots;
  }

  lemma PlainSaid(p: seq<Byte>, b: nat)
    requires b <= |p| && CharAt(p, b) != 0x2E && Chars(p, b, 0, 8, BLANK_NAME).Some?
    ensures Reads(p, b, Chars(p, b, 0, 8, BLANK_NAME).value)
  {
    hide Chars, Part, Joined, IsName, Fold, PrintName, EndsSegment;
    BlankIsEmpty();
    var x, ext, dot := BodySaid(p, b, 0, BLANK_NAME);
    var s := Chars(p, b, 0, 8, BLANK_NAME).value;
    assert BLANK_NAME[..0] + x == x;
    PrintedIsText(s.fn, x, ext);
    assert ext == [] ==> [0x2E] + ext == [0x2E];
    assert x + [] == x;
  }

  lemma BlankIsEmpty()
    ensures Part(BLANK_NAME[..0]) && BLANK_NAME == Joined(BLANK_NAME[..0], [])
  {
    assert BLANK_NAME[..0] == [];
    JoinedIsLaid(BLANK_NAME, [], []);
  }

  lemma {:induction false} StripStops(p: seq<Byte>, si: nat)
    requires si <= |p|
    ensures si <= Strip(p, si) <= |p| && !IsSeparator(CharAt(p, Strip(p, si)))
    ensures forall k :: si <= k < Strip(p, si) ==> IsSeparator(p[k])
    decreases |p| - si
  {
    if si < |p| && IsSeparator(p[si]) {
      StripStops(p, si + 1);
    }
  }

  lemma DotsSaid(p: seq<Byte>, b: nat)
    requires CharAt(p, b) == 0x2E && Dots(p, b).Some?
    ensures Reads(p, b, Dots(p, b).value)
  {
    var n := if CharAt(p, b + 1) == 0x2E then 2 else 1;
    var s := Dots(p, b).value;
    DotsPrinted(s.fn, n);
    hide PrintName;
    DotIsPlain();
    assert b + n < |p| ==> p[b + n..][0] == p[b + n];
    if n == 1 {
      assert p[b..b + 1] == [0x2E];
      assert Fold([0x2E]) == [ToUpper(0x2E)] + Fold([0x2E][1..]);
    } else {
      assert p[b..b + 2] == [0x2E, 0x2E];
      assert [0x2E, 0x2E][1..] == [0x2E];
      assert Fold([0x2E]) == [ToUpper(0x2E)] + Fold([0x2E][1..]);
      assert Fold([0x2E, 0x2E]) == [ToUpper(0x2E)] + Fold([0x2E]);
    }
  }

  /** The edges of the two-byte characters of code page 932, and one whose second byte is a backslash. */
  lemma Cp932Edges()
    ensures IsDbcs1(0x81) && IsDbcs1(0x9F) && IsDbcs1(0xE0) && IsDbcs1(0xFC)
    ensures !IsDbcs1(0x80) && !IsDbcs1(0xA0) && !IsDbcs1(0xDF) && !IsDbcs1(0xFD)
    ensures IsDbcs2(0x40) && IsDbcs2(0x7E) && IsDbcs2(0x80) && IsDbcs2(0xFC)
    ensures !IsDbcs2(0x3F) && !IsDbcs2(0x7F) && !IsDbcs2(0xFD)
    ensures Part([0x95, 0x5C]) && !Part([0x5C])
  {
    assert Part([0x95, 0x5C][2..]);
  }

  /** The letters, and the characters that are refused. */
  lemma LettersAreFolded(i: nat)
    requires i < 26
    ensures ToUpper("abcdefghijklmnopqrstuvwxyz"[i] as int) == "ABCDEFGHIJKLMNOPQRSTUVWXYZ"[i] as int
    ensures ToUpper("ABCDEFGHIJKLMNOPQRSTUVWXYZ"[i] as int) == "ABCDEFGHIJKLMNOPQRSTUVWXYZ"[i] as int
  {
    assert "abcdefghijklmnopqrstuvwxyz"[i] == 'a' + i as char;
    assert "ABCDEFGHIJKLMNOPQRSTUVWXYZ"[i] == 'A' + i as char;
  }

  lemma IllegalAreListed(c: Byte)
    ensures IsIllegal(c) <==> c == 0x7F || (c < 0x7F && c as char in "\"*+,:;<=>?[]|")
    ensures IsSeparator(c) <==> c as char in "/\\"
  {
  }

  // ---------------------------------------------------------------- leading separators

  function Shifted(s: Option<Segment>): Option<Segment> {
    if s.None? then None else Some(s.value.(next := s.value.next + 1))
  }

  lemma {:induction false} CharsShift(c: Byte, p: seq<Byte>, si: nat, i: nat, ni: nat, fn: Name)
    requires i <= ni <= 11
    ensures Chars([c] + p, si + 1, i, ni, fn) == Shifted(Chars(p, si, i, ni, fn))
    decreases |p| - si
  {
    var q := [c] + p;
    assert CharAt(q, si + 1) == CharAt(p, si) && CharAt(q, si + 2) == CharAt(p, si + 1);
    var a, d := CharAt(p, si), CharAt(p, si + 1);
    if a == 0x2E {
      CharsShift(c, p, si + 1, 8, 11, fn);
    } else if a > 0x20 && i < ni && !IsDbcs1(a) {
      CharsShift(c, p, si + 1, i + 1, ni, fn[i := ToUpper(a)]);
    } else if a > 0x20 && i + 1 < ni {
      CharsShift(c, p, si + 2, i + 2, ni, fn[i := a][i + 1 := d]);
    }
  }

  /** A separator in front of a path is skipped. */
  lemma LeadingSeparator(c: Byte, p: seq<Byte>)
    requires IsSeparator(c)
    ensures ParseName([c] + p) == Shifted(ParseName(p))
  {
    var q := [c] + p;
    StripShift(c, p, 0);
    var s := Strip(p, 0);
    assert Strip(q, 0) == s + 1;
    assert forall k: nat :: CharAt(q, k + 1) == CharAt(p, k);
    assert CharAt(q, s + 2) == CharAt(p, s + 1) && CharAt(q, s + 3) == CharAt(p, s + 2);
    if CharAt(p, s) != 0x2E {
      CharsShift(c, p, s, 0, 8, BLANK_NAME);
    }
    hide Chars;
  }

  lemma {:induction false} StripShift(c: Byte, p: seq<Byte>, si: nat)
    requires si <= |p|
    ensures Strip([c] + p, si + 1) == Strip(p, si) + 1
    decreases |p| - si
  {
    assert si < |p| ==> ([c] + p)[si + 1] == p[si];
    if si < |p| && IsSeparator(p[si]) {
      StripShift(c, p, si + 1);
    }
  }

  // ---------------------------------------------------------------- the loops

  /** create_name: the buffer sfn gets the 11 bytes, next is where the path goes on. */
  method CreateName(p: seq<Byte>, sfn: array<Byte>) returns (ok: bool, last: bool, dot: bool, next: nat)
    requires sfn.Length == 11
    modifies sfn
    ensures ok == ParseName(p).Some?
    ensures ok ==> ParseName(p).value == Segment(sfn[..], last, dot, next)
  {
    ok, last, dot, next := false, false, false, 0;
    var q := 0;
    while q < |p| && IsSeparator(p[q])
      invariant q <= |p| && Strip(p, q) == Strip(p, 0)
    {
      q := q + 1;
    }
    for k := 0 to 11
      invariant forall j :: 0 <= j < k ==> sfn[j] == 0x20
    {
      sfn[k] := 0x20;
    }
    assert sfn[..] == BLANK_NAME;
    if CharAt(p, q) == 0x2E {
      ok, last, next := CreateDots(p, q, sfn);
      dot := ok;
    } else {
      ok, last, next := CreateChars(p, q, sfn);
    }
  }

  method CreateDots(p: seq<Byte>, q: nat, sfn: array<Byte>) returns (ok: bool, last: bool, next: nat)
    requires sfn.Length == 11 && sfn[..] == BLANK_NAME && CharAt(p, q) == 0x2E
    modifies sfn
    ensures ok == Dots(p, q).Some?
    ensures ok ==> Dots(p, q).value == Segment(sfn[..], last, true, next)
  {
    var si, i := q, 0;
    var c: Byte := 0x2E;
    while true
      invariant si <= q + 2 && si - q == i && c == 0x2E
      invariant i > 0 ==> CharAt(p, q) == 0x2E
      invariant i > 1 ==> CharAt(p, q + 1) == 0x2E
      invariant sfn[..] == if i == 0 then BLANK_NAME else if i == 1 then BLANK_NAME[0 := 0x2E]
                           else BLANK_NAME[0 := 0x2E][1 := 0x2E]
      decreases q + 2 - si
    {
      c, si := CharAt(p, si), si + 1;
      if c != 0x2E || si - q >= 3 {
        break;
      }
      sfn[i] := c;
      i := i + 1;
    }
    ok, last, next := IsSeparator(c) || c <= 0x20, c <= 0x20, si;
  }

  method CreateChars(p: seq<Byte>, q: nat, sfn: array<Byte>) returns (ok: bool, last: bool, next: nat)
    requires sfn.Length == 11 && sfn[..] == BLANK_NAME
    modifies sfn
    ensures ok == Chars(p, q, 0, 8, BLANK_NAME).Some?
    ensures ok ==> Chars(p, q, 0, 8, BLANK_NAME).value == Segment(sfn[..], last, false, next)
  {
    ok, last, next := false, false, 0;
    var si, i, ni := q, 0, 8;
    var c: Byte := 0;
    while true
      invariant i <= ni <= 11
      invariant Chars(p, si, i, ni, sfn[..]) == Chars(p, q, 0, 8, BLANK_NAME)
      decreases |p| - si
    {
      c := CharAt(p, si);
      si := si + 1;
      if c <= 0x20 || IsSeparator(c) {
        break;
      }
      if c == 0x2E || i >= ni {
        if ni != 8 || c != 0x2E {
          return;
        }
        i, ni := 8, 11;
        continue;
      }
      if IsDbcs1(c) {
        var d := CharAt(p, si);
        si := si + 1;
        if !IsDbcs2(d) || i + 1 >= ni {
          return;
        }
        sfn[i] := c;
        sfn[i + 1] := d;
        i := i + 2;
      } else {
        if IsIllegal(c) {
          return;
        }
        sfn[i] := ToUpper(c);
        i := i + 1;
      }
    }
    if i == 0 {
      return;
    }
    if sfn[0] == 0xE5 {
      sfn[0] := 0x05;
    }
    ok, last, next := true, c <= 0x20, si;
  }

  /** get_fileinfo: fname gets the printed name of the directory entry and its end mark. */
  method GetFileInfo(dir: Slot, fname: array<Byte>) returns (n: nat)
    requires fname.Length == 13
    modifies fname
    ensures n <= 12 && fname[..n] == PrintName(NameOf(dir)) && fname[n] == 0
  {
    n := CopyBody(dir, fname);
    if dir[8] != 0x20 {
      n := CopyExtension(dir, fname, n);
    }
    fname[n] := 0;
  }

  method CopyBody(dir: Slot, fname: array<Byte>) returns (n: nat)
    requires fname.Length == 13
    modifies fname
    ensures n <= 8 && fname[..n] == Unswap(UpToSpace(NameOf(dir)[..8]))
  {
    ghost var s := NameOf(dir)[..8];
    n := 0;
    while n < 8 && dir[n] != 0x20
      invariant n <= 8
      invariant forall k :: 0 <= k < n ==> s[k] != 0x20 && fname[k] == if s[k] == 0x05 then 0xE5 else s[k]
    {
      fname[n] := if dir[n] == 0x05 then 0xE5 else dir[n];
      n := n + 1;
    }
    UpToSpaceIs(s, n);
  }

  method CopyExtension(dir: Slot, fname: array<Byte>, n0: nat) returns (n: nat)
    requires fname.Length == 13 && n0 <= 8
    modifies fname
    ensures n0 < n <= n0 + 4 && fname[..n] == old(fname[..n0]) + [0x2E] + UpToSpace(NameOf(dir)[8..])
  {
    ghost var s := NameOf(dir)[8..];
    ghost var was := fname[..n0];
    fname[n0] := 0x2E;
    n := n0 + 1;
    var i := 8;
    while i < 11 && dir[i] != 0x20
      invariant 8 <= i <= 11 && n == n0 + 1 + (i - 8)
      invariant forall k :: 0 <= k < i - 8 ==> s[k] != 0x20
      invariant fname[..n] == was + [0x2E] + s[..i - 8]
    {
      fname[n] := dir[i];
      assert fname[..n] == was + [0x2E] + s[..i - 8];
      n, i := n + 1, i + 1;
      assert s[..i - 8] == s[..i - 9] + [s[i - 9]];
    }
    UpToSpaceIs(s, i - 8);
  }
}
