/** The converters between ISO-8859-1 and UTF-8 strings. */
module Utf8 {
  import opened Symbols

  /** The C string s: a text without zero bytes and the zero byte behind it. */
  ghost predicate CString(s: Bytes, text: Bytes) {
    |text| < |s| && text == s[..|text|] && s[|text|] == 0 && forall i :: 0 <= i < |text| ==> text[i] != 0
  }

  /** Whether the terminating zero is at position p. */
  predicate AtEnd(s: Bytes, p: nat, ghost text: Bytes)
    requires CString(s, text) && p <= |text|
    ensures AtEnd(s, p, text) <==> p == |text|
    ensures p < |text| ==> s[p] == text[p]
  {
    s[p] == 0
  }

  // ----- UTF-8 to ISO-8859-1

  /** Number of bytes that a first byte announces; 0 for a continuation byte. */
  function LengthOf(b: byte): nat {
    if b < 128 then 1 else if b < 192 then 0 else if b < 224 then 2 else if b < 240 then 3
    else if b < 248 then 4 else if b < 252 then 5 else 6
  }

  /** The bits of a first byte, masked by the announced length. */
  function LeadBits(b: byte): nat {
    var len := LengthOf(b);
    if len == 0 then b % 64 else if len == 1 then b % 128 else if len == 2 then b % 32
    else if len == 3 then b % 16 else if len == 4 then b % 8 else if len == 5 then b % 4 else b % 2
  }

  predicate Continuation(b: byte) { 128 <= b < 192 }

  /** At most left continuation bytes are added to u; the number taken comes second. */
  function Continue(u: nat, s: Bytes, left: nat): (r: (nat, nat))
    ensures r.1 <= left && r.1 <= |s|
    decreases left
  {
    if left == 0 || s == [] || !Continuation(s[0]) then (u, 0)
    else
      var (v, n) := Continue(u * 64 + s[0] % 64, s[1..], left - 1);
      (v, n + 1)
  }

  /** How many continuation bytes may follow a first byte. */
  function Expected(b: byte): nat {
    if LengthOf(b) == 0 then 4 else LengthOf(b) - 1
  }

  /** A character that ISO-8859-1 does not have becomes a question mark. */
  function Latin(u: nat): byte { if u <= 0xFF then u else 63 }

  function Decode(s: Bytes): (r: Bytes)
    ensures |r| <= |s|
  {
    if s == [] then []
    else
      var (u, n) := Continue(LeadBits(s[0]), s[1..], Expected(s[0]));
      [Latin(u)] + Decode(s[1 + n..])
  }

  /** The inner loop: up to left continuation bytes from position p on. */
  method ReadTail(utf8str: Bytes, p: nat, lead: nat, left: nat, ghost t: Bytes) returns (u: nat, next: nat)
    requires CString(utf8str, t) && p <= |t|
    ensures Continue(lead, t[p..], left) == (u, next - p)
  {
    hide Continue, Continuation;
    var len := left;
    u, next := lead, p;
    while len > 0 && utf8str[next] != 0
      invariant p <= next <= |t| && len >= 0
      invariant Continue(lead, t[p..], left).0 == Continue(u, t[next..], len).0
      invariant Continue(lead, t[p..], left).1 == next - p + Continue(u, t[next..], len).1
      decreases len
    {
      ContinueStep(u, t, next, len);
      if !Continuation(utf8str[next]) {
        return;
      }
      u := u * 64 + utf8str[next] % 64;
      next := next + 1;
      len := len - 1;
    }
    ContinueEnd(u, t[next..], len);
  }

  /** One character: its first byte and the continuation bytes. */
  method ReadCharacter(utf8str: Bytes, p: nat, ghost t: Bytes) returns (u: nat, next: nat)
    requires CString(utf8str, t) && p < |t|
    ensures Continue(LeadBits(t[p]), t[p + 1..], Expected(t[p])) == (u, next - p - 1)
  {
    var len := LengthOf(utf8str[p]);
    u := LeadBits(utf8str[p]);
    if len == 0 {
      len := 5;
    }
    u, next := ReadTail(utf8str, p + 1, u, len - 1, t);
  }

  lemma ContinueStep(u: nat, t: Bytes, i: nat, left: nat)
    requires i < |t| && left > 0
    ensures if Continuation(t[i]) then
              var (v, n) := Continue(u * 64 + t[i] % 64, t[i + 1..], left - 1); Continue(u, t[i..], left) == (v, n + 1)
            else Continue(u, t[i..], left) == (u, 0)
  {
    assert t[i..][1..] == t[i + 1..];
  }

  lemma ContinueEnd(u: nat, s: Bytes, left: nat)
    requires left == 0 || s == [] || !Continuation(s[0])
    ensures Continue(u, s, left) == (u, 0)
  {}

  /** The buffer was with its beginning overwritten by s. */
  ghost function Overwritten(was: Bytes, s: Bytes): Bytes
    requires |s| <= |was|
  {
    s + was[|s|..]
  }

  /** The buffer holds s, as far as there is a buffer to write to. */
  ghost predicate Holds(buf: array?<byte>, count: nat, was: Bytes, s: Bytes)
    reads if buf != null then {buf} else {}
  {
    buf != null ==> |was| == buf.Length >= count
                    && if count == 0 then buf[..] == was else |s| <= count && buf[..] == Overwritten(was, s)
  }

  /** Write bytes b at position res; full tells that there is no room for them. */
  method Put(buf: array?<byte>, count: nat, res: nat, b: Bytes, ghost was: Bytes, ghost s: Bytes) returns (full: bool)
    requires |b| >= 1 && |s| == res && Holds(buf, count, was, s)
    modifies if buf != null then {buf} else {}
    ensures full <==> buf != null && count != 0 && res + |b| > count
    ensures Holds(buf, count, was, if full then s else s + b)
  {
    full := false;
    if buf != null && count != 0 {
      if res + |b| > count {
        return true;
      }
      for i := 0 to |b|
        invariant buf[..] == Overwritten(was, s + b[..i])
      {
        buf[res + i] := b[i];
      }
      assert s + b[..|b|] == s + b;
    }
  }

  /** Put the terminating zero, if there is room. */
  method Terminate(buf: array?<byte>, count: nat, res: nat, ghost was: Bytes, ghost s: Bytes)
    requires |s| == res && Holds(buf, count, was, s)
    modifies if buf != null then {buf} else {}
    ensures Holds(buf, count, was, Terminated(s, count))
  {
    var full := Put(buf, count, res, [0], was, s);
  }

  ghost function Terminated(s: Bytes, count: nat): Bytes {
    if |s| < count then s + [0] else s
  }

  /** x_utf8s_to_iso_8859_1s. Without a buffer it only counts; with one it stops when the
      buffer is full, and the terminating zero is written if there is room for it. */
  method ToIso(mbstr: array?<byte>, utf8str: Bytes, count: nat, ghost t: Bytes, ghost was: Bytes) returns (res: nat)
    requires CString(utf8str, t) && Holds(mbstr, count, was, [])
    modifies if mbstr != null then {mbstr} else {}
    ensures var d := Decode(t);
            && res == (if mbstr == null || count == 0 then |d| else Min(|d|, count))
            && Holds(mbstr, count, was, Terminated(d[..res], count))
  {
    hide Holds, Decode, Continue, Latin, LeadBits, Expected, Terminated, CString, Decoding;
    ghost var d := Decode(t);
    var p := 0;
    res := 0;
    DecodingStart(t);
    while !AtEnd(utf8str, p, t)
      invariant p <= |t| && res <= |d| && Decoding(t, p, d, res)
      invariant mbstr != null && count != 0 ==> res <= count
      invariant Holds(mbstr, count, was, d[..res])
      decreases |t| - p
    {
      DecodingStep(t, p, d, res);
      var u, next := ReadCharacter(utf8str, p, t);
      var full := Put(mbstr, count, res, [Latin(u)], was, d[..res]);
      if full {
        NoRoom(d[..res], count);
        return;
      }
      p := next;
      res := res + 1;
    }
    DecodingEnd(t, d, res);
    Terminate(mbstr, count, res, was, d[..res]);
  }

  lemma NoRoom(s: Bytes, count: nat)
    requires |s| >= count
    ensures Terminated(s, count) == s
  {}

  /** At position p of the text, res characters have come out. */
  ghost predicate Decoding(t: Bytes, p: nat, d: Bytes, res: nat)
    requires p <= |t| && res <= |d|
  {
    Decode(t[p..]) == d[res..]
  }

  lemma DecodingStart(t: Bytes)
    ensures Decoding(t, 0, Decode(t), 0) && Decode(t)[..0] == []
  {
    assert t[0..] == t;
  }

  lemma DecodingStep(t: Bytes, p: nat, d: Bytes, res: nat)
    requires p < |t| && res <= |d| && Decoding(t, p, d, res)
    ensures var (u, n) := Continue(LeadBits(t[p]), t[p + 1..], Expected(t[p]));
            && res < |d| && p + 1 + n <= |t| && Decoding(t, p + 1 + n, d, res + 1)
            && d[..res + 1] == d[..res] + [Latin(u)]
  {
    hide Decode, Continue, LeadBits, Expected, Latin;
    var (u, n) := Continue(LeadBits(t[p]), t[p + 1..], Expected(t[p]));
    assert t[p..][1..] == t[p + 1..];
    DecodeOne(t[p..], u, n);
    assert t[p..][1 + n..] == t[p + 1 + n..];
    HeadOf(d, res, Latin(u), Decode(t[p + 1 + n..]));
  }

  lemma DecodeOne(s: Bytes, u: nat, n: nat)
    requires s != [] && Continue(LeadBits(s[0]), s[1..], Expected(s[0])) == (u, n)
    ensures Decode(s) == [Latin(u)] + Decode(s[1 + n..])
  {
    hide Continue, LeadBits, Expected, Latin;
  }

  lemma HeadOf(d: Bytes, res: nat, x: byte, rest: Bytes)
    requires res <= |d| && d[res..] == [x] + rest
    ensures res < |d| && d[res] == x && d[res + 1..] == rest && d[..res + 1] == d[..res] + [x]
  {
    assert d[res..][1..] == rest;
    assert d[res..][0] == x;
  }

  lemma DecodingEnd(t: Bytes, d: Bytes, res: nat)
    requires res <= |d| && Decoding(t, |t|, d, res)
    ensures res == |d|
  {}

  // ----- ISO-8859-1 to UTF-8

  function EncodeChar(b: byte): (r: Bytes)
    ensures 1 <= |r| <= 2
  {
    if b < 128 then [b] else [0xC0 + b / 64 % 4, 0x80 + b % 64]
  }

  function Encode(s: Bytes): (r: Bytes)
    ensures |s| <= |r| <= 2 * |s|
  {
    if s == [] then [] else EncodeChar(s[0]) + Encode(s[1..])
  }

  /** The characters at the beginning of s whose encodings fit into room bytes. */
  ghost function Fitting(s: Bytes, room: nat): Bytes {
    if s == [] || |EncodeChar(s[0])| > room then []
    else [s[0]] + Fitting(s[1..], room - |EncodeChar(s[0])|)
  }

  /** The characters that are converted: all of them, or those that fit into the buffer. */
  ghost function Kept(t: Bytes, writes: bool, count: nat): Bytes {
    if writes then Fitting(t, count) else t
  }

  /** x_iso_8859_1s_to_utf8s: without a buffer it only counts; with one it stops at the first
      character that does not fit. */
  method ToUtf8(utf8str: array?<byte>, mbstr: Bytes, count: nat, ghost t: Bytes, ghost was: Bytes) returns (res: nat)
    requires CString(mbstr, t) && Holds(utf8str, count, was, [])
    modifies if utf8str != null then {utf8str} else {}
    ensures var kept := Kept(t, utf8str != null && count != 0, count);
            && res == |Encode(kept)|
            && Holds(utf8str, count, was, if kept == t then Terminated(Encode(t), count) else Encode(kept))
  {
    res := 0;
    var p := 0;
    ghost var writes := utf8str != null && count != 0;
    FitsStart(t, writes, count);
    hide Holds, Encode, EncodeChar, Terminated, Fits, Kept, CString;
    while !AtEnd(mbstr, p, t)
      invariant p <= |t| && res == |Encode(t[..p])|
      invariant Holds(utf8str, count, was, Encode(t[..p])) && Fits(t, p, writes, count)
      decreases |t| - p
    {
      FitsNext(t, p, writes, count);
      var c := EncodeChar(mbstr[p]);
      var full := Put(utf8str, count, res, c, was, Encode(t[..p]));
      if full {
        return;
      }
      res := res + |c|;
      p := p + 1;
    }
    FitsAll(t, writes, count);
    Terminate(utf8str, count, res, was, Encode(t));
  }

  /** The first p characters fit, and what fits behind them is what fits in what is left. */
  ghost predicate Fits(t: Bytes, p: nat, writes: bool, count: nat)
    requires p <= |t|
  {
    writes ==>
      && |Encode(t[..p])| <= count
      && Fitting(t, count) == t[..p] + Fitting(t[p..], count - |Encode(t[..p])|)
  }

  lemma FitsStart(t: Bytes, writes: bool, count: nat)
    ensures Fits(t, 0, writes, count) && t[..0] == [] && Encode([]) == []
  {
    assert t[0..] == t && t[..0] == [];
  }

  lemma {:induction false} EncodeAppend(a: Bytes, b: Bytes)
    ensures Encode(a + b) == Encode(a) + Encode(b)
  {
    if a == [] {
      assert a + b == b;
    } else {
      assert (a + b)[1..] == a[1..] + b;
      EncodeAppend(a[1..], b);
    }
  }

  lemma EncodeNext(t: Bytes, p: nat)
    requires p < |t|
    ensures Encode(t[..p + 1]) == Encode(t[..p]) + EncodeChar(t[p])
  {
    assert t[..p + 1] == t[..p] + [t[p]];
    EncodeAppend(t[..p], [t[p]]);
    assert Encode([t[p]]) == EncodeChar(t[p]);
  }

  /** Character p is kept if there is room for it; otherwise the first p are all that is. */
  lemma FitsNext(t: Bytes, p: nat, writes: bool, count: nat)
    requires p < |t| && Fits(t, p, writes, count)
    ensures var n := |Encode(t[..p])| + |EncodeChar(t[p])|;
            && Encode(t[..p + 1]) == Encode(t[..p]) + EncodeChar(t[p])
            && (!writes || n <= count ==> Fits(t, p + 1, writes, count))
            && (writes && n > count ==> Kept(t, writes, count) == t[..p] != t)
  {
    EncodeNext(t, p);
    hide Encode, EncodeChar;
    assert t[p..][1..] == t[p + 1..] && t[..p + 1] == t[..p] + [t[p]];
  }

  lemma FitsAll(t: Bytes, writes: bool, count: nat)
    requires Fits(t, |t|, writes, count)
    ensures Kept(t, writes, count) == t && t[..|t|] == t
  {
    assert t[..|t|] == t && t[|t|..] == [];
  }

  /** What fits is the longest beginning of the text whose encoding has at most count bytes. */
  lemma {:induction false} FittingLongest(t: Bytes, count: nat)
    ensures var n := |Fitting(t, count)|;
            && n <= |t| && Fitting(t, count) == t[..n] && |Encode(t[..n])| <= count
            && (n < |t| ==> |Encode(t[..n + 1])| > count)
    decreases |t|
  {
    if t != [] && |EncodeChar(t[0])| <= count {
      FittingLongest(t[1..], count - |EncodeChar(t[0])|);
      var n := |Fitting(t, count)|;
      EncodeFirst(t, n);
      if n < |t| {
        EncodeFirst(t, n + 1);
      }
      hide Encode, EncodeChar;
    } else if t != [] {
      EncodeFirst(t, 1);
    }
  }

  lemma EncodeFirst(t: Bytes, n: nat)
    requires 1 <= n <= |t|
    ensures Encode(t[..n]) == EncodeChar(t[0]) + Encode(t[1..][..n - 1])
  {
    assert t[..n][1..] == t[1..][..n - 1];
  }

  // ----- UTF-8 in general

  /** The UTF-8 encoding of a code point. Section 3 of RFC 3629 has the first four forms, up to
      0x10FFFF; the code also reads the older forms of five and six bytes. */
  function Utf8Char(u: nat): (r: Bytes)
    requires u < 0x8000_0000
    ensures r != []
  {
    if u < 0x80 then [u]
    else if u < 0x800 then [0xC0 + u / 64, 0x80 + u % 64]
    else if u < 0x10000 then [0xE0 + u / 64 / 64, 0x80 + u / 64 % 64, 0x80 + u % 64]
    else if u < 0x200000 then [0xF0 + u / 64 / 64 / 64, 0x80 + u / 64 / 64 % 64, 0x80 + u / 64 % 64, 0x80 + u % 64]
    else if u < 0x4000000 then
      [0xF8 + u / 64 / 64 / 64 / 64, 0x80 + u / 64 / 64 / 64 % 64, 0x80 + u / 64 / 64 % 64, 0x80 + u / 64 % 64,
       0x80 + u % 64]
    else
      [0xFC + u / 64 / 64 / 64 / 64 / 64, 0x80 + u / 64 / 64 / 64 / 64 % 64, 0x80 + u / 64 / 64 / 64 % 64,
       0x80 + u / 64 / 64 % 64, 0x80 + u / 64 % 64, 0x80 + u % 64]
  }

  ghost predicate CodePoints(s: seq<nat>) {
    forall i :: 0 <= i < |s| ==> s[i] < 0x8000_0000
  }

  function Utf8(s: seq<nat>): (r: Bytes)
    requires CodePoints(s)
  {
    if s == [] then [] else Utf8Char(s[0]) + Utf8(s[1..])
  }

  function LatinAll(s: seq<nat>): (r: Bytes)
    ensures |r| == |s|
  {
    if s == [] then [] else [Latin(s[0])] + LatinAll(s[1..])
  }

  /** The value of continuation bytes behind u. */
  function TailValue(u: nat, s: Bytes): nat
    decreases |s|
  {
    if s == [] then u else TailValue(u * 64 + s[0] % 64, s[1..])
  }

  /** Six more bits. */
  lemma Tail(u: nat, s: Bytes)
    ensures TailValue(u / 64, [0x80 + u % 64] + s) == TailValue(u, s) && TailValue(u, []) == u
  {
    var q, r := u / 64, u % 64;
    LowSix(r);
    TailOne(q, 0x80 + r, s);
    assert TailValue(u, []) == u;
    hide TailValue;
    assert q * 64 + r == u;
  }

  lemma TailOne(v: nat, a: byte, s: Bytes)
    ensures TailValue(v, [a] + s) == TailValue(v * 64 + a % 64, s)
  {
    assert ([a] + s)[1..] == s;
  }

  lemma LowSix(r: nat)
    requires r < 64
    ensures (0x80 + r) % 64 == r
  {}

  /** The lead byte announces the length and holds the high bits. */
  lemma Lead(len: nat, high: nat)
    requires (len == 1 && high < 128) || (len == 2 && high < 32) || (len == 3 && high < 16) || (len == 4 && high < 8)
             || (len == 5 && high < 4) || (len == 6 && high < 2)
    ensures var b := (if len == 1 then 0 else if len == 2 then 0xC0 else if len == 3 then 0xE0 else if len == 4 then 0xF0
                      else if len == 5 then 0xF8 else 0xFC) + high;
            b < 256 && Expected(b) == len - 1 && LeadBits(b) == high
  {}

  /** The bytes of an encoding carry the code point. */
  lemma CharValue(u: nat)
    requires u < 0x8000_0000
    ensures var c := Utf8Char(u);
            && Expected(c[0]) == |c| - 1 && (forall i :: 1 <= i < |c| ==> Continuation(c[i]))
            && TailValue(LeadBits(c[0]), c[1..]) == u
  {
    hide TailValue, Expected, LeadBits;
    var c := Utf8Char(u);
    var v := u / 64;
    var w := v / 64;
    var x := w / 64;
    var y := x / 64;
    var t1 := [0x80 + u % 64];
    var t2 := [0x80 + v % 64] + t1;
    var t3 := [0x80 + w % 64] + t2;
    var t4 := [0x80 + x % 64] + t3;
    Tail(u, []);
    Tail(v, t1);
    Tail(w, t2);
    Tail(x, t3);
    Tail(y, t4);
    assert t1 + [] == t1;
    if u < 0x80 {
      Lead(1, u);
      assert c[1..] == [];
    } else if u < 0x800 {
      Lead(2, v);
      assert c[1..] == t1;
    } else if u < 0x10000 {
      Lead(3, w);
      assert c[1..] == t2;
    } else if u < 0x200000 {
      Lead(4, x);
      assert c[1..] == t3;
    } else if u < 0x4000000 {
      Lead(5, y);
      assert c[1..] == t4;
    } else {
      Lead(6, y / 64);
      assert c[1..] == [0x80 + y % 64] + t4;
    }
  }

  /** A code point is read back from its encoding, whatever follows. */
  lemma ReadsChar(u: nat, rest: Bytes)
    requires u < 0x8000_0000
    ensures var s := Utf8Char(u) + rest;
            Continue(LeadBits(s[0]), s[1..], Expected(s[0])) == (u, |Utf8Char(u)| - 1)
  {
    var c := Utf8Char(u);
    CharValue(u);
    assert (c + rest)[1..] == c[1..] + rest;
    ReadsTail(LeadBits(c[0]), c[1..], rest);
    hide Utf8Char, Continue, LeadBits, Expected;
  }

  lemma {:induction false} ReadsTail(u: nat, s: Bytes, rest: Bytes)
    requires forall i :: 0 <= i < |s| ==> Continuation(s[i])
    ensures Continue(u, s + rest, |s|) == (TailValue(u, s), |s|)
    decreases |s|
  {
    if s != [] {
      assert (s + rest)[1..] == s[1..] + rest;
      ReadsTail(u * 64 + s[0] % 64, s[1..], rest);
    }
  }

  /** Decoding UTF-8 text maps every code point: those of ISO-8859-1 to themselves, all
      others to a question mark. */
  lemma {:induction false} DecodesUtf8(s: seq<nat>)
    requires CodePoints(s)
    ensures Decode(Utf8(s)) == LatinAll(s)
  {
    if s != [] {
      DecodesUtf8(s[1..]);
      ReadsChar(s[0], Utf8(s[1..]));
      var t, n := Utf8(s), |Utf8Char(s[0])|;
      assert t[1 + (n - 1)..] == Utf8(s[1..]);
      hide Continue, LeadBits, Expected, Utf8Char, Latin;
    }
  }

  /** Spelled out: one byte per code point, the code point itself up to 0xFF and a question
      mark (63) for every other. */
  lemma DecodesEach(s: seq<nat>)
    requires CodePoints(s)
    ensures |Decode(Utf8(s))| == |s|
    ensures forall i :: 0 <= i < |s| ==> Decode(Utf8(s))[i] == if s[i] <= 0xFF then s[i] else 63
  {
    DecodesUtf8(s);
    LatinEach(s);
    hide Decode, Utf8, Latin, LatinAll;
  }

  lemma {:induction false} LatinEach(s: seq<nat>)
    ensures forall i :: 0 <= i < |s| ==> LatinAll(s)[i] == if s[i] <= 0xFF then s[i] else 63
  {
    if s != [] {
      LatinEach(s[1..]);
    }
  }

  lemma {:induction false} ContinueStops(u: nat, a: Bytes, b: Bytes, left: nat)
    requires b == [] || !(0x80 <= b[0] < 0xC0)
    ensures Continue(u, a + b, left) == Continue(u, a, left)
    decreases left
  {
    if left > 0 {
      if a == [] {
        assert a + b == b;
      } else {
        assert (a + b)[1..] == a[1..] + b;
        ContinueStops(u * 64 + a[0] % 64, a[1..], b, left - 1);
      }
    }
  }

  /** Whatever comes before, valid or not, the decoder starts afresh at every byte that is not
      a continuation byte. */
  lemma {:induction false} Resynchronises(a: Bytes, b: Bytes)
    requires b == [] || !(0x80 <= b[0] < 0xC0)
    ensures Decode(a + b) == Decode(a) + Decode(b)
    decreases |a|
  {
    hide Continue, LeadBits, Expected, Latin, Decode;
    if a == [] {
      assert a + b == b;
      assert Decode(a) == [] by { DecodeNone(a); }
    } else {
      var (u, n) := Continue(LeadBits(a[0]), a[1..], Expected(a[0]));
      assert (a + b)[1..] == a[1..] + b;
      ContinueStops(LeadBits(a[0]), a[1..], b, Expected(a[0]));
      assert (a + b)[1 + n..] == a[1 + n..] + b;
      Resynchronises(a[1 + n..], b);
      DecodeOne(a, u, n);
      DecodeOne(a + b, u, n);
      assert ([Latin(u)] + Decode(a[1 + n..])) + Decode(b) == [Latin(u)] + (Decode(a[1 + n..]) + Decode(b));
    }
  }

  lemma DecodeNone(s: Bytes)
    requires s == []
    ensures Decode(s) == []
  {}

  /** The encoder writes UTF-8. */
  lemma {:induction false} EncodesUtf8(s: Bytes)
    ensures Encode(s) == Utf8(s)
  {
    if s != [] {
      EncodesUtf8(s[1..]);
    }
  }

  lemma {:induction false} EncodeNoZero(s: Bytes)
    requires forall i :: 0 <= i < |s| ==> s[i] != 0
    ensures forall i :: 0 <= i < |Encode(s)| ==> Encode(s)[i] != 0
  {
    if s != [] {
      EncodeNoZero(s[1..]);
    }
  }

  lemma {:induction false} LatinSame(s: Bytes)
    ensures LatinAll(s) == s
  {
    if s != [] {
      LatinSame(s[1..]);
    }
  }

  /** Round trip: the encoder leaves a C string, and decoding it restores the text. */
  lemma RoundTrip(t: Bytes, count: nat)
    requires forall i :: 0 <= i < |t| ==> t[i] != 0
    requires |Encode(t)| < count
    ensures Fitting(t, count) == t && CString(Terminated(Encode(t), count), Encode(t))
    ensures Decode(Encode(t)) == t
  {
    FittingAll(t, count);
    EncodeNoZero(t);
    EncodesUtf8(t);
    DecodesUtf8(t);
    LatinSame(t);
  }

  lemma {:induction false} FittingAll(t: Bytes, count: nat)
    requires |Encode(t)| <= count
    ensures Fitting(t, count) == t
  {
    if t != [] {
      FittingAll(t[1..], count - |EncodeChar(t[0])|);
    }
  }
}
