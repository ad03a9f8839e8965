/** The resumable in-place base64 decoder. */
module B64Dec {
  import opened Symbols

  datatype DecoderState = Init | Idle | LfSeen | BeginSeen | WaitHeader | WaitBlank | Begin
    | B64_0 | B64_1 | B64_2 | B64_3 | WaitEndTitle | WaitEnd

  datatype Error = NoError | Eof | BadData

  /** struct b64state; title says whether a title was given to b64dec_start. */
  datatype B64State = B64State(title: bool, idx: DecoderState, radbuf: byte, quadCount: nat, stopSeen: bool,
                               invalidEncoding: bool, lasterr: Error) {
    /** What b64dec_start establishes and b64dec_proc keeps. */
    ghost predicate Valid() {
      && (idx.Init? ==> quadCount == 0) && (idx.LfSeen? ==> quadCount <= 10) && (idx.BeginSeen? ==> quadCount <= 3)
      && (idx.B64_1? ==> radbuf % 4 == 0) && (idx.B64_2? ==> radbuf % 16 == 0) && (idx.B64_3? ==> radbuf % 64 == 0)
    }
  }

  const NEWLINE: byte := 10
  const RETURN: byte := 13
  const TAB: byte := 9
  const SPACE: byte := 32
  const DASH: byte := 45
  const PAD: byte := 61

  /** "-----BEGIN " and "PGP ". */
  const BEGIN_LINE: Bytes := [45, 45, 45, 45, 45, 66, 69, 71, 73, 78, 32]
  const PGP: Bytes := [80, 71, 80, 32]

  /** The reverse base64 list; 255 for characters outside the alphabet. */
  function AscToBin(ch: byte): byte {
    if 65 <= ch <= 90 then ch - 65
    else if 97 <= ch <= 122 then ch - 97 + 26
    else if 48 <= ch <= 57 then ch - 48 + 52
    else if ch == 43 then 62
    else if ch == 47 then 63
    else 255
  }

  predicate IsSpace(ch: byte) {
    ch == NEWLINE || ch == SPACE || ch == RETURN || ch == TAB
  }

  predicate InB64(ds: DecoderState) {
    ds.B64_0? || ds.B64_1? || ds.B64_2? || ds.B64_3?
  }

  // ----- one character

  /** val | x, where the low bits of val, those below d, are clear. */
  function OrLow(val: byte, x: byte, d: nat): byte
    requires (d == 4 || d == 16 || d == 64) && val % d == 0 && x < d
  {
    val + x
  }

  /** The four base64 states. */
  function B64Step(st: B64State, ch: byte): (r: (B64State, Bytes))
    requires st.Valid() && InB64(st.idx)
    ensures r.0.Valid() && |r.1| <= 1
  {
    var ds, val, c := st.idx, st.radbuf, AscToBin(ch);
    if ch == DASH && st.title then (st.(idx := WaitEnd), [])
    else if ch == PAD then
      (st.(idx := if st.title then WaitEndTitle else WaitEnd), if ds.B64_1? then [val] else [])
    else if IsSpace(ch) then (st, [])
    else if ch >= 128 || c == 255 then (st.(invalidEncoding := true), [])
    else if ds.B64_0? then (st.(radbuf := c * 4, idx := B64_1), [])
    else if ds.B64_1? then (st.(radbuf := c % 16 * 16, idx := B64_2), [OrLow(val, c / 16, 4)])
    else if ds.B64_2? then (st.(radbuf := c % 4 * 64, idx := B64_3), [OrLow(val, c / 4, 16)])
    else (st.(radbuf := OrLow(val, c, 64), idx := B64_0), [OrLow(val, c, 64)])
  }

  /** The states that look for the begin line. */
  function LineStep(st: B64State, ch: byte): (r: B64State)
    requires st.Valid() && (st.idx.Init? || st.idx.Idle? || st.idx.LfSeen?)
    ensures r.Valid()
  {
    if !st.idx.Idle? && ch == BEGIN_LINE[st.quadCount] then
      if st.quadCount == 10 then st.(quadCount := 0, idx := BeginSeen)
      else st.(quadCount := st.quadCount + 1, idx := LfSeen)
    else if ch == NEWLINE then st.(idx := LfSeen, quadCount := 0)
    else st.(idx := Idle)
  }

  function HeaderStep(st: B64State, ch: byte): (r: B64State)
    requires st.Valid() && !InB64(st.idx) && !st.idx.Init? && !st.idx.Idle? && !st.idx.LfSeen?
    ensures r.Valid()
  {
    match st.idx
    case BeginSeen =>
      if ch != PGP[st.quadCount] then st.(idx := Begin)
      else if st.quadCount == 3 then st.(idx := WaitHeader)
      else st.(quadCount := st.quadCount + 1)
    case WaitHeader => if ch == NEWLINE then st.(idx := WaitBlank) else st
    case WaitBlank => if ch == NEWLINE then st.(idx := B64_0) else if IsSpace(ch) then st else st.(idx := WaitHeader)
    case Begin => if ch == NEWLINE then st.(idx := B64_0) else st
    case WaitEndTitle => if ch == DASH then st.(idx := WaitEnd) else st
    case WaitEnd => if ch == NEWLINE then st.(stopSeen := true) else st
  }

  function Step(st: B64State, ch: byte): (r: (B64State, Bytes))
    requires st.Valid()
    ensures r.0.Valid() && |r.1| <= 1 && r.0.lasterr == st.lasterr && r.0.title == st.title
  {
    if InB64(st.idx) then B64Step(st, ch)
    else if st.idx.Init? || st.idx.Idle? || st.idx.LfSeen? then (LineStep(st, ch), [])
    else (HeaderStep(st, ch), [])
  }

  /** All characters up to the end of the text or the end of the encoding. */
  function Feed(st: B64State, text: Bytes): (r: (B64State, Bytes))
    requires st.Valid()
    ensures r.0.Valid() && |r.1| <= |text| && r.0.lasterr == st.lasterr && r.0.title == st.title
    decreases |text|
  {
    if text == [] || st.stopSeen then (st, [])
    else
      var (next, out) := Step(st, text[0]);
      var (last, rest) := Feed(next, text[1..]);
      (last, out + rest)
  }

  function StartState(title: bool): (r: B64State)
    ensures r.Valid()
  {
    B64State(title, if title then Init else B64_0, 0, 0, false, false, NoError)
  }

  // ----- the decoder

  class Decoder {
    var state: B64State

    /** b64dec_start. */
    constructor (title: bool)
      ensures state == StartState(title)
    {
      state := StartState(title);
    }

    /** b64dec_proc on the first length bytes of the buffer, decoded in place. A call after
        an earlier error leaves the byte count given to it alone. */
    method Proc(buffer: array<byte>, length: nat, given: nat) returns (err: Error, nbytes: nat)
      requires state.Valid() && length <= buffer.Length
      modifies this, buffer
      ensures state.Valid() && err == ProcError(old(state)) && state == ProcState(old(state), old(buffer[..length]))
      ensures err == NoError ==> nbytes <= length && buffer[..nbytes] == Feed(old(state), old(buffer[..length])).1
      ensures old(state).lasterr != NoError ==> nbytes == given
      ensures old(state).lasterr == NoError && err == Eof ==> nbytes == 0
      ensures err == NoError ==> buffer[nbytes..] == old(buffer[nbytes..])
      ensures err != NoError ==> buffer[..] == old(buffer[..])
    {
      if state.lasterr != NoError {
        return state.lasterr, given;
      }
      if state.stopSeen {
        state := state.(lasterr := Eof, title := false);
        return Eof, 0;
      }
      err := NoError;
      nbytes := Decode(buffer, length);
    }

    /** The loop of b64dec_proc: the write position never passes the read position. */
    method Decode(buffer: array<byte>, length: nat) returns (d: nat)
      requires state.Valid() && length <= buffer.Length
      modifies this, buffer
      ensures state.Valid() && d <= length && state == Feed(old(state), old(buffer[..length])).0
      ensures buffer[..d] == Feed(old(state), old(buffer[..length])).1 && buffer[d..] == old(buffer[d..])
    {
      ghost var text := buffer[..length];
      var s := 0;
      d := 0;
      RemainingStart(state, text);
      hide Step, Feed, Remaining;
      while s < length && !state.stopSeen
        invariant d <= s <= length && state.Valid()
        invariant forall j :: d <= j < buffer.Length ==> buffer[j] == old(buffer[j])
        invariant Remaining(old(state), text, state, s, buffer[..d])
      {
        var (next, out) := Step(state, buffer[s]);
        RemainingStep(old(state), text, state, s, buffer[..d]);
        d := PutBytes(buffer, d, out);
        state := next;
        s := s + 1;
      }
      RemainingEnd(old(state), text, state, s, buffer[..d]);
    }

    method PutBytes(buffer: array<byte>, d: nat, out: Bytes) returns (next: nat)
      requires |out| <= 1 && d < buffer.Length
      modifies buffer
      ensures next == d + |out| && buffer[..next] == old(buffer[..d]) + out
      ensures forall j :: next <= j < buffer.Length ==> buffer[j] == old(buffer[j])
    {
      next := d;
      if out != [] {
        buffer[d] := out[0];
        next := d + 1;
      }
    }

    /** b64dec_finish. */
    method Finish() returns (err: Error)
      modifies this
      ensures state == old(state).(title := false)
      ensures err == if state.lasterr != NoError then state.lasterr else if state.invalidEncoding then BadData else NoError
    {
      state := state.(title := false);
      err := if state.lasterr != NoError then state.lasterr else if state.invalidEncoding then BadData else NoError;
    }
  }

  /** In state st at position s, with the bytes done written, the decoder is on its way to
      the result of the whole text. */
  ghost predicate Remaining(start: B64State, text: Bytes, st: B64State, s: nat, done: Bytes)
    requires start.Valid() && st.Valid() && s <= |text|
  {
    && Feed(start, text).0 == Feed(st, text[s..]).0
    && Feed(start, text).1 == done + Feed(st, text[s..]).1
  }

  lemma RemainingStart(st: B64State, text: Bytes)
    requires st.Valid()
    ensures Remaining(st, text, st, 0, [])
  {
    assert text[0..] == text;
  }

  lemma RemainingStep(start: B64State, text: Bytes, st: B64State, s: nat, done: Bytes)
    requires start.Valid() && st.Valid() && s < |text| && !st.stopSeen && Remaining(start, text, st, s, done)
    ensures Remaining(start, text, Step(st, text[s]).0, s + 1, done + Step(st, text[s]).1)
  {
    hide Step;
    assert text[s..][1..] == text[s + 1..];
  }

  lemma RemainingEnd(start: B64State, text: Bytes, st: B64State, s: nat, done: Bytes)
    requires start.Valid() && st.Valid() && s <= |text| && (s == |text| || st.stopSeen)
    requires Remaining(start, text, st, s, done)
    ensures Feed(start, text).0 == st && Feed(start, text).1 == done
  {
    assert Feed(st, text[s..]) == (st, []);
    hide Feed;
  }

  ghost function ProcError(st: B64State): Error {
    if st.lasterr != NoError then st.lasterr else if st.stopSeen then Eof else NoError
  }

  ghost function ProcState(st: B64State, text: Bytes): (r: B64State)
    requires st.Valid()
    ensures r.Valid()
  {
    if st.lasterr != NoError then st
    else if st.stopSeen then st.(lasterr := Eof, title := false)
    else Feed(st, text).0
  }

  // ----- chunk independence

  /** One call of b64dec_proc as a function. */
  ghost function ProcBytes(st: B64State, text: Bytes): Bytes
    requires st.Valid()
  {
    if ProcError(st) == NoError then Feed(st, text).1 else []
  }

  /** A whole input, given in pieces. */
  ghost function ProcAll(st: B64State, chunks: seq<Bytes>): (r: (B64State, Bytes))
    requires st.Valid()
    ensures r.0.Valid()
    decreases |chunks|
  {
    if chunks == [] then (st, [])
    else
      var (last, rest) := ProcAll(ProcState(st, chunks[0]), chunks[1..]);
      (last, ProcBytes(st, chunks[0]) + rest)
  }

  lemma {:induction false} FeedAppend(st: B64State, a: Bytes, b: Bytes)
    requires st.Valid()
    ensures Feed(st, a + b).0 == Feed(Feed(st, a).0, b).0
    ensures Feed(st, a + b).1 == Feed(st, a).1 + Feed(Feed(st, a).0, b).1
    decreases |a|
  {
    hide Step;
    if a == [] {
      assert a + b == b;
    } else if st.stopSeen {
    } else {
      assert (a + b)[1..] == a[1..] + b;
      FeedAppend(Step(st, a[0]).0, a[1..], b);
    }
  }

  lemma {:induction false} NothingAfterStop(st: B64State, chunks: seq<Bytes>)
    requires st.Valid() && (st.stopSeen || st.lasterr != NoError)
    ensures ProcAll(st, chunks).1 == []
    ensures ProcAll(st, chunks).0.invalidEncoding == st.invalidEncoding
    decreases |chunks|
  {
    if chunks != [] {
      NothingAfterStop(ProcState(st, chunks[0]), chunks[1..]);
    }
  }

  /** However the input is cut into pieces, the bytes that come out and the verdict on the
      encoding are those of a single call. */
  lemma {:induction false} ChunkIndependent(st: B64State, chunks: seq<Bytes>)
    requires st.Valid() && st.lasterr == NoError
    ensures ProcAll(st, chunks).1 == Feed(st, Flatten(chunks)).1
    ensures ProcAll(st, chunks).0.invalidEncoding == Feed(st, Flatten(chunks)).0.invalidEncoding
    decreases |chunks|
  {
    hide Step;
    if st.stopSeen {
      NothingAfterStop(st, chunks);
    } else if chunks != [] {
      var next := Feed(st, chunks[0]).0;
      FeedAppend(st, chunks[0], Flatten(chunks[1..]));
      ChunkIndependent(next, chunks[1..]);
    }
  }

  // ----- decoding an encoding

  function Alphabet(c: nat): (ch: byte)
    requires c < 64
    ensures AscToBin(ch) == c && ch < 128 && ch != PAD && ch != DASH && !IsSpace(ch)
  {
    if c < 26 then 65 + c
    else if c < 52 then 97 + c - 26
    else if c < 62 then 48 + c - 52
    else if c == 62 then 43 else 47
  }

  /** The base64 encoding of section 4 of RFC 4648. */
  function Encode(data: Bytes): Bytes {
    if data == [] then []
    else if |data| == 1 then [Alphabet(data[0] / 4), Alphabet(data[0] % 4 * 16), PAD, PAD]
    else if |data| == 2 then
      [Alphabet(data[0] / 4), Alphabet(data[0] % 4 * 16 + data[1] / 16), Alphabet(data[1] % 16 * 4), PAD]
    else
      [Alphabet(data[0] / 4), Alphabet(data[0] % 4 * 16 + data[1] / 16),
       Alphabet(data[1] % 16 * 4 + data[2] / 64), Alphabet(data[2] % 64)] + Encode(data[3..])
  }

  /** The text without line feeds, blanks, carriage returns and tabs. */
  function Strip(text: Bytes): Bytes {
    if text == [] then []
    else (if text[0] == 10 || text[0] == 32 || text[0] == 13 || text[0] == 9 then [] else [text[0]]) + Strip(text[1..])
  }

  /** Behind the padding nothing comes out. */
  lemma {:induction false} AfterPad(st: B64State, text: Bytes)
    requires st.Valid() && (st.idx.WaitEnd? || st.idx.WaitEndTitle?)
    ensures Feed(st, text).1 == [] && Feed(st, text).0.invalidEncoding == st.invalidEncoding
    decreases |text|
  {
    if text != [] && !st.stopSeen {
      FeedOne(st, text);
      AfterPad(Step(st, text[0]).0, text[1..]);
    }
  }

  /** White space anywhere makes no difference. */
  lemma {:induction false} WhiteSpaceIgnored(st: B64State, text: Bytes)
    requires st.Valid() && InB64(st.idx) && !st.stopSeen
    ensures Feed(st, text).1 == Feed(st, Strip(text)).1
    ensures Feed(st, text).0.invalidEncoding == Feed(st, Strip(text)).0.invalidEncoding
    decreases |text|
  {
    if text == [] {
    } else if IsSpace(text[0]) {
      SpaceSkipped(st, text[0]);
      assert Strip(text) == Strip(text[1..]);
      WhiteSpaceIgnored(st, text[1..]);
    } else {
      var next := Step(st, text[0]).0;
      TextStep(st, text[0]);
      assert Strip(text)[0] == text[0] && Strip(text)[1..] == Strip(text[1..]);
      hide Step;
      if !InB64(next.idx) {
        AfterPad(next, text[1..]);
        AfterPad(next, Strip(text[1..]));
      } else {
        WhiteSpaceIgnored(next, text[1..]);
      }
    }
  }

  lemma SpaceSkipped(st: B64State, ch: byte)
    requires st.Valid() && InB64(st.idx) && IsSpace(ch)
    ensures Step(st, ch) == (st, [])
  {}

  lemma TextStep(st: B64State, ch: byte)
    requires st.Valid() && InB64(st.idx) && !st.stopSeen
    ensures var next := Step(st, ch).0;
            !next.stopSeen && (InB64(next.idx) || next.idx.WaitEnd? || next.idx.WaitEndTitle?)
  {}

  lemma PlainStep(st: B64State, ch: byte)
    requires st.Valid() && !st.title && InB64(st.idx) && !st.stopSeen
    ensures !Step(st, ch).0.stopSeen && (InB64(Step(st, ch).0.idx) || Step(st, ch).0.idx.WaitEnd?)
  {}

  /** What a character of the alphabet does. */
  lemma CharStep(st: B64State, c: nat)
    requires st.Valid() && c < 64
    ensures st.idx.B64_0? ==> Step(st, Alphabet(c)) == (st.(radbuf := c * 4, idx := B64_1), [])
    ensures st.idx.B64_1? ==> Step(st, Alphabet(c)) == (st.(radbuf := c % 16 * 16, idx := B64_2), [OrLow(st.radbuf, c / 16, 4)])
    ensures st.idx.B64_2? ==> Step(st, Alphabet(c)) == (st.(radbuf := c % 4 * 64, idx := B64_3), [OrLow(st.radbuf, c / 4, 16)])
    ensures st.idx.B64_3? ==> Step(st, Alphabet(c)) == (st.(radbuf := OrLow(st.radbuf, c, 64), idx := B64_0), [OrLow(st.radbuf, c, 64)])
  {}

  lemma FeedOne(st: B64State, text: Bytes)
    requires st.Valid() && !st.stopSeen && text != []
    ensures Feed(st, text).0 == Feed(Step(st, text[0]).0, text[1..]).0
    ensures Feed(st, text).1 == Step(st, text[0]).1 + Feed(Step(st, text[0]).0, text[1..]).1
  {}

  /** The bits of the characters of a group. */
  lemma StartBits(x: byte, low: nat)
    requires low < 16
    ensures var c := x % 4 * 16 + low; c < 64 && c % 16 == low && x / 4 * 4 + c / 16 == x && c / 16 < 4
  {}

  lemma MiddleBits(y: byte, low: nat)
    requires low < 4
    ensures var c := y % 16 * 4 + low; c < 64 && c % 4 == low && y / 16 * 16 + c / 4 == y && c / 4 < 16
  {}

  /** A character that completes byte b and leaves val for the next one. */
  lemma Completes(st: B64State, b: byte, next: B64State, text: Bytes)
    requires st.Valid() && next.Valid() && !st.stopSeen && text != [] && Step(st, text[0]) == (next, [b])
    ensures Feed(st, text).0 == Feed(next, text[1..]).0 && Feed(st, text).1 == [b] + Feed(next, text[1..]).1
  {
    FeedOne(st, text);
  }

  /** The first character of a group. */
  lemma GroupStart(st: B64State, x: byte, text: Bytes)
    requires st.Valid() && st.idx.B64_0? && !st.stopSeen && |text| >= 1 && text[0] == Alphabet(x / 4)
    ensures var next := st.(radbuf := x / 4 * 4, idx := B64_1);
            next.Valid() && Feed(st, text).0 == Feed(next, text[1..]).0 && Feed(st, text).1 == Feed(next, text[1..]).1
  {
    CharStep(st, x / 4);
    hide Step, Feed, Alphabet;
    FeedOne(st, text);
  }

  /** The second character of a group. */
  lemma GroupNext(st: B64State, x: byte, low: nat, text: Bytes)
    requires st.Valid() && st.idx.B64_1? && !st.stopSeen && low < 16 && |text| >= 1
    requires st.radbuf == x / 4 * 4 && x % 4 * 16 + low < 64 && text[0] == Alphabet(x % 4 * 16 + low)
    ensures var next := st.(radbuf := low * 16, idx := B64_2);
            next.Valid() && Feed(st, text).0 == Feed(next, text[1..]).0 && Feed(st, text).1 == [x] + Feed(next, text[1..]).1
  {
    StartBits(x, low);
    CharStep(st, x % 4 * 16 + low);
    hide Step, Feed, Alphabet;
    Completes(st, x, st.(radbuf := low * 16, idx := B64_2), text);
  }

  /** The third character of a group. */
  lemma GroupMiddle(st: B64State, y: byte, low: nat, text: Bytes)
    requires st.Valid() && st.idx.B64_2? && !st.stopSeen && low < 4 && |text| >= 1
    requires st.radbuf == y / 16 * 16 && y % 16 * 4 + low < 64 && text[0] == Alphabet(y % 16 * 4 + low)
    ensures var next := st.(radbuf := low * 64, idx := B64_3);
            next.Valid() && Feed(st, text).0 == Feed(next, text[1..]).0 && Feed(st, text).1 == [y] + Feed(next, text[1..]).1
  {
    MiddleBits(y, low);
    CharStep(st, y % 16 * 4 + low);
    hide Step, Feed, Alphabet;
    Completes(st, y, st.(radbuf := low * 64, idx := B64_3), text);
  }

  /** The last character of a group. */
  lemma GroupEnd(st: B64State, z: byte, text: Bytes)
    requires st.Valid() && st.idx.B64_3? && !st.stopSeen && |text| >= 1
    requires st.radbuf == z / 64 * 64 && text[0] == Alphabet(z % 64)
    ensures var next := st.(radbuf := z, idx := B64_0);
            next.Valid() && Feed(st, text).0 == Feed(next, text[1..]).0 && Feed(st, text).1 == [z] + Feed(next, text[1..]).1
  {
    CharStep(st, z % 64);
    hide Step, Feed, Alphabet;
    Completes(st, z, st.(radbuf := z, idx := B64_0), text);
  }

  /** Padding in state 2 or 3 ends the encoding without a further byte. */
  lemma PadEnds(st: B64State, text: Bytes)
    requires st.Valid() && (st.idx.B64_2? || st.idx.B64_3?) && !st.stopSeen && (text == [PAD] || text == [PAD, PAD])
    ensures Feed(st, text).1 == [] && Feed(st, text).0.invalidEncoding == st.invalidEncoding
  {
    FeedOne(st, text);
    var next := Step(st, PAD).0;
    if |text| == 2 {
      FeedOne(next, text[1..]);
    }
  }

  /** The characters of the first group. */
  lemma EncodeGroup(data: Bytes)
    requires data != []
    ensures var t, low := Encode(data), if |data| == 1 then 0 else data[1] / 16;
            && |t| >= 4 && low < 16 && data[0] % 4 * 16 + low < 64
            && t[0] == Alphabet(data[0] / 4) && t[1] == Alphabet(data[0] % 4 * 16 + low)
    ensures |data| == 1 ==> Encode(data)[2..] == [PAD, PAD]
  {
    hide Alphabet;
  }

  lemma EncodeTail(data: Bytes)
    requires |data| >= 2
    ensures var t, low := Encode(data), if |data| == 2 then 0 else data[2] / 64;
            |t| >= 4 && low < 4 && data[1] % 16 * 4 + low < 64 && t[2] == Alphabet(data[1] % 16 * 4 + low)
    ensures |data| == 2 ==> Encode(data)[3..] == [PAD]
    ensures |data| >= 3 ==> Encode(data)[3] == Alphabet(data[2] % 64) && Encode(data)[4..] == Encode(data[3..])
  {
    hide Alphabet;
  }

  /** Decoding an encoding gives the data back. */
  lemma {:induction false} DecodeEncode(st: B64State, data: Bytes)
    requires st.Valid() && st.idx.B64_0? && !st.stopSeen
    ensures Feed(st, Encode(data)).1 == data
    ensures Feed(st, Encode(data)).0.invalidEncoding == st.invalidEncoding
    decreases |data|, 1
  {
    if data == [] {
      return;
    }
    hide Step, Alphabet, Feed, Encode, B64State.Valid;
    var text := Encode(data);
    EncodeGroup(data);
    assert text[1..][1..] == text[2..];
    var low := if |data| == 1 then 0 else data[1] / 16;
    GroupStart(st, data[0], text);
    GroupNext(st.(radbuf := data[0] / 4 * 4, idx := B64_1), data[0], low, text[1..]);
    var s2 := st.(radbuf := low * 16, idx := B64_2);
    if |data| == 1 {
      PadEnds(s2, text[2..]);
    } else {
      DecodeRest(s2, data);
      assert data == [data[0]] + data[1..];
    }
  }

  /** The group behind its first byte, and everything behind the group. */
  lemma {:induction false} DecodeRest(st: B64State, data: Bytes)
    requires st.Valid() && st.idx.B64_2? && !st.stopSeen && |data| >= 2 && |Encode(data)| >= 4
    requires st.radbuf == data[1] / 16 * 16
    ensures Feed(st, Encode(data)[2..]).1 == data[1..]
    ensures Feed(st, Encode(data)[2..]).0.invalidEncoding == st.invalidEncoding
    decreases |data|, 0
  {
    hide Step, Alphabet, Feed, Encode, B64State.Valid;
    var text, low := Encode(data), if |data| == 2 then 0 else data[2] / 64;
    EncodeTail(data);
    assert text[2..][1..] == text[3..];
    GroupMiddle(st, data[1], low, text[2..]);
    var s3 := st.(radbuf := low * 64, idx := B64_3);
    if |data| == 2 {
      PadEnds(s3, text[3..]);
    } else {
      GroupEnd(s3, data[2], text[3..]);
      assert text[3..][1..] == text[4..];
      DecodeEncode(s3.(radbuf := data[2], idx := B64_0), data[3..]);
      assert data[1..] == [data[1]] + ([data[2]] + data[3..]);
    }
  }

  /** In plain mode the encoding of any data, with white space anywhere in it and cut into
      pieces anywhere, decodes to the data, and no invalid encoding is reported. */
  lemma RoundTrip(data: Bytes, text: Bytes, chunks: seq<Bytes>)
    requires Strip(text) == Encode(data) && Flatten(chunks) == text
    ensures ProcAll(StartState(false), chunks).1 == data
    ensures !ProcAll(StartState(false), chunks).0.invalidEncoding
  {
    ChunkIndependent(StartState(false), chunks);
    WhiteSpaceIgnored(StartState(false), text);
    DecodeEncode(StartState(false), data);
  }

  /** Neither white space nor '=' nor a letter, a digit, '+' or '/'. */
  ghost predicate Foreign(ch: byte) {
    && ch != 10 && ch != 32 && ch != 13 && ch != 9 && ch != 61
    && !(65 <= ch <= 90) && !(97 <= ch <= 122) && !(48 <= ch <= 57) && ch != 43 && ch != 47
  }

  /** Up to the padding, an invalid encoding is reported exactly if there is a character that
      is neither in the alphabet nor white space. */
  lemma {:induction false} InvalidExactly(st: B64State, text: Bytes)
    requires st.Valid() && !st.title && InB64(st.idx) && !st.stopSeen && PAD !in text
    ensures Feed(st, text).0.invalidEncoding <==> st.invalidEncoding || exists ch :: ch in text && Foreign(ch)
    decreases |text|
  {
    if text != [] {
      var next := Step(st, text[0]).0;
      PlainStep(st, text[0]);
      assert text[0] != PAD;
      assert InB64(next.idx) && (next.invalidEncoding <==> st.invalidEncoding || Foreign(text[0]));
      hide Step, Foreign;
      FeedOne(st, text);
      InvalidExactly(next, text[1..]);
      assert text == [text[0]] + text[1..];
    }
  }

  // ----- the end of the encoding

  /** Some end character is followed by a line feed. */
  ghost predicate Ended(text: Bytes, mark: byte) {
    exists i, j :: 0 <= i < j < |text| && text[i] == mark && text[j] == 10
  }

  lemma EndedTail(text: Bytes, mark: byte)
    requires text != []
    ensures Ended(text, mark) <==> Ended(text[1..], mark) || (text[0] == mark && 10 in text[1..])
  {
    var t := text[1..];
    if Ended(t, mark) {
      var i, j :| 0 <= i < j < |t| && t[i] == mark && t[j] == 10;
      assert text[i + 1] == mark && text[j + 1] == 10;
    }
    if text[0] == mark && 10 in t {
      var j :| 0 <= j < |t| && t[j] == 10;
      assert text[0] == mark && text[j + 1] == 10;
    }
    if Ended(text, mark) {
      var i, j :| 0 <= i < j < |text| && text[i] == mark && text[j] == 10;
      assert t[j - 1] == 10;
      assert i > 0 ==> t[i - 1] == mark;
    }
  }

  lemma {:induction false} StopsAtLineEnd(st: B64State, text: Bytes)
    requires st.Valid() && st.idx.WaitEnd? && !st.stopSeen
    ensures Feed(st, text).0.stopSeen <==> 10 in text
    decreases |text|
  {
    if text != [] {
      FeedOne(st, text);
      if text[0] == 10 {
        assert Feed(Step(st, text[0]).0, text[1..]).0 == Step(st, text[0]).0;
      } else {
        StopsAtLineEnd(Step(st, text[0]).0, text[1..]);
        assert text == [text[0]] + text[1..];
      }
    }
  }

  lemma Leaves(st: B64State, ch: byte)
    requires st.Valid() && (InB64(st.idx) || (st.title && st.idx.WaitEndTitle?)) && !st.stopSeen
    ensures var next := Step(st, ch).0;
            && !next.stopSeen
            && (next.idx.WaitEnd? <==> ch == if st.title then 45 else 61)
            && (!next.idx.WaitEnd? ==> InB64(next.idx) || (st.title && next.idx.WaitEndTitle?))
  {}

  /** From the first base64 character on, the decoder stops exactly when a line feed has come
      behind a '=' in plain mode, or behind a '-' in title mode. */
  lemma {:induction false} StopsExactly(st: B64State, text: Bytes)
    requires st.Valid() && (InB64(st.idx) || (st.title && st.idx.WaitEndTitle?)) && !st.stopSeen
    ensures Feed(st, text).0.stopSeen <==> Ended(text, if st.title then 45 else 61)
    decreases |text|
  {
    if text != [] {
      var mark: byte := if st.title then 45 else 61;
      var next := Step(st, text[0]).0;
      FeedOne(st, text);
      Leaves(st, text[0]);
      EndedTail(text, mark);
      if next.idx.WaitEnd? {
        StopsAtLineEnd(next, text[1..]);
        assert Ended(text[1..], mark) ==> 10 in text[1..];
      } else {
        StopsExactly(next, text[1..]);
      }
    }
  }

  /** In plain mode the call after some text reports the end exactly if that text has a line
      feed behind a '=', and it keeps reporting it. */
  lemma EndReported(text: Bytes, more: Bytes)
    ensures var st := Feed(StartState(false), text).0;
            && (ProcError(st) == Eof <==> exists i, j :: 0 <= i < j < |text| && text[i] == 61 && text[j] == 10)
            && (ProcError(st) == Eof ==> ProcError(ProcState(st, more)) == Eof)
  {
    StopsExactly(StartState(false), text);
    hide Feed;
  }

  // ----- title mode

  /** Before the first character of a line. */
  ghost predicate AtLineStart(st: B64State) {
    (st.idx.Init? || st.idx.LfSeen?) && st.quadCount == 0 && !st.stopSeen
  }

  ghost function LineStarted(st: B64State): B64State {
    st.(idx := LfSeen, quadCount := 0)
  }

  lemma FeedNone(st: B64State)
    requires st.Valid()
    ensures Feed(st, []) == (st, [])
  {}

  lemma {:induction false} IdleToLineEnd(st: B64State, line: Bytes)
    requires st.Valid() && st.idx.Idle? && !st.stopSeen && 10 !in line
    ensures Feed(st, line + [10]).0 == LineStarted(st) && Feed(st, line + [10]).1 == []
    decreases |line|
  {
    FeedOne(st, line + [10]);
    if line == [] {
      assert (line + [10])[1..] == [];
    } else {
      assert (line + [10])[1..] == line[1..] + [10];
      IdleToLineEnd(st, line[1..]);
    }
  }

  lemma PrefixTail(line: Bytes, q: nat)
    requires q <= 10 && line != [] && line[0] == BEGIN_LINE[q] && !(BEGIN_LINE[q..] <= line)
    ensures q < 10 && !(BEGIN_LINE[q + 1..] <= line[1..])
  {
    assert BEGIN_LINE[q..] == [BEGIN_LINE[q]] + BEGIN_LINE[q + 1..];
    assert line == [line[0]] + line[1..];
  }

  /** A line that does not go on like the begin line is skipped. */
  lemma {:induction false} SkipRest(st: B64State, line: Bytes)
    requires st.Valid() && (AtLineStart(st) || (st.idx.LfSeen? && !st.stopSeen)) && 10 !in line
    requires !(BEGIN_LINE[st.quadCount..] <= line)
    ensures Feed(st, line + [10]).0 == LineStarted(st) && Feed(st, line + [10]).1 == []
    decreases |line|
  {
    hide Feed;
    var q := st.quadCount;
    FeedOne(st, line + [10]);
    if line == [] {
      assert (line + [10])[1..] == [];
      FeedNone(LineStarted(st));
    } else {
      assert (line + [10])[1..] == line[1..] + [10];
      if line[0] == BEGIN_LINE[q] {
        PrefixTail(line, q);
        SkipRest(st.(quadCount := q + 1, idx := LfSeen), line[1..]);
      } else {
        IdleToLineEnd(st.(idx := Idle), line[1..]);
      }
    }
  }

  /** Lines and their line feeds. */
  function Lines(s: seq<Bytes>): Bytes {
    if s == [] then [] else s[0] + [10] + Lines(s[1..])
  }

  lemma {:induction false} SkipLines(st: B64State, lines: seq<Bytes>)
    requires st.Valid() && AtLineStart(st)
    requires forall i :: 0 <= i < |lines| ==> 10 !in lines[i] && !(BEGIN_LINE <= lines[i])
    ensures Feed(st, Lines(lines)).0 == (if lines == [] then st else LineStarted(st)) && Feed(st, Lines(lines)).1 == []
    decreases |lines|
  {
    if lines != [] {
      assert BEGIN_LINE[0..] == BEGIN_LINE;
      SkipRest(st, lines[0]);
      FeedAppend(st, lines[0] + [10], Lines(lines[1..]));
      SkipLines(LineStarted(st), lines[1..]);
    }
  }

  lemma {:induction false} MatchBegin(st: B64State)
    requires st.Valid() && (AtLineStart(st) || (st.idx.LfSeen? && !st.stopSeen))
    ensures Feed(st, BEGIN_LINE[st.quadCount..]).0 == st.(idx := BeginSeen, quadCount := 0)
    ensures Feed(st, BEGIN_LINE[st.quadCount..]).1 == []
    decreases 10 - st.quadCount
  {
    hide Feed;
    var q := st.quadCount;
    var rest := BEGIN_LINE[q..];
    FeedOne(st, rest);
    assert rest[1..] == BEGIN_LINE[q + 1..];
    if q == 10 {
      assert rest[1..] == [];
      FeedNone(st.(idx := BeginSeen, quadCount := 0));
    } else {
      MatchBegin(st.(quadCount := q + 1, idx := LfSeen));
    }
  }

  lemma {:induction false} BeginToLineEnd(st: B64State, name: Bytes)
    requires st.Valid() && st.idx.Begin? && !st.stopSeen && 10 !in name
    ensures Feed(st, name + [10]).0 == st.(idx := B64_0) && Feed(st, name + [10]).1 == []
    decreases |name|
  {
    FeedOne(st, name + [10]);
    if name == [] {
      assert (name + [10])[1..] == [];
    } else {
      assert (name + [10])[1..] == name[1..] + [10];
      BeginToLineEnd(st, name[1..]);
    }
  }

  /** A title that differs from "PGP " within its length: base64 starts on the next line. */
  lemma {:induction false} SkipName(st: B64State, name: Bytes)
    requires st.Valid() && st.idx.BeginSeen? && !st.stopSeen && 10 !in name
    requires exists m :: 0 <= m < |name| && m < 4 - st.quadCount && name[m] != PGP[st.quadCount + m]
    ensures Feed(st, name + [10]).1 == []
    ensures var r := Feed(st, name + [10]).0; r == st.(idx := B64_0, quadCount := r.quadCount)
    decreases |name|
  {
    FeedOne(st, name + [10]);
    assert (name + [10])[1..] == name[1..] + [10];
    var m :| 0 <= m < |name| && m < 4 - st.quadCount && name[m] != PGP[st.quadCount + m];
    if name[0] == PGP[st.quadCount] {
      assert name[1..][m - 1] != PGP[st.quadCount + 1 + (m - 1)];
      SkipName(st.(quadCount := st.quadCount + 1), name[1..]);
    } else {
      BeginToLineEnd(st.(idx := Begin), name[1..]);
    }
  }

  /** Text without a dash stays inside the encoding or its padding. */
  lemma {:induction false} StaysInside(st: B64State, text: Bytes)
    requires st.Valid() && st.title && (InB64(st.idx) || st.idx.WaitEndTitle?) && !st.stopSeen && 45 !in text
    ensures var r := Feed(st, text).0; !r.stopSeen && r.title && (InB64(r.idx) || r.idx.WaitEndTitle?)
    decreases |text|
  {
    if text != [] {
      FeedOne(st, text);
      Leaves(st, text[0]);
      StaysInside(Step(st, text[0]).0, text[1..]);
    }
  }

  lemma {:induction false} EncodeNoDash(data: Bytes)
    ensures 45 !in Encode(data)
    decreases |data|
  {
    hide Alphabet;
    if |data| >= 3 {
      EncodeNoDash(data[3..]);
    }
  }

  lemma {:induction false} StripKeeps(text: Bytes, ch: byte)
    requires ch in text && ch != 10 && ch != 32 && ch != 13 && ch != 9
    ensures ch in Strip(text)
  {
    if text[0] != ch {
      assert text == [text[0]] + text[1..];
      StripKeeps(text[1..], ch);
    }
  }

  /** From the line behind the begin line: the encoding is decoded up to the dash. */
  lemma BodyDecoded(st: B64State, data: Bytes, body: Bytes, after: Bytes)
    requires st.Valid() && st.title && st.idx.B64_0? && !st.stopSeen && Strip(body) == Encode(data)
    ensures Feed(st, body + ([45] + after)).1 == data
    ensures Feed(st, body + ([45] + after)).0.invalidEncoding == st.invalidEncoding
  {
    hide Feed, Encode, Strip;
    EncodeNoDash(data);
    if 45 in body {
      StripKeeps(body, 45);
    }
    WhiteSpaceIgnored(st, body);
    DecodeEncode(st, data);
    StaysInside(st, body);
    var x := Feed(st, body).0;
    FeedAppend(st, body, [45] + after);
    FeedOne(x, [45] + after);
    Leaves(x, 45);
    assert ([45] + after)[1..] == after;
    AfterPad(Step(x, 45).0, after);
  }

  /** In title mode everything is skipped up to a line that starts with "-----BEGIN " (and is
      no PGP armor), the encoding on the lines behind it is decoded, and the first dash ends it. */
  lemma TitleRoundTrip(before: seq<Bytes>, name: Bytes, data: Bytes, body: Bytes, after: Bytes)
    requires forall i :: 0 <= i < |before| ==>
               10 !in before[i] && !([45, 45, 45, 45, 45, 66, 69, 71, 73, 78, 32] <= before[i])
    requires 10 !in name && exists m :: 0 <= m < |name| && m < 4 && name[m] != [80, 71, 80, 32][m]
    requires Strip(body) == Encode(data)
    ensures var begin := [45, 45, 45, 45, 45, 66, 69, 71, 73, 78, 32];
            var r := Feed(StartState(true), Lines(before) + (begin + (name + [10] + (body + ([45] + after)))));
            r.1 == data && !r.0.invalidEncoding
  {
    hide Feed, Encode, Strip, Step;
    var s0 := StartState(true);
    SkipLines(s0, before);
    var s1 := Feed(s0, Lines(before)).0;
    assert BEGIN_LINE[0..] == BEGIN_LINE;
    MatchBegin(s1);
    var s2 := s1.(idx := BeginSeen, quadCount := 0);
    SkipName(s2, name);
    var s3 := Feed(s2, name + [10]).0;
    BodyDecoded(s3, data, body, after);
    FeedAppend(s2, name + [10], body + ([45] + after));
    FeedAppend(s1, BEGIN_LINE, name + [10] + (body + ([45] + after)));
    FeedAppend(s0, Lines(before), BEGIN_LINE + (name + [10] + (body + ([45] + after))));
  }

  // ----- PGP armor

  lemma {:induction false} HeaderToLineEnd(st: B64State, line: Bytes)
    requires st.Valid() && st.idx.WaitHeader? && !st.stopSeen && 10 !in line
    ensures Feed(st, line + [10]).0 == st.(idx := WaitBlank) && Feed(st, line + [10]).1 == []
    decreases |line|
  {
    hide Feed;
    FeedOne(st, line + [10]);
    if line == [] {
      assert (line + [10])[1..] == [];
      FeedNone(st.(idx := WaitBlank));
    } else {
      assert (line + [10])[1..] == line[1..] + [10];
      HeaderToLineEnd(st, line[1..]);
    }
  }

  /** A line is blank if it holds blanks, carriage returns and tabs only. */
  ghost predicate Blank(line: Bytes) {
    forall i :: 0 <= i < |line| ==> line[i] == 32 || line[i] == 13 || line[i] == 9
  }

  /** A blank line ends the armor headers, any other line is one. */
  lemma {:induction false} ArmorLine(st: B64State, line: Bytes)
    requires st.Valid() && st.idx.WaitBlank? && !st.stopSeen && 10 !in line
    ensures Feed(st, line + [10]).0 == (if Blank(line) then st.(idx := B64_0) else st) && Feed(st, line + [10]).1 == []
    decreases |line|
  {
    hide Feed;
    FeedOne(st, line + [10]);
    if line == [] {
      assert (line + [10])[1..] == [];
      FeedNone(st.(idx := B64_0));
    } else {
      assert (line + [10])[1..] == line[1..] + [10];
      BlankTail(line);
      if line[0] == 32 || line[0] == 13 || line[0] == 9 {
        ArmorLine(st, line[1..]);
      } else {
        HeaderToLineEnd(st.(idx := WaitHeader), line[1..]);
      }
    }
  }

  lemma BlankTail(line: Bytes)
    requires line != []
    ensures Blank(line) <==> (line[0] == 32 || line[0] == 13 || line[0] == 9) && Blank(line[1..])
  {
    assert forall i :: 1 <= i < |line| ==> line[i] == line[1..][i - 1];
  }

  lemma {:induction false} ArmorHeaders(st: B64State, headers: seq<Bytes>)
    requires st.Valid() && st.idx.WaitBlank? && !st.stopSeen
    requires forall i :: 0 <= i < |headers| ==> 10 !in headers[i] && !Blank(headers[i])
    ensures Feed(st, Lines(headers)).0 == st && Feed(st, Lines(headers)).1 == []
    decreases |headers|
  {
    if headers != [] {
      ArmorLine(st, headers[0]);
      FeedAppend(st, headers[0] + [10], Lines(headers[1..]));
      ArmorHeaders(st, headers[1..]);
    }
  }

  lemma {:induction false} MatchPgp(st: B64State)
    requires st.Valid() && st.idx.BeginSeen? && !st.stopSeen
    ensures Feed(st, PGP[st.quadCount..]).0 == st.(idx := WaitHeader, quadCount := 3)
    ensures Feed(st, PGP[st.quadCount..]).1 == []
    decreases 3 - st.quadCount
  {
    hide Feed;
    var q := st.quadCount;
    var rest := PGP[q..];
    FeedOne(st, rest);
    assert rest[1..] == PGP[q + 1..];
    if q == 3 {
      assert rest[1..] == [];
      FeedNone(st.(idx := WaitHeader));
    } else {
      MatchPgp(st.(quadCount := q + 1));
    }
  }

  /** From "PGP " on: the rest of the line, the headers, a blank line and the encoding. */
  lemma ArmorDecoded(st: B64State, name: Bytes, headers: seq<Bytes>, blank: Bytes, data: Bytes, body: Bytes, after: Bytes)
    requires st.Valid() && st.title && st.idx.BeginSeen? && st.quadCount == 0 && !st.stopSeen
    requires 10 !in name && Blank(blank) && Strip(body) == Encode(data)
    requires forall i :: 0 <= i < |headers| ==> 10 !in headers[i] && !Blank(headers[i])
    ensures var text := PGP + (name + [10] + (Lines(headers) + (blank + [10] + (body + ([45] + after)))));
            Feed(st, text).1 == data && Feed(st, text).0.invalidEncoding == st.invalidEncoding
  {
    hide Feed, Encode, Strip, Step, Lines;
    assert PGP[0..] == PGP;
    MatchPgp(st);
    var s1 := st.(idx := WaitHeader, quadCount := 3);
    HeaderToLineEnd(s1, name);
    var s2 := s1.(idx := WaitBlank);
    ArmorHeaders(s2, headers);
    ArmorLine(s2, blank);
    var s3 := s2.(idx := B64_0);
    BodyDecoded(s3, data, body, after);
    var t3 := body + ([45] + after);
    FeedAppend(s2, blank + [10], t3);
    var t2 := blank + [10] + t3;
    FeedAppend(s2, Lines(headers), t2);
    FeedAppend(s1, name + [10], Lines(headers) + t2);
    FeedAppend(st, PGP, name + [10] + (Lines(headers) + t2));
  }

  /** PGP armor in title mode: everything up to the begin line, its headers and the blank line
      behind them is skipped, and the first dash ends the encoding. */
  lemma ArmorRoundTrip(before: seq<Bytes>, name: Bytes, headers: seq<Bytes>, blank: Bytes, data: Bytes, body: Bytes, after: Bytes)
    requires forall i :: 0 <= i < |before| ==>
               10 !in before[i] && !([45, 45, 45, 45, 45, 66, 69, 71, 73, 78, 32] <= before[i])
    requires 10 !in name && Blank(blank) && Strip(body) == Encode(data)
    requires forall i :: 0 <= i < |headers| ==> 10 !in headers[i] && !Blank(headers[i])
    ensures var begin := [45, 45, 45, 45, 45, 66, 69, 71, 73, 78, 32];
            var armor := [80, 71, 80, 32] + (name + [10] + (Lines(headers) + (blank + [10] + (body + ([45] + after)))));
            var r := Feed(StartState(true), Lines(before) + (begin + armor));
            r.1 == data && !r.0.invalidEncoding
  {
    hide Feed, Encode, Strip, Step;
    var s0 := StartState(true);
    SkipLines(s0, before);
    var s1 := Feed(s0, Lines(before)).0;
    assert BEGIN_LINE[0..] == BEGIN_LINE;
    MatchBegin(s1);
    var s2 := s1.(idx := BeginSeen, quadCount := 0);
    ArmorDecoded(s2, name, headers, blank, data, body, after);
    var armor := PGP + (name + [10] + (Lines(headers) + (blank + [10] + (body + ([45] + after)))));
    FeedAppend(s1, BEGIN_LINE, armor);
    FeedAppend(s0, Lines(before), BEGIN_LINE + armor);
  }
}
