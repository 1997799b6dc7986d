/** gRPC-web message framing: the reply's frames, its status, and the one message they carry. */
module Framing {
  import opened AsciiText
  import opened Positional
  import opened Utf8Text
  import opened Words

  /** Largest reply message kept. */
  const MAX_MESSAGE: nat := 4 * 1024 * 1024

  const STATUS_NAME: Bytes := Ascii("grpc-status:")
  const OK_LINE: Bytes := Ascii("grpc-status:0")

  // ---- Status text ----

  /** An optional sign, then digits, within 64 bits. */
  function ParseI64(s: Bytes): Option<int> {
    var signed := s != [] && (s[0] == 43 || s[0] == 45);
    var digits := if signed then s[1..] else s;
    if !IsDigits(digits) then None
    else
      var n: int := if signed && s[0] == 45 then 0 - Decimal(digits) else Decimal(digits);
      if I64_MIN <= n <= I64_MAX then Some(n) else None
  }

  function ParseStatus(s: Bytes): Option<int> {
    ParseI64(Trim(s))
  }

  function Lower(b: u8): u8 {
    if 65 <= b < 91 then b + 32 else b
  }

  predicate SameIgnoringCase(a: Bytes, b: Bytes) {
    |a| == |b| && forall i | 0 <= i < |a| :: Lower(a[i]) == Lower(b[i])
  }

  /** `line`, already trimmed, names the status. */
  predicate IsStatusLine(line: Bytes) {
    12 < |line| && SameIgnoringCase(line[..12], STATUS_NAME)
  }

  predicate IsBreak(s: Bytes, i: nat) {
    i + 1 < |s| && s[i] == 13 && s[i + 1] == 10
  }

  /** Where the first line of `s` ends, looking no earlier than `i`. */
  function LineEnd(s: Bytes, i: nat): (end: nat)
    requires i <= |s|
    ensures i <= end <= |s|
    ensures end == |s| || IsBreak(s, end)
    ensures forall j | i <= j < end :: !IsBreak(s, j)
    decreases |s| - i
  {
    if i == |s| || IsBreak(s, i) then i else LineEnd(s, i + 1)
  }

  /** `s` cut at every carriage return and line feed pair. */
  function Lines(s: Bytes): seq<Bytes>
    decreases |s|
  {
    var end := LineEnd(s, 0);
    if end == |s| then [s] else [s[..end]] + Lines(s[end + 2..])
  }

  function Join(lines: seq<Bytes>): Bytes
    requires lines != []
  {
    if |lines| == 1 then lines[0] else lines[0] + [13, 10] + Join(lines[1..])
  }

  predicate IsLine(s: Bytes) {
    forall i: nat :: i < |s| ==> !IsBreak(s, i)
  }

  /** The last status line decides, readable or not; with none the status stays as it was. */
  function StatusAfter(lines: seq<Bytes>, before: Option<int>): Option<int> {
    if lines == [] then before
    else
      var last := Trim(lines[|lines| - 1]);
      if IsStatusLine(last) then ParseStatus(last[12..]) else StatusAfter(lines[..|lines| - 1], before)
  }

  /** Byte 12 of `line`, already trimmed, lies inside a character: the code's cut there panics. */
  predicate SplitsCharacter(line: Bytes) {
    12 < |line| && IsContinuation(line, 12)
  }

  predicate NoneSplits(lines: seq<Bytes>) {
    forall i | 0 <= i < |lines| :: !SplitsCharacter(Trim(lines[i]))
  }

  /** A trailer's lines: its bytes read as text, whatever they are. */
  function TextLines(payload: Bytes): seq<Bytes> {
    Lines(Lossy(payload))
  }

  function TrailerStatus(payload: Bytes, before: Option<int>): Result<Option<int>, UnframeError> {
    if NoneSplits(TextLines(payload)) then Success(StatusAfter(TextLines(payload), before)) else Failure(Panicked)
  }

  lemma {:induction false} OneMoreSplits(lines: seq<Bytes>, i: nat)
    requires i < |lines|
    ensures NoneSplits(lines[..i + 1]) <==> NoneSplits(lines[..i]) && !SplitsCharacter(Trim(lines[i]))
  {
    var (some, more) := (lines[..i], lines[..i + 1]);
    assert forall k | 0 <= k < i :: more[k] == some[k];
    assert more[i] == lines[i];
  }

  lemma {:induction false} OneMoreLine(lines: seq<Bytes>, i: nat, before: Option<int>)
    requires i < |lines|
    ensures StatusAfter(lines[..i + 1], before)
            == if IsStatusLine(Trim(lines[i])) then ParseStatus(Trim(lines[i])[12..]) else StatusAfter(lines[..i], before)
  {
    assert lines[..i + 1][..i] == lines[..i];
  }

  method ReadTrailer(payload: Bytes, before: Option<int>) returns (r: Result<Option<int>, UnframeError>)
    ensures r == TrailerStatus(payload, before)
  {
    var status := before;
    var lines := TextLines(payload);
    for i := 0 to |lines|
      invariant NoneSplits(lines[..i]) && status == StatusAfter(lines[..i], before)
    {
      OneMoreSplits(lines, i);
      OneMoreLine(lines, i, before);
      var line := Trim(lines[i]);
      if SplitsCharacter(line) {
        return Failure(Panicked);
      }
      if IsStatusLine(line) {
        status := ParseStatus(line[12..]);
      }
    }
    assert lines[..|lines|] == lines;
    r := Success(status);
  }

  // ---- Frames ----

  datatype Frame = Frame(flag: u8, payload: Bytes) {
    predicate IsTrailer() {
      128 <= flag
    }
  }

  function BigEndian(n: u32): Bytes {
    [n / 256 / 256 / 256, n / 256 / 256 % 256, n / 256 % 256, n % 256]
  }

  function FromBigEndian(a: u8, b: u8, c: u8, d: u8): u32 {
    ((a * 256 + b) * 256 + c) * 256 + d
  }

  function EncodeFrame(f: Frame): Bytes
    requires |f.payload| <= U32_MAX
  {
    [f.flag] + BigEndian(|f.payload|) + f.payload
  }

  /** The one frame a request is sent in. */
  function FrameMessage(msg: Bytes): Bytes {
    [0] + BigEndian(|msg| % 0x1_0000_0000) + msg
  }

  predicate AllFit(frames: seq<Frame>) {
    forall i | 0 <= i < |frames| :: |frames[i].payload| <= U32_MAX
  }

  function EncodeFrames(frames: seq<Frame>): Bytes
    requires AllFit(frames)
  {
    if frames == [] then [] else EncodeFrame(frames[0]) + EncodeFrames(frames[1..])
  }

  datatype UnframeError =
    | Overrun
    | Compressed
    | TooLarge
    | TruncatedHeader
    | Panicked
    | Status(code: int)
    | NoStatus

  /** How a reply of whole frames ends. */
  function Verdict(msg: Bytes, status: Option<int>): Result<Bytes, UnframeError> {
    match status
    case None => Failure(NoStatus)
    case Some(code) => if code == 0 then Success(msg) else Failure(Status(code))
  }

  datatype Head = Nothing | ShortHeader | ShortPayload | Whole(frame: Frame, rest: Bytes)

  /** The frame at the head of a body and what follows it. */
  function FirstFrame(body: Bytes): (h: Head)
    ensures h.Whole? ==> |h.rest| < |body|
  {
    if body == [] then Nothing
    else if |body| < 5 then ShortHeader
    else
      var end := 5 + FromBigEndian(body[1], body[2], body[3], body[4]);
      if |body| < end then ShortPayload else Whole(Frame(body[0], body[5..end]), body[end..])
  }

  /** What has been read of a reply: the message so far and the last status seen. */
  datatype Reading = Reading(msg: Bytes, status: Option<int>)

  function Take(at: Reading, f: Frame): Result<Reading, UnframeError> {
    if f.IsTrailer() then
      match TrailerStatus(f.payload, at.status)
      case Failure(e) => Failure(e)
      case Success(status) => Success(Reading(at.msg, status))
    else if f.flag != 0 then Failure(Compressed)
    else if MAX_MESSAGE < |at.msg| + |f.payload| then Failure(TooLarge)
    else Success(Reading(at.msg + f.payload, at.status))
  }

  /** The rest of a reply. */
  function Walk(body: Bytes, at: Reading): Result<Bytes, UnframeError>
    decreases |body|
  {
    match FirstFrame(body)
    case Nothing => Verdict(at.msg, at.status)
    case ShortHeader => Failure(TruncatedHeader)
    case ShortPayload => Failure(Overrun)
    case Whole(f, rest) =>
      match Take(at, f)
      case Failure(e) => Failure(e)
      case Success(next) => Walk(rest, next)
  }

  function HeaderStatus(header: Option<Bytes>): Option<int> {
    if header.Some? then ParseStatus(header.value) else None
  }

  function Unframed(header: Option<Bytes>, body: Bytes): Result<Bytes, UnframeError> {
    Walk(body, Reading([], HeaderStatus(header)))
  }

  lemma {:induction false} FrameAt(body: Bytes, i: nat, end: nat)
    requires i + 5 <= |body| && end == i + 5 + FromBigEndian(body[i + 1], body[i + 2], body[i + 3], body[i + 4])
    ensures FirstFrame(body[i..])
            == if |body| < end then ShortPayload else Whole(Frame(body[i], body[i + 5..end]), body[end..])
  {
    if end <= |body| {
      assert body[i..][5..end - i] == body[i + 5..end] && body[i..][end - i..] == body[end..];
    }
  }

  method Unframe(header: Option<Bytes>, body: Bytes) returns (r: Result<Bytes, UnframeError>)
    ensures r == Unframed(header, body)
  {
    var msg: Bytes := [];
    var status := HeaderStatus(header);
    var i := 0;
    while i + 5 <= |body|
      invariant i <= |body|
      invariant Unframed(header, body) == Walk(body[i..], Reading(msg, status))
    {
      var flag := body[i];
      var len := FromBigEndian(body[i + 1], body[i + 2], body[i + 3], body[i + 4]);
      FrameAt(body, i, i + 5 + len);
      i := i + 5;
      var end := i + len;
      if |body| < end {
        return Failure(Overrun);
      }
      var payload := body[i..end];
      i := end;
      if 128 <= flag {
        var trailer := ReadTrailer(payload, status);
        if trailer.Failure? {
          return Failure(trailer.error);
        }
        status := trailer.value;
      } else {
        if flag != 0 {
          return Failure(Compressed);
        }
        if MAX_MESSAGE < |msg| + |payload| {
          return Failure(TooLarge);
        }
        msg := msg + payload;
      }
    }
    if i != |body| {
      return Failure(TruncatedHeader);
    }
    r := match status
      case None => Failure(NoStatus)
      case Some(code) => if code == 0 then Success(msg) else Failure(Status(code));
  }

  // ---- What a reply means ----

  /** The data frames' payloads, in order. */
  function Payloads(frames: seq<Frame>): Bytes {
    if frames == [] then []
    else (if frames[0].IsTrailer() then [] else frames[0].payload) + Payloads(frames[1..])
  }

  /** The trailer frames' lines, in order. */
  function TrailerLines(frames: seq<Frame>): seq<Bytes> {
    if frames == [] then []
    else (if frames[0].IsTrailer() then TextLines(frames[0].payload) else []) + TrailerLines(frames[1..])
  }

  predicate AllPlain(frames: seq<Frame>) {
    forall i | 0 <= i < |frames| :: frames[i].IsTrailer() || frames[i].flag == 0
  }

  /** Whole frames, none compressed, no more than the cap in all, and no trailer line the code cannot cut. */
  ghost predicate IsReply(frames: seq<Frame>, body: Bytes) {
    && AllFit(frames) && EncodeFrames(frames) == body
    && AllPlain(frames) && |Payloads(frames)| <= MAX_MESSAGE && NoneSplits(TrailerLines(frames))
  }

  predicate IsVerdict(r: Result<Bytes, UnframeError>) {
    r.Success? || r.error.Status? || r.error.NoStatus?
  }

  lemma {:induction false} BigEndianReads(n: u32)
    ensures var b := BigEndian(n); FromBigEndian(b[0], b[1], b[2], b[3]) == n
  {
  }

  lemma {:induction false} BigEndianWrites(a: u8, b: u8, c: u8, d: u8)
    ensures BigEndian(FromBigEndian(a, b, c, d)) == [a, b, c, d]
  {
    LowByte((a * 256 + b) * 256 + c, d);
    LowByte(a * 256 + b, c);
    LowByte(a, b);
  }

  lemma {:induction false} LowByte(high: nat, low: u8)
    ensures (high * 256 + low) / 256 == high && (high * 256 + low) % 256 == low
  {
  }

  lemma {:induction false} StatusAfterBoth(a: seq<Bytes>, b: seq<Bytes>, before: Option<int>)
    ensures StatusAfter(a + b, before) == StatusAfter(b, StatusAfter(a, before))
    decreases |b|
  {
    if b == [] {
      assert a + b == a;
    } else {
      assert (a + b)[..|a + b| - 1] == a + b[..|b| - 1];
      StatusAfterBoth(a, b[..|b| - 1], before);
    }
  }

  lemma {:induction false} FrameReads(f: Frame, rest: Bytes)
    requires |f.payload| <= U32_MAX
    ensures FirstFrame(EncodeFrame(f) + rest) == Whole(f, rest)
  {
    var body := EncodeFrame(f) + rest;
    BigEndianReads(|f.payload|);
    assert body[5..5 + |f.payload|] == f.payload && body[5 + |f.payload|..] == rest;
  }

  lemma {:induction false} FrameWrites(body: Bytes)
    requires FirstFrame(body).Whole?
    ensures var h := FirstFrame(body); |h.frame.payload| <= U32_MAX && EncodeFrame(h.frame) + h.rest == body
  {
    BigEndianWrites(body[1], body[2], body[3], body[4]);
  }

  lemma {:induction false} FramesSplit(frames: seq<Frame>, rest: Bytes)
    requires frames != [] && AllFit(frames)
    ensures EncodeFrames(frames) + rest == EncodeFrame(frames[0]) + (EncodeFrames(frames[1..]) + rest)
  {
  }

  /** What whole frames that are no more than the cap in all add to a reading. */
  function TakeAll(at: Reading, frames: seq<Frame>): Reading {
    Reading(at.msg + Payloads(frames), StatusAfter(TrailerLines(frames), at.status))
  }

  predicate Fits(at: Reading, frames: seq<Frame>) {
    AllPlain(frames) && |at.msg| + |Payloads(frames)| <= MAX_MESSAGE && NoneSplits(TrailerLines(frames))
  }

  lemma {:induction false} PlainSplits(frames: seq<Frame>)
    requires frames != []
    ensures AllPlain(frames) <==> (frames[0].IsTrailer() || frames[0].flag == 0) && AllPlain(frames[1..])
  {
    assert forall i | 0 < i < |frames| :: frames[i] == frames[1..][i - 1];
  }

  lemma {:induction false} NoneSplitsBoth(a: seq<Bytes>, b: seq<Bytes>)
    ensures NoneSplits(a + b) <==> NoneSplits(a) && NoneSplits(b)
  {
    if NoneSplits(a + b) {
      assert forall i | 0 <= i < |a| :: a[i] == (a + b)[i];
      assert forall i | 0 <= i < |b| :: b[i] == (a + b)[|a| + i];
    }
  }

  lemma {:induction false} TakeSplits(at: Reading, frames: seq<Frame>)
    requires frames != [] && AllFit(frames) && |at.msg| <= MAX_MESSAGE
    ensures Fits(at, frames) ==> Take(at, frames[0]).Success?
    ensures var next := Take(at, frames[0]);
            next.Success? ==> |next.value.msg| <= MAX_MESSAGE && (Fits(at, frames) <==> Fits(next.value, frames[1..]))
  {
    PlainSplits(frames);
    NoneSplitsBoth(if frames[0].IsTrailer() then TextLines(frames[0].payload) else [], TrailerLines(frames[1..]));
    assert |Payloads(frames)| == (if frames[0].IsTrailer() then 0 else |frames[0].payload|) + |Payloads(frames[1..])|;
  }

  lemma {:induction false} TakesInOrder(at: Reading, f: Frame, more: seq<Frame>)
    requires Take(at, f).Success?
    ensures TakeAll(at, [f] + more) == TakeAll(Take(at, f).value, more)
  {
    assert ([f] + more)[1..] == more;
    if f.IsTrailer() {
      StatusAfterBoth(TextLines(f.payload), TrailerLines(more), at.status);
      assert Payloads([f] + more) == Payloads(more);
    } else {
      assert TrailerLines([f] + more) == TrailerLines(more);
      assert at.msg + (f.payload + Payloads(more)) == at.msg + f.payload + Payloads(more);
    }
  }

  lemma {:induction false} WalkStep(frames: seq<Frame>, rest: Bytes, at: Reading)
    requires frames != [] && AllFit(frames)
    ensures Walk(EncodeFrames(frames) + rest, at)
            == match Take(at, frames[0])
               case Failure(e) => Failure(e)
               case Success(next) => Walk(EncodeFrames(frames[1..]) + rest, next)
  {
    FramesSplit(frames, rest);
    FrameReads(frames[0], EncodeFrames(frames[1..]) + rest);
  }

  lemma {:induction false} TakeEnds(at: Reading, f: Frame)
    requires Take(at, f).Failure?
    ensures !IsVerdict(Failure(Take(at, f).error))
  {
  }

  /** Walking over whole frames takes them all in; one that does not fit ends it without a verdict. */
  lemma {:induction false} WalkFrames(frames: seq<Frame>, rest: Bytes, at: Reading)
    requires AllFit(frames) && |at.msg| <= MAX_MESSAGE
    ensures if Fits(at, frames) then Walk(EncodeFrames(frames) + rest, at) == Walk(rest, TakeAll(at, frames))
            else !IsVerdict(Walk(EncodeFrames(frames) + rest, at))
    decreases |frames|
  {
    if frames == [] {
      assert EncodeFrames(frames) + rest == rest && at.msg + Payloads(frames) == at.msg;
    } else {
      WalkStep(frames, rest, at);
      TakeSplits(at, frames);
      var next := Take(at, frames[0]);
      if next.Success? {
        assert [frames[0]] + frames[1..] == frames;
        TakesInOrder(at, frames[0], frames[1..]);
        WalkFrames(frames[1..], rest, next.value);
      } else {
        TakeEnds(at, frames[0]);
      }
    }
  }

  /** A walk that reaches a verdict went over whole frames. */
  lemma {:induction false} WholeFrames(body: Bytes, at: Reading) returns (frames: seq<Frame>)
    requires IsVerdict(Walk(body, at))
    ensures AllFit(frames) && EncodeFrames(frames) == body
    decreases |body|
  {
    if body == [] {
      frames := [];
    } else {
      var h := FirstFrame(body);
      FrameWrites(body);
      var more := WholeFrames(h.rest, Take(at, h.frame).value);
      frames := [h.frame] + more;
      assert frames[1..] == more;
    }
  }

  /** A reply's frames decide it: the payloads in order under a final status 0, the status otherwise. */
  lemma {:induction false} ReplyVerdict(header: Option<Bytes>, body: Bytes, frames: seq<Frame>)
    requires IsReply(frames, body)
    ensures Unframed(header, body) == Verdict(Payloads(frames), StatusAfter(TrailerLines(frames), HeaderStatus(header)))
  {
    var start := Reading([], HeaderStatus(header));
    WalkFrames(frames, [], start);
    assert EncodeFrames(frames) + [] == body && [] + Payloads(frames) == Payloads(frames);
  }

  /**
   `unframe` reaches a verdict exactly on a whole number of uncompressed frames of at most 4 MiB in all, and the
   verdict is theirs: success, with the payloads in order, exactly when the last status seen is 0.
   */
  lemma {:induction false} UnframeExactly(header: Option<Bytes>, body: Bytes, r: Result<Bytes, UnframeError>)
    requires IsVerdict(r)
    ensures Unframed(header, body) == r
            <==> exists frames :: IsReply(frames, body)
                   && r == Verdict(Payloads(frames), StatusAfter(TrailerLines(frames), HeaderStatus(header)))
  {
    if Unframed(header, body) == r {
      var start := Reading([], HeaderStatus(header));
      var frames := WholeFrames(body, start);
      assert EncodeFrames(frames) + [] == body;
      WalkFrames(frames, [], start);
      assert IsReply(frames, body);
      ReplyVerdict(header, body, frames);
    }
    if frames :| (IsReply(frames, body)
        && r == Verdict(Payloads(frames), StatusAfter(TrailerLines(frames), HeaderStatus(header)))) {
      ReplyVerdict(header, body, frames);
    }
  }

  // ---- When it panics ----

  /** Frames that are read, then a trailer with a line that cannot be cut at byte 12. */
  ghost predicate PanicsAfter(frames: seq<Frame>, f: Frame, rest: Bytes, body: Bytes, at: Reading) {
    && AllFit(frames) && Fits(at, frames)
    && f.IsTrailer() && |f.payload| <= U32_MAX && !NoneSplits(TextLines(f.payload))
    && body == EncodeFrames(frames) + (EncodeFrame(f) + rest)
  }

  /** One more frame read before it. */
  lemma {:induction false} PanicLater(first: Frame, frames: seq<Frame>, f: Frame, rest: Bytes, more: Bytes, at: Reading)
    requires |first.payload| <= U32_MAX && |at.msg| <= MAX_MESSAGE && Take(at, first).Success?
    requires PanicsAfter(frames, f, rest, more, Take(at, first).value)
    ensures PanicsAfter([first] + frames, f, rest, EncodeFrame(first) + more, at)
  {
    var all := [first] + frames;
    assert all[1..] == frames;
    TakeSplits(at, all);
    FramesSplit(all, EncodeFrame(f) + rest);
  }

  lemma {:induction false} PanicFound(body: Bytes, at: Reading) returns (frames: seq<Frame>, f: Frame, rest: Bytes)
    requires Walk(body, at) == Failure(Panicked) && |at.msg| <= MAX_MESSAGE
    ensures PanicsAfter(frames, f, rest, body, at)
    decreases |body|
  {
    var h := FirstFrame(body);
    FrameWrites(body);
    if Take(at, h.frame).Failure? {
      frames, f, rest := [], h.frame, h.rest;
      assert EncodeFrames(frames) + (EncodeFrame(f) + rest) == body;
    } else {
      frames, f, rest := PanicFound(h.rest, Take(at, h.frame).value);
      PanicLater(h.frame, frames, f, rest, h.rest, at);
      frames := [h.frame] + frames;
    }
  }

  lemma {:induction false} PanicReached(frames: seq<Frame>, f: Frame, rest: Bytes, body: Bytes, at: Reading)
    requires PanicsAfter(frames, f, rest, body, at) && |at.msg| <= MAX_MESSAGE
    ensures Walk(body, at) == Failure(Panicked)
  {
    WalkFrames(frames, EncodeFrame(f) + rest, at);
    TrailerPanics(f, rest, TakeAll(at, frames));
  }

  lemma {:induction false} TrailerPanics(f: Frame, rest: Bytes, at: Reading)
    requires f.IsTrailer() && |f.payload| <= U32_MAX && !NoneSplits(TextLines(f.payload))
    ensures Walk(EncodeFrame(f) + rest, at) == Failure(Panicked)
  {
    FrameReads(f, rest);
  }

  /** `unframe` panics exactly when, behind frames it reads, a trailer line has byte 12 inside a character. */
  lemma {:induction false} PanicsExactly(header: Option<Bytes>, body: Bytes)
    ensures Unframed(header, body) == Failure(Panicked)
            <==> exists frames, f, rest :: PanicsAfter(frames, f, rest, body, Reading([], HeaderStatus(header)))
  {
    var start := Reading([], HeaderStatus(header));
    if Unframed(header, body) == Failure(Panicked) {
      var frames, f, rest := PanicFound(body, start);
    }
    if frames, f, rest :| PanicsAfter(frames, f, rest, body, start) {
      PanicReached(frames, f, rest, body, start);
    }
  }

  /** The line `grpc-messag` and a two-byte character. */
  const SPLIT_LINE: Bytes := Ascii("grpc-messag") + [0xC3, 0xA9]

  lemma {:induction false} OneLine(s: Bytes)
    requires forall i | 0 <= i < |s| :: s[i] != 13
    ensures Lines(s) == [s]
  {
    assert LineEnd(s, 0) == |s|;
  }

  lemma {:induction false} NothingToTrim(s: Bytes)
    requires SpaceHead(s) == 0 && SpaceTail(s) == 0
    ensures Trim(s) == s
  {
  }

  lemma {:induction false} SplitLineIsText()
    ensures Lossy(SPLIT_LINE) == SPLIT_LINE
  {
    AsciiIsText(Ascii("grpc-messag"), [0xC3, 0xA9]);
    assert Utf8Head([0xC3, 0xA9]) == 2 && [0xC3, 0xA9][2..] == [];
    LossyKeepsText(SPLIT_LINE);
  }

  lemma {:induction false} SplitLineBytes()
    ensures |SPLIT_LINE| == 13 && SPLIT_LINE[0] == 103 && SPLIT_LINE[10] == 103 && SPLIT_LINE[11..] == [0xC3, 0xA9]
    ensures forall i | 0 <= i < |SPLIT_LINE| :: SPLIT_LINE[i] != 13
  {
  }

  lemma {:induction false} SplitLineSplits()
    ensures TextLines(SPLIT_LINE) == [SPLIT_LINE] && SplitsCharacter(Trim(SPLIT_LINE))
  {
    SplitLineBytes();
    SplitLineIsText();
    OneLine(SPLIT_LINE);
    var s := SPLIT_LINE;
    assert s[12] == s[11..][1] == 0xA9 && s[11] == s[11..][0] == 0xC3;
    assert SpaceTail(s) == 0;
    NothingToTrim(s);
  }

  lemma {:induction false} AsciiIsText(head: Bytes, tail: Bytes)
    requires (forall i | 0 <= i < |head| :: head[i] < 128) && IsUtf8(tail)
    ensures IsUtf8(head + tail)
    decreases |head|
  {
    if head == [] {
      assert head + tail == tail;
    } else {
      AsciiIsText(head[1..], tail);
      assert (head + tail)[1..] == head[1..] + tail;
    }
  }

  /** A reply of one such trailer panics, whatever the headers said. */
  lemma {:induction false} SplitLinePanics(header: Option<Bytes>)
    ensures Unframed(header, EncodeFrame(Frame(0x80, SPLIT_LINE))) == Failure(Panicked)
  {
    var (f, start) := (Frame(0x80, SPLIT_LINE), Reading([], HeaderStatus(header)));
    SplitLineSplits();
    assert !NoneSplits(TextLines(SPLIT_LINE)) by {
      assert TextLines(SPLIT_LINE)[0] == SPLIT_LINE;
    }
    SplitLineBytes();
    assert EncodeFrames([]) + (EncodeFrame(f) + []) == EncodeFrame(f);
    assert PanicsAfter([], f, [], EncodeFrame(f), start);
    PanicsExactly(header, EncodeFrame(f));
  }

  // ---- Messages and an OK trailer ----

  lemma {:induction false} LineEndOf(line: Bytes, rest: Bytes, i: nat)
    requires IsLine(line) && i <= |line|
    ensures LineEnd(line + [13, 10] + rest, i) == |line|
    decreases |line| - i
  {
    var s := line + [13, 10] + rest;
    if i < |line| {
      assert IsBreak(s, i) ==> IsBreak(line, i);
      LineEndOf(line, rest, i + 1);
    } else {
      assert IsBreak(s, i);
    }
  }

  /** Cutting undoes joining. */
  lemma {:induction false} LinesOfJoin(lines: seq<Bytes>)
    requires lines != [] && forall i | 0 <= i < |lines| :: IsLine(lines[i])
    ensures Lines(Join(lines)) == lines
    decreases |lines|
  {
    var first := lines[0];
    if |lines| == 1 {
      assert LineEnd(first, 0) == |first|;
      assert lines == [first];
    } else {
      var rest := Join(lines[1..]);
      var s := first + [13, 10] + rest;
      LineEndOf(first, rest, 0);
      assert s[..|first|] == first && s[|first| + 2..] == rest;
      LinesOfJoin(lines[1..]);
      assert lines == [first] + lines[1..];
    }
  }

  lemma {:induction false} OkLineBytes()
    ensures |OK_LINE| == 13 && OK_LINE[0] == 103 && OK_LINE[12] == 48 && OK_LINE[..12] == STATUS_NAME
    ensures forall i | 0 <= i < |OK_LINE| :: OK_LINE[i] != 13
  {
  }

  lemma {:induction false} ZeroReads(text: Bytes)
    requires text == [48]
    ensures ParseStatus(text) == Some(0)
  {
    assert DigitValues(text) == [0];
    assert Num([0], 10) == 0;
    NothingToTrim(text);
  }

  lemma {:induction false} OkLineReads(line: Bytes)
    requires line == OK_LINE
    ensures IsLine(line) && Trim(line) == line
    ensures IsStatusLine(line) && !SplitsCharacter(line) && ParseStatus(line[12..]) == Some(0)
  {
    OkLineBytes();
    ZeroReads(line[12..]);
    NothingToTrim(line);
  }

  lemma {:induction false} OthersKeepStatus(others: seq<Bytes>, before: Option<int>)
    requires forall i | 0 <= i < |others| :: !IsStatusLine(Trim(others[i]))
    ensures StatusAfter(others, before) == before
    decreases |others|
  {
    if others != [] {
      OthersKeepStatus(others[..|others| - 1], before);
    }
  }

  function MessageFrames(messages: seq<Bytes>): seq<Frame> {
    seq(|messages|, i requires 0 <= i < |messages| => Frame(0, messages[i]))
  }

  function Concat(messages: seq<Bytes>): Bytes {
    if messages == [] then [] else messages[0] + Concat(messages[1..])
  }

  /** An OK trailer: the status line, then whatever else. */
  predicate IsOkTrailer(f: Frame, others: seq<Bytes>) {
    && f.IsTrailer()
    && (forall i | 0 <= i < |others| :: IsLine(others[i]) && !IsStatusLine(Trim(others[i])))
    && NoneSplits(others)
    && Lossy(f.payload) == Join([OK_LINE] + others)
  }

  lemma {:induction false} MessagesThenTrailer(messages: seq<Bytes>, trailer: Frame)
    requires trailer.IsTrailer()
    ensures Payloads(MessageFrames(messages) + [trailer]) == Concat(messages)
    ensures TrailerLines(MessageFrames(messages) + [trailer]) == TextLines(trailer.payload)
    decreases |messages|
  {
    var frames := MessageFrames(messages) + [trailer];
    if messages == [] {
      assert frames == [trailer];
      assert TrailerLines([trailer]) == TextLines(trailer.payload) + [];
    } else {
      assert frames[1..] == MessageFrames(messages[1..]) + [trailer];
      MessagesThenTrailer(messages[1..], trailer);
    }
  }

  lemma {:induction false} MessageFramesFit(messages: seq<Bytes>, trailer: Frame)
    requires |trailer.payload| <= U32_MAX && forall i | 0 <= i < |messages| :: |messages[i]| <= U32_MAX
    requires trailer.IsTrailer()
    ensures AllFit(MessageFrames(messages) + [trailer]) && AllPlain(MessageFrames(messages) + [trailer])
  {
  }

  lemma {:induction false} JoinedReads(payload: Bytes, lines: seq<Bytes>)
    requires lines != [] && (forall i | 0 <= i < |lines| :: IsLine(lines[i])) && Lossy(payload) == Join(lines)
    ensures TextLines(payload) == lines
  {
    LinesOfJoin(lines);
  }

  lemma {:induction false} OkTrailerReads(f: Frame, others: seq<Bytes>)
    requires IsOkTrailer(f, others)
    ensures TextLines(f.payload) == [OK_LINE] + others
  {
    OkLineReads(OK_LINE);
    var (first, lines) := (OK_LINE, [OK_LINE] + others);
    forall i | 0 <= i < |lines|
      ensures IsLine(lines[i])
    {
      assert lines[i] == if i == 0 then first else others[i - 1];
    }
    JoinedReads(f.payload, lines);
  }

  lemma {:induction false} OkLineAlone(lines: seq<Bytes>, before: Option<int>)
    requires lines == [OK_LINE]
    ensures StatusAfter(lines, before) == Some(0) && NoneSplits(lines)
  {
    OkLineReads(OK_LINE);
  }

  lemma {:induction false} OkTrailerLeavesZero(f: Frame, others: seq<Bytes>, before: Option<int>)
    requires IsOkTrailer(f, others)
    ensures StatusAfter(TextLines(f.payload), before) == Some(0) && NoneSplits(TextLines(f.payload))
  {
    OkTrailerReads(f, others);
    OkLineAlone([OK_LINE], before);
    NoneSplitsBoth([OK_LINE], others);
    StatusAfterBoth([OK_LINE], others, before);
    OthersKeepStatus(others, Some(0));
  }

  /** `unframe` inverts any framed messages followed by an OK trailer, whatever the headers said. */
  lemma {:induction false} UnframesMessages(header: Option<Bytes>, messages: seq<Bytes>, trailer: Frame, others: seq<Bytes>)
    requires IsOkTrailer(trailer, others) && |trailer.payload| <= U32_MAX
    requires |Concat(messages)| <= MAX_MESSAGE && forall i | 0 <= i < |messages| :: |messages[i]| <= U32_MAX
    ensures AllFit(MessageFrames(messages) + [trailer])
    ensures Unframed(header, EncodeFrames(MessageFrames(messages) + [trailer])) == Success(Concat(messages))
  {
    var frames := MessageFrames(messages) + [trailer];
    MessageFramesFit(messages, trailer);
    MessagesThenTrailer(messages, trailer);
    OkTrailerLeavesZero(trailer, others, HeaderStatus(header));
    ReplyVerdict(header, EncodeFrames(frames), frames);
  }

  /** A request frame is that encoding, for every message below 2^32 bytes. */
  lemma {:induction false} RequestIsOneFrame(msg: Bytes)
    requires |msg| <= U32_MAX
    ensures FrameMessage(msg) == EncodeFrame(Frame(0, msg))
  {
  }
}
