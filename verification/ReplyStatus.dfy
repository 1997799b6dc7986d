/** The status of a reply from its text: what a caller is told for each status a node writes, and where. */
module ReplyStatus {
  import opened AsciiText
  import opened DecimalText
  import opened Framing
  import opened Positional
  import opened Utf8Text
  import opened WhiteSpace
  import opened Words
  import Scalars

  // ---- Signed numbers ----

  /** `text` is decimal digits of `n`, behind a minus, a plus or no sign. */
  ghost predicate WritesSigned(text: Bytes, n: int) {
    || (0 <= n && Writes(text, n))
    || (text != [] && text[0] == '+' as int && 0 <= n && Writes(text[1..], n))
    || (text != [] && text[0] == '-' as int && n <= 0 && Writes(text[1..], -n))
  }

  /** A status is read exactly from the signed decimal text of a 64-bit number. */
  lemma {:induction false} SignedExactly(text: Bytes, n: int)
    ensures ParseI64(text) == Some(n)
            <==> WritesSigned(text, n) && -0x8000_0000_0000_0000 <= n <= 0x7FFF_FFFF_FFFF_FFFF
  {
    if 0 <= n {
      WritesExactly(text, n);
    }
    if text != [] {
      if 0 <= n {
        WritesExactly(text[1..], n);
      }
      if n <= 0 {
        WritesExactly(text[1..], -n);
      }
    }
  }

  lemma {:induction false} NumbersAreTight(text: Bytes, n: int)
    requires WritesSigned(text, n)
    ensures text != [] && SpaceHead(text) == 0 && SpaceTail(text) == 0
    ensures !(0x80 <= text[0] < 0xC0)
  {
    var digits := if text != [] && (text[0] == 43 || text[0] == 45) then text[1..] else text;
    if 0 <= n {
      WritesExactly(text, n);
      if text != [] {
        WritesExactly(text[1..], n);
      }
    }
    if n <= 0 && text != [] {
      WritesExactly(text[1..], -n);
    }
    assert IsDigits(digits);
    var last := text[|text| - 1];
    assert last == digits[|digits| - 1];
    EndsTight(text);
  }

  lemma {:induction false} NoSpaceEndsSo(ch: Bytes)
    requires ch != [] && 32 < ch[|ch| - 1] < 128
    ensures SpaceHead(ch) != |ch|
  {
  }

  lemma {:induction false} TailIsTight(text: Bytes, n: nat)
    requires 0 < n <= |text| && 32 < text[|text| - 1] < 128
    ensures SpaceHead(text[|text| - n..]) != n
  {
    assert text[|text| - n..][n - 1] == text[|text| - 1];
    NoSpaceEndsSo(text[|text| - n..]);
  }

  lemma {:induction false} TailIsHead(text: Bytes)
    ensures SpaceHead(text[|text| - SpaceTail(text)..]) == SpaceTail(text)
  {
  }

  /** A text whose last byte is ASCII and no white space ends in none. */
  lemma {:induction false} EndsTight(text: Bytes)
    requires text != [] && 32 < text[|text| - 1] < 128
    ensures SpaceTail(text) == 0
  {
    TailIsHead(text);
    if 0 < SpaceTail(text) {
      TailIsTight(text, SpaceTail(text));
    }
  }

  /** White space around a status does not matter. */
  lemma {:induction false} StatusReads(before: seq<Bytes>, text: Bytes, after: seq<Bytes>, n: int)
    requires AreSpaces(before) && AreSpaces(after)
    requires WritesSigned(text, n) && -0x8000_0000_0000_0000 <= n <= 0x7FFF_FFFF_FFFF_FFFF
    ensures ParseStatus(Scalars.Concat(before) + text + Scalars.Concat(after)) == Some(n)
  {
    NumbersAreTight(text, n);
    TrimExactly(before, text, after);
    SignedExactly(text, n);
  }

  // ---- Status lines ----

  /** `name` is "grpc-status:" in any mix of cases. */
  predicate IsStatusName(name: Bytes) {
    var lower := Ascii("grpc-status:");
    && |name| == |lower|
    && forall i | 0 <= i < |lower| :: name[i] == lower[i] || (97 <= lower[i] < 123 && name[i] as int + 32 == lower[i])
  }

  lemma {:induction false} StatusNameExactly(name: Bytes)
    ensures SameIgnoringCase(name, STATUS_NAME) <==> IsStatusName(name)
  {
    var lower := STATUS_NAME;
    forall i | 0 <= i < |lower| && i < |name|
      ensures Lower(name[i]) == Lower(lower[i])
              <==> name[i] == lower[i] || (97 <= lower[i] < 123 && name[i] as int + 32 == lower[i])
    {
    }
  }

  /** A line, trimmed, names the status exactly when that name, in any case, has something behind it. */
  lemma {:induction false} StatusLineExactly(line: Bytes)
    ensures IsStatusLine(line) <==> 12 < |line| && IsStatusName(line[..12])
  {
    if 12 < |line| {
      StatusNameExactly(line[..12]);
    }
  }

  /** One status line: white space, the name, white space, the number and white space. */
  datatype StatusLine = StatusLine(before: seq<Bytes>, name: Bytes, between: seq<Bytes>, number: Bytes, after: seq<Bytes>) {
    ghost predicate Writes(n: int) {
      && AreSpaces(before) && AreSpaces(between) && AreSpaces(after)
      && IsStatusName(name) && WritesSigned(number, n) && -0x8000_0000_0000_0000 <= n <= 0x7FFF_FFFF_FFFF_FFFF
    }

    function Core(): Bytes {
      name + (Scalars.Concat(between) + number)
    }

    function Line(): Bytes {
      Scalars.Concat(before) + Core() + Scalars.Concat(after)
    }
  }

  lemma {:induction false} LastOfSum(a: Bytes, b: Bytes)
    requires b != []
    ensures (a + b)[|a + b| - 1] == b[|b| - 1]
  {
  }

  lemma {:induction false} NameIsTight(name: Bytes)
    requires IsStatusName(name)
    ensures |name| == 12 && name[0] in {103, 71}
  {
    assert Ascii("grpc-status:")[0] == 103;
  }

  lemma {:induction false} ValueBegins(spaces: seq<Bytes>, number: Bytes, n: int)
    requires AreSpaces(spaces) && WritesSigned(number, n)
    ensures var value := Scalars.Concat(spaces) + number;
            && value != [] && !(0x80 <= value[0] < 0xC0) && 48 <= value[|value| - 1] < 58
  {
    NumbersAreTight(number, n);
    SpacesStart(spaces);
    DigitLast(number, n);
    LastOfSum(Scalars.Concat(spaces), number);
  }

  lemma {:induction false} CoreIsTight(l: StatusLine, n: int)
    requires l.Writes(n)
    ensures SpaceHead(l.Core()) == 0 && SpaceTail(l.Core()) == 0
    ensures 12 < |l.Core()| && l.Core()[..12] == l.name && l.Core()[12..] == Scalars.Concat(l.between) + l.number
    ensures !SplitsCharacter(l.Core())
  {
    var value := Scalars.Concat(l.between) + l.number;
    NameIsTight(l.name);
    ValueBegins(l.between, l.number, n);
    LastOfSum(l.name, value);
    EndsTight(l.Core());
  }

  lemma {:induction false} DigitLast(text: Bytes, n: int)
    requires WritesSigned(text, n)
    ensures text != [] && 48 <= text[|text| - 1] < 58
  {
    if 0 <= n {
      WritesExactly(text, n);
      if text != [] {
        WritesExactly(text[1..], n);
      }
    }
    if n <= 0 && text != [] {
      WritesExactly(text[1..], -n);
    }
  }

  /** Such a line sets the status to its number. */
  lemma {:induction false} LineReads(l: StatusLine, n: int)
    requires l.Writes(n)
    ensures var line := Trim(l.Line());
            IsStatusLine(line) && !SplitsCharacter(line) && ParseStatus(line[12..]) == Some(n)
  {
    CoreIsTight(l, n);
    TrimExactly(l.before, l.Core(), l.after);
    StatusLineExactly(l.Core());
    StatusReads(l.between, l.number, [], n);
    assert Scalars.Concat(l.between) + l.number + Scalars.Concat([]) == Scalars.Concat(l.between) + l.number;
  }

  // ---- Replies ----

  /** What a caller is told of a status. */
  function Told(n: int, msg: Bytes): Result<Bytes, UnframeError> {
    if n == 0 then Success(msg) else Failure(Status(n))
  }

  /** A reply of headers only: the header's number is the answer, however it is written. */
  lemma {:induction false} HeaderDecides(before: seq<Bytes>, text: Bytes, after: seq<Bytes>, n: int)
    requires AreSpaces(before) && AreSpaces(after)
    requires WritesSigned(text, n) && -0x8000_0000_0000_0000 <= n <= 0x7FFF_FFFF_FFFF_FFFF
    ensures Unframed(Some(Scalars.Concat(before) + text + Scalars.Concat(after)), []) == Told(n, [])
  {
    StatusReads(before, text, after, n);
  }

  /** "5" in the header of an empty reply, as a node answers for a transaction it does not know. */
  lemma {:induction false} NotFoundReads()
    ensures Unframed(Some(Ascii("5")), []) == Failure(Status(5))
  {
    var text := Ascii("5");
    assert DigitValues(text) == [5] && [5] == DigitValues(text)[..0] + [5];
    NumPush(DigitValues(text)[..0], 5, 10);
    WritesExactly(text, 5);
    HeaderDecides([], text, [], 5);
    assert Scalars.Concat([]) + text + Scalars.Concat([]) == text;
  }

  /** A trailer whose last status line is `l`, between lines that are none of its kind. */
  ghost predicate EndsWith(f: Frame, before: seq<Bytes>, l: StatusLine, after: seq<Bytes>) {
    && f.IsTrailer() && |f.payload| <= U32_MAX
    && (forall i | 0 <= i < |before| :: IsLine(before[i])) && IsLine(l.Line())
    && (forall i | 0 <= i < |after| :: IsLine(after[i]) && !IsStatusLine(Trim(after[i])))
    && NoneSplits(before) && NoneSplits(after)
    && Lossy(f.payload) == Join(before + [l.Line()] + after)
  }

  lemma {:induction false} LinesAre(f: Frame, before: seq<Bytes>, l: StatusLine, after: seq<Bytes>)
    requires EndsWith(f, before, l, after)
    ensures TextLines(f.payload) == before + [l.Line()] + after
  {
    var lines := before + [l.Line()] + after;
    forall i | 0 <= i < |lines|
      ensures IsLine(lines[i])
    {
      if i < |before| {
        assert lines[i] == before[i];
      } else if i == |before| {
        assert lines[i] == l.Line();
      } else {
        assert lines[i] == after[i - |before| - 1];
      }
    }
    JoinedReads(f.payload, lines);
  }

  lemma {:induction false} OneLineSets(line: Bytes, n: int, was: Option<int>)
    requires IsStatusLine(Trim(line)) && !SplitsCharacter(Trim(line)) && ParseStatus(Trim(line)[12..]) == Some(n)
    ensures StatusAfter([line], was) == Some(n) && NoneSplits([line])
  {
  }

  lemma {:induction false} TrailerSets(f: Frame, before: seq<Bytes>, l: StatusLine, after: seq<Bytes>, n: int, was: Option<int>)
    requires EndsWith(f, before, l, after) && l.Writes(n)
    ensures StatusAfter(TextLines(f.payload), was) == Some(n) && NoneSplits(TextLines(f.payload))
  {
    LinesAre(f, before, l, after);
    LineReads(l, n);
    OneLineSets(l.Line(), n, StatusAfter(before, was));
    NoneSplitsBoth(before + [l.Line()], after);
    NoneSplitsBoth(before, [l.Line()]);
    StatusAfterBoth(before + [l.Line()], after, was);
    StatusAfterBoth(before, [l.Line()], was);
    OthersKeepStatus(after, Some(n));
  }

  /**
   Framed messages and a trailer: whatever the headers and the lines before it said, the last status line is the
   answer, in any case and with any white space around it.
   */
  lemma {:induction false} LastLineDecides(
    header: Option<Bytes>, messages: seq<Bytes>, f: Frame, before: seq<Bytes>, l: StatusLine, after: seq<Bytes>, n: int)
    requires EndsWith(f, before, l, after) && l.Writes(n)
    requires |Concat(messages)| <= 4_194_304 && forall i | 0 <= i < |messages| :: |messages[i]| <= U32_MAX
    ensures AllFit(MessageFrames(messages) + [f])
    ensures Unframed(header, EncodeFrames(MessageFrames(messages) + [f])) == Told(n, Concat(messages))
  {
    var frames := MessageFrames(messages) + [f];
    MessageFramesFit(messages, f);
    MessagesThenTrailer(messages, f);
    TrailerSets(f, before, l, after, n, HeaderStatus(header));
    ReplyVerdict(header, EncodeFrames(frames), frames);
  }

  lemma {:induction false} FirstLineIsLine(s: Bytes)
    ensures IsLine(s[..LineEnd(s, 0)])
  {
    var line := s[..LineEnd(s, 0)];
    assert forall j: nat | j + 1 < |line| :: IsBreak(line, j) == IsBreak(s, j);
  }

  /** Cutting a text loses nothing: its lines hold no break and join to the text. */
  lemma {:induction false} JoinOfLines(s: Bytes)
    ensures Lines(s) != [] && Join(Lines(s)) == s
    ensures forall i | 0 <= i < |Lines(s)| :: IsLine(Lines(s)[i])
    decreases |s|
  {
    var end := LineEnd(s, 0);
    FirstLineIsLine(s);
    if end < |s| {
      var (line, rest) := (s[..end], s[end + 2..]);
      JoinOfLines(rest);
      assert ([line] + Lines(rest))[1..] == Lines(rest);
      assert s == line + [13, 10] + rest;
    } else {
      assert s[..end] == s;
    }
  }

  // ---- Bodies that are refused ----

  /** Four bytes as a number, the most significant first. */
  function LengthOf(b: Bytes): int
    requires 4 <= |b|
  {
    b[0] as int * 0x100_0000 + b[1] as int * 0x1_0000 + b[2] as int * 0x100 + b[3] as int
  }

  lemma {:induction false} LengthIsBigEndian(n: u32)
    ensures |BigEndian(n)| == 4 && LengthOf(BigEndian(n)) == n
  {
  }

  /** Frames that are read to their end. */
  predicate AreRead(frames: seq<Frame>) {
    && AllFit(frames) && (forall i | 0 <= i < |frames| :: 128 <= frames[i].flag || frames[i].flag == 0)
    && |Payloads(frames)| <= 4_194_304 && NoneSplits(TrailerLines(frames))
  }

  lemma {:induction false} WalksOn(header: Option<Bytes>, frames: seq<Frame>, rest: Bytes) returns (at: Reading)
    requires AreRead(frames)
    ensures Unframed(header, EncodeFrames(frames) + rest) == Walk(rest, at) && |at.msg| == |Payloads(frames)|
  {
    var start := Reading([], HeaderStatus(header));
    WalkFrames(frames, rest, start);
    at := TakeAll(start, frames);
  }

  /** Behind frames that are read, fewer than five bytes are a cut header and a short payload is an overrun. */
  lemma {:induction false} CutBodies(header: Option<Bytes>, frames: seq<Frame>, rest: Bytes)
    requires AreRead(frames)
    ensures 0 < |rest| < 5 ==> Unframed(header, EncodeFrames(frames) + rest) == Failure(TruncatedHeader)
    ensures 5 <= |rest| < 5 + LengthOf(rest[1..])
            ==> Unframed(header, EncodeFrames(frames) + rest) == Failure(Overrun)
  {
    var at := WalksOn(header, frames, rest);
  }

  /** A data frame that says it is compressed is refused, and so is one that takes the message over 4 MiB. */
  lemma {:induction false} RefusedFrames(header: Option<Bytes>, frames: seq<Frame>, f: Frame, rest: Bytes)
    requires AreRead(frames) && |f.payload| <= U32_MAX && f.flag < 128
    ensures f.flag != 0 ==> Unframed(header, EncodeFrames(frames) + (EncodeFrame(f) + rest)) == Failure(Compressed)
    ensures f.flag == 0 && 4_194_304 < |Payloads(frames)| + |f.payload|
            ==> Unframed(header, EncodeFrames(frames) + (EncodeFrame(f) + rest)) == Failure(TooLarge)
  {
    var at := WalksOn(header, frames, EncodeFrame(f) + rest);
    FrameReads(f, rest);
  }

  /** A reply of data frames alone, under headers without a status, is no answer. */
  lemma {:induction false} NoStatusAtAll(messages: seq<Bytes>)
    requires |Concat(messages)| <= 4_194_304 && forall i | 0 <= i < |messages| :: |messages[i]| <= U32_MAX
    ensures AllFit(MessageFrames(messages))
    ensures Unframed(None, EncodeFrames(MessageFrames(messages))) == Failure(NoStatus)
  {
    var frames := MessageFrames(messages);
    MessagesAlone(messages);
    ReplyVerdict(None, EncodeFrames(frames), frames);
  }

  lemma {:induction false} MessagesAlone(messages: seq<Bytes>)
    ensures Payloads(MessageFrames(messages)) == Concat(messages) && TrailerLines(MessageFrames(messages)) == []
    decreases |messages|
  {
    if messages != [] {
      assert MessageFrames(messages)[1..] == MessageFrames(messages[1..]);
      MessagesAlone(messages[1..]);
    }
  }
}
