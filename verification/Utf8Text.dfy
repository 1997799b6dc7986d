/** UTF-8 text as bytes: well-formedness, the lossy reading of any bytes, and trimming. */
module Utf8Text {
  import opened Words

  predicate IsContinuation(s: Bytes, i: nat) {
    i < |s| && 0x80 <= s[i] < 0xC0
  }

  /** The length of the well-formed UTF-8 sequence at the head of `s`, or 0. */
  function Utf8Head(s: Bytes): (n: nat)
    ensures n <= |s|
  {
    if s == [] then 0
    else if s[0] < 0x80 then 1
    else if 0xC2 <= s[0] < 0xE0 && IsContinuation(s, 1) then 2
    else if 0xE0 <= s[0] < 0xF0 && IsContinuation(s, 1) && IsContinuation(s, 2)
      && (s[0] == 0xE0 ==> 0xA0 <= s[1]) && (s[0] == 0xED ==> s[1] < 0xA0) then 3
    else if 0xF0 <= s[0] < 0xF5 && IsContinuation(s, 1) && IsContinuation(s, 2) && IsContinuation(s, 3)
      && (s[0] == 0xF0 ==> 0x90 <= s[1]) && (s[0] == 0xF4 ==> s[1] < 0x90) then 4
    else 0
  }

  predicate IsUtf8(s: Bytes)
    decreases |s|
  {
    s == [] || (0 < Utf8Head(s) && IsUtf8(s[Utf8Head(s)..]))
  }

  // ---- Any bytes as text ----

  /** What an ill-formed piece is replaced by: U+FFFD. */
  const REPLACEMENT: Bytes := [0xEF, 0xBF, 0xBD]

  /** The second byte may follow the first in a sequence of three or four. */
  predicate SecondFits(s: Bytes) {
    && IsContinuation(s, 1)
    && (s[0] == 0xE0 ==> 0xA0 <= s[1]) && (s[0] == 0xED ==> s[1] < 0xA0)
    && (s[0] == 0xF0 ==> 0x90 <= s[1]) && (s[0] == 0xF4 ==> s[1] < 0x90)
  }

  /** The length of the ill-formed piece at the head of `s`: as much as could still have begun a sequence. */
  function IllFormedHead(s: Bytes): (n: nat)
    requires s != []
    ensures 0 < n <= |s|
  {
    if !(0xE0 <= s[0] < 0xF5) || !SecondFits(s) then 1
    else if !IsContinuation(s, 2) then 2
    else 3
  }

  /** `s` as text: well-formed sequences stay, each ill-formed piece becomes one replacement character. */
  function Lossy(s: Bytes): Bytes
    decreases |s|
  {
    if s == [] then []
    else if 0 < Utf8Head(s) then s[..Utf8Head(s)] + Lossy(s[Utf8Head(s)..])
    else REPLACEMENT + Lossy(s[IllFormedHead(s)..])
  }

  /** Text reads as itself. */
  lemma {:induction false} LossyKeepsText(s: Bytes)
    requires IsUtf8(s)
    ensures Lossy(s) == s
    decreases |s|
  {
    if s != [] {
      LossyKeepsText(s[Utf8Head(s)..]);
    }
  }

  lemma {:induction false} HeadOfHead(s: Bytes, rest: Bytes)
    requires 0 < Utf8Head(s)
    ensures Utf8Head(s[..Utf8Head(s)] + rest) == Utf8Head(s)
  {
  }

  /** Whatever the bytes, their lossy reading is text. */
  lemma {:induction false} LossyIsText(s: Bytes)
    ensures IsUtf8(Lossy(s))
    decreases |s|
  {
    if s != [] {
      if 0 < Utf8Head(s) {
        var (head, tail) := (s[..Utf8Head(s)], s[Utf8Head(s)..]);
        LossyIsText(tail);
        HeadOfHead(s, Lossy(tail));
        assert (head + Lossy(tail))[Utf8Head(s)..] == Lossy(tail);
      } else {
        var tail := s[IllFormedHead(s)..];
        LossyIsText(tail);
        var text := REPLACEMENT + Lossy(tail);
        assert Utf8Head(text) == 3 && text[3..] == Lossy(tail);
      }
    }
  }

  // ---- White space ----

  /** The length of the white-space character at the head of a text, or 0. */
  function SpaceHead(s: Bytes): (n: nat)
    ensures n <= |s|
  {
    if s == [] then 0
    else if s[0] == 32 || 9 <= s[0] <= 13 then 1
    else if 2 <= |s| && s[0] == 0xC2 && (s[1] == 0x85 || s[1] == 0xA0) then 2
    else if 3 <= |s| && IsWideSpace(s[0], s[1], s[2]) then 3
    else 0
  }

  /** U+1680, U+2000 to U+200A, U+2028, U+2029, U+202F, U+205F and U+3000. */
  predicate IsWideSpace(a: u8, b: u8, c: u8) {
    || (a == 0xE1 && b == 0x9A && c == 0x80)
    || (a == 0xE2 && b == 0x80 && (c <= 0x8A || c == 0xA8 || c == 0xA9 || c == 0xAF) && 0x80 <= c)
    || (a == 0xE2 && b == 0x81 && c == 0x9F)
    || (a == 0xE3 && b == 0x80 && c == 0x80)
  }

  /** The length of the white-space character at the end of a text, or 0. */
  function SpaceTail(s: Bytes): (n: nat)
    ensures n <= |s|
  {
    if s == [] then 0
    else if SpaceHead(s[|s| - 1..]) == 1 then 1
    else if 2 <= |s| && SpaceHead(s[|s| - 2..]) == 2 then 2
    else if 3 <= |s| && SpaceHead(s[|s| - 3..]) == 3 then 3
    else 0
  }

  function TrimStart(s: Bytes): Bytes
    decreases |s|
  {
    if SpaceHead(s) == 0 then s else TrimStart(s[SpaceHead(s)..])
  }

  function TrimEnd(s: Bytes): Bytes
    decreases |s|
  {
    if SpaceTail(s) == 0 then s else TrimEnd(s[..|s| - SpaceTail(s)])
  }

  /** A text without the white space around it. */
  function Trim(s: Bytes): Bytes {
    TrimEnd(TrimStart(s))
  }
}
