/** UTF-8 from its code points: what the byte tests of the text functions come to. */
module Scalars {
  import opened Utf8Text
  import opened Words

  /** A Unicode scalar value: a code point that is no surrogate. */
  predicate IsScalar(c: nat) {
    c < 0xD800 || 0xE000 <= c < 0x11_0000
  }

  predicate IsTrail(b: u8) {
    0x80 <= b < 0xC0
  }

  /** The low bits of a byte, above `mark`. */
  function Bits(b: u8, mark: int): int {
    var n: int := b;
    n - mark
  }

  /** `s` is the UTF-8 form of `c`: table 3-6 of the Unicode Standard, in as few bytes as hold it. */
  predicate IsUtf8Of(s: Bytes, c: nat) {
    && IsScalar(c)
    && match |s|
       case 1 => c < 0x80 && c == s[0]
       case 2 => 0x80 <= c < 0x800 && 0xC0 <= s[0] < 0xE0 && IsTrail(s[1]) && c == Bits(s[0], 0xC0) * 64 + Bits(s[1], 0x80)
       case 3 =>
         && 0x800 <= c < 0x1_0000 && 0xE0 <= s[0] < 0xF0 && IsTrail(s[1]) && IsTrail(s[2])
         && c == Bits(s[0], 0xE0) * 4096 + Bits(s[1], 0x80) * 64 + Bits(s[2], 0x80)
       case 4 =>
         && 0x1_0000 <= c && 0xF0 <= s[0] < 0xF8 && IsTrail(s[1]) && IsTrail(s[2]) && IsTrail(s[3])
         && c == Bits(s[0], 0xF0) * 26_2144 + Bits(s[1], 0x80) * 4096 + Bits(s[2], 0x80) * 64 + Bits(s[3], 0x80)
       case _ => false
  }

  ghost predicate IsCharacter(s: Bytes) {
    exists c: nat :: IsUtf8Of(s, c)
  }

  /** The code point a well-formed head stands for. */
  function Code(s: Bytes): (c: nat)
    requires 0 < Utf8Head(s)
  {
    match Utf8Head(s)
    case 1 => s[0]
    case 2 => Bits(s[0], 0xC0) * 64 + Bits(s[1], 0x80)
    case 3 => Bits(s[0], 0xE0) * 4096 + Bits(s[1], 0x80) * 64 + Bits(s[2], 0x80)
    case _ => Bits(s[0], 0xF0) * 26_2144 + Bits(s[1], 0x80) * 4096 + Bits(s[2], 0x80) * 64 + Bits(s[3], 0x80)
  }

  lemma {:induction false} CodeOfHead(s: Bytes)
    requires 0 < Utf8Head(s)
    ensures IsUtf8Of(s[..Utf8Head(s)], Code(s))
  {
  }

  lemma {:induction false} HeadOfCharacter(ch: Bytes, rest: Bytes, c: nat)
    requires IsUtf8Of(ch, c)
    ensures Utf8Head(ch + rest) == |ch| && Code(ch + rest) == c
  {
  }

  /** A text begins with a well-formed sequence of `n` bytes exactly when those are the UTF-8 form of a scalar value. */
  lemma {:induction false} HeadExactly(s: Bytes, n: nat)
    requires 0 < n
    ensures Utf8Head(s) == n <==> n <= |s| && IsCharacter(s[..n])
  {
    if Utf8Head(s) == n {
      CodeOfHead(s);
    }
    if n <= |s| && IsCharacter(s[..n]) {
      var c: nat :| IsUtf8Of(s[..n], c);
      HeadOfCharacter(s[..n], s[n..], c);
      assert s[..n] + s[n..] == s;
    }
  }

  /** A run of characters. */
  function Concat(chars: seq<Bytes>): Bytes {
    if chars == [] then [] else chars[0] + Concat(chars[1..])
  }

  ghost predicate AreCharacters(chars: seq<Bytes>) {
    forall i | 0 <= i < |chars| :: IsCharacter(chars[i])
  }

  lemma {:induction false} CharactersAreText(chars: seq<Bytes>)
    requires AreCharacters(chars)
    ensures IsUtf8(Concat(chars))
    decreases |chars|
  {
    if chars != [] {
      var s := Concat(chars);
      assert s[..|chars[0]|] == chars[0] && s[|chars[0]|..] == Concat(chars[1..]);
      assert chars[0] != [];
      HeadExactly(s, |chars[0]|);
      CharactersAreText(chars[1..]);
    }
  }

  lemma {:induction false} TextHasCharacters(s: Bytes) returns (chars: seq<Bytes>)
    requires IsUtf8(s)
    ensures AreCharacters(chars) && Concat(chars) == s
    decreases |s|
  {
    if s == [] {
      chars := [];
    } else {
      var n := Utf8Head(s);
      HeadExactly(s, n);
      var more := TextHasCharacters(s[n..]);
      chars := [s[..n]] + more;
      assert chars[1..] == more;
    }
  }

  /** Text is exactly the runs of UTF-8 forms of scalar values. */
  lemma {:induction false} TextExactly(s: Bytes)
    ensures IsUtf8(s) <==> exists chars :: AreCharacters(chars) && Concat(chars) == s
  {
    if IsUtf8(s) {
      var chars := TextHasCharacters(s);
    }
    if chars :| AreCharacters(chars) && Concat(chars) == s {
      CharactersAreText(chars);
    }
  }

  // ---- Ill-formed pieces ----

  /** `s` could still be the beginning of a longer character. */
  ghost predicate BeginsCharacter(s: Bytes) {
    exists more: Bytes :: more != [] && IsCharacter(s + more)
  }

  /** What can follow: enough trail bytes to end the sequence. */
  function Ending(s: Bytes): Bytes
    requires s != []
  {
    if s[0] < 0xE0 then [0x80]
    else if s[0] < 0xF0 then (if |s| == 1 then [0x80, 0x80] else [0x80])
    else if |s| == 1 then [0x80, 0x80, 0x80] else if |s| == 2 then [0x80, 0x80] else [0x80]
  }

  lemma {:induction false} PieceBegins(s: Bytes)
    requires s != [] && Utf8Head(s) == 0 && 1 < IllFormedHead(s)
    ensures BeginsCharacter(s[..IllFormedHead(s)])
  {
    var p := s[..IllFormedHead(s)];
    var whole := p + Ending(p);
    CodeOfHead(whole);
    assert whole[..Utf8Head(whole)] == whole;
    assert IsCharacter(whole);
  }

  lemma {:induction false} NoLongerPiece(s: Bytes)
    requires s != [] && Utf8Head(s) == 0 && IllFormedHead(s) < |s|
    ensures !BeginsCharacter(s[..IllFormedHead(s) + 1])
  {
    var p := s[..IllFormedHead(s) + 1];
    forall more: Bytes, c: nat | IsUtf8Of(p + more, c)
      ensures more == []
    {
      assert (p + more)[0] == s[0];
    }
  }

  /**
   Each ill-formed piece that the lossy reading replaces is one byte, or as many more as could still have begun a
   character: the maximal subparts of section 3.9 of the Unicode Standard.
   */
  lemma {:induction false} PieceIsMaximal(s: Bytes)
    requires s != [] && Utf8Head(s) == 0
    ensures var n := IllFormedHead(s);
            && (1 < n ==> BeginsCharacter(s[..n]))
            && (n < |s| ==> !BeginsCharacter(s[..n + 1]))
  {
    if 1 < IllFormedHead(s) {
      PieceBegins(s);
    }
    if IllFormedHead(s) < |s| {
      NoLongerPiece(s);
    }
  }

  lemma {:induction false} CharactersStay(chars: seq<Bytes>, s: Bytes)
    requires AreCharacters(chars)
    ensures Lossy(Concat(chars) + s) == Concat(chars) + Lossy(s)
    decreases |chars|
  {
    if chars == [] {
      assert Concat(chars) + s == s;
    } else {
      var (ch, rest) := (chars[0], Concat(chars[1..]) + s);
      assert Concat(chars) + s == ch + rest && (ch + rest)[..|ch|] == ch && (ch + rest)[|ch|..] == rest;
      assert ch != [];
      HeadExactly(ch + rest, |ch|);
      CharactersStay(chars[1..], s);
      assert ch + (Concat(chars[1..]) + Lossy(s)) == Concat(chars) + Lossy(s);
    }
  }

  /**
   The lossy reading keeps the characters in front of an ill-formed piece, puts U+FFFD for the piece and goes on behind
   it.
   */
  lemma {:induction false} LossyExactly(chars: seq<Bytes>, s: Bytes, replacement: Bytes)
    requires AreCharacters(chars) && s != [] && Utf8Head(s) == 0 && IsUtf8Of(replacement, 0xFFFD)
    ensures Lossy(Concat(chars) + s) == Concat(chars) + (replacement + Lossy(s[IllFormedHead(s)..]))
  {
    CharactersStay(chars, s);
    assert replacement == REPLACEMENT;
  }
}
