/** Trimming: what is cut off a text is exactly the white-space characters around it. */
module WhiteSpace {
  import opened Scalars
  import opened Utf8Text
  import opened Words

  /** The code points with the property White_Space. */
  predicate IsWhite(c: nat) {
    || 9 <= c <= 13 || c == 32 || c == 0x85 || c == 0xA0 || c == 0x1680
    || 0x2000 <= c <= 0x200A || c == 0x2028 || c == 0x2029 || c == 0x202F || c == 0x205F || c == 0x3000
  }

  ghost predicate IsSpace(ch: Bytes) {
    exists c: nat :: IsWhite(c) && IsUtf8Of(ch, c)
  }

  ghost predicate AreSpaces(chars: seq<Bytes>) {
    forall i | 0 <= i < |chars| :: IsSpace(chars[i])
  }

  lemma {:induction false} SpaceOfHead(s: Bytes)
    requires 0 < SpaceHead(s)
    ensures Utf8Head(s) == SpaceHead(s) && IsWhite(Code(s))
  {
  }

  lemma {:induction false} HeadOfSpace(ch: Bytes, rest: Bytes, c: nat)
    requires IsWhite(c) && IsUtf8Of(ch, c)
    ensures SpaceHead(ch + rest) == |ch|
  {
  }

  /** A text begins with white space of `n` bytes exactly when those are a white-space character. */
  lemma {:induction false} SpaceExactly(s: Bytes, n: nat)
    requires 0 < n
    ensures SpaceHead(s) == n <==> n <= |s| && IsSpace(s[..n])
  {
    if SpaceHead(s) == n {
      SpaceOfHead(s);
      CodeOfHead(s);
    }
    if n <= |s| && IsSpace(s[..n]) {
      var c: nat :| IsWhite(c) && IsUtf8Of(s[..n], c);
      HeadOfSpace(s[..n], s[n..], c);
      assert s[..n] + s[n..] == s;
    }
  }

  lemma {:induction false} TailOfSpace(before: Bytes, ch: Bytes, c: nat)
    requires IsWhite(c) && IsUtf8Of(ch, c)
    ensures SpaceTail(before + ch) == |ch|
  {
    var s := before + ch;
    assert s[|s| - |ch|..] == ch;
    HeadOfSpace(ch, [], c);
    assert ch + [] == ch;
    if |ch| == 2 {
      assert s[|s| - 1..] == ch[1..];
    } else if |ch| == 3 {
      assert s[|s| - 1..] == ch[2..] && s[|s| - 2..] == ch[1..];
    }
  }

  lemma {:induction false} TrimsSpacesBefore(chars: seq<Bytes>, s: Bytes)
    requires AreSpaces(chars) && SpaceHead(s) == 0
    ensures TrimStart(Concat(chars) + s) == s
    decreases |chars|
  {
    if chars != [] {
      var (ch, rest) := (chars[0], Concat(chars[1..]) + s);
      var c: nat :| IsWhite(c) && IsUtf8Of(ch, c);
      assert Concat(chars) + s == ch + rest && (ch + rest)[|ch|..] == rest;
      HeadOfSpace(ch, rest, c);
      TrimsSpacesBefore(chars[1..], s);
    } else {
      assert Concat(chars) + s == s;
    }
  }

  lemma {:induction false} LastOfConcat(chars: seq<Bytes>)
    requires chars != []
    ensures Concat(chars) == Concat(chars[..|chars| - 1]) + chars[|chars| - 1]
    decreases |chars|
  {
    if |chars| == 1 {
      assert chars[1..] == [] && chars[..0] == [];
    } else {
      LastOfConcat(chars[1..]);
      assert chars[1..][..|chars| - 2] == chars[..|chars| - 1][1..];
    }
  }

  lemma {:induction false} TrimsSpacesAfter(s: Bytes, chars: seq<Bytes>)
    requires AreSpaces(chars) && SpaceTail(s) == 0
    ensures TrimEnd(s + Concat(chars)) == s
    decreases |chars|
  {
    if chars != [] {
      var (before, ch) := (s + Concat(chars[..|chars| - 1]), chars[|chars| - 1]);
      LastOfConcat(chars);
      var c: nat :| IsWhite(c) && IsUtf8Of(ch, c);
      assert s + Concat(chars) == before + ch && (before + ch)[..|before|] == before;
      TailOfSpace(before, ch, c);
      TrimsSpacesAfter(s, chars[..|chars| - 1]);
    } else {
      assert s + Concat(chars) == s;
    }
  }

  lemma {:induction false} SpacesStart(chars: seq<Bytes>)
    requires AreSpaces(chars)
    ensures Concat(chars) != [] ==> !(0x80 <= Concat(chars)[0] < 0xC0)
  {
    if chars != [] {
      assert IsSpace(chars[0]);
    }
  }

  /** No white space begins with what ends another character. */
  lemma {:induction false} NoSpaceAcross(s: Bytes, more: Bytes)
    requires s != [] && SpaceHead(s) == 0 && (more != [] ==> !(0x80 <= more[0] < 0xC0))
    ensures SpaceHead(s + more) == 0
  {
    if |s| == 1 && 2 <= |s + more| {
      assert (s + more)[1] == more[0];
    } else if |s| == 2 && 3 <= |s + more| {
      assert (s + more)[2] == more[0];
    }
  }

  /** Trimming takes off all the white space around a text that neither begins nor ends with any, and nothing else. */
  lemma {:induction false} TrimExactly(before: seq<Bytes>, s: Bytes, after: seq<Bytes>)
    requires AreSpaces(before) && AreSpaces(after) && s != [] && SpaceHead(s) == 0 && SpaceTail(s) == 0
    ensures Trim(Concat(before) + s + Concat(after)) == s
  {
    SpacesStart(after);
    NoSpaceAcross(s, Concat(after));
    TrimsSpacesBefore(before, s + Concat(after));
    assert Concat(before) + (s + Concat(after)) == Concat(before) + s + Concat(after);
    TrimsSpacesAfter(s, after);
  }
}
