/** Base58 transaction digests: the in-place length computation, and which strings are digests. */
module Base58 {
  import opened Positional
  import opened Words

  /** The Bitcoin alphabet in ASCII order: `1`-`9`, `A`-`H`, `J`-`N`, `P`-`Z`, `a`-`k`, `m`-`z`. */
  function Letter(d: nat): (c: u8)
    requires d < 58
  {
    if d < 9 then d + 49
    else if d < 17 then d + 56
    else if d < 22 then d + 57
    else if d < 33 then d + 58
    else if d < 44 then d + 64
    else d + 65
  }

  const ONE: u8 := 49

  /** A transaction digest is a 32-byte hash. */
  const DIGEST_BYTES: nat := 32

  /** Where `b` first stands in the alphabet, at `i` or later. */
  function Position(b: u8, i: nat): (p: Option<nat>)
    requires i <= 58
    ensures p.Some? ==> i <= p.value < 58 && Letter(p.value) == b
    ensures p.None? ==> forall j | i <= j < 58 :: Letter(j) != b
    decreases 58 - i
  {
    if i == 58 then None else if Letter(i) == b then Some(i) else Position(b, i + 1)
  }

  predicate InAlphabet(s: Bytes) {
    forall i | 0 <= i < |s| :: Position(s[i], 0).Some?
  }

  function DigitsOf(s: Bytes): seq<nat>
    requires InAlphabet(s)
  {
    seq(|s|, i requires 0 <= i < |s| => Position(s[i], 0).value)
  }

  /** How many of `b` lead `s`. */
  function Leading(s: Bytes, b: u8): (n: nat)
    ensures n <= |s|
    ensures forall i | 0 <= i < n :: s[i] == b
    ensures n < |s| ==> s[n] != b
  {
    if s != [] && s[0] == b then 1 + Leading(s[1..], b) else 0
  }

  /** The value of a base58 string. */
  function Value58(s: Bytes): nat
    requires InAlphabet(s)
  {
    Num(DigitsOf(s), 58)
  }

  /** The number of bytes `s` stands for: a zero byte for every leading `1`, then its value in base 256. */
  function DecodedLength(s: Bytes): Option<nat> {
    if InAlphabet(s) then Some(Leading(s, ONE) + |Rep(Value58(s), 256)|) else None
  }

  // ---- The loop ----

  /** A number as bytes, least significant first. */
  function Little(m: Bytes): nat {
    if m == [] then 0 else m[0] + 256 * Little(m[1..])
  }

  function CarryBytes(carry: nat): Bytes
    decreases carry
  {
    if carry == 0 then [] else [carry % 256] + CarryBytes(carry / 256)
  }

  function Raised(byte: nat, carry: nat): nat {
    carry + byte * 58
  }

  /** `m` times 58 plus `carry`, byte by byte. */
  function MulAdd(m: Bytes, carry: nat): Bytes
    decreases |m|
  {
    if m == [] then CarryBytes(carry)
    else [Raised(m[0], carry) % 256] + MulAdd(m[1..], Raised(m[0], carry) / 256)
  }

  predicate NoHighZero(m: Bytes) {
    m != [] ==> m[|m| - 1] != 0
  }

  lemma {:induction false} CarryBytesValue(carry: nat)
    ensures Little(CarryBytes(carry)) == carry
    decreases carry
  {
    if carry != 0 {
      CarryBytesValue(carry / 256);
      assert CarryBytes(carry)[1..] == CarryBytes(carry / 256);
    }
  }

  lemma {:induction false} MulAddValue(m: Bytes, carry: nat)
    ensures Little(MulAdd(m, carry)) == Little(m) * 58 + carry
    decreases |m|
  {
    if m == [] {
      CarryBytesValue(carry);
    } else {
      var t := Raised(m[0], carry);
      MulAddValue(m[1..], t / 256);
      assert MulAdd(m, carry)[1..] == MulAdd(m[1..], t / 256);
    }
  }

  lemma {:induction false} CarryBytesShape(carry: nat)
    requires carry < 58
    ensures CarryBytes(carry) == if carry == 0 then [] else [carry]
  {
  }

  lemma {:induction false} MulAddShape(m: Bytes, carry: nat)
    requires NoHighZero(m) && carry < 58
    ensures NoHighZero(MulAdd(m, carry)) && (m != [] ==> MulAdd(m, carry) != [])
    decreases |m|
  {
    if m == [] {
      CarryBytesShape(carry);
    } else {
      var t := Raised(m[0], carry);
      if |m| == 1 {
        CarryBytesShape(t / 256);
        assert MulAdd(m[1..], t / 256) == CarryBytes(t / 256);
      } else {
        MulAddShape(m[1..], t / 256);
      }
    }
  }

  lemma {:induction false} MulAddStep(m: Bytes, j: nat, carry: nat, done: Bytes)
    requires j < |m|
    ensures var t := Raised(m[j], carry);
            done + MulAdd(m[j..], carry) == done + [t % 256] + MulAdd(m[j + 1..], t / 256)
  {
    assert m[j..][1..] == m[j + 1..];
  }

  lemma {:induction false} CarryStep(carry: nat, done: Bytes)
    requires 0 < carry
    ensures done + CarryBytes(carry) == done + [carry % 256] + CarryBytes(carry / 256)
  {
  }

  /** Multiplies by 58 and adds `digit`, in place; no step leaves 32 bits. */
  method MulAddInPlace(m: Bytes, digit: nat) returns (magnitude: Bytes)
    requires digit < 58
    ensures magnitude == MulAdd(m, digit)
  {
    magnitude := m;
    var carry: u32 := digit;
    for j := 0 to |m|
      invariant |magnitude| == |m| && carry < 58
      invariant magnitude[j..] == m[j..]
      invariant magnitude[..j] + MulAdd(m[j..], carry) == MulAdd(m, digit)
    {
      assert magnitude[j] == magnitude[j..][0] == m[j..][0] == m[j];
      MulAddStep(m, j, carry, magnitude[..j]);
      var t: u32 := Raised(magnitude[j], carry);
      ghost var done := magnitude[..j];
      magnitude := magnitude[j := t % 256];
      carry := t / 256;
      assert magnitude[..j + 1] == done + [t % 256];
    }
    assert magnitude[..|m|] == magnitude;
    while 0 < carry
      invariant magnitude + CarryBytes(carry) == MulAdd(m, digit)
    {
      CarryStep(carry, magnitude);
      magnitude := magnitude + [carry % 256];
      carry := carry / 256;
    }
  }

  lemma {:induction false} DigitsPush(s: Bytes, k: nat)
    requires k < |s| && InAlphabet(s[..k + 1])
    ensures InAlphabet(s[..k]) && Value58(s[..k + 1]) == Value58(s[..k]) * 58 + Position(s[k], 0).value
  {
    forall i | 0 <= i < k
      ensures Position(s[..k][i], 0).Some?
    {
      assert s[..k][i] == s[..k + 1][i];
    }
    assert s[..k + 1][k] == s[k];
    assert DigitsOf(s[..k + 1]) == DigitsOf(s[..k]) + [Position(s[k], 0).value];
    NumPush(DigitsOf(s[..k]), Position(s[k], 0).value, 58);
  }

  lemma {:induction false} OnesAreZero(n: nat, s: Bytes)
    requires n <= |s| && forall i | 0 <= i < n :: s[i] == ONE
    ensures InAlphabet(s[..n]) && Value58(s[..n]) == 0
  {
    assert Letter(0) == ONE;
    assert Position(ONE, 0) == Some(0);
    assert DigitsOf(s[..n]) == Zeros(n) + [];
    ZerosAddNothing(n, [], 58);
  }

  lemma {:induction false} LittleLength(m: Bytes)
    requires NoHighZero(m)
    ensures (m != [] ==> 0 < Little(m)) && |m| == |Rep(Little(m), 256)|
    decreases |m|
  {
    if m != [] {
      LittleLength(m[1..]);
      assert Little(m) / 256 == Little(m[1..]);
    }
  }

  /** One more character: the magnitude stays the value read so far, with no high zero byte. */
  lemma {:induction false} MagnitudePush(s: Bytes, k: nat, magnitude: Bytes)
    requires k < |s| && InAlphabet(s[..k]) && Position(s[k], 0).Some?
    requires Little(magnitude) == Value58(s[..k]) && NoHighZero(magnitude)
    ensures var next := MulAdd(magnitude, Position(s[k], 0).value);
            InAlphabet(s[..k + 1]) && Little(next) == Value58(s[..k + 1]) && NoHighZero(next)
  {
    var digit := Position(s[k], 0).value;
    assert forall i | 0 <= i < k :: s[..k + 1][i] == s[..k][i];
    DigitsPush(s, k);
    MulAddValue(magnitude, digit);
    MulAddShape(magnitude, digit);
  }

  /** The number of bytes a base58 string decodes to, `None` outside the alphabet. */
  method DecodedLen(s: Bytes) returns (len: Option<nat>)
    ensures len == DecodedLength(s)
  {
    var zeros := Leading(s, ONE);
    var magnitude: Bytes := [];
    OnesAreZero(zeros, s);
    for k := zeros to |s|
      invariant InAlphabet(s[..k]) && Little(magnitude) == Value58(s[..k]) && NoHighZero(magnitude)
    {
      var digit := Position(s[k], 0);
      if digit == None {
        return None;
      }
      MagnitudePush(s, k, magnitude);
      magnitude := MulAddInPlace(magnitude, digit.value);
    }
    assert s[..|s|] == s;
    LittleLength(magnitude);
    len := Some(zeros + |magnitude|);
  }

  /** 32 to 44 characters that decode to 32 bytes. */
  predicate IsTxDigest(s: Bytes) {
    32 <= |s| <= 44 && DecodedLength(s) == Some(DIGEST_BYTES)
  }

  // ---- Which strings are digests ----

  /** Characters for digits. */
  function Chars(digits: seq<nat>): Bytes
    requires AreDigits(digits, 58)
  {
    seq<u8>(|digits|, i requires 0 <= i < |digits| => Letter(digits[i]))
  }

  function Ones(n: nat): Bytes {
    seq<u8>(n, _ => ONE)
  }

  /** The base58 encoding of a byte string. */
  function Encode58(bytes: Bytes): Bytes {
    RepShape(Num(bytes, 256), 58);
    Ones(Leading(bytes, 0)) + Chars(Rep(Num(bytes, 256), 58))
  }

  /** No character stands for two digits. */
  lemma {:induction false} PositionOf(d: nat)
    requires d < 58
    ensures Position(Letter(d), 0) == Some(d)
  {
    var p := Position(Letter(d), 0);
    assert p.Some? && Letter(p.value) == Letter(d);
  }

  lemma {:induction false} CharsRead(digits: seq<nat>)
    requires AreDigits(digits, 58)
    ensures InAlphabet(Chars(digits)) && DigitsOf(Chars(digits)) == digits
  {
    forall i | 0 <= i < |digits|
      ensures Position(Chars(digits)[i], 0) == Some(digits[i])
    {
      PositionOf(digits[i]);
    }
  }

  lemma {:induction false} DigitsRead(s: Bytes)
    requires InAlphabet(s)
    ensures AreDigits(DigitsOf(s), 58) && Chars(DigitsOf(s)) == s
  {
  }

  lemma {:induction false} LeadingIs(s: Bytes, b: u8, n: nat)
    requires n <= |s| && (forall i | 0 <= i < n :: s[i] == b) && (n < |s| ==> s[n] != b)
    ensures Leading(s, b) == n
  {
    var m := Leading(s, b);
    if m < n {
      assert false;
    }
    if n < m {
      assert false;
    }
  }

  /** Leading zeros cut off. */
  lemma {:induction false} CutZeros(digits: seq<nat>, z: nat, base: nat)
    requires 2 <= base && AreDigits(digits, base)
    requires z <= |digits| && (forall i | 0 <= i < z :: digits[i] == 0) && (z < |digits| ==> digits[z] != 0)
    ensures Num(digits, base) == Num(digits[z..], base) && Rep(Num(digits, base), base) == digits[z..]
  {
    assert digits == Zeros(z) + digits[z..];
    ZerosAddNothing(z, digits[z..], base);
    RepOfNum(digits[z..], base);
  }

  lemma {:induction false} LetterOne(d: nat)
    requires d < 58
    ensures Letter(d) == ONE <==> d == 0
  {
  }

  lemma {:induction false} EncodingReads(bytes: Bytes)
    ensures var s := Encode58(bytes);
            InAlphabet(s) && Value58(s) == Num(bytes, 256) && Leading(s, ONE) == Leading(bytes, 0)
  {
    var (z, digits) := (Leading(bytes, 0), Rep(Num(bytes, 256), 58));
    var s := Encode58(bytes);
    RepShape(Num(bytes, 256), 58);
    assert AreDigits(Zeros(z) + digits, 58);
    LetterOne(0);
    assert s == Chars(Zeros(z) + digits);
    CharsRead(Zeros(z) + digits);
    ZerosAddNothing(z, digits, 58);
    NumOfRep(Num(bytes, 256), 58);
    if digits != [] {
      LetterOne(digits[0]);
      assert s[z] == Letter(digits[0]);
    }
    LeadingIs(s, ONE, z);
  }

  /** The encoding of `n` bytes decodes to `n` bytes. */
  lemma {:induction false} EncodingLength(bytes: Bytes)
    ensures DecodedLength(Encode58(bytes)) == Some(|bytes|)
  {
    var z := Leading(bytes, 0);
    EncodingReads(bytes);
    CutZeros(bytes, z, 256);
    assert |bytes[z..]| == |bytes| - z;
  }

  /** The bytes a base58 string stands for. */
  function Decode58(s: Bytes): (bytes: Bytes)
    requires InAlphabet(s)
    ensures Some(|bytes|) == DecodedLength(s)
  {
    RepShape(Value58(s), 256);
    Zeros(Leading(s, ONE)) + Rep(Value58(s), 256)
  }

  lemma {:induction false} LetterOnes(s: Bytes, z: nat)
    requires InAlphabet(s) && z == Leading(s, ONE)
    ensures forall i | 0 <= i < z :: DigitsOf(s)[i] == 0
    ensures z < |s| ==> DigitsOf(s)[z] != 0
  {
    forall i | 0 <= i < |s|
      ensures DigitsOf(s)[i] == 0 <==> s[i] == ONE
    {
      LetterOne(DigitsOf(s)[i]);
    }
  }

  lemma {:induction false} DecodingReads(s: Bytes)
    requires InAlphabet(s)
    ensures Num(Decode58(s), 256) == Value58(s) && Leading(Decode58(s), 0) == Leading(s, ONE)
  {
    var (z, rest) := (Leading(s, ONE), Rep(Value58(s), 256));
    RepShape(Value58(s), 256);
    LeadingIs(Decode58(s), 0, z);
    ZerosAddNothing(z, rest, 256);
    NumOfRep(Value58(s), 256);
  }

  lemma {:induction false} CharsTail(digits: seq<nat>, z: nat)
    requires AreDigits(digits, 58) && z <= |digits|
    ensures AreDigits(digits[z..], 58) && Chars(digits[z..]) == Chars(digits)[z..]
  {
  }

  /** A base58 string is its leading ones and the digits of its value. */
  lemma {:induction false} StringReads(s: Bytes)
    requires InAlphabet(s)
    ensures AreDigits(Rep(Value58(s), 58), 58) && s == Ones(Leading(s, ONE)) + Chars(Rep(Value58(s), 58))
  {
    var z := Leading(s, ONE);
    DigitsRead(s);
    LetterOnes(s, z);
    CutZeros(DigitsOf(s), z, 58);
    CharsTail(DigitsOf(s), z);
    assert Ones(z) == s[..z];
  }

  /** Encoding the bytes a string stands for gives the string. */
  lemma {:induction false} DecodingEncodes(s: Bytes)
    requires InAlphabet(s)
    ensures Encode58(Decode58(s)) == s
  {
    DecodingReads(s);
    StringReads(s);
  }

  /** The loop's length is exact: `n` bytes, for exactly the encodings of `n`-byte strings. */
  lemma {:induction false} DecodedLengthExactly(s: Bytes, n: nat)
    ensures DecodedLength(s) == Some(n) <==> exists bytes: Bytes :: |bytes| == n && Encode58(bytes) == s
  {
    if DecodedLength(s) == Some(n) {
      DecodingEncodes(s);
      assert |Decode58(s)| == n && Encode58(Decode58(s)) == s;
    }
    if bytes: Bytes :| |bytes| == n && Encode58(bytes) == s {
      EncodingLength(bytes);
    }
  }

  const TWO_TO_64: nat := 0x1_0000_0000_0000_0000
  const FIFTY_EIGHT_TO_11: nat := 24986644000165537792

  lemma {:induction false} Pow256()
    ensures Pow(256, 32) == TWO_TO_64 * TWO_TO_64 * TWO_TO_64 * TWO_TO_64
  {
    assert Pow(256, 2) == 0x1_0000;
    PowSum(256, 2, 2);
    PowSum(256, 4, 4);
    PowSum(256, 8, 8);
    PowSum(256, 16, 16);
  }

  lemma {:induction false} Pow58()
    ensures Pow(58, 44) == FIFTY_EIGHT_TO_11 * FIFTY_EIGHT_TO_11 * FIFTY_EIGHT_TO_11 * FIFTY_EIGHT_TO_11
  {
    assert Pow(58, 2) == 3364;
    PowSum(58, 2, 1);
    PowSum(58, 2, 3);
    PowSum(58, 3, 3);
    PowSum(58, 5, 6);
    PowSum(58, 11, 11);
    PowSum(58, 22, 22);
  }

  /** 2^256 is below 58^44. */
  lemma {:induction false} ThirtyTwoBytes()
    ensures Pow(256, 32) <= Pow(58, 44)
  {
    Pow256();
    Pow58();
  }

  lemma {:induction false} OneLess(p: nat, q: nat)
    requires 256 * p <= 58 * q
    ensures p <= q
  {
  }

  /** `k` bytes need at most `k + 12` base58 digits, up to 32 bytes. */
  lemma {:induction false} DigitsForBytes(k: nat)
    requires k <= 32
    ensures Pow(256, k) <= Pow(58, k + 12)
    decreases 32 - k
  {
    if k == 32 {
      ThirtyTwoBytes();
    } else {
      DigitsForBytes(k + 1);
      OneLess(Pow(256, k), Pow(58, k + 12));
    }
  }

  /** A 32-byte value encodes to 32 to 44 characters. */
  lemma {:induction false} EncodingIsShort(bytes: Bytes)
    requires |bytes| == DIGEST_BYTES
    ensures 32 <= |Encode58(bytes)| <= 44
  {
    var z := Leading(bytes, 0);
    var n := Num(bytes, 256);
    CutZeros(bytes, z, 256);
    NumBelow(bytes[z..], 256);
    DigitsForBytes(32 - z);
    RepAtMost(n, 58, 44 - z);
    LargerBaseIsShorter(n, 58, 256);
  }

  /**
   The digest test holds for exactly the base58 encodings of 32 bytes; its length bounds never refuse one, and
   never decide.
   */
  lemma {:induction false} TxDigestExactly(s: Bytes)
    ensures IsTxDigest(s) <==> exists bytes: Bytes :: |bytes| == DIGEST_BYTES && Encode58(bytes) == s
    ensures IsTxDigest(s) <==> DecodedLength(s) == Some(DIGEST_BYTES)
  {
    DecodedLengthExactly(s, DIGEST_BYTES);
    if bytes: Bytes :| |bytes| == DIGEST_BYTES && Encode58(bytes) == s {
      EncodingIsShort(bytes);
    }
  }

  // ---- The alphabet ----

  predicate IsAlphanumeric(c: char) {
    '0' <= c <= '9' || 'A' <= c <= 'Z' || 'a' <= c <= 'z'
  }

  /** The letters are the ASCII letters and digits without `0`, `O`, `I` and `l`, in ascending order. */
  lemma {:induction false} Alphabet(b: u8, d: nat, e: nat)
    ensures (exists i: nat :: i < 58 && Letter(i) == b) <==> IsAlphanumeric(b as char) && b as char !in "0OIl"
    ensures d < e < 58 ==> Letter(d) < Letter(e)
  {
    var i: int := if b < 58 then b - 49 else if b < 73 then b - 56 else if b < 79 then b - 57
      else if b < 91 then b - 58 else if b < 108 then b - 64 else b - 65;
    if IsAlphanumeric(b as char) && b as char !in "0OIl" {
      assert Letter(i) == b;
    }
  }
}
