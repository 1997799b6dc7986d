/** What the wire codec puts on the wire, byte by byte: the Protocol Buffers encoding. */
module WireFormat {
  import opened AsciiText
  import opened Positional
  import opened ProtoWire
  import opened Values
  import opened Words

  // ---- Base-128 varints ----

  /** Seven bits a byte, the least significant first. */
  function SevenBits(bytes: Bytes): nat {
    if bytes == [] then 0 else bytes[0] % 128 + 128 * SevenBits(bytes[1..])
  }

  /** The high bit is set on all bytes but the last, and the last is no padding. */
  predicate IsVarintOf(bytes: Bytes, n: nat) {
    && bytes != [] && (forall i | 0 <= i < |bytes| - 1 :: 128 <= bytes[i]) && bytes[|bytes| - 1] < 128
    && (1 < |bytes| ==> bytes[|bytes| - 1] != 0)
    && SevenBits(bytes) == n
  }

  lemma {:induction false} VarintIsOne(n: nat)
    ensures IsVarintOf(Varint(n), n)
    decreases n
  {
    if 128 <= n {
      VarintIsOne(n / 128);
      OneMoreByte(n % 128 + 128, Varint(n / 128), n / 128);
    } else {
      LastIsValue([n]);
    }
  }

  lemma {:induction false} LastIsValue(bytes: Bytes)
    requires |bytes| == 1 && bytes[0] < 128
    ensures SevenBits(bytes) == bytes[0]
  {
    assert bytes[1..] == [];
  }

  lemma {:induction false} OneMoreByte(head: u8, tail: Bytes, n: nat)
    requires 128 <= head && IsVarintOf(tail, n) && 0 < n
    ensures IsVarintOf([head] + tail, head % 128 + 128 * n)
  {
    var bytes := [head] + tail;
    assert bytes[1..] == tail && bytes[|bytes| - 1] == tail[|tail| - 1];
    forall i | 0 <= i < |bytes| - 1
      ensures 128 <= bytes[i]
    {
      assert 0 < i ==> bytes[i] == tail[i - 1];
    }
    if |tail| == 1 {
      LastIsValue(tail);
    }
  }

  lemma {:induction false} LongIsLarge(bytes: Bytes)
    requires bytes != [] && bytes[|bytes| - 1] % 128 != 0
    ensures 0 < SevenBits(bytes)
    decreases |bytes|
  {
    if 1 < |bytes| {
      LongIsLarge(bytes[1..]);
    }
  }

  lemma {:induction false} OneIsVarint(bytes: Bytes, n: nat)
    requires IsVarintOf(bytes, n)
    ensures bytes == Varint(n)
    decreases |bytes|
  {
    if |bytes| == 1 {
      LastIsValue(bytes);
    } else {
      var tail := bytes[1..];
      assert tail[|tail| - 1] == bytes[|bytes| - 1];
      LongIsLarge(tail);
      OneIsVarint(tail, SevenBits(tail));
      assert n == bytes[0] % 128 + 128 * SevenBits(tail);
      assert bytes == [bytes[0]] + tail;
    }
  }

  /** A number's varint is the only shortest one there is. */
  lemma {:induction false} VarintExactly(bytes: Bytes, n: nat)
    ensures bytes == Varint(n) <==> IsVarintOf(bytes, n)
  {
    VarintIsOne(n);
    if IsVarintOf(bytes, n) {
      OneIsVarint(bytes, n);
    }
  }

  // ---- Reading any varint ----

  /** How many bytes at the head of `s` have the high bit set. */
  function Continued(s: Bytes): (k: nat)
    ensures k <= |s| && (k < |s| ==> s[k] < 128) && forall i | 0 <= i < k :: 128 <= s[i]
  {
    if s == [] || s[0] < 128 then 0 else 1 + Continued(s[1..])
  }

  const WORD: nat := 0x1_0000_0000_0000_0000

  /** What the groups at the head of `s` come to, above the bits of `out`. */
  function Groups(s: Bytes, shift: nat, out: nat): Option<(nat, Bytes)> {
    var k := Continued(s);
    if k < |s| && shift + 7 * k < 64 then Some(((out + SevenBits(s[..k + 1]) * Pow(2, shift)) % WORD, s[k + 1..])) else None
  }

  lemma {:induction false} TopBit()
    ensures 2 * Pow(2, 63) == WORD
  {
    PowersOfTwo();
  }

  lemma {:induction false} SmallGroup(b: nat, shift: nat, out: u64)
    requires b < 128 && shift <= 56 && out < Pow(2, shift)
    ensures Or(out, Shifted(b, shift)) == out + b * Pow(2, shift) < Pow(2, shift + 7)
    ensures out + b * Pow(2, shift) < WORD
  {
    LowGroup(b, shift, out);
    PowGrows(2, shift + 7, 63);
    TopBit();
    ShiftedFits(b, shift);
    OrIsSum(out, b, shift);
  }

  lemma {:induction false} OddBit(b: nat, out: nat, p: nat)
    requires out < p
    ensures b * p % (2 * p) == b % 2 * p && (out + b * p) % (2 * p) == out + b % 2 * p
  {
    var q := b / 2;
    assert b * p == q * (2 * p) + b % 2 * p;
    DivUnique(q, b % 2 * p, 2 * p);
    DivUnique(q, out + b % 2 * p, 2 * p);
  }

  /** Only the lowest bit of the tenth group is left. */
  lemma {:induction false} TenthGroup(b: nat, shift: nat, out: u64)
    requires b < 128 && 2 * Pow(2, shift) == WORD && out < Pow(2, shift)
    ensures Or(out, Shifted(b, shift)) == (out + b * Pow(2, shift)) % WORD
  {
    OddBit(b, out, Pow(2, shift));
    OrIsSum(out, b % 2, shift);
  }

  lemma {:induction false} GroupsStep(s: Bytes, shift: nat, out: nat)
    requires s != [] && 128 <= s[0] && shift + 7 < 64
    ensures Groups(s, shift, out) == Groups(s[1..], shift + 7, out + s[0] % 128 * Pow(2, shift))
  {
    var k := Continued(s[1..]);
    if k < |s[1..]| {
      var (g, p) := (SevenBits(s[1..][..k + 1]), Pow(2, shift));
      assert s[..k + 2][1..] == s[1..][..k + 1];
      PowersOfTwo();
      PowSum(2, shift, 7);
      Regroup(s[0] % 128, g, p);
    }
  }

  lemma {:induction false} Regroup(low: nat, high: nat, p: nat)
    ensures (low + 128 * high) * p == low * p + high * (p * 128)
  {
  }

  lemma {:induction false} SmallRemainder(x: nat, y: nat)
    requires x == y < WORD
    ensures x == y % WORD
  {
  }

  /** One more group of a word that has room for it, or the tenth. */
  lemma {:induction false} OneGroup(b: nat, shift: nat, out: u64)
    requires b < 128 && (shift <= 56 || shift == 63) && out < Pow(2, shift)
    ensures Or(out, Shifted(b, shift)) == (out + b * Pow(2, shift)) % WORD
  {
    if shift <= 56 {
      SmallGroup(b, shift, out);
      SmallRemainder(Or(out, Shifted(b, shift)), out + b * Pow(2, shift));
    } else {
      TopBit();
      TenthGroup(b, shift, out);
    }
  }

  lemma {:induction false} GroupsEnd(s: Bytes, shift: nat, out: nat)
    requires s != [] && s[0] < 128 && shift < 64
    ensures Groups(s, shift, out) == Some(((out + s[0] * Pow(2, shift)) % WORD, s[1..]))
  {
    LastIsValue(s[..1]);
  }

  lemma {:induction false} LastGroup(s: Bytes, shift: nat, out: u64)
    requires s != [] && s[0] < 128 && (shift <= 56 || shift == 63) && out < Pow(2, shift)
    ensures ReadVarint(s, shift, out) == Groups(s, shift, out)
  {
    OneGroup(s[0], shift, out);
    GroupsEnd(s, shift, out);
    EndsHere(s, shift, out);
  }

  lemma {:induction false} NextGroupOn(s: Bytes, shift: nat, out: u64) returns (next: u64)
    requires s != [] && 128 <= s[0] && shift <= 56 && out < Pow(2, shift)
    ensures next < Pow(2, shift + 7)
    ensures ReadVarint(s, shift, out) == ReadVarint(s[1..], shift + 7, next)
    ensures Groups(s, shift, out) == Groups(s[1..], shift + 7, next)
  {
    SmallGroup(s[0] % 128, shift, out);
    GroupsStep(s, shift, out);
    ReadsOn(s, shift, out);
    next := Or(out, Shifted(s[0] % 128, shift));
  }

  lemma {:induction false} ReadsGroups(s: Bytes, shift: nat, out: u64)
    requires shift % 7 == 0 && shift < 64 && out < Pow(2, shift)
    ensures ReadVarint(s, shift, out) == Groups(s, shift, out)
    decreases |s|
  {
    if s != [] && s[0] < 128 {
      LastGroup(s, shift, out);
    } else if s != [] && shift <= 56 {
      var next := NextGroupOn(s, shift, out);
      ReadsGroups(s[1..], shift + 7, next);
    }
  }

  /**
   Reading a varint from any bytes, written shortest or not: at most ten groups, the last of them without the high
   bit, make the number modulo 2^64; without such an end it is no number.
   */
  lemma {:induction false} ReadsAnyVarint(s: Bytes)
    ensures var k := Continued(s);
            ReadVarint(s, 0, 0) == if k < |s| && k < 10 then Some((SevenBits(s[..k + 1]) % WORD, s[k + 1..])) else None
  {
    ReadsGroups(s, 0, 0);
  }

  // ---- Fields ----

  lemma {:induction false} ShortVarint(n: nat)
    requires n < 128
    ensures Varint(n) == [n]
  {
  }

  lemma {:induction false} TwoByteVarint(n: nat)
    requires 128 <= n < 16384
    ensures Varint(n) == [n % 128 + 128, n / 128]
  {
    ShortVarint(n / 128);
  }

  /** A field of a number below 16 and a short payload: its key is the number and the wire type in one byte. */
  lemma {:induction false} ShortUint(field: u32, value: u64)
    requires field < 16 && value < 128
    ensures Encoded(Uint(field, value)) == [field * 8, value]
  {
    ShortVarint(field * 8);
    ShortVarint(value);
  }

  lemma {:induction false} ShortDelimited(field: u32, data: Bytes)
    requires field < 16 && |data| < 128
    ensures Encoded(Delimited(field, data)) == [field * 8 + 2, |data|] + data
  {
    ShortVarint(field * 8 + 2);
    ShortVarint(|data|);
  }

  lemma {:induction false} ShortFixed(field: u32, eight: Eight, four: Four)
    requires field < 16
    ensures Encoded(EightBytes(field, eight)) == [field * 8 + 1] + eight
    ensures Encoded(FourBytes(field, four)) == [field * 8 + 5] + four
  {
    ShortVarint(field * 8 + 1);
    ShortVarint(field * 8 + 5);
  }

  /** The number 150 in field 1, and the text "testing" in field 2. */
  lemma {:induction false} KnownFields()
    ensures Encoded(Uint(1, 150)) == [0x08, 0x96, 0x01]
    ensures Encoded(Delimited(2, Ascii("testing"))) == [0x12, 0x07] + Ascii("testing")
  {
    ShortVarint(1 * 8);
    TwoByteVarint(150);
    ShortVarint(2 * 8 + 2);
    ShortVarint(7);
  }

  /** Input that is no field ends the reading: a cut key, a wire type of no use here, a value or payload cut short. */
  lemma {:induction false} MalformedEnds(s: Bytes)
    requires match ReadVarint(s, 0, 0)
             case None => true
             case Some((key, body)) =>
               || key % 8 in {3, 4, 6, 7}
               || (key % 8 == 1 && |body| < 8) || (key % 8 == 5 && |body| < 4)
               || (key % 8 in {0, 2} && ReadVarint(body, 0, 0) == None)
               || (key % 8 == 2 && |ReadVarint(body, 0, 0).value.1| < ReadVarint(body, 0, 0).value.0)
    ensures Fields(s) == []
  {
  }

  // ---- Values ----

  lemma {:induction false} OneEncoded(w: Written)
    ensures Encode([w]) == Encoded(w)
  {
    assert [w][1..] == [];
  }

  lemma {:induction false} TwoEncoded(a: Written, b: Written)
    ensures Encode([a, b]) == Encoded(a) + Encoded(b)
  {
    assert [a, b][1..] == [b];
    OneEncoded(b);
  }

  /** Short values, each in the field its kind has in `google.protobuf.Value`. */
  lemma {:induction false} ShortValues(text: Bytes, flag: bool, number: Eight)
    requires |text| < 128
    ensures EncodeValue(NullValue) == [0x08, 0]
    ensures EncodeValue(NumberValue(number)) == [0x11] + number
    ensures EncodeValue(StringValue(text)) == [0x1A, |text|] + text
    ensures EncodeValue(BoolValue(flag)) == [0x20, if flag then 1 else 0]
  {
    OneEncoded(ValueWritten(NullValue));
    OneEncoded(ValueWritten(NumberValue(number)));
    OneEncoded(ValueWritten(StringValue(text)));
    OneEncoded(ValueWritten(BoolValue(flag)));
    ShortUint(1, 0);
    ShortFixed(2, number, [0, 0, 0, 0]);
    ShortDelimited(3, text);
    ShortUint(4, if flag then 1 else 0);
  }

  /** An entry's name and value are its fields 1 and 2. */
  lemma {:induction false} ShortEntry(e: Entry)
    requires |e.name| < 128 && |EncodeValue(e.value)| < 128
    ensures EncodeEntry(e) == [0x0A, |e.name|] + e.name + ([0x12, |EncodeValue(e.value)|] + EncodeValue(e.value))
  {
    TwoEncoded(Delimited(1, e.name), Delimited(2, EncodeValue(e.value)));
    ShortDelimited(1, e.name);
    ShortDelimited(2, EncodeValue(e.value));
  }

  lemma {:induction false} OneEntryWritten(e: Entry)
    requires |EncodeEntry(e)| < 128
    ensures Encode(EntriesWritten([e])) == [0x0A, |EncodeEntry(e)|] + EncodeEntry(e)
  {
    assert [e][1..] == [] && EntriesWritten([e]) == [Delimited(1, EncodeEntry(e))];
    OneEncoded(Delimited(1, EncodeEntry(e)));
    ShortDelimited(1, EncodeEntry(e));
  }

  /** A struct of one short entry: field 1 of field 5. */
  lemma {:induction false} ShortStruct(e: Entry)
    requires |EncodeEntry(e)| + 2 < 128
    ensures EncodeValue(StructValue([e])) == [0x2A, |EncodeEntry(e)| + 2] + ([0x0A, |EncodeEntry(e)|] + EncodeEntry(e))
  {
    OneEntryWritten(e);
    OneEncoded(ValueWritten(StructValue([e])));
    ShortDelimited(5, Encode(EntriesWritten([e])));
  }

  lemma {:induction false} OneItemWritten(item: Value)
    requires |EncodeValue(item)| < 128
    ensures Encode(ItemsWritten([item])) == [0x0A, |EncodeValue(item)|] + EncodeValue(item)
  {
    assert [item][1..] == [] && ItemsWritten([item]) == [Delimited(1, EncodeValue(item))];
    OneEncoded(Delimited(1, EncodeValue(item)));
    ShortDelimited(1, EncodeValue(item));
  }

  /** A list of one short item: field 1 of field 6. */
  lemma {:induction false} ShortList(item: Value)
    requires |EncodeValue(item)| + 2 < 128
    ensures EncodeValue(ListValue([item])) == [0x32, |EncodeValue(item)| + 2] + ([0x0A, |EncodeValue(item)|] + EncodeValue(item))
  {
    OneItemWritten(item);
    OneEncoded(ValueWritten(ListValue([item])));
    ShortDelimited(6, Encode(ItemsWritten([item])));
  }
}
