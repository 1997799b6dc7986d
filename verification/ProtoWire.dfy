/**
 The hand-written protobuf wire codec: base-128 varints and length-delimited fields, written by appending to a
 buffer and read by moving a cursor.
 */
module ProtoWire {
  import opened Positional
  import opened Words

  // ---- Encoding ----

  /** Seven bits a byte, least significant first, the high bit set on all but the last. */
  function Varint(n: nat): (bytes: Bytes)
    ensures bytes != []
    decreases n
  {
    if n < 128 then [n] else [n % 128 + 128] + Varint(n / 128)
  }

  type Eight = s: Bytes | |s| == 8 witness [0, 0, 0, 0, 0, 0, 0, 0]
  type Four = s: Bytes | |s| == 4 witness [0, 0, 0, 0]

  /** A field as it is put on the wire. The gateway writes the first two; a node's answers also hold the others. */
  datatype Written =
    | Uint(field: u32, value: u64)
    | Delimited(field: u32, data: Bytes)
    | EightBytes(field: u32, eight: Eight)
    | FourBytes(field: u32, four: Four)

  function Encoded(w: Written): Bytes {
    match w
    case Uint(field, value) => Varint(field * 8) + Varint(value)
    case Delimited(field, data) => Varint(field * 8 + 2) + Varint(|data|) + data
    case EightBytes(field, eight) => Varint(field * 8 + 1) + eight
    case FourBytes(field, four) => Varint(field * 8 + 5) + four
  }

  function Encode(ws: seq<Written>): Bytes {
    if ws == [] then [] else Encoded(ws[0]) + Encode(ws[1..])
  }

  class ProtoWriter {
    var buf: Bytes

    constructor ()
      ensures buf == []
    {
      buf := [];
    }

    method PutVarint(value: u64)
      modifies this
      ensures buf == old(buf) + Varint(value)
    {
      var n: nat := value;
      while true
        invariant buf + Varint(n) == old(buf) + Varint(value)
        decreases n
      {
        var b := n % 128;
        assert buf + [b] + Varint(n / 128) == buf + ([b] + Varint(n / 128));
        assert buf + [b + 128] + Varint(n / 128) == buf + ([b + 128] + Varint(n / 128));
        n := n / 128;
        if n != 0 {
          buf := buf + [b + 128];
        } else {
          buf := buf + [b];
          return;
        }
      }
    }

    method PutTag(field: u32, wire: nat)
      requires wire < 8
      modifies this
      ensures buf == old(buf) + Varint(field * 8 + wire)
    {
      PutVarint(field * 8 + wire);
    }

    method BytesField(field: u32, data: Bytes)
      requires |data| <= U64_MAX
      modifies this
      ensures buf == old(buf) + Encoded(Delimited(field, data))
    {
      ghost var (before, key, len) := (buf, Varint(field * 8 + 2), Varint(|data|));
      PutTag(field, 2);
      PutVarint(|data|);
      buf := buf + data;
      assert before + (key + len + data) == before + key + len + data;
    }

    method UintField(field: u32, value: u64)
      modifies this
      ensures buf == old(buf) + Encoded(Uint(field, value))
    {
      ghost var (before, key, number) := (buf, Varint(field * 8), Varint(value));
      PutTag(field, 0);
      PutVarint(value);
      assert before + (key + number) == before + key + number;
    }
  }

  // ---- Decoding ----

  datatype Field =
    | VarintField(num: u32, value: u64)
    | Len(num: u32, data: Bytes)
    | Fixed64
    | Fixed32

  /** Seven payload bits moved to bit `shift` of a 64-bit word; what passes bit 63 is lost. */
  function Shifted(bits: nat, shift: nat): u64
    requires bits < 128
  {
    bits * Pow(2, shift) % 0x1_0000_0000_0000_0000
  }

  /** Bitwise or. */
  function BitOr(a: nat, b: nat): nat
    decreases a + b
  {
    if a == 0 && b == 0 then 0 else 2 * BitOr(a / 2, b / 2) + Max(a % 2, b % 2)
  }

  lemma {:induction false} BitOrBelow(a: nat, b: nat, k: nat)
    requires a < Pow(2, k) && b < Pow(2, k)
    ensures BitOr(a, b) < Pow(2, k)
    decreases k
  {
    if k != 0 {
      BitOrBelow(a / 2, b / 2, k - 1);
    }
  }

  lemma {:induction false} PowersOfTwo()
    ensures Pow(2, 7) == 128 && Pow(2, 64) == 0x1_0000_0000_0000_0000
  {
    assert Pow(2, 4) == 16;
    PowSum(2, 3, 4);
    PowSum(2, 4, 4);
    PowSum(2, 8, 8);
    PowSum(2, 16, 16);
    PowSum(2, 32, 32);
  }

  function Or(a: u64, b: u64): u64 {
    PowersOfTwo();
    BitOrBelow(a, b, 64);
    BitOr(a, b)
  }

  /** The varint at the head of `s` and what follows it; `out` holds the bits below `shift`. */
  function ReadVarint(s: Bytes, shift: nat, out: u64): (r: Option<(u64, Bytes)>)
    ensures r.Some? ==> |r.value.1| < |s|
    decreases |s|
  {
    if s == [] then None
    else
      var merged := Or(out, Shifted(s[0] % 128, shift));
      if s[0] < 128 then Some((merged, s[1..]))
      else if 64 <= shift + 7 then None
      else ReadVarint(s[1..], shift + 7, merged)
  }

  function FieldNumber(key: u64): u32 {
    key / 8 % 0x1_0000_0000
  }

  function VarintBody(num: u32, body: Bytes): Option<(Field, Bytes)> {
    match ReadVarint(body, 0, 0)
    case None => None
    case Some((v, rest)) => Some((VarintField(num, v), rest))
  }

  function LenBody(num: u32, body: Bytes): Option<(Field, Bytes)> {
    match ReadVarint(body, 0, 0)
    case None => None
    case Some((len, rest)) => if |rest| < len then None else Some((Len(num, rest[..len]), rest[len..]))
  }

  function FixedBody(f: Field, width: nat, body: Bytes): Option<(Field, Bytes)> {
    if |body| < width then None else Some((f, body[width..]))
  }

  function FieldBody(key: u64, body: Bytes): Option<(Field, Bytes)> {
    match key % 8
    case 0 => VarintBody(FieldNumber(key), body)
    case 1 => FixedBody(Fixed64, 8, body)
    case 2 => LenBody(FieldNumber(key), body)
    case 5 => FixedBody(Fixed32, 4, body)
    case _ => None
  }

  /** The field at the head of `s` and what follows it. */
  function NextField(s: Bytes): (r: Option<(Field, Bytes)>)
    ensures r.Some? ==> |r.value.1| < |s|
  {
    match ReadVarint(s, 0, 0)
    case None => None
    case Some((key, body)) => FieldBody(key, body)
  }

  /** Every field a cursor over `s` yields; malformed input ends it. */
  function Fields(s: Bytes): seq<Field>
    decreases |s|
  {
    match NextField(s)
    case None => []
    case Some((f, rest)) => [f] + Fields(rest)
  }

  class ProtoReader {
    const buf: Bytes
    var pos: nat

    constructor (bytes: Bytes)
      ensures buf == bytes && Rest() == bytes
    {
      buf := bytes;
      pos := 0;
    }

    /** What the cursor has not passed yet. */
    function Rest(): Bytes
      reads this
    {
      if pos <= |buf| then buf[pos..] else []
    }

    method TakeVarint() returns (r: Option<u64>)
      modifies this
      ensures match ReadVarint(old(Rest()), 0, 0)
              case None => r == None
              case Some((v, rest)) => r == Some(v) && Rest() == rest && pos <= |buf|
    {
      ghost var all := Rest();
      var shift, out: u64 := 0, 0;
      while true
        invariant shift < 64
        invariant ReadVarint(all, 0, 0) == ReadVarint(Rest(), shift, out)
        decreases |Rest()|
      {
        if |buf| <= pos {
          return None;
        }
        var b := buf[pos];
        assert Rest()[1..] == buf[pos + 1..];
        pos := pos + 1;
        out := Or(out, Shifted(b % 128, shift));
        if b < 128 {
          return Some(out);
        }
        shift := shift + 7;
        if 64 <= shift {
          return None;
        }
      }
    }

    /** The body of a varint field. */
    method NextVarint(num: u32) returns (f: Option<Field>)
      modifies this
      ensures match VarintBody(num, old(Rest()))
              case None => f == None
              case Some((field, rest)) => f == Some(field) && Rest() == rest && pos <= |buf|
    {
      var v := TakeVarint();
      f := if v.Some? then Some(VarintField(num, v.value)) else None;
    }

    /** The body of a length-delimited field. */
    method NextLen(num: u32) returns (f: Option<Field>)
      modifies this
      ensures match LenBody(num, old(Rest()))
              case None => f == None
              case Some((field, rest)) => f == Some(field) && Rest() == rest && pos <= |buf|
    {
      var len := TakeVarint();
      if len == None {
        return None;
      }
      var start := pos;
      var end := start + len.value;
      if |buf| < end {
        return None;
      }
      assert buf[start..][..len.value] == buf[start..end];
      assert buf[start..][len.value..] == buf[end..];
      pos := end;
      f := Some(Len(num, buf[start..end]));
    }

    /** The body of a fixed-width field: the cursor only moves past it. */
    method SkipFixed(field: Field, width: nat) returns (f: Option<Field>)
      requires pos <= |buf|
      modifies this
      ensures match FixedBody(field, width, old(Rest()))
              case None => f == None
              case Some((field, rest)) => f == Some(field) && Rest() == rest && pos <= |buf|
    {
      assert pos + width <= |buf| ==> buf[pos..][width..] == buf[pos + width..];
      pos := pos + width;
      f := if |buf| < pos then None else Some(field);
    }

    /** The next field, as long as the input is well formed; the cursor then stands right behind it. */
    method Next() returns (f: Option<Field>)
      modifies this
      ensures match NextField(old(Rest()))
              case None => f == None
              case Some((field, rest)) => f == Some(field) && Rest() == rest && pos <= |buf|
    {
      if |buf| <= pos {
        return None;
      }
      var key := TakeVarint();
      if key == None {
        return None;
      }
      match key.value % 8 {
        case 0 => f := NextVarint(FieldNumber(key.value));
        case 1 => f := SkipFixed(Fixed64, 8);
        case 2 => f := NextLen(FieldNumber(key.value));
        case 5 => f := SkipFixed(Fixed32, 4);
        case _ => f := None;
      }
    }
  }

  // ---- Round trips ----

  /** Disjoint bits: `out` below `shift`, a multiple of 2^shift above. */
  lemma {:induction false} OrIsSum(out: nat, group: nat, shift: nat)
    requires out < Pow(2, shift)
    ensures BitOr(out, group * Pow(2, shift)) == out + group * Pow(2, shift)
    decreases shift
  {
    if shift == 0 {
      OrZero(group);
    } else {
      var half := group * Pow(2, shift - 1);
      assert group * Pow(2, shift) == 2 * half;
      OrIsSum(out / 2, group, shift - 1);
    }
  }

  lemma {:induction false} OrZero(n: nat)
    ensures BitOr(0, n) == n
    decreases n
  {
    if n != 0 {
      OrZero(n / 2);
    }
  }

  lemma {:induction false} Regroup(q: nat, r: nat, p: nat)
    ensures q * (128 * p) + r * p == (128 * q + r) * p
  {
    assert q * (128 * p) == 128 * q * p;
  }

  /** A number is its low group and the groups above it. */
  lemma {:induction false} GroupsAdd(n: nat, shift: nat)
    ensures n / 128 * Pow(2, shift + 7) + n % 128 * Pow(2, shift) == n * Pow(2, shift)
  {
    PowersOfTwo();
    PowSum(2, 7, shift);
    assert Pow(2, 7 + shift) == 128 * Pow(2, shift);
    Regroup(n / 128, n % 128, Pow(2, shift));
    assert n == 128 * (n / 128) + n % 128;
  }

  lemma {:induction false} BelowFactor(n: nat, m: nat, p: nat)
    requires n * p < m * p
    ensures n < m
  {
    if m <= n {
      MulMono(m, n, p);
    }
  }

  lemma {:induction false} RoomUnder(n: nat, m: nat, p: nat, out: nat)
    requires n < m && out < p
    ensures out + n * p < m * p
  {
    MulMono(n + 1, m, p);
    assert (n + 1) * p == n * p + p;
  }

  /** A number below 2^64 / 2^shift still leaves room for the bits below. */
  lemma {:induction false} RoomBelow(n: nat, shift: nat, out: nat)
    requires shift < 64 && n * Pow(2, shift) <= U64_MAX && out < Pow(2, shift)
    ensures out + n * Pow(2, shift) <= U64_MAX
    ensures n < Pow(2, 64 - shift)
  {
    var (p, m) := (Pow(2, shift), Pow(2, 64 - shift));
    PowersOfTwo();
    PowSum(2, 64 - shift, shift);
    BelowFactor(n, m, p);
    RoomUnder(n, m, p, out);
  }

  /** The low group and the bits below it stay under the next group. */
  lemma {:induction false} LowGroup(r: nat, shift: nat, out: nat)
    requires r < 128 && out < Pow(2, shift)
    ensures out + r * Pow(2, shift) < Pow(2, shift + 7)
  {
    var p := Pow(2, shift);
    PowersOfTwo();
    PowSum(2, shift, 7);
    MulMono(r + 1, 128, p);
    assert (r + 1) * p == r * p + p;
  }

  lemma {:induction false} ShiftedFits(bits: nat, shift: nat)
    requires bits < 128 && bits * Pow(2, shift) <= U64_MAX
    ensures Shifted(bits, shift) == bits * Pow(2, shift)
  {
  }

  /** The low group of a number that still fits above `shift` arrives whole. */
  lemma {:induction false} GroupFits(n: nat, shift: nat, out: nat)
    requires shift < 64 && n * Pow(2, shift) <= U64_MAX && out < Pow(2, shift)
    ensures out + n % 128 * Pow(2, shift) <= U64_MAX && out <= U64_MAX
    ensures Or(out, Shifted(n % 128, shift)) == out + n % 128 * Pow(2, shift)
    ensures 128 <= n ==> shift + 7 < 64
  {
    RoomBelow(n, shift, out);
    var r := n % 128;
    MulMono(r, n, Pow(2, shift));
    ShiftedFits(r, shift);
    OrIsSum(out, r, shift);
    LastGroupBelow(n, shift);
  }

  lemma {:induction false} LastGroupBelow(n: nat, shift: nat)
    requires shift < 64 && n < Pow(2, 64 - shift)
    ensures 128 <= n ==> shift + 7 < 64
  {
    if 64 <= shift + 7 {
      SmallRoom(shift);
    }
  }

  lemma {:induction false} SmallRoom(shift: nat)
    requires 57 <= shift < 64
    ensures Pow(2, 64 - shift) <= 128
  {
    assert Pow(2, 1) == 2 && Pow(2, 2) == 4 && Pow(2, 3) == 8 && Pow(2, 4) == 16 && Pow(2, 5) == 32 && Pow(2, 6) == 64 && Pow(2, 7) == 128;
  }

  lemma {:induction false} ReadsLastGroup(n: nat, rest: Bytes, shift: nat, out: nat)
    requires shift < 64 && n < 128 && n * Pow(2, shift) <= U64_MAX && out < Pow(2, shift) && out <= U64_MAX
    ensures out + n * Pow(2, shift) <= U64_MAX
    ensures ReadVarint(Varint(n) + rest, shift, out) == Some((out + n * Pow(2, shift), rest))
  {
    GroupFits(n, shift, out);
    assert n % 128 == n;
    EndsHere(Varint(n) + rest, shift, out);
    assert (Varint(n) + rest)[1..] == rest;
  }

  lemma {:induction false} EndsHere(s: Bytes, shift: nat, out: u64)
    requires s != [] && s[0] < 128
    ensures ReadVarint(s, shift, out) == Some((Or(out, Shifted(s[0], shift)), s[1..]))
  {
  }

  lemma {:induction false} VarintHead(n: nat, rest: Bytes)
    requires 128 <= n
    ensures var s := Varint(n) + rest;
            s[0] == n % 128 + 128 && s[0] % 128 == n % 128 && s[1..] == Varint(n / 128) + rest
  {
    assert (Varint(n) + rest)[1..] == Varint(n / 128) + rest;
  }

  lemma {:induction false} ReadsOn(s: Bytes, shift: nat, out: u64)
    requires s != [] && 128 <= s[0] && shift + 7 < 64
    ensures ReadVarint(s, shift, out) == ReadVarint(s[1..], shift + 7, Or(out, Shifted(s[0] % 128, shift)))
  {
  }

  lemma {:induction false} ReadsGroup(n: nat, rest: Bytes, shift: nat, out: u64) returns (next: u64)
    requires shift < 64 && 128 <= n && n * Pow(2, shift) <= U64_MAX && out < Pow(2, shift)
    ensures next == out + n % 128 * Pow(2, shift)
    ensures ReadVarint(Varint(n) + rest, shift, out) == ReadVarint(Varint(n / 128) + rest, shift + 7, next)
  {
    GroupFits(n, shift, out);
    VarintHead(n, rest);
    ReadsOn(Varint(n) + rest, shift, out);
    next := Or(out, Shifted(n % 128, shift));
  }

  /** `out` and the number `n` above it make up `total`. */
  predicate MakesUp(n: nat, shift: nat, out: nat, total: nat) {
    shift < 64 && out < Pow(2, shift) && out + n * Pow(2, shift) == total <= U64_MAX
  }

  /** Taking the low group off leaves the same sum. */
  lemma {:induction false} NextGroup(n: nat, shift: nat, out: nat, total: nat, next: nat)
    requires 128 <= n && MakesUp(n, shift, out, total) && next == out + n % 128 * Pow(2, shift)
    ensures MakesUp(n / 128, shift + 7, next, total)
  {
    GroupFits(n, shift, out);
    GroupsAdd(n, shift);
    LowGroup(n % 128, shift, out);
  }

  lemma {:induction false} ReadsVarintAbove(n: nat, rest: Bytes, shift: nat, out: u64, total: u64)
    requires MakesUp(n, shift, out, total)
    ensures ReadVarint(Varint(n) + rest, shift, out) == Some((total, rest))
    decreases n
  {
    if n < 128 {
      ReadsLastGroup(n, rest, shift, out);
    } else {
      var next := ReadsGroup(n, rest, shift, out);
      NextGroup(n, shift, out, total, next);
      ReadsVarintAbove(n / 128, rest, shift + 7, next, total);
    }
  }

  /** A written varint reads back whatever follows it, for every 64-bit value. */
  lemma {:induction false} ReadsVarint(n: u64, rest: Bytes)
    ensures ReadVarint(Varint(n) + rest, 0, 0) == Some((n, rest))
  {
    ReadsVarintAbove(n, rest, 0, 0, n);
  }

  function FieldOf(w: Written): Field {
    match w
    case Uint(field, value) => VarintField(field, value)
    case Delimited(field, data) => Len(field, data)
    case EightBytes(_, _) => Fixed64
    case FourBytes(_, _) => Fixed32
  }

  function FieldsOf(ws: seq<Written>): seq<Field> {
    if ws == [] then [] else [FieldOf(ws[0])] + FieldsOf(ws[1..])
  }

  /** Every length fits the 64-bit prefix it is written with. */
  predicate Writable(ws: seq<Written>) {
    forall w | w in ws && w.Delimited? :: |w.data| <= U64_MAX
  }

  lemma {:induction false} KeyParts(field: u32, wire: nat)
    requires wire < 8
    ensures (field * 8 + wire) % 8 == wire && FieldNumber(field * 8 + wire) == field
  {
  }

  /** A written key selects the body by its wire type. */
  lemma {:induction false} ReadsKey(field: u32, wire: nat, body: Bytes)
    requires wire < 8
    ensures NextField(Varint(field * 8 + wire) + body) == FieldBody(field * 8 + wire, body)
  {
    ReadsVarint(field * 8 + wire, body);
  }

  lemma {:induction false} ReadsUint(field: u32, value: u64, rest: Bytes)
    ensures NextField(Varint(field * 8) + (Varint(value) + rest)) == Some((VarintField(field, value), rest))
  {
    ReadsKey(field, 0, Varint(value) + rest);
    KeyParts(field, 0);
    ReadsVarint(value, rest);
  }

  lemma {:induction false} LenReads(field: u32, data: Bytes, rest: Bytes)
    requires |data| <= U64_MAX
    ensures LenBody(field, Varint(|data|) + (data + rest)) == Some((Len(field, data), rest))
  {
    var tail := data + rest;
    ReadsVarint(|data|, tail);
    assert tail[..|data|] == data && tail[|data|..] == rest;
  }

  lemma {:induction false} ReadsDelimited(field: u32, data: Bytes, rest: Bytes)
    requires |data| <= U64_MAX
    ensures NextField(Varint(field * 8 + 2) + (Varint(|data|) + (data + rest))) == Some((Len(field, data), rest))
  {
    ReadsKey(field, 2, Varint(|data|) + (data + rest));
    KeyParts(field, 2);
    LenReads(field, data, rest);
  }

  lemma {:induction false} ReadsFixed(field: u32, wire: nat, f: Field, bits: Bytes, rest: Bytes)
    requires (wire == 1 && f == Fixed64 && |bits| == 8) || (wire == 5 && f == Fixed32 && |bits| == 4)
    ensures NextField(Varint(field * 8 + wire) + (bits + rest)) == Some((f, rest))
  {
    ReadsKey(field, wire, bits + rest);
    KeyParts(field, wire);
    assert (bits + rest)[|bits|..] == rest;
  }

  lemma {:induction false} ReadsFixedField(w: Written, rest: Bytes)
    requires w.EightBytes? || w.FourBytes?
    ensures NextField(Encoded(w) + rest) == Some((FieldOf(w), rest))
  {
    var (wire, bits) := if w.EightBytes? then (1, w.eight) else (5, w.four);
    assert Encoded(w) + rest == Varint(w.field * 8 + wire) + (bits + rest);
    ReadsFixed(w.field, wire, FieldOf(w), bits, rest);
  }

  lemma {:induction false} ReadsField(w: Written, rest: Bytes)
    requires w.Delimited? ==> |w.data| <= U64_MAX
    ensures NextField(Encoded(w) + rest) == Some((FieldOf(w), rest))
  {
    match w
    case Uint(field, value) =>
      assert Encoded(w) + rest == Varint(field * 8) + (Varint(value) + rest);
      ReadsUint(field, value, rest);
    case Delimited(field, data) =>
      assert Encoded(w) + rest == Varint(field * 8 + 2) + (Varint(|data|) + (data + rest));
      ReadsDelimited(field, data, rest);
    case _ => ReadsFixedField(w, rest);
  }

  lemma {:induction false} ReadsHead(s: Bytes, f: Field, rest: Bytes)
    requires NextField(s) == Some((f, rest))
    ensures Fields(s) == [f] + Fields(rest)
  {
  }

  /** Written fields read back in order, and what follows them reads as it would alone. */
  lemma {:induction false} ReadsBack(ws: seq<Written>, rest: Bytes)
    requires Writable(ws)
    ensures Fields(Encode(ws) + rest) == FieldsOf(ws) + Fields(rest)
    decreases |ws|
  {
    if ws == [] {
      assert Encode(ws) + rest == rest;
      assert FieldsOf(ws) + Fields(rest) == Fields(rest);
    } else {
      var tail := Encode(ws[1..]) + rest;
      assert Encode(ws) + rest == Encoded(ws[0]) + tail;
      assert ws[0] in ws && forall w | w in ws[1..] :: w in ws;
      ReadsField(ws[0], tail);
      ReadsHead(Encode(ws) + rest, FieldOf(ws[0]), tail);
      ReadsBack(ws[1..], rest);
      assert FieldsOf(ws) + Fields(rest) == [FieldOf(ws[0])] + (FieldsOf(ws[1..]) + Fields(rest));
    }
  }

  predicate SliceAt(data: Bytes, s: Bytes, i: nat) {
    i + |data| <= |s| && data == s[i..i + |data|]
  }

  ghost predicate IsSlice(data: Bytes, s: Bytes) {
    exists i: nat :: SliceAt(data, s, i)
  }

  predicate IsSuffix(rest: Bytes, s: Bytes) {
    |rest| <= |s| && rest == s[|s| - |rest|..]
  }

  lemma {:induction false} SliceOfSuffix(data: Bytes, rest: Bytes, s: Bytes)
    requires IsSlice(data, rest) && IsSuffix(rest, s)
    ensures IsSlice(data, s)
  {
    var i: nat :| SliceAt(data, rest, i);
    assert SliceAt(data, s, |s| - |rest| + i);
  }

  lemma {:induction false} VarintLeavesSuffix(s: Bytes, shift: nat, out: u64)
    ensures var r := ReadVarint(s, shift, out); r.Some? ==> IsSuffix(r.value.1, s)
    decreases |s|
  {
    if s != [] && 128 <= s[0] && shift + 7 < 64 {
      VarintLeavesSuffix(s[1..], shift + 7, Or(out, Shifted(s[0] % 128, shift)));
    }
  }

  lemma {:induction false} SuffixTransitive(a: Bytes, b: Bytes, c: Bytes)
    requires IsSuffix(a, b) && IsSuffix(b, c)
    ensures IsSuffix(a, c)
  {
  }

  lemma {:induction false} LenLeavesSuffix(num: u32, body: Bytes)
    requires LenBody(num, body).Some?
    ensures IsSuffix(LenBody(num, body).value.1, body) && IsSlice(LenBody(num, body).value.0.data, body)
  {
    VarintLeavesSuffix(body, 0, 0);
    var (len, tail) := ReadVarint(body, 0, 0).value;
    assert IsSuffix(tail[len..], tail);
    SuffixTransitive(tail[len..], tail, body);
    assert SliceAt(tail[..len], tail, 0);
    SliceOfSuffix(tail[..len], tail, body);
  }

  lemma {:induction false} BodyLeavesSuffix(key: u64, body: Bytes)
    requires FieldBody(key, body).Some?
    ensures IsSuffix(FieldBody(key, body).value.1, body)
    ensures FieldBody(key, body).value.0.Len? ==> IsSlice(FieldBody(key, body).value.0.data, body)
  {
    match key % 8
    case 0 => VarintLeavesSuffix(body, 0, 0);
    case 2 => LenLeavesSuffix(FieldNumber(key), body);
    case _ =>
  }

  lemma {:induction false} FieldLeavesSuffix(s: Bytes)
    requires NextField(s).Some?
    ensures IsSuffix(NextField(s).value.1, s)
    ensures NextField(s).value.0.Len? ==> IsSlice(NextField(s).value.0.data, s)
  {
    VarintLeavesSuffix(s, 0, 0);
    var (key, body) := ReadVarint(s, 0, 0).value;
    BodyLeavesSuffix(key, body);
    var (f, rest) := FieldBody(key, body).value;
    SuffixTransitive(rest, body, s);
    if f.Len? {
      SliceOfSuffix(f.data, body, s);
    }
  }

  /** On any input the cursor yields no more fields than bytes, each inside the input. */
  lemma {:induction false} FieldsInBounds(s: Bytes)
    ensures |Fields(s)| <= |s|
    ensures forall f | f in Fields(s) && f.Len? :: IsSlice(f.data, s)
    decreases |s|
  {
    if NextField(s).Some? {
      var (f, rest) := NextField(s).value;
      ReadsHead(s, f, rest);
      FieldLeavesSuffix(s);
      FieldsInBounds(rest);
      forall g | g in Fields(s) && g.Len?
        ensures IsSlice(g.data, s)
      {
        if g != f {
          assert g in Fields(rest);
          SliceOfSuffix(g.data, rest, s);
        }
      }
    }
  }

  // ---- Lookups ----

  function FirstLen(fields: seq<Field>, num: u32): Option<Bytes> {
    if fields == [] then None
    else if fields[0].Len? && fields[0].num == num then Some(fields[0].data)
    else FirstLen(fields[1..], num)
  }

  /** The first length-delimited field `num` of a message. */
  function FieldBytes(msg: Bytes, num: u32): Option<Bytes> {
    FirstLen(Fields(msg), num)
  }

  /** What the writer put down as the only message: no trailing bytes. */
  lemma {:induction false} ReadsBackExactly(ws: seq<Written>)
    requires Writable(ws)
    ensures Fields(Encode(ws)) == FieldsOf(ws)
  {
    ReadsBack(ws, []);
    assert Encode(ws) + [] == Encode(ws);
    assert FieldsOf(ws) + Fields([]) == FieldsOf(ws);
  }
}
