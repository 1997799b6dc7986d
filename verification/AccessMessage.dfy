/** The message a wallet signs to answer a challenge, and the bytes its signature is over. */
module AccessMessage {
  import opened AsciiText
  import opened Words
  import opened Base58
  import opened ProtoWire

  const VERSION: Bytes := Ascii("nft-gate:access:v2")
  const LOCALNET: Bytes := Ascii("localnet")
  const DEVNET: Bytes := Ascii("devnet")
  const TESTNET: Bytes := Ascii("testnet")
  const MAINNET: Bytes := Ascii("mainnet")

  const NEWLINE: u8 := 10

  /** Everything the signed message binds. */
  datatype Context = Context(origin: Bytes, gateId: Bytes, network: Bytes, nonce: Bytes, consumeDigest: Option<Bytes>)

  datatype MessageError = BadGateId | UnknownNetwork | BadNonce | BadDigest | BadOrigin

  predicate IsDigit(b: u8) {
    48 <= b < 58
  }

  predicate IsLetter(b: u8) {
    65 <= b < 91 || 97 <= b < 123
  }

  /** 1 to 128 letters, digits, dots, underscores, tildes and dashes. */
  predicate IsNonce(s: Bytes) {
    1 <= |s| <= 128
    && forall i | 0 <= i < |s| :: IsDigit(s[i]) || IsLetter(s[i]) || s[i] == 46 || s[i] == 95 || s[i] == 126 || s[i] == 45
  }

  /** `0x` and exactly 64 lower-case hex digits. */
  predicate IsCanonicalId(s: Bytes) {
    |s| == 66 && s[0] == 48 && s[1] == 120 && forall i | 2 <= i < 66 :: IsDigit(s[i]) || 97 <= s[i] < 103
  }

  predicate IsNetwork(s: Bytes) {
    s == LOCALNET || s == DEVNET || s == TESTNET || s == MAINNET
  }

  /** Not empty, ASCII, nothing up to the space. */
  predicate IsOrigin(s: Bytes) {
    s != [] && forall i | 0 <= i < |s| :: 32 < s[i] < 128
  }

  function JoinLines(lines: seq<Bytes>): Bytes
    requires lines != []
  {
    if |lines| == 1 then lines[0] else lines[0] + [NEWLINE] + JoinLines(lines[1..])
  }

  const ORIGIN_LABEL: Bytes := Ascii("origin:")
  const GATE_LABEL: Bytes := Ascii("gate:")
  const NETWORK_LABEL: Bytes := Ascii("network:")
  const NONCE_LABEL: Bytes := Ascii("nonce:")
  const CONSUME_LABEL: Bytes := Ascii("consume:")

  /** One `key:value` line each; the consume line only in single-use mode. */
  function ContextLines(ctx: Context): seq<Bytes> {
    [VERSION,
     ORIGIN_LABEL + ctx.origin,
     GATE_LABEL + ctx.gateId,
     NETWORK_LABEL + ctx.network,
     NONCE_LABEL + ctx.nonce]
    + match ctx.consumeDigest case None => [] case Some(d) => [CONSUME_LABEL + d]
  }

  /** Why a context is refused, the first reason first. */
  function Refusal(ctx: Context): Option<MessageError> {
    if !IsCanonicalId(ctx.gateId) then Some(BadGateId)
    else if !IsNetwork(ctx.network) then Some(UnknownNetwork)
    else if !IsNonce(ctx.nonce) then Some(BadNonce)
    else if ctx.consumeDigest.Some? && !IsTxDigest(ctx.consumeDigest.value) then Some(BadDigest)
    else if !IsOrigin(ctx.origin) then Some(BadOrigin)
    else None
  }

  /** The message, or why there is none. */
  function Message(ctx: Context): Result<Bytes, MessageError> {
    match Refusal(ctx)
    case Some(e) => Failure(e)
    case None => Success(JoinLines(ContextLines(ctx)))
  }

  method PersonalMessage(ctx: Context) returns (r: Result<Bytes, MessageError>)
    ensures r == Message(ctx)
  {
    if !IsCanonicalId(ctx.gateId) {
      return Failure(BadGateId);
    }
    if !IsNetwork(ctx.network) {
      return Failure(UnknownNetwork);
    }
    if !IsNonce(ctx.nonce) {
      return Failure(BadNonce);
    }
    if ctx.consumeDigest.Some? {
      var digest := ctx.consumeDigest.value;
      var len := DecodedLen(digest);
      if !(32 <= |digest| <= 44 && len == Some(DIGEST_BYTES)) {
        return Failure(BadDigest);
      }
    }
    if !IsOrigin(ctx.origin) {
      return Failure(BadOrigin);
    }
    var lines := [
      VERSION,
      ORIGIN_LABEL + ctx.origin,
      GATE_LABEL + ctx.gateId,
      NETWORK_LABEL + ctx.network,
      NONCE_LABEL + ctx.nonce
    ];
    if ctx.consumeDigest.Some? {
      lines := lines + [CONSUME_LABEL + ctx.consumeDigest.value];
    }
    assert lines == ContextLines(ctx);
    r := Success(JoinLines(lines));
  }

  // ---- No two contexts share a message ----

  predicate IsOneLine(s: Bytes) {
    forall i | 0 <= i < |s| :: s[i] != NEWLINE
  }

  lemma {:induction false} JoinHead(lines: seq<Bytes>)
    requires lines != []
    ensures var all := JoinLines(lines);
            && |lines[0]| <= |all| && all[..|lines[0]|] == lines[0]
            && (|lines| == 1 ==> all == lines[0])
            && (1 < |lines| ==> |lines[0]| < |all| && all[|lines[0]|] == NEWLINE
                                && all[|lines[0]| + 1..] == JoinLines(lines[1..]))
  {
  }

  lemma {:induction false} FirstLineEnds(a: seq<Bytes>, b: seq<Bytes>)
    requires a != [] && b != [] && IsOneLine(b[0]) && JoinLines(a) == JoinLines(b)
    ensures |b[0]| <= |a[0]|
  {
    JoinHead(a);
    JoinHead(b);
    var all := JoinLines(b);
    assert forall i | 0 <= i < |b[0]| :: all[i] == all[..|b[0]|][i];
  }

  /** Lines that hold no newline come back from their join. */
  lemma {:induction false} JoinInjective(a: seq<Bytes>, b: seq<Bytes>)
    requires a != [] && b != [] && JoinLines(a) == JoinLines(b)
    requires (forall i | 0 <= i < |a| :: IsOneLine(a[i])) && (forall i | 0 <= i < |b| :: IsOneLine(b[i]))
    ensures a == b
    decreases |a|
  {
    FirstLineEnds(a, b);
    FirstLineEnds(b, a);
    JoinHead(a);
    JoinHead(b);
    if 1 < |a| && 1 < |b| {
      JoinInjective(a[1..], b[1..]);
      assert a == [a[0]] + a[1..] && b == [b[0]] + b[1..];
    }
  }

  lemma {:induction false} PositionIsLetter(s: Bytes)
    requires InAlphabet(s)
    ensures IsOneLine(s)
  {
    forall i | 0 <= i < |s|
      ensures s[i] != NEWLINE
    {
      assert s[i] == Letter(Position(s[i], 0).value);
    }
  }

  lemma {:induction false} FixedTextIsOneLine()
    ensures IsOneLine(VERSION) && IsOneLine(ORIGIN_LABEL) && IsOneLine(GATE_LABEL)
    ensures IsOneLine(NETWORK_LABEL) && IsOneLine(NONCE_LABEL) && IsOneLine(CONSUME_LABEL)
  {
  }

  lemma {:induction false} NetworksAreOneLine()
    ensures IsOneLine(LOCALNET) && IsOneLine(DEVNET) && IsOneLine(TESTNET) && IsOneLine(MAINNET)
  {
  }

  lemma {:induction false} ContextLinesAreLines(ctx: Context)
    requires Refusal(ctx) == None
    ensures forall i | 0 <= i < |ContextLines(ctx)| :: IsOneLine(ContextLines(ctx)[i])
  {
    FixedTextIsOneLine();
    NetworksAreOneLine();
    if ctx.consumeDigest.Some? {
      PositionIsLetter(ctx.consumeDigest.value);
    }
  }

  lemma {:induction false} AfterPrefix(prefix: Bytes, a: Bytes, b: Bytes)
    requires prefix + a == prefix + b
    ensures a == b
  {
    assert (prefix + a)[|prefix|..] == a && (prefix + b)[|prefix|..] == b;
  }

  lemma {:induction false} LinesInjective(a: Context, b: Context)
    requires ContextLines(a) == ContextLines(b)
    ensures a == b
  {
    var (ls, ms) := (ContextLines(a), ContextLines(b));
    assert ls[1] == ms[1] && ls[2] == ms[2] && ls[3] == ms[3] && ls[4] == ms[4];
    AfterPrefix(ORIGIN_LABEL, a.origin, b.origin);
    AfterPrefix(GATE_LABEL, a.gateId, b.gateId);
    AfterPrefix(NETWORK_LABEL, a.network, b.network);
    AfterPrefix(NONCE_LABEL, a.nonce, b.nonce);
    assert |ls| == |ms|;
    if a.consumeDigest.Some? {
      assert ls[5] == ms[5];
      AfterPrefix(CONSUME_LABEL, a.consumeDigest.value, b.consumeDigest.value);
    }
  }

  /** No two accepted contexts share a message: not two origins, gates, networks, nonces, digests or modes. */
  lemma {:induction false} MessageInjective(a: Context, b: Context)
    requires Message(a).Success? && Message(a) == Message(b)
    ensures a == b
  {
    ContextLinesAreLines(a);
    ContextLinesAreLines(b);
    JoinInjective(ContextLines(a), ContextLines(b));
    LinesInjective(a, b);
  }

  // ---- What is signed ----

  /** Appends `v` in unsigned LEB128. */
  method WriteUleb128(out: Bytes, v: u64) returns (extended: Bytes)
    ensures extended == out + Varint(v)
  {
    extended := out;
    var n: nat := v;
    while true
      invariant extended + Varint(n) == out + Varint(v)
      decreases n
    {
      var byte := n % 128;
      assert extended + ([byte + 128] + Varint(n / 128)) == extended + [byte + 128] + Varint(n / 128);
      n := n / 128;
      if n != 0 {
        byte := byte + 128;
      }
      extended := extended + [byte];
      if n == 0 {
        return;
      }
    }
  }

  /** The hashed bytes: the personal-message intent, the message's length, the message. */
  function Preimage(message: Bytes): Bytes {
    [3, 0, 0] + Varint(|message|) + message
  }

  method BuildPreimage(message: Bytes) returns (data: Bytes)
    requires |message| <= U64_MAX
    ensures data == Preimage(message)
  {
    data := WriteUleb128([3, 0, 0], |message|);
    data := data + message;
  }

  /** No two messages share a preimage. */
  lemma {:induction false} PreimageInjective(a: Bytes, b: Bytes)
    requires |a| <= U64_MAX && |b| <= U64_MAX && Preimage(a) == Preimage(b)
    ensures a == b
  {
    var (p, q) := (Varint(|a|) + a, Varint(|b|) + b);
    assert Preimage(a) == [3, 0, 0] + p && Preimage(b) == [3, 0, 0] + q;
    AfterPrefix([3, 0, 0], p, q);
    ReadsVarint(|a|, a);
    ReadsVarint(|b|, b);
  }

  /** What is hashed for one accepted context is hashed for no other. */
  lemma {:induction false} SignedBytesInjective(a: Context, b: Context)
    requires Message(a).Success? && Message(b).Success?
    requires |Message(a).value| <= U64_MAX && |Message(b).value| <= U64_MAX
    requires Preimage(Message(a).value) == Preimage(Message(b).value)
    ensures a == b
  {
    PreimageInjective(Message(a).value, Message(b).value);
    MessageInjective(a, b);
  }
}
