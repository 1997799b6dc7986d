/** The signed message and the hashed bytes, as their text and from the grammar of their parts. */
module SignedText {
  import opened AccessMessage
  import opened AsciiText
  import opened Base58
  import opened ProtoWire
  import opened WireFormat
  import opened Words
  import D = Decision
  import N = Nonces

  // ---- The grammar of each part ----

  predicate IsAlphanumeric(c: char) {
    'A' <= c <= 'Z' || 'a' <= c <= 'z' || '0' <= c <= '9'
  }

  /** `[A-Za-z0-9._~-]{1,128}`. */
  predicate NonceGrammar(s: Bytes) {
    1 <= |s| <= 128 && forall i | 0 <= i < |s| :: IsAlphanumeric(s[i] as char) || s[i] as char in "._~-"
  }

  /** `0x[0-9a-f]{64}`. */
  predicate IdGrammar(s: Bytes) {
    |s| == 66 && s[..2] == Ascii("0x") && forall i | 2 <= i < 66 :: s[i] as char in "0123456789abcdef"
  }

  /** One ASCII character or more, none of them a control character up to the space. */
  predicate OriginGrammar(s: Bytes) {
    0 < |s| && forall i | 0 <= i < |s| :: ' ' < s[i] as char && s[i] < 128
  }

  /** The base58 form of 32 bytes. */
  ghost predicate DigestGrammar(s: Bytes) {
    exists hash: Bytes :: |hash| == 32 && Encode58(hash) == s
  }

  predicate NetworkGrammar(s: Bytes) {
    s == Ascii("localnet") || s == Ascii("devnet") || s == Ascii("testnet") || s == Ascii("mainnet")
  }

  lemma {:induction false} Grammars(s: Bytes)
    ensures IsNonce(s) <==> NonceGrammar(s)
    ensures IsCanonicalId(s) <==> IdGrammar(s)
    ensures IsOrigin(s) <==> OriginGrammar(s)
  {
    if |s| == 66 {
      assert s[..2][0] == s[0] && s[..2][1] == s[1];
    }
  }

  /** A context is accepted exactly when each of its parts is in its grammar. */
  lemma {:induction false} AcceptedExactly(c: Context)
    ensures Message(c).Success?
            <==> && OriginGrammar(c.origin) && IdGrammar(c.gateId) && NetworkGrammar(c.network) && NonceGrammar(c.nonce)
                 && (c.consumeDigest.Some? ==> DigestGrammar(c.consumeDigest.value))
  {
    Grammars(c.gateId);
    Grammars(c.nonce);
    Grammars(c.origin);
    if c.consumeDigest.Some? {
      TxDigestExactly(c.consumeDigest.value);
    }
  }

  /** Of several parts outside their grammar, the first one in this order is named. */
  lemma {:induction false} RefusedForFirst(c: Context)
    ensures !IdGrammar(c.gateId) ==> Message(c) == Failure(BadGateId)
    ensures IdGrammar(c.gateId) && !NetworkGrammar(c.network) ==> Message(c) == Failure(UnknownNetwork)
    ensures IdGrammar(c.gateId) && NetworkGrammar(c.network) && !NonceGrammar(c.nonce) ==> Message(c) == Failure(BadNonce)
    ensures IdGrammar(c.gateId) && NetworkGrammar(c.network) && NonceGrammar(c.nonce) ==>
              && (c.consumeDigest.Some? && !DigestGrammar(c.consumeDigest.value) ==> Message(c) == Failure(BadDigest))
              && ((c.consumeDigest.Some? ==> DigestGrammar(c.consumeDigest.value)) && !OriginGrammar(c.origin) ==>
                  Message(c) == Failure(BadOrigin))
  {
    Grammars(c.gateId);
    Grammars(c.nonce);
    Grammars(c.origin);
    if c.consumeDigest.Some? {
      TxDigestExactly(c.consumeDigest.value);
    }
  }

  // ---- The text ----

  /** The signed text, line by line, with no newline at its end. */
  function TextOf(c: Context): Bytes {
    Ascii("nft-gate:access:v2")
    + (Ascii("\norigin:") + (c.origin
       + (Ascii("\ngate:") + (c.gateId
          + (Ascii("\nnetwork:") + (c.network
             + (Ascii("\nnonce:") + (c.nonce
                + (if c.consumeDigest.Some? then Ascii("\nconsume:") + c.consumeDigest.value else [])))))))))
  }

  /** All lines, each behind a newline. */
  function Broken(lines: seq<Bytes>): Bytes {
    if lines == [] then [] else [10] + (lines[0] + Broken(lines[1..]))
  }

  lemma {:induction false} JoinIsBroken(line: Bytes, lines: seq<Bytes>)
    ensures JoinLines([line] + lines) == line + Broken(lines)
    decreases |lines|
  {
    assert ([line] + lines)[1..] == lines;
    if lines != [] {
      assert lines == [lines[0]] + lines[1..];
      JoinIsBroken(lines[0], lines[1..]);
      assert line + [NEWLINE] + JoinLines(lines) == line + ([10] + JoinLines(lines));
    }
  }

  lemma {:induction false} BrokenStep(broken: Bytes, name: Bytes, value: Bytes, lines: seq<Bytes>)
    requires broken == [10] + name
    ensures Broken([name + value] + lines) == broken + (value + Broken(lines))
  {
    assert ([name + value] + lines)[1..] == lines;
    assert [10] + (name + value + Broken(lines)) == broken + (value + Broken(lines));
  }

  lemma {:induction false} Labels()
    ensures Ascii("\norigin:") == [10] + ORIGIN_LABEL && Ascii("\ngate:") == [10] + GATE_LABEL
    ensures Ascii("\nnetwork:") == [10] + NETWORK_LABEL && Ascii("\nnonce:") == [10] + NONCE_LABEL
    ensures Ascii("\nconsume:") == [10] + CONSUME_LABEL
  {
  }

  lemma {:induction false} DigestLine(digest: Option<Bytes>, lines: seq<Bytes>)
    requires lines == if digest.Some? then [CONSUME_LABEL + digest.value] else []
    ensures Broken(lines) == if digest.Some? then Ascii("\nconsume:") + digest.value else []
  {
    if digest.Some? {
      Labels();
      BrokenStep(Ascii("\nconsume:"), CONSUME_LABEL, digest.value, []);
      assert [CONSUME_LABEL + digest.value] + [] == [CONSUME_LABEL + digest.value];
    }
  }

  /** The message of an accepted context is its text. */
  lemma {:induction false} MessageIsText(c: Context)
    requires Message(c).Success?
    ensures Message(c) == Success(TextOf(c))
  {
    var last := if c.consumeDigest.Some? then [CONSUME_LABEL + c.consumeDigest.value] else [];
    var nonce := [NONCE_LABEL + c.nonce] + last;
    var network := [NETWORK_LABEL + c.network] + nonce;
    var gate := [GATE_LABEL + c.gateId] + network;
    var origin := [ORIGIN_LABEL + c.origin] + gate;
    assert ContextLines(c) == [VERSION] + origin;
    JoinIsBroken(VERSION, origin);
    Labels();
    DigestLine(c.consumeDigest, last);
    BrokenStep(Ascii("\nnonce:"), NONCE_LABEL, c.nonce, last);
    BrokenStep(Ascii("\nnetwork:"), NETWORK_LABEL, c.network, nonce);
    BrokenStep(Ascii("\ngate:"), GATE_LABEL, c.gateId, network);
    BrokenStep(Ascii("\norigin:"), ORIGIN_LABEL, c.origin, gate);
  }

  // ---- The hashed bytes ----

  /** The personal-message intent, the message's length in ULEB128, the message. */
  lemma {:induction false} HashedExactly(message: Bytes, length: Bytes)
    requires IsVarintOf(length, |message|)
    ensures Preimage(message) == [3, 0, 0] + length + message
  {
    VarintExactly(length, |message|);
  }

  // ---- What an admitted wallet signed ----

  /**
   Whoever is let in signed the text that names this gateway's origin, gate and network, the nonce and, in single-use
   mode, the digest.
   */
  lemma {:induction false} AdmittedSigned(s: D.Settings, w: D.Wallets, rows: N.Rows, now: nat, p: D.Proof, a: D.Answers)
    requires D.Outcome(s, w, rows, now, Some(p), a).Success?
    ensures var c := Context(s.origin, s.gateId, s.network, p.nonce, if s.singleUse then p.consumeDigest else None);
            Message(c).Success? && w.signs(p.address, TextOf(c), p.signature)
  {
    D.AdmitsExactly(s, w, rows, now, Some(p), a, D.Outcome(s, w, rows, now, Some(p), a).value);
    MessageIsText(D.ContextOf(s, p));
  }
}
