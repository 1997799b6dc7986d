/**
 What the checks on a node's answers come to, told by what the records say: which passes let a holder in, which events
 count as a redemption, and which gates are closed.
 */
module Passes {
  import opened AsciiText
  import opened ChainResponses
  import opened DecimalText
  import opened Leaves
  import opened ProtoWire
  import opened Utf8Text
  import opened Values
  import opened Words

  /** A number is read from text exactly when the text is its decimal digits, and no more of them than `width`. */
  lemma {:induction false} NumberReads(text: Bytes, width: nat, n: nat)
    ensures ParseU64(text, width) == Some(n) <==> Writes(text, n) && |text| <= width && n <= 0xFFFF_FFFF_FFFF_FFFF
  {
    WritesExactly(text, n);
  }

  /** What a record says under a name; no record says nothing. */
  function Told(json: Option<Value>, name: string): Option<Bytes>
    requires forall i | 0 <= i < |name| :: name[i] as int < 128
  {
    if json.Some? then Says(json.value, Ascii(name)) else None
  }

  lemma {:induction false} TextIsTold(json: Option<Value>, name: string)
    requires forall i | 0 <= i < |name| :: name[i] as int < 128
    ensures Text(json, Ascii(name)) == Told(json, name)
  {
    if json.Some? {
      FindIsFirst(json.value, Ascii(name), 0);
    }
  }

  /** The record is bound to the gate, if one is asked for. */
  predicate IsBound(forms: Forms, json: Option<Value>, gate: Option<Bytes>) {
    gate.None?
    || (Told(json, "gate_id").Some? && forms.address(Told(json, "gate_id").value) == forms.address(gate.value))
  }

  // ---- Passes ----

  /** The record says how many uses are left, in decimal, and some are. */
  ghost predicate HasUsesLeft(json: Option<Value>) {
    var uses := Told(json, "uses_remaining");
    uses.Some? && |uses.value| <= 20 && exists n: nat :: Writes(uses.value, n) && 1 <= n <= 0xFFFF_FFFF_FFFF_FFFF
  }

  /** An unlimited pass, whatever its count, or a single-use pass with uses left; bound to the gate. */
  ghost predicate LetsIn(forms: Forms, o: Owned, gate: Option<Bytes>) {
    && (|| Told(o.json, "@variant") == Some(Ascii("UnlimitedPass"))
        || (Told(o.json, "@variant") == Some(Ascii("SingleUse")) && HasUsesLeft(o.json)))
    && IsBound(forms, o.json, gate)
  }

  lemma {:induction false} UsesLeft(json: Option<Value>)
    ensures HasUsesLeft(json)
            <==> Told(json, "uses_remaining").Some? && ParseU64(Told(json, "uses_remaining").value, 20).Some?
                 && 0 < ParseU64(Told(json, "uses_remaining").value, 20).value
  {
    var uses := Told(json, "uses_remaining");
    if uses.Some? {
      if ParseU64(uses.value, 20).Some? {
        NumberReads(uses.value, 20, ParseU64(uses.value, 20).value);
      }
      if n: nat :| Writes(uses.value, n) && 1 <= n <= 0xFFFF_FFFF_FFFF_FFFF {
        NumberReads(uses.value, 20, n);
      }
    }
  }

  lemma {:induction false} GrantsExactly(forms: Forms, o: Owned, gate: Option<Bytes>)
    ensures Grants(forms, o, gate) <==> LetsIn(forms, o, gate)
  {
    TextIsTold(o.json, "@variant");
    TextIsTold(o.json, "uses_remaining");
    TextIsTold(o.json, "gate_id");
    UsesLeft(o.json);
  }

  /** The check on a written page finds a pass exactly when some object of the page lets its owner in. */
  lemma {:induction false} PageDecides(forms: Forms, p: Page, gate: Option<Bytes>)
    requires |Encode(p.wire)| <= U64_MAX && p.WellFormed()
    ensures ResponseHasOwned(forms, Encode(p.wire), gate) <==> exists o | o in p.objects :: LetsIn(forms, o, gate)
  {
    OwnedExactly(forms, p, gate);
    forall o | o in p.objects
      ensures Grants(forms, o, gate) <==> LetsIn(forms, o, gate)
    {
      GrantsExactly(forms, o, gate);
    }
  }

  // ---- Redemptions ----

  /** The record's time, in at most sixteen decimal digits, is at most a minute ahead and `maxAgeSecs` old. */
  ghost predicate IsTimely(json: Option<Value>, now: nat, maxAgeSecs: nat) {
    var stamp := Told(json, "timestamp_ms");
    && stamp.Some? && |stamp.value| <= 16
    && exists t: nat :: Writes(stamp.value, t) && t <= now + 60_000 && now <= t + maxAgeSecs * 1000
  }

  ghost predicate Redeems(forms: Forms, e: Event, q: Query) {
    && e.eventType.Some? && IsUtf8(e.eventType.value) && forms.moveType(e.eventType.value) == forms.moveType(q.consumedType)
    && e.sender.Some? && IsUtf8(e.sender.value) && forms.address(e.sender.value) == forms.address(q.address)
    && IsTimely(e.json, q.now, q.maxAgeSecs)
    && IsBound(forms, e.json, q.gate)
  }

  lemma {:induction false} Timely(json: Option<Value>, now: u64, maxAgeSecs: nat)
    ensures StampIsRecent(Told(json, "timestamp_ms"), now, maxAgeSecs) <==> IsTimely(json, now, maxAgeSecs)
  {
    var stamp := Told(json, "timestamp_ms");
    if stamp.Some? {
      SixteenDigitsFit(stamp.value);
      if ParseU64(stamp.value, 16).Some? {
        NumberReads(stamp.value, 16, ParseU64(stamp.value, 16).value);
      }
      if t: nat :| Writes(stamp.value, t) && t <= now + 60_000 && now <= t + maxAgeSecs * 1000 {
        WritesExactly(stamp.value, t);
      }
    }
  }

  lemma {:induction false} ConsumesExactly(forms: Forms, e: Event, q: Query)
    requires q.now <= U64_MAX
    ensures Consumes(forms, e, q) <==> Redeems(forms, e, q)
  {
    TextIsTold(e.json, "timestamp_ms");
    TextIsTold(e.json, "gate_id");
    Timely(e.json, q.now, q.maxAgeSecs);
  }

  /** The transaction succeeded and one of its events redeems. */
  ghost predicate Redeemed(forms: Forms, reply: TxReply, q: Query) {
    && reply.tx.Some? && reply.tx.value.effects.Some? && reply.tx.value.effects.value.status.Some?
    && reply.tx.value.effects.value.status.value.success && reply.tx.value.events.Some?
    && exists e | e in reply.tx.value.events.value.events :: Redeems(forms, e, q)
  }

  /** The check on a written reply passes exactly when its transaction succeeded and one of its events redeems. */
  lemma {:induction false} ReplyDecides(forms: Forms, reply: TxReply, q: Query)
    requires |Encode(reply.wire)| <= U64_MAX && reply.WellFormed() && q.now <= U64_MAX
    ensures ResponseHasConsume(forms, Encode(reply.wire), q) <==> Redeemed(forms, reply, q)
  {
    ConsumeExactly(forms, reply, q);
    forall e: Event
      ensures Consumes(forms, e, q) <==> Redeems(forms, e, q)
    {
      ConsumesExactly(forms, e, q);
    }
  }

  // ---- Gates ----

  /** The record holds both flags, the second one in its policy. */
  predicate HasFlags(v: Value, paused: bool, blocks: bool) {
    && Member(v, Ascii("paused")) == Some(BoolValue(paused)) && Member(v, Ascii("policy")).Some?
    && Member(Member(v, Ascii("policy")).value, Ascii("pause_blocks_access")) == Some(BoolValue(blocks))
  }

  lemma {:induction false} FlagsAre(v: Value, paused: bool, blocks: bool)
    ensures HasFlags(v, paused, blocks)
            <==> FlagAt(Some(v), PAUSED_KEY) == Some(paused) && FlagAt(Member(v, POLICY_KEY), BLOCKS_KEY) == Some(blocks)
  {
  }

  /** A gate whose record holds both flags is closed exactly when both are set; any other record is an error. */
  lemma {:induction false} GateDecides(v: Value, paused: bool, blocks: bool)
    requires |EncodeValue(v)| <= U64_MAX && AllText(v)
    ensures HasFlags(v, paused, blocks) ==> GateBlocksAccess(EncodeValue(v)) == Success(paused && blocks)
    ensures GateBlocksAccess(EncodeValue(v)).Success? ==> exists p, b :: HasFlags(v, p, b)
  {
    GateExactly(v);
    FlagsAre(v, paused, blocks);
    var (p, b) := (FlagAt(Some(v), PAUSED_KEY), FlagAt(Member(v, POLICY_KEY), BLOCKS_KEY));
    if p.Some? && b.Some? {
      FlagsAre(v, p.value, b.value);
    }
  }
}
