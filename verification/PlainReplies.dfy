/** The plainest answers a node can send, as their bytes, and what the checks make of them. */
module PlainReplies {
  import opened ChainResponses
  import opened Passes
  import opened ProtoWire
  import opened Values
  import opened WireFormat
  import opened Words

  /** One length-delimited field on the wire. */
  function Sent(field: u32, data: Bytes): Bytes {
    Encoded(Delimited(field, data))
  }

  function SentEvent(sender: Bytes, eventType: Bytes, v: Value): Bytes {
    Sent(3, sender) + (Sent(4, eventType) + Sent(6, EncodeValue(v)))
  }

  /** A transaction in field 1: its effects, whose status says `flag`, in field 4, its one event in field 5. */
  function SentReply(flag: u64, event: Bytes): Bytes {
    Sent(1, Sent(4, Sent(4, [0x08] + Varint(flag))) + Sent(5, Sent(3, event)))
  }

  function PlainEvent(sender: Bytes, eventType: Bytes, v: Value): Event {
    Event(Some(sender), Some(eventType), Some(v),
          [Delimited(3, sender), Delimited(4, eventType), Delimited(6, EncodeValue(v))])
  }

  lemma {:induction false} ThreeEncoded(a: Written, b: Written, c: Written)
    ensures Encode([a, b, c]) == Encoded(a) + (Encoded(b) + Encoded(c))
  {
    assert [a, b, c][1..] == [b, c];
    TwoEncoded(b, c);
  }

  lemma {:induction false} FirstOfThree(a: Written, b: Written, c: Written, num: u32)
    requires a.Delimited? && b.Delimited? && c.Delimited?
    ensures FirstData([a, b, c], num)
            == if a.field == num then Some(a.data) else if b.field == num then Some(b.data)
               else if c.field == num then Some(c.data) else None
  {
    FirstAfter(c, [], num);
    FirstAfter(b, [c], num);
    FirstAfter(a, [b, c], num);
    assert [a] + [b, c] == [a, b, c] && [b] + [c] == [b, c] && [c] + [] == [c];
  }

  lemma {:induction false} EventIsSent(sender: Bytes, eventType: Bytes, v: Value)
    requires AllText(v)
    ensures PlainEvent(sender, eventType, v).WellFormed()
    ensures Encode(PlainEvent(sender, eventType, v).wire) == SentEvent(sender, eventType, v)
  {
    var (a, b, c) := (Delimited(3, sender), Delimited(4, eventType), Delimited(6, EncodeValue(v)));
    ThreeEncoded(a, b, c);
    FirstOfThree(a, b, c, 3);
    FirstOfThree(a, b, c, 4);
    FirstOfThree(a, b, c, 6);
  }

  function PlainList(e: Event): EventList {
    EventList([e], [Delimited(3, Encode(e.wire))])
  }

  lemma {:induction false} ListIsSent(e: Event)
    requires e.WellFormed()
    ensures PlainList(e).WellFormed() && Encode(PlainList(e).wire) == Sent(3, Encode(e.wire))
  {
    var w := Delimited(3, Encode(e.wire));
    OneEncoded(w);
    assert [w][1..] == [] && EventBytes([e]) == [Encode(e.wire)];
    assert Datas([w], 3) == [w.data] + Datas([], 3);
  }

  function PlainEffects(flag: u64): Effects {
    Effects(Some(Status(flag == 1, [Uint(1, flag)])), [Delimited(4, Encode([Uint(1, flag)]))])
  }

  lemma {:induction false} EffectsAreSent(flag: u64)
    ensures PlainEffects(flag).WellFormed() && Encode(PlainEffects(flag).wire) == Sent(4, [0x08] + Varint(flag))
  {
    OneEncoded(Uint(1, flag));
    ShortVarint(8);
    OneEncoded(Delimited(4, Encode([Uint(1, flag)])));
    FirstAfter(Delimited(4, Encode([Uint(1, flag)])), [], 4);
  }

  function PlainTransaction(flag: u64, e: Event): Transaction {
    Transaction(Some(PlainEffects(flag)), Some(PlainList(e)),
                [Delimited(4, Encode(PlainEffects(flag).wire)), Delimited(5, Encode(PlainList(e).wire))])
  }

  lemma {:induction false} FirstOfTwoWritten(a: Written, b: Written, num: u32)
    requires a.Delimited? && b.Delimited?
    ensures FirstData([a, b], num)
            == if a.field == num then Some(a.data) else if b.field == num then Some(b.data) else None
  {
    FirstAfter(b, [], num);
    FirstAfter(a, [b], num);
    assert [a] + [b] == [a, b] && [b] + [] == [b];
  }

  lemma {:induction false} TransactionIsSent(flag: u64, e: Event)
    requires e.WellFormed()
    ensures PlainTransaction(flag, e).WellFormed()
    ensures Encode(PlainTransaction(flag, e).wire) == Sent(4, Sent(4, [0x08] + Varint(flag))) + Sent(5, Sent(3, Encode(e.wire)))
  {
    EffectsAreSent(flag);
    ListIsSent(e);
    var (a, b) := (Delimited(4, Encode(PlainEffects(flag).wire)), Delimited(5, Encode(PlainList(e).wire)));
    TwoEncoded(a, b);
    FirstOfTwoWritten(a, b, 4);
    FirstOfTwoWritten(a, b, 5);
  }

  function PlainReply(flag: u64, e: Event): TxReply {
    TxReply(Some(PlainTransaction(flag, e)), [Delimited(1, Encode(PlainTransaction(flag, e).wire))])
  }

  lemma {:induction false} ReplyIsSent(flag: u64, e: Event)
    requires e.WellFormed()
    ensures PlainReply(flag, e).WellFormed() && Encode(PlainReply(flag, e).wire) == SentReply(flag, Encode(e.wire))
  {
    TransactionIsSent(flag, e);
    var w := Delimited(1, Encode(PlainTransaction(flag, e).wire));
    OneEncoded(w);
    FirstAfter(w, [], 1);
  }

  /** These bytes are a redemption exactly when the status is 1 and the event says what is asked for. */
  lemma {:induction false} PlainReplyDecides(forms: Forms, flag: u64, sender: Bytes, eventType: Bytes, v: Value, q: Query)
    requires AllText(v) && q.now <= U64_MAX && |SentReply(flag, SentEvent(sender, eventType, v))| <= U64_MAX
    ensures ResponseHasConsume(forms, SentReply(flag, SentEvent(sender, eventType, v)), q)
            <==> flag == 1 && Redeems(forms, Event(Some(sender), Some(eventType), Some(v), []), q)
  {
    var e := PlainEvent(sender, eventType, v);
    EventIsSent(sender, eventType, v);
    ReplyIsSent(flag, e);
    ReplyDecides(forms, PlainReply(flag, e), q);
    assert Redeems(forms, e, q) <==> Redeems(forms, e.(wire := []), q);
  }

  // ---- Pages ----

  /** One object in field 1, with its JSON in field 100, and the next page's token in field 2. */
  function SentPage(v: Value, token: Bytes): Bytes {
    Sent(1, Sent(100, EncodeValue(v))) + Sent(2, token)
  }

  function PlainPage(v: Value, token: Bytes): Page {
    var o := Owned(Some(v), [Delimited(100, EncodeValue(v))]);
    Page([o], Some(token), [Delimited(1, Encode(o.wire)), Delimited(2, token)])
  }

  lemma {:induction false} PageIsSent(v: Value, token: Bytes)
    requires AllText(v)
    ensures PlainPage(v, token).WellFormed() && Encode(PlainPage(v, token).wire) == SentPage(v, token)
  {
    var json := Delimited(100, EncodeValue(v));
    OneEncoded(json);
    FirstAfter(json, [], 100);
    var (a, b) := (Delimited(1, Encode([json])), Delimited(2, token));
    TwoEncoded(a, b);
    FirstOfTwoWritten(a, b, 2);
    assert [a, b][1..] == [b] && [b][1..] == [];
    assert Datas([a, b], 1) == [a.data] + Datas([b], 1) && Datas([b], 1) == [] + Datas([], 1);
    assert ObjectBytes(PlainPage(v, token).objects) == [Encode([json])];
  }

  /** These bytes hold a pass exactly when the object lets its owner in, and lead on exactly by a token that is not empty. */
  lemma {:induction false} PlainPageDecides(forms: Forms, v: Value, token: Bytes, gate: Option<Bytes>)
    requires AllText(v) && |SentPage(v, token)| <= U64_MAX
    ensures ResponseHasOwned(forms, SentPage(v, token), gate) <==> LetsIn(forms, Owned(Some(v), []), gate)
    ensures NextToken(SentPage(v, token)) == if token == [] then None else Some(token)
  {
    var p := PlainPage(v, token);
    PageIsSent(v, token);
    PageDecides(forms, p, gate);
    TokenReads(p);
    assert p.objects[0] in p.objects;
    assert LetsIn(forms, p.objects[0], gate) <==> LetsIn(forms, Owned(Some(v), []), gate);
  }

  // ---- A record's own entries ----

  /** Of several entries with one name the first counts. */
  lemma {:induction false} FirstEntryCounts(before: seq<Entry>, e: Entry, after: seq<Entry>)
    requires forall other | other in before :: other.name != e.name
    ensures Member(StructValue(before + [e] + after), e.name) == Some(e.value)
    decreases |before|
  {
    var all := before + [e] + after;
    if before != [] {
      assert all[1..] == before[1..] + [e] + after && all[0] == before[0];
      FirstEntryCounts(before[1..], e, after);
    }
  }
}
