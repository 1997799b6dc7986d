/**
 What the gateway reads out of a full node's answers: whether a transaction redeemed a pass, whether a page of
 owned objects holds a usable pass, and whether a paused gate blocks access.
 */
module ChainResponses {
  import opened AsciiText
  import opened Positional
  import opened Words
  import opened ProtoWire
  import opened Recency
  import opened Utf8Text
  import opened Values

  const TIMESTAMP_KEY: Bytes := Ascii("timestamp_ms")
  const GATE_KEY: Bytes := Ascii("gate_id")
  const VARIANT_KEY: Bytes := Ascii("@variant")
  const USES_KEY: Bytes := Ascii("uses_remaining")
  const PAUSED_KEY: Bytes := Ascii("paused")
  const POLICY_KEY: Bytes := Ascii("policy")
  const BLOCKS_KEY: Bytes := Ascii("pause_blocks_access")
  const UNLIMITED: Bytes := Ascii("UnlimitedPass")
  const SINGLE_USE: Bytes := Ascii("SingleUse")

  /** The canonical forms ids and type names are compared in. */
  datatype Forms = Forms(address: Bytes -> Bytes, moveType: Bytes -> Bytes)

  // ---- Numbers in text ----

  /** A run of at most `width` digits that fits 64 bits. */
  function ParseU64(text: Bytes, width: nat): Option<u64> {
    if IsDigits(text) && |text| <= width && Decimal(text) <= U64_MAX then Some(Decimal(text)) else None
  }

  /** Sixteen digits never overflow: a timestamp is refused for its shape only. */
  lemma {:induction false} SixteenDigitsFit(text: Bytes)
    ensures ParseU64(text, 16).Some? <==> IsDigits(text) && |text| <= 16
  {
    if IsDigits(text) && |text| <= 16 {
      DecimalBelow(text);
      PowGrows(10, |text|, 16);
      assert Pow(10, 4) == 1_0000;
      PowSum(10, 4, 4);
      PowSum(10, 8, 8);
    }
  }

  // ---- What a record says ----

  /** One string of a record, or of no record. */
  function Text(json: Option<Value>, key: Bytes): Option<Bytes> {
    if json.Some? then Find(json.value, key, 0) else None
  }

  predicate StampIsRecent(stamp: Option<Bytes>, now: nat, maxAgeSecs: nat) {
    && stamp.Some?
    && ParseU64(stamp.value, 16).Some?
    && IsRecent(ParseU64(stamp.value, 16).value, now, maxAgeSecs)
  }

  predicate IsUsable(variant: Option<Bytes>, uses: Option<Bytes>) {
    match variant
    case None => false
    case Some(v) =>
      || v == UNLIMITED
      || (v == SINGLE_USE && uses.Some? && ParseU64(uses.value, 20).Some? && 0 < ParseU64(uses.value, 20).value)
  }

  predicate SameAddress(forms: Forms, a: Option<Bytes>, b: Bytes) {
    a.Some? && forms.address(a.value) == forms.address(b)
  }

  predicate ForGate(forms: Forms, found: Option<Bytes>, gate: Option<Bytes>) {
    gate.Some? ==> SameAddress(forms, found, gate.value)
  }

  /** What the caller is asking about. */
  datatype Query = Query(address: Bytes, consumedType: Bytes, gate: Option<Bytes>, now: nat, maxAgeSecs: nat)

  // ---- The checks, on bytes ----

  function JsonOf(json: Option<Bytes>): Bytes {
    if json.Some? then json.value else []
  }

  predicate EventIsRecent(json: Bytes, now: nat, maxAgeSecs: nat) {
    StampIsRecent(ValueFind(json, TIMESTAMP_KEY), now, maxAgeSecs)
  }

  predicate PassIsUsable(json: Bytes) {
    IsUsable(ValueFind(json, VARIANT_KEY), ValueFind(json, USES_KEY))
  }

  predicate EffectsSucceeded(tx: Bytes) {
    match FieldBytes(tx, 4)
    case None => false
    case Some(effects) =>
      match FieldBytes(effects, 4)
      case None => false
      case Some(status) => VarintField(1, 1) in Fields(status)
  }

  predicate EventMatches(forms: Forms, ev: Bytes, q: Query) {
    var json := JsonOf(FieldBytes(ev, 6));
    && FieldStr(ev, 4).Some?
    && forms.moveType(FieldStr(ev, 4).value) == forms.moveType(q.consumedType)
    && SameAddress(forms, FieldStr(ev, 3), q.address)
    && EventIsRecent(json, q.now, q.maxAgeSecs)
    && ForGate(forms, ValueFind(json, GATE_KEY), q.gate)
  }

  predicate IsConsumeFor(forms: Forms, f: Field, q: Query) {
    f.Len? && f.num == 3 && EventMatches(forms, f.data, q)
  }

  predicate ResponseHasConsume(forms: Forms, resp: Bytes, q: Query) {
    match FieldBytes(resp, 1)
    case None => false
    case Some(tx) =>
      && EffectsSucceeded(tx)
      && FieldBytes(tx, 5).Some?
      && exists f | f in Fields(FieldBytes(tx, 5).value) :: IsConsumeFor(forms, f, q)
  }

  predicate ObjectMatches(forms: Forms, owned: Bytes, gate: Option<Bytes>) {
    var json := JsonOf(FieldBytes(owned, 100));
    PassIsUsable(json) && ForGate(forms, ValueFind(json, GATE_KEY), gate)
  }

  predicate IsPassFor(forms: Forms, f: Field, gate: Option<Bytes>) {
    f.Len? && f.num == 1 && ObjectMatches(forms, f.data, gate)
  }

  predicate ResponseHasOwned(forms: Forms, resp: Bytes, gate: Option<Bytes>) {
    exists f | f in Fields(resp) :: IsPassFor(forms, f, gate)
  }

  /** Where the next page of a listing starts, if there is one. */
  function NextToken(resp: Bytes): Option<Bytes> {
    match FieldBytes(resp, 2)
    case None => None
    case Some(token) => if token == [] then None else Some(token)
  }

  datatype GateError = UnrecognisedShape

  function GateBlocksAccess(json: Bytes): Result<bool, GateError> {
    var paused := match ValueField(json, PAUSED_KEY) case None => None case Some(p) => ValueAsBool(p);
    var blocks :=
      match ValueField(json, POLICY_KEY)
      case None => None
      case Some(policy) => match ValueField(policy, BLOCKS_KEY) case None => None case Some(b) => ValueAsBool(b);
    if paused.None? || blocks.None? then Failure(UnrecognisedShape) else Success(paused.value && blocks.value)
  }

  // ---- The records, as a node writes them ----

  /** The first delimited field `num` of a written message. */
  function FirstData(ws: seq<Written>, num: u32): Option<Bytes> {
    if ws == [] then None
    else if ws[0].Delimited? && ws[0].field == num then Some(ws[0].data)
    else FirstData(ws[1..], num)
  }

  /** Its delimited fields `num`, in order. */
  function Datas(ws: seq<Written>, num: u32): seq<Bytes> {
    if ws == [] then []
    else (if ws[0].Delimited? && ws[0].field == num then [ws[0].data] else []) + Datas(ws[1..], num)
  }

  function JsonBytes(json: Option<Value>): Option<Bytes> {
    if json.Some? then Some(EncodeValue(json.value)) else None
  }

  predicate JsonIsText(json: Option<Value>) {
    json.Some? ==> AllText(json.value)
  }

  // Each record keeps the fields it was written with: the ones read here and any others, in any order.

  datatype Event = Event(sender: Option<Bytes>, eventType: Option<Bytes>, json: Option<Value>, wire: seq<Written>) {
    predicate WellFormed() {
      && FirstData(wire, 3) == sender && FirstData(wire, 4) == eventType
      && FirstData(wire, 6) == JsonBytes(json) && JsonIsText(json)
    }
  }

  datatype Status = Status(success: bool, wire: seq<Written>) {
    predicate WellFormed() {
      success <==> Uint(1, 1) in wire
    }
  }

  datatype Effects = Effects(status: Option<Status>, wire: seq<Written>) {
    predicate WellFormed() {
      && FirstData(wire, 4) == (if status.Some? then Some(Encode(status.value.wire)) else None)
      && (status.Some? ==> status.value.WellFormed())
    }
  }

  datatype EventList = EventList(events: seq<Event>, wire: seq<Written>) {
    predicate WellFormed() {
      && Datas(wire, 3) == EventBytes(events)
      && forall i | 0 <= i < |events| :: events[i].WellFormed()
    }
  }

  function EventBytes(events: seq<Event>): seq<Bytes> {
    seq(|events|, i requires 0 <= i < |events| => Encode(events[i].wire))
  }

  datatype Transaction = Transaction(effects: Option<Effects>, events: Option<EventList>, wire: seq<Written>) {
    predicate WellFormed() {
      && FirstData(wire, 4) == (if effects.Some? then Some(Encode(effects.value.wire)) else None)
      && FirstData(wire, 5) == (if events.Some? then Some(Encode(events.value.wire)) else None)
      && (effects.Some? ==> effects.value.WellFormed()) && (events.Some? ==> events.value.WellFormed())
    }

    /** The effects report success. */
    predicate Succeeded() {
      effects.Some? && effects.value.status.Some? && effects.value.status.value.success
    }
  }

  datatype TxReply = TxReply(tx: Option<Transaction>, wire: seq<Written>) {
    predicate WellFormed() {
      && FirstData(wire, 1) == (if tx.Some? then Some(Encode(tx.value.wire)) else None)
      && (tx.Some? ==> tx.value.WellFormed())
    }
  }

  datatype Owned = Owned(json: Option<Value>, wire: seq<Written>) {
    predicate WellFormed() {
      FirstData(wire, 100) == JsonBytes(json) && JsonIsText(json)
    }
  }

  datatype Page = Page(objects: seq<Owned>, token: Option<Bytes>, wire: seq<Written>) {
    predicate WellFormed() {
      && Datas(wire, 1) == ObjectBytes(objects) && FirstData(wire, 2) == token
      && forall i | 0 <= i < |objects| :: objects[i].WellFormed()
    }
  }

  function ObjectBytes(objects: seq<Owned>): seq<Bytes> {
    seq(|objects|, i requires 0 <= i < |objects| => Encode(objects[i].wire))
  }

  // ---- Records with nothing but what is read ----

  function JsonWritten(field: u32, json: Option<Value>): seq<Written> {
    if json.Some? then [Delimited(field, EncodeValue(json.value))] else []
  }

  function EventOf(sender: Bytes, eventType: Bytes, json: Option<Value>): Event {
    Event(Some(sender), Some(eventType), json, [Delimited(3, sender), Delimited(4, eventType)] + JsonWritten(6, json))
  }

  function DelimitedAll(field: u32, datas: seq<Bytes>): seq<Written> {
    seq(|datas|, i requires 0 <= i < |datas| => Delimited(field, datas[i]))
  }

  function EffectsOf(success: bool): Effects {
    var status := Status(success, [Uint(1, if success then 1 else 0)]);
    Effects(Some(status), [Delimited(4, Encode(status.wire))])
  }

  /** A reply with these events; without a flag it has no effects. */
  function ReplyOf(success: Option<bool>, events: seq<Event>): TxReply {
    var effects := if success.Some? then Some(EffectsOf(success.value)) else None;
    var list := EventList(events, DelimitedAll(3, EventBytes(events)));
    var tx := Transaction(effects, Some(list),
                          (if effects.Some? then [Delimited(4, Encode(effects.value.wire))] else [])
                          + [Delimited(5, Encode(list.wire))]);
    TxReply(Some(tx), [Delimited(1, Encode(tx.wire))])
  }

  function OwnedOf(json: Option<Value>): Owned {
    Owned(json, JsonWritten(100, json))
  }

  lemma {:induction false} DatasOfAll(field: u32, datas: seq<Bytes>)
    ensures Datas(DelimitedAll(field, datas), field) == datas
    decreases |datas|
  {
    if datas != [] {
      assert DelimitedAll(field, datas)[1..] == DelimitedAll(field, datas[1..]);
      DatasOfAll(field, datas[1..]);
    }
  }

  lemma {:induction false} FirstAfter(w: Written, ws: seq<Written>, num: u32)
    ensures FirstData([w] + ws, num) == if w.Delimited? && w.field == num then Some(w.data) else FirstData(ws, num)
  {
    assert ([w] + ws)[1..] == ws;
  }

  /** Such events, replies and objects are records like any others. */
  lemma {:induction false} EventOfIsWellFormed(sender: Bytes, eventType: Bytes, json: Option<Value>)
    requires JsonIsText(json)
    ensures EventOf(sender, eventType, json).WellFormed()
  {
    var rest := JsonWritten(6, json);
    var (a, b) := (Delimited(3, sender), Delimited(4, eventType));
    assert [a, b] + rest == [a] + ([b] + rest);
    forall num | num in {3, 4, 6}
      ensures FirstData([a, b] + rest, num)
              == if num == 3 then Some(sender) else if num == 4 then Some(eventType) else FirstData(rest, num)
    {
      FirstAfter(a, [b] + rest, num);
      FirstAfter(b, rest, num);
    }
    if json.Some? {
      FirstAfter(Delimited(6, EncodeValue(json.value)), [], 6);
    }
  }

  lemma {:induction false} EffectsOfIsWellFormed(success: bool)
    ensures EffectsOf(success).WellFormed()
  {
    FirstAfter(Delimited(4, Encode(EffectsOf(success).status.value.wire)), [], 4);
  }

  lemma {:induction false} ReplyOfIsWellFormed(success: Option<bool>, events: seq<Event>)
    requires forall i | 0 <= i < |events| :: events[i].WellFormed()
    ensures ReplyOf(success, events).WellFormed()
    ensures ReplyOf(success, events).tx.value.Succeeded() <==> success == Some(true)
  {
    var tx := ReplyOf(success, events).tx.value;
    DatasOfAll(3, EventBytes(events));
    FirstAfter(Delimited(1, Encode(tx.wire)), [], 1);
    var last := Delimited(5, Encode(tx.events.value.wire));
    FirstAfter(last, [], 4);
    FirstAfter(last, [], 5);
    if success.Some? {
      EffectsOfIsWellFormed(success.value);
      var first := Delimited(4, Encode(tx.effects.value.wire));
      FirstAfter(first, [last], 4);
      FirstAfter(first, [last], 5);
    } else {
      assert tx.wire == [last];
    }
  }

  lemma {:induction false} OwnedOfIsWellFormed(json: Option<Value>)
    requires JsonIsText(json)
    ensures OwnedOf(json).WellFormed()
  {
    if json.Some? {
      FirstAfter(Delimited(100, EncodeValue(json.value)), [], 100);
    }
  }

  // ---- What the records say ----

  /** A string field, when it is there and is text. */
  function AsText(field: Option<Bytes>): Option<Bytes> {
    if field.Some? && IsUtf8(field.value) then field else None
  }

  predicate Consumes(forms: Forms, e: Event, q: Query) {
    && AsText(e.eventType).Some?
    && forms.moveType(e.eventType.value) == forms.moveType(q.consumedType)
    && SameAddress(forms, AsText(e.sender), q.address)
    && StampIsRecent(Text(e.json, TIMESTAMP_KEY), q.now, q.maxAgeSecs)
    && ForGate(forms, Text(e.json, GATE_KEY), q.gate)
  }

  predicate HasConsume(forms: Forms, reply: TxReply, q: Query) {
    && reply.tx.Some? && reply.tx.value.Succeeded() && reply.tx.value.events.Some?
    && exists e | e in reply.tx.value.events.value.events :: Consumes(forms, e, q)
  }

  predicate Grants(forms: Forms, o: Owned, gate: Option<Bytes>) {
    IsUsable(Text(o.json, VARIANT_KEY), Text(o.json, USES_KEY)) && ForGate(forms, Text(o.json, GATE_KEY), gate)
  }

  // ---- Reading written records ----

  lemma {:induction false} FirstOfFields(ws: seq<Written>, num: u32)
    ensures FirstLen(FieldsOf(ws), num) == FirstData(ws, num)
    decreases |ws|
  {
    if ws != [] {
      assert FieldsOf(ws)[1..] == FieldsOf(ws[1..]);
      FirstOfFields(ws[1..], num);
    }
  }

  lemma {:induction false} FirstDataIn(ws: seq<Written>, num: u32)
    requires FirstData(ws, num).Some?
    ensures exists w :: w in ws && w.Delimited? && w.data == FirstData(ws, num).value
    decreases |ws|
  {
    if ws[0].Delimited? && ws[0].field == num {
      assert ws[0] in ws;
    } else {
      FirstDataIn(ws[1..], num);
      var w :| w in ws[1..] && w.Delimited? && w.data == FirstData(ws[1..], num).value;
      assert w in ws;
    }
  }

  /** A lookup reads the first such field that was written, among any others. */
  lemma {:induction false} ReadsFirst(ws: seq<Written>, num: u32)
    requires |Encode(ws)| <= U64_MAX
    ensures FieldBytes(Encode(ws), num) == FirstData(ws, num)
    ensures FirstData(ws, num).Some? ==> |FirstData(ws, num).value| <= U64_MAX
  {
    ReadsBackWhole(ws);
    FirstOfFields(ws, num);
    if FirstData(ws, num).Some? {
      FirstDataIn(ws, num);
      var w :| w in ws && w.Delimited? && w.data == FirstData(ws, num).value;
      PartFits(ws, w);
    }
  }

  lemma {:induction false} FieldWritten(ws: seq<Written>, f: Field)
    requires f in FieldsOf(ws)
    ensures exists w :: w in ws && FieldOf(w) == f
    decreases |ws|
  {
    if FieldOf(ws[0]) == f {
      assert ws[0] in ws;
    } else {
      assert f in FieldsOf(ws[1..]);
      FieldWritten(ws[1..], f);
      var w :| w in ws[1..] && FieldOf(w) == f;
      assert w in ws;
    }
  }

  lemma {:induction false} WrittenIsField(ws: seq<Written>, w: Written)
    requires w in ws
    ensures FieldOf(w) in FieldsOf(ws)
    decreases |ws|
  {
    if ws[0] != w {
      WrittenIsField(ws[1..], w);
    }
  }

  lemma {:induction false} DatasAre(ws: seq<Written>, num: u32, data: Bytes)
    ensures data in Datas(ws, num) <==> Delimited(num, data) in ws
    decreases |ws|
  {
    if ws != [] {
      DatasAre(ws[1..], num, data);
      assert Delimited(num, data) in ws <==> ws[0] == Delimited(num, data) || Delimited(num, data) in ws[1..];
    }
  }

  /** The repeated fields read are those that were written. */
  lemma {:induction false} ReadsEach(ws: seq<Written>, num: u32, data: Bytes)
    requires |Encode(ws)| <= U64_MAX
    ensures Len(num, data) in Fields(Encode(ws)) <==> data in Datas(ws, num)
    ensures data in Datas(ws, num) ==> |data| <= U64_MAX
  {
    ReadsBackWhole(ws);
    DatasAre(ws, num, data);
    if Len(num, data) in FieldsOf(ws) {
      FieldWritten(ws, Len(num, data));
      var w :| w in ws && FieldOf(w) == Len(num, data);
      assert w == Delimited(num, data);
    }
    if Delimited(num, data) in ws {
      WrittenIsField(ws, Delimited(num, data));
      PartFits(ws, Delimited(num, data));
    }
  }

  lemma {:induction false} NothingInNothing(key: Bytes)
    ensures ValueFind([], key) == None
  {
    assert Fields([]) == [];
  }

  /** A string read out of an optional record is the string the record holds. */
  lemma {:induction false} TextAgrees(json: Option<Value>, key: Bytes)
    requires JsonIsText(json) && (json.Some? ==> |EncodeValue(json.value)| <= U64_MAX)
    ensures ValueFind(JsonOf(JsonBytes(json)), key) == Text(json, key)
  {
    if json.Some? {
      SearchAgrees(json.value, key);
    } else {
      NothingInNothing(key);
    }
  }

  lemma {:induction false} EventReads(e: Event)
    requires |Encode(e.wire)| <= U64_MAX && e.WellFormed()
    ensures FieldStr(Encode(e.wire), 3) == AsText(e.sender)
    ensures FieldStr(Encode(e.wire), 4) == AsText(e.eventType)
    ensures FieldBytes(Encode(e.wire), 6) == JsonBytes(e.json)
    ensures e.json.Some? ==> |EncodeValue(e.json.value)| <= U64_MAX
  {
    ReadsFirst(e.wire, 3);
    ReadsFirst(e.wire, 4);
    ReadsFirst(e.wire, 6);
  }

  lemma {:induction false} EventAgrees(forms: Forms, e: Event, q: Query)
    requires |Encode(e.wire)| <= U64_MAX && e.WellFormed()
    ensures EventMatches(forms, Encode(e.wire), q) == Consumes(forms, e, q)
  {
    EventReads(e);
    TextAgrees(e.json, TIMESTAMP_KEY);
    TextAgrees(e.json, GATE_KEY);
  }

  lemma {:induction false} FlagReadsBack(st: Status)
    requires |Encode(st.wire)| <= U64_MAX && st.WellFormed()
    ensures VarintField(1, 1) in Fields(Encode(st.wire)) <==> st.success
  {
    ReadsBackWhole(st.wire);
    if VarintField(1, 1) in FieldsOf(st.wire) {
      FieldWritten(st.wire, VarintField(1, 1));
      var w :| w in st.wire && FieldOf(w) == VarintField(1, 1);
      assert w == Uint(1, 1);
    }
    if Uint(1, 1) in st.wire {
      WrittenIsField(st.wire, Uint(1, 1));
    }
  }

  /** A transaction is read as successful exactly when its effects report success. */
  lemma {:induction false} StatusReads(tx: Transaction)
    requires |Encode(tx.wire)| <= U64_MAX && tx.WellFormed()
    ensures EffectsSucceeded(Encode(tx.wire)) <==> tx.Succeeded()
  {
    ReadsFirst(tx.wire, 4);
    if tx.effects.Some? {
      ReadsFirst(tx.effects.value.wire, 4);
      if tx.effects.value.status.Some? {
        FlagReadsBack(tx.effects.value.status.value);
      }
    }
  }

  lemma {:induction false} EventAt(list: EventList, i: nat)
    requires |Encode(list.wire)| <= U64_MAX && list.WellFormed() && i < |list.events|
    ensures Len(3, Encode(list.events[i].wire)) in Fields(Encode(list.wire))
    ensures |Encode(list.events[i].wire)| <= U64_MAX
  {
    assert EventBytes(list.events)[i] in Datas(list.wire, 3);
    ReadsEach(list.wire, 3, Encode(list.events[i].wire));
  }

  lemma {:induction false} EventsAgree(forms: Forms, list: EventList, q: Query)
    requires |Encode(list.wire)| <= U64_MAX && list.WellFormed()
    ensures (exists f | f in Fields(Encode(list.wire)) :: IsConsumeFor(forms, f, q))
            <==> exists e | e in list.events :: Consumes(forms, e, q)
  {
    if f :| f in Fields(Encode(list.wire)) && IsConsumeFor(forms, f, q) {
      ReadsEach(list.wire, 3, f.data);
      assert f == Len(3, f.data);
      var i :| 0 <= i < |list.events| && EventBytes(list.events)[i] == f.data;
      EventAgrees(forms, list.events[i], q);
      assert list.events[i] in list.events;
    }
    if e :| e in list.events && Consumes(forms, e, q) {
      var i :| 0 <= i < |list.events| && list.events[i] == e;
      EventAt(list, i);
      EventAgrees(forms, e, q);
      assert IsConsumeFor(forms, Len(3, Encode(e.wire)), q);
    }
  }

  /**
   The byte-level check on a written reply says exactly whether its transaction succeeded and some event of it is a
   recent consume of the wanted type, by the wanted sender, for the wanted gate, whatever else the node sent along.
   */
  lemma {:induction false} ConsumeExactly(forms: Forms, reply: TxReply, q: Query)
    requires |Encode(reply.wire)| <= U64_MAX && reply.WellFormed()
    ensures ResponseHasConsume(forms, Encode(reply.wire), q) <==> HasConsume(forms, reply, q)
  {
    ReadsFirst(reply.wire, 1);
    if reply.tx.Some? {
      var tx := reply.tx.value;
      StatusReads(tx);
      ReadsFirst(tx.wire, 5);
      if tx.events.Some? {
        EventsAgree(forms, tx.events.value, q);
      }
    }
  }

  lemma {:induction false} ObjectAgrees(forms: Forms, o: Owned, gate: Option<Bytes>)
    requires |Encode(o.wire)| <= U64_MAX && o.WellFormed()
    ensures ObjectMatches(forms, Encode(o.wire), gate) == Grants(forms, o, gate)
  {
    ReadsFirst(o.wire, 100);
    TextAgrees(o.json, VARIANT_KEY);
    TextAgrees(o.json, USES_KEY);
    TextAgrees(o.json, GATE_KEY);
  }

  lemma {:induction false} ObjectAt(p: Page, i: nat)
    requires |Encode(p.wire)| <= U64_MAX && p.WellFormed() && i < |p.objects|
    ensures Len(1, Encode(p.objects[i].wire)) in Fields(Encode(p.wire))
    ensures |Encode(p.objects[i].wire)| <= U64_MAX
  {
    assert ObjectBytes(p.objects)[i] in Datas(p.wire, 1);
    ReadsEach(p.wire, 1, Encode(p.objects[i].wire));
  }

  /**
   The byte-level check on a written page says exactly whether some object of it is a usable pass for the gate,
   whatever else the node sent along.
   */
  lemma {:induction false} OwnedExactly(forms: Forms, p: Page, gate: Option<Bytes>)
    requires |Encode(p.wire)| <= U64_MAX && p.WellFormed()
    ensures ResponseHasOwned(forms, Encode(p.wire), gate) <==> exists o | o in p.objects :: Grants(forms, o, gate)
  {
    if f :| f in Fields(Encode(p.wire)) && IsPassFor(forms, f, gate) {
      ReadsEach(p.wire, 1, f.data);
      assert f == Len(1, f.data);
      var i :| 0 <= i < |p.objects| && ObjectBytes(p.objects)[i] == f.data;
      ObjectAgrees(forms, p.objects[i], gate);
      assert p.objects[i] in p.objects;
    }
    if o :| o in p.objects && Grants(forms, o, gate) {
      var i :| 0 <= i < |p.objects| && p.objects[i] == o;
      ObjectAt(p, i);
      ObjectAgrees(forms, o, gate);
      assert IsPassFor(forms, Len(1, Encode(o.wire)), gate);
    }
  }

  /** A page leads on exactly when it carries a token that is not empty. */
  lemma {:induction false} TokenReads(p: Page)
    requires |Encode(p.wire)| <= U64_MAX && p.WellFormed()
    ensures NextToken(Encode(p.wire)) == if p.token == Some([]) then None else p.token
  {
    ReadsFirst(p.wire, 2);
  }

  /** The flag a gate's record holds at a path. */
  function FlagAt(v: Option<Value>, key: Bytes): Option<bool> {
    if v.Some? && Member(v.value, key).Some? && Member(v.value, key).value.BoolValue?
    then Some(Member(v.value, key).value.flag) else None
  }

  lemma {:induction false} FlagReads(v: Value, key: Bytes)
    requires |EncodeValue(v)| <= U64_MAX && AllText(v)
    ensures (match ValueField(EncodeValue(v), key) case None => None case Some(b) => ValueAsBool(b)) == FlagAt(Some(v), key)
  {
    MemberAgrees(v, key);
    if Member(v, key).Some? {
      FlagAgrees(Member(v, key).value);
    }
  }

  /**
   A gate blocks access exactly when its record says both that it is paused and that pausing blocks access; a
   record in which either is missing or is not a flag is an error, never an open gate.
   */
  lemma {:induction false} GateExactly(v: Value)
    requires |EncodeValue(v)| <= U64_MAX && AllText(v)
    ensures var (paused, blocks) := (FlagAt(Some(v), PAUSED_KEY), FlagAt(Member(v, POLICY_KEY), BLOCKS_KEY));
            GateBlocksAccess(EncodeValue(v))
            == if paused.None? || blocks.None? then Failure(UnrecognisedShape) else Success(paused.value && blocks.value)
  {
    FlagReads(v, PAUSED_KEY);
    MemberAgrees(v, POLICY_KEY);
    if Member(v, POLICY_KEY).Some? {
      MemberIsText(v, POLICY_KEY);
      FlagReads(Member(v, POLICY_KEY).value, BLOCKS_KEY);
    }
  }
}
