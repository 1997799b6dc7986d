/**
 `google.protobuf.Value`: the depth-bounded search the gateway runs on the bytes, and the same search on the tree
 those bytes encode.
 */
module Values {
  import opened Words
  import opened ProtoWire
  import opened Utf8Text

  /** Deepest nesting the search descends into. */
  const MAX_VALUE_DEPTH: nat := 32

  // ---- Text ----

  /** The text of the first length-delimited field `num` of a message. */
  function FieldStr(msg: Bytes, num: u32): Option<Bytes> {
    match FieldBytes(msg, num)
    case Some(b) => if IsUtf8(b) then Some(b) else None
    case None => None
  }

  // ---- The search on bytes ----

  function ValueFind(value: Bytes, key: Bytes): Option<Bytes> {
    ValueFindAt(value, key, 0)
  }

  function ValueFindAt(value: Bytes, key: Bytes, depth: nat): Option<Bytes>
    requires depth <= MAX_VALUE_DEPTH
    decreases MAX_VALUE_DEPTH - depth, 1, 0
  {
    if MAX_VALUE_DEPTH <= depth then None else FindInFields(Fields(value), key, depth)
  }

  function FindInFields(fields: seq<Field>, key: Bytes, depth: nat): Option<Bytes>
    requires depth < MAX_VALUE_DEPTH
    decreases MAX_VALUE_DEPTH - depth, 0, |fields|
  {
    if fields == [] then None
    else
      var here :=
        match fields[0]
        case Len(5, s) => FindInStruct(Fields(s), key, depth + 1)
        case Len(6, l) => FindInList(Fields(l), key, depth + 1)
        case _ => None;
      if here.Some? then here else FindInFields(fields[1..], key, depth)
  }

  function FindInList(fields: seq<Field>, key: Bytes, depth: nat): Option<Bytes>
    requires depth <= MAX_VALUE_DEPTH
    decreases MAX_VALUE_DEPTH - depth, 2, |fields|
  {
    if fields == [] then None
    else
      var here :=
        match fields[0]
        case Len(1, item) => ValueFindAt(item, key, depth)
        case _ => None;
      if here.Some? then here else FindInList(fields[1..], key, depth)
  }

  function FindInEntry(entry: Bytes, key: Bytes, depth: nat): Option<Bytes>
    requires depth <= MAX_VALUE_DEPTH
    decreases MAX_VALUE_DEPTH - depth, 2, 0
  {
    match (FieldStr(entry, 1), FieldBytes(entry, 2))
    case (Some(k), Some(v)) =>
      if k == key && FieldStr(v, 3).Some? then FieldStr(v, 3) else ValueFindAt(v, key, depth)
    case _ => None
  }

  function FindInStruct(fields: seq<Field>, key: Bytes, depth: nat): Option<Bytes>
    requires depth <= MAX_VALUE_DEPTH
    decreases MAX_VALUE_DEPTH - depth, 3, |fields|
  {
    if fields == [] then None
    else
      var here :=
        match fields[0]
        case Len(1, entry) => FindInEntry(entry, key, depth)
        case _ => None;
      if here.Some? then here else FindInStruct(fields[1..], key, depth)
  }

  // ---- The tree and its encoding ----

  datatype Value =
    | NullValue
    | NumberValue(number: Eight)
    | StringValue(text: Bytes)
    | BoolValue(flag: bool)
    | StructValue(entries: seq<Entry>)
    | ListValue(items: seq<Value>)

  datatype Entry = Entry(name: Bytes, value: Value)

  function EncodeValue(v: Value): Bytes
    decreases v, 1
  {
    Encode([ValueWritten(v)])
  }

  function ValueWritten(v: Value): Written
    decreases v, 0
  {
    match v
    case NullValue => Uint(1, 0)
    case NumberValue(number) => EightBytes(2, number)
    case StringValue(text) => Delimited(3, text)
    case BoolValue(flag) => Uint(4, if flag then 1 else 0)
    case StructValue(entries) => Delimited(5, Encode(EntriesWritten(entries)))
    case ListValue(items) => Delimited(6, Encode(ItemsWritten(items)))
  }

  function EncodeEntry(e: Entry): Bytes
    decreases e, 0
  {
    Encode([Delimited(1, e.name), Delimited(2, EncodeValue(e.value))])
  }

  function EntriesWritten(entries: seq<Entry>): seq<Written>
    decreases entries, 0
  {
    if entries == [] then [] else [Delimited(1, EncodeEntry(entries[0]))] + EntriesWritten(entries[1..])
  }

  function ItemsWritten(items: seq<Value>): seq<Written>
    decreases items, 0
  {
    if items == [] then [] else [Delimited(1, EncodeValue(items[0]))] + ItemsWritten(items[1..])
  }

  /** Every string in the tree is text. */
  predicate AllText(v: Value)
    decreases v
  {
    match v
    case StringValue(text) => IsUtf8(text)
    case StructValue(entries) => forall e | e in entries :: IsUtf8(e.name) && AllText(e.value)
    case ListValue(items) => forall i | i in items :: AllText(i)
    case _ => true
  }

  // ---- The search on the tree ----

  /** Pre-order: the first entry called `key` that holds a string, no more than 32 levels down. */
  function Find(v: Value, key: Bytes, depth: nat): Option<Bytes>
    decreases v
  {
    if MAX_VALUE_DEPTH <= depth then None
    else
      match v
      case StructValue(entries) => FindInEntries(entries, key, depth + 1)
      case ListValue(items) => FindInItems(items, key, depth + 1)
      case _ => None
  }

  function FindInEntries(entries: seq<Entry>, key: Bytes, depth: nat): Option<Bytes>
    decreases entries
  {
    if entries == [] then None
    else
      var e := entries[0];
      var here := if e.name == key && e.value.StringValue? then Some(e.value.text) else Find(e.value, key, depth);
      if here.Some? then here else FindInEntries(entries[1..], key, depth)
  }

  function FindInItems(items: seq<Value>, key: Bytes, depth: nat): Option<Bytes>
    decreases items
  {
    if items == [] then None
    else
      var here := Find(items[0], key, depth);
      if here.Some? then here else FindInItems(items[1..], key, depth)
  }

  // ---- They agree ----

  lemma {:induction false} PartFits(ws: seq<Written>, w: Written)
    requires w in ws && w.Delimited?
    ensures |w.data| <= |Encode(ws)|
    decreases |ws|
  {
    if ws[0] != w {
      PartFits(ws[1..], w);
    }
  }

  lemma {:induction false} FitsIsWritable(ws: seq<Written>)
    requires |Encode(ws)| <= U64_MAX
    ensures Writable(ws)
  {
    forall w | w in ws && w.Delimited?
      ensures |w.data| <= U64_MAX
    {
      PartFits(ws, w);
    }
  }

  /** A message that fits reads back as the fields it was written from. */
  lemma {:induction false} ReadsBackWhole(ws: seq<Written>)
    requires |Encode(ws)| <= U64_MAX
    ensures Fields(Encode(ws)) == FieldsOf(ws)
  {
    FitsIsWritable(ws);
    ReadsBackExactly(ws);
  }

  lemma {:induction false} OneField(w: Written)
    requires |Encode([w])| <= U64_MAX
    ensures Fields(Encode([w])) == [FieldOf(w)]
    ensures w.Delimited? ==> |w.data| <= U64_MAX
  {
    ReadsBackWhole([w]);
    assert [w][1..] == [];
    if w.Delimited? {
      PartFits([w], w);
    }
  }

  lemma {:induction false} TwoFields(a: Written, b: Written)
    ensures FieldsOf([a, b]) == [FieldOf(a), FieldOf(b)]
  {
    assert [a, b][1..] == [b] && [b][1..] == [];
    assert FieldsOf([b]) == [FieldOf(b)];
  }

  lemma {:induction false} FirstOfTwo(a: Field, b: Field, num: u32)
    requires a.Len? && b.Len?
    ensures FirstLen([a, b], num)
            == if a.num == num then Some(a.data) else if b.num == num then Some(b.data) else None
  {
    assert [a, b][1..] == [b] && [b][1..] == [];
    assert FirstLen([b], num) == if b.num == num then Some(b.data) else None;
  }

  lemma {:induction false} EntryReads(e: Entry)
    requires |EncodeEntry(e)| <= U64_MAX
    ensures FieldBytes(EncodeEntry(e), 1) == Some(e.name)
    ensures FieldBytes(EncodeEntry(e), 2) == Some(EncodeValue(e.value))
    ensures |EncodeValue(e.value)| <= U64_MAX
  {
    var (a, b) := (Delimited(1, e.name), Delimited(2, EncodeValue(e.value)));
    ReadsBackWhole([a, b]);
    TwoFields(a, b);
    FirstOfTwo(FieldOf(a), FieldOf(b), 1);
    FirstOfTwo(FieldOf(a), FieldOf(b), 2);
    PartFits([a, b], b);
  }

  lemma {:induction false} FirstOfOne(f: Field, num: u32)
    ensures FirstLen([f], num) == if f.Len? && f.num == num then Some(f.data) else None
  {
    assert [f][1..] == [];
  }

  /** The one field of a value. */
  lemma {:induction false} ValueReads(v: Value, num: u32)
    requires |EncodeValue(v)| <= U64_MAX
    ensures FieldBytes(EncodeValue(v), num)
            == if ValueWritten(v).Delimited? && ValueWritten(v).field == num then Some(ValueWritten(v).data) else None
    ensures ValueWritten(v).Delimited? ==> |ValueWritten(v).data| <= U64_MAX
  {
    OneField(ValueWritten(v));
    FirstOfOne(FieldOf(ValueWritten(v)), num);
  }

  /** A value's field 3 is its text, if it is a string. */
  lemma {:induction false} TextReads(v: Value)
    requires |EncodeValue(v)| <= U64_MAX && AllText(v)
    ensures FieldStr(EncodeValue(v), 3) == if v.StringValue? then Some(v.text) else None
  {
    ValueReads(v, 3);
  }

  lemma {:induction false} TailFits(ws: seq<Written>)
    requires ws != [] && |Encode(ws)| <= U64_MAX
    ensures |Encode(ws[1..])| <= U64_MAX
    ensures ws[0].Delimited? ==> |ws[0].data| <= U64_MAX
  {
    if ws[0].Delimited? {
      PartFits(ws, ws[0]);
    }
  }

  lemma {:induction false} EntriesSplit(entries: seq<Entry>)
    requires entries != [] && |Encode(EntriesWritten(entries))| <= U64_MAX
    ensures FieldsOf(EntriesWritten(entries)) == [Len(1, EncodeEntry(entries[0]))] + FieldsOf(EntriesWritten(entries[1..]))
    ensures |EncodeEntry(entries[0])| <= U64_MAX && |Encode(EntriesWritten(entries[1..]))| <= U64_MAX
  {
    var ws := EntriesWritten(entries);
    assert ws[1..] == EntriesWritten(entries[1..]);
    TailFits(ws);
  }

  lemma {:induction false} ItemsSplit(items: seq<Value>)
    requires items != [] && |Encode(ItemsWritten(items))| <= U64_MAX
    ensures FieldsOf(ItemsWritten(items)) == [Len(1, EncodeValue(items[0]))] + FieldsOf(ItemsWritten(items[1..]))
    ensures |EncodeValue(items[0])| <= U64_MAX && |Encode(ItemsWritten(items[1..]))| <= U64_MAX
  {
    var ws := ItemsWritten(items);
    assert ws[1..] == ItemsWritten(items[1..]);
    TailFits(ws);
  }

  lemma {:induction false} FindInStructStep(entry: Bytes, rest: seq<Field>, key: Bytes, depth: nat)
    requires depth <= MAX_VALUE_DEPTH
    ensures FindInStruct([Len(1, entry)] + rest, key, depth)
            == if FindInEntry(entry, key, depth).Some? then FindInEntry(entry, key, depth) else FindInStruct(rest, key, depth)
  {
    assert ([Len(1, entry)] + rest)[1..] == rest;
  }

  lemma {:induction false} FindInListStep(item: Bytes, rest: seq<Field>, key: Bytes, depth: nat)
    requires depth <= MAX_VALUE_DEPTH
    ensures FindInList([Len(1, item)] + rest, key, depth)
            == if ValueFindAt(item, key, depth).Some? then ValueFindAt(item, key, depth) else FindInList(rest, key, depth)
  {
    assert ([Len(1, item)] + rest)[1..] == rest;
  }

  lemma {:induction false} EntryAgrees(e: Entry, key: Bytes, depth: nat)
    requires depth <= MAX_VALUE_DEPTH && |EncodeEntry(e)| <= U64_MAX && IsUtf8(e.name) && AllText(e.value)
    ensures FindInEntry(EncodeEntry(e), key, depth)
            == if e.name == key && e.value.StringValue? then Some(e.value.text) else Find(e.value, key, depth)
    decreases e, 2
  {
    EntryReads(e);
    TextReads(e.value);
    ValueAgrees(e.value, key, depth);
  }

  lemma {:induction false} EntriesAgree(entries: seq<Entry>, key: Bytes, depth: nat)
    requires depth <= MAX_VALUE_DEPTH && |Encode(EntriesWritten(entries))| <= U64_MAX
    requires forall e | e in entries :: IsUtf8(e.name) && AllText(e.value)
    ensures FindInStruct(FieldsOf(EntriesWritten(entries)), key, depth) == FindInEntries(entries, key, depth)
    decreases entries, 0
  {
    if entries != [] {
      EntriesSplit(entries);
      assert entries[0] in entries;
      FindInStructStep(EncodeEntry(entries[0]), FieldsOf(EntriesWritten(entries[1..])), key, depth);
      EntryAgrees(entries[0], key, depth);
      EntriesAgree(entries[1..], key, depth);
    }
  }

  lemma {:induction false} ItemsAgree(items: seq<Value>, key: Bytes, depth: nat)
    requires depth <= MAX_VALUE_DEPTH && |Encode(ItemsWritten(items))| <= U64_MAX
    requires forall i | i in items :: AllText(i)
    ensures FindInList(FieldsOf(ItemsWritten(items)), key, depth) == FindInItems(items, key, depth)
    decreases items, 0
  {
    if items != [] {
      ItemsSplit(items);
      assert items[0] in items;
      FindInListStep(EncodeValue(items[0]), FieldsOf(ItemsWritten(items[1..])), key, depth);
      ValueAgrees(items[0], key, depth);
      ItemsAgree(items[1..], key, depth);
    }
  }

  lemma {:induction false} FindInOne(f: Field, key: Bytes, depth: nat)
    requires depth < MAX_VALUE_DEPTH
    ensures FindInFields([f], key, depth)
            == if f.Len? && f.num == 5 then FindInStruct(Fields(f.data), key, depth + 1)
               else if f.Len? && f.num == 6 then FindInList(Fields(f.data), key, depth + 1)
               else None
  {
    assert [f][1..] == [];
  }

  lemma {:induction false} SearchesItsField(v: Value, key: Bytes, depth: nat)
    requires depth < MAX_VALUE_DEPTH && |EncodeValue(v)| <= U64_MAX
    ensures ValueFindAt(EncodeValue(v), key, depth)
            == if v.StructValue? then FindInStruct(Fields(Encode(EntriesWritten(v.entries))), key, depth + 1)
               else if v.ListValue? then FindInList(Fields(Encode(ItemsWritten(v.items))), key, depth + 1)
               else None
    ensures v.StructValue? ==> |Encode(EntriesWritten(v.entries))| <= U64_MAX
    ensures v.ListValue? ==> |Encode(ItemsWritten(v.items))| <= U64_MAX
  {
    OneField(ValueWritten(v));
    FindInOne(FieldOf(ValueWritten(v)), key, depth);
  }

  lemma {:induction false} FindsInItsField(v: Value, key: Bytes, depth: nat)
    requires depth < MAX_VALUE_DEPTH
    ensures Find(v, key, depth)
            == if v.StructValue? then FindInEntries(v.entries, key, depth + 1)
               else if v.ListValue? then FindInItems(v.items, key, depth + 1)
               else None
  {
  }

  lemma {:induction false} TooDeep(value: Bytes, v: Value, key: Bytes)
    ensures ValueFindAt(value, key, MAX_VALUE_DEPTH) == None == Find(v, key, MAX_VALUE_DEPTH)
  {
  }

  lemma {:induction false} SearchesStruct(v: Value, key: Bytes, depth: nat)
    requires depth < MAX_VALUE_DEPTH && |EncodeValue(v)| <= U64_MAX && v.StructValue?
    ensures ValueFindAt(EncodeValue(v), key, depth) == FindInStruct(FieldsOf(EntriesWritten(v.entries)), key, depth + 1)
    ensures |Encode(EntriesWritten(v.entries))| <= U64_MAX
  {
    SearchesItsField(v, key, depth);
    ReadsBackWhole(EntriesWritten(v.entries));
  }

  lemma {:induction false} SearchesList(v: Value, key: Bytes, depth: nat)
    requires depth < MAX_VALUE_DEPTH && |EncodeValue(v)| <= U64_MAX && v.ListValue?
    ensures ValueFindAt(EncodeValue(v), key, depth) == FindInList(FieldsOf(ItemsWritten(v.items)), key, depth + 1)
    ensures |Encode(ItemsWritten(v.items))| <= U64_MAX
  {
    SearchesItsField(v, key, depth);
    ReadsBackWhole(ItemsWritten(v.items));
  }

  lemma {:induction false} StructAgrees(v: Value, key: Bytes, depth: nat)
    requires depth < MAX_VALUE_DEPTH && |EncodeValue(v)| <= U64_MAX && AllText(v) && v.StructValue?
    ensures ValueFindAt(EncodeValue(v), key, depth) == Find(v, key, depth)
    decreases v, 0
  {
    SearchesStruct(v, key, depth);
    EntriesAgree(v.entries, key, depth + 1);
    FindsInItsField(v, key, depth);
  }

  lemma {:induction false} ListAgrees(v: Value, key: Bytes, depth: nat)
    requires depth < MAX_VALUE_DEPTH && |EncodeValue(v)| <= U64_MAX && AllText(v) && v.ListValue?
    ensures ValueFindAt(EncodeValue(v), key, depth) == Find(v, key, depth)
    decreases v, 0
  {
    SearchesList(v, key, depth);
    ItemsAgree(v.items, key, depth + 1);
    FindsInItsField(v, key, depth);
  }

  lemma {:induction false} LeafAgrees(v: Value, key: Bytes, depth: nat)
    requires depth < MAX_VALUE_DEPTH && |EncodeValue(v)| <= U64_MAX && !v.StructValue? && !v.ListValue?
    ensures ValueFindAt(EncodeValue(v), key, depth) == Find(v, key, depth)
  {
    SearchesItsField(v, key, depth);
    FindsInItsField(v, key, depth);
  }

  lemma {:induction false} ValueAgrees(v: Value, key: Bytes, depth: nat)
    requires depth <= MAX_VALUE_DEPTH && |EncodeValue(v)| <= U64_MAX && AllText(v)
    ensures ValueFindAt(EncodeValue(v), key, depth) == Find(v, key, depth)
    decreases v, 1
  {
    if depth == MAX_VALUE_DEPTH {
      TooDeep(EncodeValue(v), v, key);
    } else if v.StructValue? {
      StructAgrees(v, key, depth);
    } else if v.ListValue? {
      ListAgrees(v, key, depth);
    } else {
      LeafAgrees(v, key, depth);
    }
  }

  /** Searching the encoding of any tree finds what a depth-32 pre-order search of the tree finds. */
  lemma {:induction false} SearchAgrees(v: Value, key: Bytes)
    requires |EncodeValue(v)| <= U64_MAX && AllText(v)
    ensures ValueFind(EncodeValue(v), key) == Find(v, key, 0)
  {
    ValueAgrees(v, key, 0);
  }

  // ---- Direct lookups ----

  function FirstEntry(fields: seq<Field>, key: Bytes): Option<Bytes> {
    if fields == [] then None
    else
      var here :=
        match fields[0]
        case Len(1, entry) => if FieldStr(entry, 1) == Some(key) then FieldBytes(entry, 2) else None
        case _ => None;
      if here.Some? then here else FirstEntry(fields[1..], key)
  }

  /** The bytes of a struct's own entry `key`. */
  function ValueField(value: Bytes, key: Bytes): Option<Bytes> {
    match FieldBytes(value, 5)
    case None => None
    case Some(s) => FirstEntry(Fields(s), key)
  }

  function FirstFlag(fields: seq<Field>): Option<bool> {
    if fields == [] then None
    else if fields[0].VarintField? && fields[0].num == 4 then Some(fields[0].value != 0)
    else FirstFlag(fields[1..])
  }

  function ValueAsBool(value: Bytes): Option<bool> {
    FirstFlag(Fields(value))
  }

  function EntryNamed(entries: seq<Entry>, key: Bytes): Option<Value> {
    if entries == [] then None
    else if entries[0].name == key then Some(entries[0].value)
    else EntryNamed(entries[1..], key)
  }

  /** The tree's own entry `key`. */
  function Member(v: Value, key: Bytes): Option<Value> {
    if v.StructValue? then EntryNamed(v.entries, key) else None
  }

  function Encoding(v: Option<Value>): Option<Bytes> {
    match v
    case None => None
    case Some(u) => Some(EncodeValue(u))
  }

  lemma {:induction false} FirstEntryAgrees(entries: seq<Entry>, key: Bytes)
    requires |Encode(EntriesWritten(entries))| <= U64_MAX
    requires forall e | e in entries :: IsUtf8(e.name)
    ensures FirstEntry(FieldsOf(EntriesWritten(entries)), key) == Encoding(EntryNamed(entries, key))
    ensures var found := EntryNamed(entries, key);
            found.Some? ==> |EncodeValue(found.value)| <= U64_MAX
    decreases |entries|
  {
    if entries != [] {
      var e := entries[0];
      EntriesSplit(entries);
      assert e in entries;
      EntryReads(e);
      FirstEntryStep(EncodeEntry(e), FieldsOf(EntriesWritten(entries[1..])), key);
      FirstEntryAgrees(entries[1..], key);
    }
  }

  lemma {:induction false} FirstEntryStep(entry: Bytes, rest: seq<Field>, key: Bytes)
    ensures FirstEntry([Len(1, entry)] + rest, key)
            == if FieldStr(entry, 1) == Some(key) && FieldBytes(entry, 2).Some? then FieldBytes(entry, 2)
               else FirstEntry(rest, key)
  {
    assert ([Len(1, entry)] + rest)[1..] == rest;
  }

  /** A value's field 5 is its struct, if it is one. */
  lemma {:induction false} StructReads(v: Value)
    requires |EncodeValue(v)| <= U64_MAX
    ensures FieldBytes(EncodeValue(v), 5) == if v.StructValue? then Some(Encode(EntriesWritten(v.entries))) else None
    ensures v.StructValue? ==> |Encode(EntriesWritten(v.entries))| <= U64_MAX
  {
    ValueReads(v, 5);
  }

  lemma {:induction false} StructMember(v: Value, key: Bytes)
    requires v.StructValue? && |EncodeValue(v)| <= U64_MAX && AllText(v)
    ensures ValueField(EncodeValue(v), key) == Encoding(EntryNamed(v.entries, key))
    ensures EntryNamed(v.entries, key).Some? ==> |EncodeValue(EntryNamed(v.entries, key).value)| <= U64_MAX
  {
    StructReads(v);
    ReadsBackWhole(EntriesWritten(v.entries));
    FirstEntryAgrees(v.entries, key);
  }

  /** The direct lookup reads the tree's own entry. */
  lemma {:induction false} MemberAgrees(v: Value, key: Bytes)
    requires |EncodeValue(v)| <= U64_MAX && AllText(v)
    ensures ValueField(EncodeValue(v), key) == Encoding(Member(v, key))
    ensures Member(v, key).Some? ==> |EncodeValue(Member(v, key).value)| <= U64_MAX
  {
    if v.StructValue? {
      StructMember(v, key);
    } else {
      StructReads(v);
    }
  }

  lemma {:induction false} FlagOfOne(f: Field)
    ensures FirstFlag([f]) == if f.VarintField? && f.num == 4 then Some(f.value != 0) else None
  {
    assert [f][1..] == [];
  }

  lemma {:induction false} FlagAgrees(v: Value)
    requires |EncodeValue(v)| <= U64_MAX
    ensures ValueAsBool(EncodeValue(v)) == if v.BoolValue? then Some(v.flag) else None
  {
    OneField(ValueWritten(v));
    FlagOfOne(FieldOf(ValueWritten(v)));
  }

  lemma {:induction false} MemberIsText(v: Value, key: Bytes)
    requires AllText(v) && Member(v, key).Some?
    ensures AllText(Member(v, key).value)
  {
    EntryIn(v.entries, key);
  }

  lemma {:induction false} EntryIn(entries: seq<Entry>, key: Bytes)
    requires EntryNamed(entries, key).Some?
    ensures exists e :: e in entries && e.value == EntryNamed(entries, key).value
    decreases |entries|
  {
    if entries[0].name == key {
      assert entries[0] in entries;
    } else {
      EntryIn(entries[1..], key);
      var e :| e in entries[1..] && e.value == EntryNamed(entries[1..], key).value;
      assert e in entries;
    }
  }
}
