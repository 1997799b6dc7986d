/** A value laid out flat: every named string in it, in reading order, with how deep it is. */
module Leaves {
  import opened Utf8Text
  import opened Values
  import opened Words

  /** A string entry called `name` in a struct with `depth` values around it. */
  datatype Leaf = Leaf(name: Bytes, text: Bytes, depth: nat)

  /** All the string entries of a value, whatever their depth, in the order they are written in. */
  function LeavesOf(v: Value, depth: nat): seq<Leaf>
    decreases v
  {
    match v
    case StructValue(entries) => EntryLeaves(entries, depth)
    case ListValue(items) => ItemLeaves(items, depth)
    case _ => []
  }

  function EntryLeaves(entries: seq<Entry>, depth: nat): seq<Leaf>
    decreases entries
  {
    if entries == [] then []
    else
      var e := entries[0];
      (if e.value.StringValue? then [Leaf(e.name, e.value.text, depth)] else LeavesOf(e.value, depth + 1))
      + EntryLeaves(entries[1..], depth)
  }

  function ItemLeaves(items: seq<Value>, depth: nat): seq<Leaf>
    decreases items
  {
    if items == [] then [] else LeavesOf(items[0], depth + 1) + ItemLeaves(items[1..], depth)
  }

  /** The first leaf of that name with fewer than 32 values around its struct. */
  function FirstLeaf(leaves: seq<Leaf>, key: Bytes): Option<Bytes> {
    if leaves == [] then None
    else if leaves[0].name == key && leaves[0].depth < 32 then Some(leaves[0].text)
    else FirstLeaf(leaves[1..], key)
  }

  /** What a value says under a name. */
  function Says(v: Value, key: Bytes): Option<Bytes> {
    FirstLeaf(LeavesOf(v, 0), key)
  }

  lemma {:induction false} FirstOfBoth(a: seq<Leaf>, b: seq<Leaf>, key: Bytes)
    ensures FirstLeaf(a + b, key) == if FirstLeaf(a, key).Some? then FirstLeaf(a, key) else FirstLeaf(b, key)
    decreases |a|
  {
    if a == [] {
      assert a + b == b;
    } else {
      assert (a + b)[1..] == a[1..] + b;
      FirstOfBoth(a[1..], b, key);
    }
  }

  lemma {:induction false} DeepLeaves(v: Value, depth: nat)
    ensures forall l | l in LeavesOf(v, depth) :: depth <= l.depth
    decreases v, 1
  {
    match v
    case StructValue(entries) => DeepEntryLeaves(entries, depth);
    case ListValue(items) => DeepItemLeaves(items, depth);
    case _ =>
  }

  lemma {:induction false} DeepEntryLeaves(entries: seq<Entry>, depth: nat)
    ensures forall l | l in EntryLeaves(entries, depth) :: depth <= l.depth
    decreases entries, 0
  {
    if entries != [] {
      DeepLeaves(entries[0].value, depth + 1);
      DeepEntryLeaves(entries[1..], depth);
    }
  }

  lemma {:induction false} DeepItemLeaves(items: seq<Value>, depth: nat)
    ensures forall l | l in ItemLeaves(items, depth) :: depth <= l.depth
    decreases items, 0
  {
    if items != [] {
      DeepLeaves(items[0], depth + 1);
      DeepItemLeaves(items[1..], depth);
    }
  }

  lemma {:induction false} NoneTooDeep(leaves: seq<Leaf>, key: Bytes)
    requires forall l | l in leaves :: 32 <= l.depth
    ensures FirstLeaf(leaves, key) == None
    decreases |leaves|
  {
    if leaves != [] {
      assert leaves[0] in leaves && forall l | l in leaves[1..] :: l in leaves;
      NoneTooDeep(leaves[1..], key);
    }
  }

  lemma {:induction false} FindIsFirst(v: Value, key: Bytes, depth: nat)
    ensures Find(v, key, depth) == FirstLeaf(LeavesOf(v, depth), key)
    decreases v, 1
  {
    if MAX_VALUE_DEPTH <= depth {
      DeepLeaves(v, depth);
      NoneTooDeep(LeavesOf(v, depth), key);
    } else {
      match v
      case StructValue(entries) => FindInEntriesIsFirst(entries, key, depth);
      case ListValue(items) => FindInItemsIsFirst(items, key, depth);
      case _ =>
    }
  }

  lemma {:induction false} FindInEntriesIsFirst(entries: seq<Entry>, key: Bytes, depth: nat)
    requires depth < 32
    ensures FindInEntries(entries, key, depth + 1) == FirstLeaf(EntryLeaves(entries, depth), key)
    decreases entries, 0
  {
    if entries != [] {
      var e := entries[0];
      FindIsFirst(e.value, key, depth + 1);
      FindInEntriesIsFirst(entries[1..], key, depth);
      var here := if e.value.StringValue? then [Leaf(e.name, e.value.text, depth)] else LeavesOf(e.value, depth + 1);
      FirstOfBoth(here, EntryLeaves(entries[1..], depth), key);
    }
  }

  lemma {:induction false} FindInItemsIsFirst(items: seq<Value>, key: Bytes, depth: nat)
    requires depth < 32
    ensures FindInItems(items, key, depth + 1) == FirstLeaf(ItemLeaves(items, depth), key)
    decreases items, 0
  {
    if items != [] {
      FindIsFirst(items[0], key, depth + 1);
      FindInItemsIsFirst(items[1..], key, depth);
      FirstOfBoth(LeavesOf(items[0], depth + 1), ItemLeaves(items[1..], depth), key);
    }
  }

  /** The search on the bytes of a value finds the first such leaf, in reading order, that is not nested too deep. */
  lemma {:induction false} SearchSays(v: Value, key: Bytes)
    requires |EncodeValue(v)| <= U64_MAX && AllText(v)
    ensures ValueFind(EncodeValue(v), key) == Says(v, key)
  {
    SearchAgrees(v, key);
    FindIsFirst(v, key, 0);
  }

  // ---- How deep is too deep ----

  /** `v` inside `n` lists. */
  function InLists(v: Value, n: nat): Value {
    if n == 0 then v else ListValue([InLists(v, n - 1)])
  }

  lemma {:induction false} LeavesInLists(v: Value, n: nat, depth: nat)
    ensures LeavesOf(InLists(v, n), depth) == LeavesOf(v, depth + n)
    decreases n
  {
    if n != 0 {
      var inner := InLists(v, n - 1);
      assert ItemLeaves([inner], depth) == LeavesOf(inner, depth + 1) + ItemLeaves([inner][1..], depth);
      LeavesInLists(v, n - 1, depth + 1);
    }
  }

  lemma {:induction false} ListsAreText(v: Value, n: nat)
    requires AllText(v)
    ensures AllText(InLists(v, n))
    decreases n
  {
    if n != 0 {
      ListsAreText(v, n - 1);
    }
  }

  /** A record inside 31 lists is still read; inside 32 it is not. */
  lemma {:induction false} ReadWithinThirtyTwo(key: Bytes, text: Bytes, n: nat)
    requires IsUtf8(key) && IsUtf8(text)
    requires |EncodeValue(InLists(StructValue([Entry(key, StringValue(text))]), n))| <= U64_MAX
    ensures ValueFind(EncodeValue(InLists(StructValue([Entry(key, StringValue(text))]), n)), key)
            == if n < 32 then Some(text) else None
  {
    var entry := Entry(key, StringValue(text));
    var v := StructValue([entry]);
    ListsAreText(v, n);
    SearchSays(InLists(v, n), key);
    LeavesInLists(v, n, 0);
    assert EntryLeaves([entry], n) == [Leaf(key, text, n)] + EntryLeaves([entry][1..], n);
    assert LeavesOf(v, n) == [Leaf(key, text, n)];
    assert FirstLeaf([Leaf(key, text, n)][1..], key) == None;
  }
}
