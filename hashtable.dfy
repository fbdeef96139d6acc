/**
 * The CS50 hashtable as written: a fixed array of `numSlots` slots, each
 * holding at most one (key, item) pair. There is no chaining: the slot
 * chosen by the hash is the only place a key can live, and a slot that is
 * already taken refuses every later key that hashes to it.
 *
 * The C functions take a table pointer that may be NULL; here they are
 * module-level methods over a nullable `Table?`, and a NULL key or item is
 * `None`. A callback that may be NULL is a `bool` saying whether one was
 * given, and the method returns the arguments the callback receives.
 */
module Hashtable {
  import opened Options

  /** The hash service `hash_jenkins(key, mod)`: only its range is known. */
  type HashFn = h: (string, int) -> int | forall key: string, n: int :: 0 < n ==> 0 <= h(key, n) < n
    witness (key: string, n: int) => 0

  /** One slot, `hashtableNode_t`: a key and an item, each possibly NULL. */
  datatype Slot<Item> = Slot(key: Option<string>, item: Option<Item>)

  /** The slot value `hashtable_new` writes everywhere. */
  function EmptySlot<Item>(): Slot<Item> { Slot(None, None) }

  /**
   * The table invariant: a slot's key and item are NULL together, and an
   * occupied slot `i` holds a key whose hash is `i`.
   */
  ghost predicate WellFormed<Item>(s: seq<Slot<Item>>, h: HashFn)
  {
    && Paired(s)
    && forall i :: 0 <= i < |s| && s[i].key.Some? ==> h(s[i].key.value, |s|) == i
  }

  /** Every slot's key and item are NULL together. */
  ghost predicate Paired<Item>(s: seq<Slot<Item>>)
  {
    forall i :: 0 <= i < |s| ==> (s[i].key.Some? <==> s[i].item.Some?)
  }

  /** The slot `key` hashes to in a table of `|s|` slots. */
  function SlotOf<Item>(s: seq<Slot<Item>>, h: HashFn, key: string): (i: int)
    requires 0 < |s|
    ensures 0 <= i < |s|
  {
    h(key, |s|)
  }

  /** Whether an insert of `key` (with non-NULL arguments) is accepted: its slot is empty. */
  predicate Accepts<Item>(s: seq<Slot<Item>>, h: HashFn, key: string)
    requires 0 < |s|
  {
    s[SlotOf(s, h, key)].key.None?
  }

  /** The slots after `hashtable_insert(ht, key, item)` with non-NULL arguments. */
  function AfterInsert<Item>(s: seq<Slot<Item>>, h: HashFn, key: string, item: Item): seq<Slot<Item>>
    requires 0 < |s|
  {
    if Accepts(s, h, key) then s[SlotOf(s, h, key) := Slot(Some(key), Some(item))] else s
  }

  /** What `hashtable_find(ht, key)` returns for a non-NULL key: the item in the hashed slot. */
  function Lookup<Item>(s: seq<Slot<Item>>, h: HashFn, key: string): Option<Item>
    requires 0 < |s|
  {
    s[SlotOf(s, h, key)].item
  }

  /** The slots after a series of inserts, applied in order. */
  function InsertAll<Item>(s: seq<Slot<Item>>, h: HashFn, ops: seq<(string, Item)>): seq<Slot<Item>>
    requires 0 < |s|
    decreases |ops|
  {
    if ops == [] then s
    else
      var s' := AfterInsert(s, h, ops[0].0, ops[0].1);
      assert |s'| == |s|;
      InsertAll(s', h, ops[1..])
  }

  /** The (key, item) pairs of the occupied slots, in increasing slot order. */
  function Entries<Item>(s: seq<Slot<Item>>): seq<(string, Option<Item>)>
    decreases |s|
  {
    if s == [] then []
    else
      var last := s[|s| - 1];
      Entries(s[..|s| - 1]) + (if last.key.Some? then [(last.key.value, last.item)] else [])
  }

  /** The item of every slot, in slot order, NULL for an empty slot. */
  function SlotItems<Item>(s: seq<Slot<Item>>): (r: seq<Option<Item>>)
    ensures |r| == |s|
    ensures forall i :: 0 <= i < |s| ==> r[i] == s[i].item
    decreases |s|
  {
    if s == [] then [] else SlotItems(s[..|s| - 1]) + [s[|s| - 1].item]
  }

  /** The non-NULL values of `xs`, in order. */
  function NonNull<Item>(xs: seq<Option<Item>>): seq<Item>
    decreases |xs|
  {
    if xs == [] then []
    else NonNull(xs[..|xs| - 1]) + (if xs[|xs| - 1].Some? then [xs[|xs| - 1].value] else [])
  }

  /** The items of a sequence of (key, item) pairs, NULL ones dropped. */
  function EntryItems<Item>(es: seq<(string, Option<Item>)>): seq<Item>
    decreases |es|
  {
    if es == [] then []
    else EntryItems(es[..|es| - 1]) + (if es[|es| - 1].1.Some? then [es[|es| - 1].1.value] else [])
  }

  /** `hashtable_t`: the slot count, the slot array and the hash it is used with. */
  class Table<Item> {
    const numSlots: int
    const slots: array<Slot<Item>>
    const hash: HashFn

    ghost predicate Valid()
      reads this, slots
    {
      0 < numSlots && slots.Length == numSlots && WellFormed(slots[..], hash)
    }

    /** The successful path of `hashtable_new`: every slot set to (NULL, NULL). */
    constructor (numSlots: int, hash: HashFn)
      requires 0 < numSlots
      ensures Valid() && fresh(slots)
      ensures this.numSlots == numSlots && this.hash == hash
      ensures forall i :: 0 <= i < numSlots ==> slots[i] == EmptySlot()
    {
      var a := new Slot<Item>[numSlots];
      for i := 0 to numSlots
        invariant forall j :: 0 <= j < i ==> a[j] == EmptySlot()
      {
        a[i] := EmptySlot();
      }
      this.numSlots := numSlots;
      this.slots := a;
      this.hash := hash;
    }
  }

  /** `hashtable_new`: NULL for a non-positive slot count, otherwise an all-empty table. */
  method New<Item>(numSlots: int, hash: HashFn) returns (ht: Table?<Item>)
    ensures ht == null <==> numSlots <= 0
    ensures ht != null ==> fresh(ht) && fresh(ht.slots) && ht.Valid()
    ensures ht != null ==> ht.numSlots == numSlots && ht.hash == hash
    ensures ht != null ==> forall i :: 0 <= i < numSlots ==> ht.slots[i] == EmptySlot()
  {
    if numSlots <= 0 {
      return null;
    }
    ht := new Table(numSlots, hash);
  }

  /**
   * `hashtable_insert`: refused for a NULL argument or when the hashed slot
   * is taken (by this key or any other); otherwise writes the pair into that slot.
   */
  method Insert<Item>(ht: Table?<Item>, key: Option<string>, item: Option<Item>) returns (ok: bool)
    requires ht != null ==> ht.Valid()
    modifies if ht != null then {ht.slots} else {}
    ensures ht != null ==> ht.Valid()
    ensures ok <==> ht != null && key.Some? && item.Some? && old(Accepts(ht.slots[..], ht.hash, key.value))
    ensures ht != null && ok ==> ht.slots[..] == old(AfterInsert(ht.slots[..], ht.hash, key.value, item.value))
    ensures ht != null && !ok ==> ht.slots[..] == old(ht.slots[..])
  {
    if ht == null || key.None? || item.None? {
      return false;
    }
    var index := ht.hash(key.value, ht.numSlots);
    if ht.slots[index].key.Some? {
      return false;
    }
    ht.slots[index] := Slot(key, item);
    ok := true;
    InsertKeepsWellFormed(old(ht.slots[..]), ht.hash, key.value, item.value);
  }

  /** `hashtable_find`: the item in the hashed slot, without comparing keys. */
  method Find<Item>(ht: Table?<Item>, key: Option<string>) returns (item: Option<Item>)
    requires ht != null ==> ht.Valid()
    ensures item == if ht == null || key.None? then None else Lookup(ht.slots[..], ht.hash, key.value)
  {
    if ht == null || key.None? {
      return None;
    }
    var index := ht.hash(key.value, ht.numSlots);
    item := ht.slots[index].item;
  }

  /** `hashtable_iterate`: the (key, item) arguments passed to `itemfunc`, one call per occupied slot. */
  method Iterate<Item>(ht: Table?<Item>, hasItemFunc: bool) returns (calls: seq<(string, Option<Item>)>)
    requires ht != null ==> ht.Valid()
    ensures calls == if ht != null && hasItemFunc then Entries(ht.slots[..]) else []
  {
    calls := [];
    if ht == null || !hasItemFunc {
      return;
    }
    for i := 0 to ht.numSlots
      invariant calls == Entries(ht.slots[..i])
    {
      assert ht.slots[..i + 1][..i] == ht.slots[..i];
      if ht.slots[i].key.Some? {
        calls := calls + [(ht.slots[i].key.value, ht.slots[i].item)];
      }
    }
    assert ht.slots[..ht.numSlots] == ht.slots[..];
  }

  /**
   * `hashtable_delete`: the items passed to `itemdelete`, one call per slot
   * (NULL for an empty one), and whether the table is released.
   */
  method Delete<Item>(ht: Table?<Item>, hasItemDelete: bool) returns (calls: seq<Option<Item>>, released: bool)
    requires ht != null ==> ht.Valid()
    ensures released <==> ht != null
    ensures calls == if ht != null && hasItemDelete then SlotItems(ht.slots[..]) else []
  {
    calls := [];
    if ht == null {
      return [], false;
    }
    for i := 0 to ht.numSlots
      invariant calls == if hasItemDelete then SlotItems(ht.slots[..i]) else []
    {
      assert ht.slots[..i + 1][..i] == ht.slots[..i];
      if hasItemDelete {
        calls := calls + [ht.slots[i].item];
      }
    }
    assert ht.slots[..ht.numSlots] == ht.slots[..];
    released := true;
  }

  // ---------------------------------------------------------------------
  // Properties of the specification functions

  /** A fresh table finds nothing and accepts any first key. */
  lemma EmptyTableFindsNothing<Item>(n: int, h: HashFn, key: string)
    requires 0 < n
    ensures WellFormed(seq(n, i => EmptySlot<Item>()), h)
    ensures Lookup(seq(n, i => EmptySlot<Item>()), h, key) == None
    ensures Accepts(seq(n, i => EmptySlot<Item>()), h, key)
  {
  }

  /** An insert writes only the hashed slot, and keeps the table invariant. */
  lemma InsertKeepsWellFormed<Item>(s: seq<Slot<Item>>, h: HashFn, key: string, item: Item)
    requires 0 < |s| && WellFormed(s, h)
    ensures |AfterInsert(s, h, key, item)| == |s|
    ensures WellFormed(AfterInsert(s, h, key, item), h)
    ensures forall j :: 0 <= j < |s| && j != SlotOf(s, h, key) ==> AfterInsert(s, h, key, item)[j] == s[j]
  {
  }

  /**
   * Round trip: after an accepted insert of (key, item), find returns item;
   * a second insert of the same key with any item is refused and changes nothing.
   */
  lemma InsertThenFind<Item>(s: seq<Slot<Item>>, h: HashFn, key: string, item: Item, other: Item)
    requires 0 < |s| && WellFormed(s, h) && Accepts(s, h, key)
    ensures Lookup(AfterInsert(s, h, key, item), h, key) == Some(item)
    ensures !Accepts(AfterInsert(s, h, key, item), h, key)
    ensures AfterInsert(AfterInsert(s, h, key, item), h, key, other) == AfterInsert(s, h, key, item)
  {
  }

  /** A key already stored is always refused, and its first item is kept. */
  lemma DuplicateRejected<Item>(s: seq<Slot<Item>>, h: HashFn, i: int, item: Item)
    requires 0 < |s| && WellFormed(s, h)
    requires 0 <= i < |s| && s[i].key.Some?
    ensures !Accepts(s, h, s[i].key.value)
    ensures AfterInsert(s, h, s[i].key.value, item) == s
    ensures Lookup(s, h, s[i].key.value) == s[i].item
  {
  }

  /**
   * What the code does on a collision: a different key that hashes to an
   * occupied slot is refused, and find on it returns the stored key's item.
   */
  lemma CollisionBehaviour<Item>(s: seq<Slot<Item>>, h: HashFn, i: int, key: string, item: Item)
    requires 0 < |s| && WellFormed(s, h)
    requires 0 <= i < |s| && s[i].key.Some? && s[i].key.value != key
    requires SlotOf(s, h, key) == i
    ensures !Accepts(s, h, key) && AfterInsert(s, h, key, item) == s
    ensures Lookup(s, h, key) == s[i].item && Lookup(s, h, key).Some?
  {
  }

  /** Find returns NULL exactly when the hashed slot is empty. */
  lemma LookupNoneIffSlotEmpty<Item>(s: seq<Slot<Item>>, h: HashFn, key: string)
    requires 0 < |s| && WellFormed(s, h)
    ensures Lookup(s, h, key) == None <==> Accepts(s, h, key)
  {
  }

  /** Nothing overwrites an occupied slot: a found item stays found after any later inserts. */
  lemma {:induction false} FoundStaysFound<Item>(s: seq<Slot<Item>>, h: HashFn, key: string, item: Item,
                                                 ops: seq<(string, Item)>)
    requires 0 < |s| && WellFormed(s, h)
    requires Lookup(s, h, key) == Some(item)
    ensures |InsertAll(s, h, ops)| == |s| && WellFormed(InsertAll(s, h, ops), h)
    ensures Lookup(InsertAll(s, h, ops), h, key) == Some(item)
    decreases |ops|
  {
    if ops != [] {
      var s' := AfterInsert(s, h, ops[0].0, ops[0].1);
      InsertKeepsWellFormed(s, h, ops[0].0, ops[0].1);
      assert Lookup(s', h, key) == Some(item);
      FoundStaysFound(s', h, key, item, ops[1..]);
    }
  }

  /** Every entry of `Entries(s)` comes from an occupied slot, and every occupied slot gives one. */
  lemma {:induction false} EntriesComplete<Item>(s: seq<Slot<Item>>, key: string, item: Option<Item>)
    ensures (key, item) in Entries(s) <==>
      exists i :: 0 <= i < |s| && s[i] == Slot(Some(key), item)
    decreases |s|
  {
    if s != [] {
      var init := s[..|s| - 1];
      EntriesComplete(init, key, item);
      if (key, item) in Entries(s) {
        if (key, item) in Entries(init) {
          var i :| 0 <= i < |init| && init[i] == Slot(Some(key), item);
          assert s[i] == Slot(Some(key), item);
        } else {
          assert s[|s| - 1] == Slot(Some(key), item);
        }
      }
      if exists i :: 0 <= i < |s| && s[i] == Slot(Some(key), item) {
        var i :| 0 <= i < |s| && s[i] == Slot(Some(key), item);
        if i < |s| - 1 {
          assert init[i] == Slot(Some(key), item);
        }
      }
    }
  }

  /** Each entry's key hashes below `|s|` when every occupied slot is placed by its hash. */
  lemma {:induction false} EntriesHashBelow<Item>(s: seq<Slot<Item>>, h: HashFn, n: int)
    requires 0 < n
    requires forall i :: 0 <= i < |s| && s[i].key.Some? ==> h(s[i].key.value, n) == i
    ensures forall e :: e in Entries(s) ==> h(e.0, n) < |s|
  {
    forall e | e in Entries(s)
      ensures h(e.0, n) < |s|
    {
      EntriesComplete(s, e.0, e.1);
    }
  }

  /**
   * Iteration order: with every occupied slot placed by its hash, the
   * entries come in strictly increasing slot order, so no key appears twice.
   */
  lemma {:induction false} EntriesInSlotOrder<Item>(s: seq<Slot<Item>>, h: HashFn, n: int)
    requires 0 < n
    requires forall i :: 0 <= i < |s| && s[i].key.Some? ==> h(s[i].key.value, n) == i
    ensures forall a, b :: 0 <= a < b < |Entries(s)| ==> h(Entries(s)[a].0, n) < h(Entries(s)[b].0, n)
    decreases |s|
  {
    if s != [] {
      var init := s[..|s| - 1];
      EntriesInSlotOrder(init, h, n);
      EntriesHashBelow(init, h, n);
      var es := Entries(s);
      forall a, b | 0 <= a < b < |es|
        ensures h(es[a].0, n) < h(es[b].0, n)
      {
        if b >= |Entries(init)| {
          assert es[a] in Entries(init);
        }
      }
    }
  }

  /** `hashtable_iterate` visits exactly the occupied slots, once each, in slot order. */
  lemma IterateVisitsEachStoredPairOnce<Item>(s: seq<Slot<Item>>, h: HashFn)
    requires 0 < |s| && WellFormed(s, h)
    ensures forall key, item :: (key, item) in Entries(s) <==>
      exists i :: 0 <= i < |s| && s[i] == Slot(Some(key), item)
    ensures forall a, b :: 0 <= a < b < |Entries(s)| ==>
      SlotOf(s, h, Entries(s)[a].0) < SlotOf(s, h, Entries(s)[b].0)
  {
    forall key, item
      ensures (key, item) in Entries(s) <==> exists i :: 0 <= i < |s| && s[i] == Slot(Some(key), item)
    {
      EntriesComplete(s, key, item);
    }
    EntriesInSlotOrder(s, h, |s|);
  }

  /**
   * `hashtable_delete` calls the disposer once per slot; dropping the NULL
   * calls of the empty slots leaves exactly the stored items, in the order
   * `hashtable_iterate` visits them.
   */
  lemma {:induction false} DisposedItemsAreStoredItems<Item>(s: seq<Slot<Item>>)
    requires Paired(s)
    ensures NonNull(SlotItems(s)) == EntryItems(Entries(s))
    decreases |s|
  {
    if s != [] {
      var init := s[..|s| - 1];
      DisposedItemsAreStoredItems(init);
      assert SlotItems(s)[..|s| - 1] == SlotItems(init);
      var last := s[|s| - 1];
      var tail := if last.key.Some? then [(last.key.value, last.item)] else [];
      EntryItemsAppend(Entries(init), tail);
    }
  }

  lemma {:induction false} EntryItemsAppend<Item>(a: seq<(string, Option<Item>)>, b: seq<(string, Option<Item>)>)
    requires |b| <= 1
    ensures EntryItems(a + b) == EntryItems(a) + EntryItems(b)
  {
    if b != [] {
      assert (a + b)[..|a + b| - 1] == a;
      assert EntryItems(b) == (if b[0].1.Some? then [b[0].1.value] else []) by {
        assert b[..0] == [];
      }
    } else {
      assert a + b == a;
    }
  }
}
