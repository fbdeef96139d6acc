/**
 * The CS50 set: a singly linked chain of (key, item) nodes reached from
 * `head`. Insertion refuses a key already present and otherwise prepends a
 * node, so the chain read from `head` is in reverse insertion order.
 *
 * A node's fields are written once, when the node is created, so they are
 * `const` here; each node carries the ghost sequence of entries from itself
 * to the tail. The set's ghost `Contents` is the chain read from `head`.
 * As in the hashtable model, NULL handles, keys and items are `Set?` and
 * `None`, a callback is a `bool` saying whether one was given, and the
 * methods return the arguments the callback receives.
 */
module Set {
  import opened Options

  /** The keys in `chain` are pairwise distinct. */
  ghost predicate DistinctKeys<Item>(chain: seq<(string, Item)>)
  {
    forall i, j :: 0 <= i < j < |chain| ==> chain[i].0 != chain[j].0
  }

  /** The chain as `findNode` searches it: the item of the first entry with `key`, if any. */
  ghost function Lookup<Item>(chain: seq<(string, Item)>, key: Option<string>): (r: Option<Item>)
    ensures r.None? <==> key.None? || forall i :: 0 <= i < |chain| ==> chain[i].0 != key.value
    ensures r.Some? ==> (key.value, r.value) in chain
    decreases |chain|
  {
    if chain == [] || key.None? then None
    else if chain[0].0 == key.value then Some(chain[0].1)
    else Lookup(chain[1..], key)
  }

  /** The chain after `set_insert(set, key, item)` with non-NULL arguments. */
  ghost function AfterInsert<Item>(chain: seq<(string, Item)>, key: string, item: Item): seq<(string, Item)>
  {
    if Lookup(chain, Some(key)).Some? then chain else [(key, item)] + chain
  }

  /** The chain after a series of inserts, applied in order. */
  ghost function InsertAll<Item>(chain: seq<(string, Item)>, ops: seq<(string, Item)>): seq<(string, Item)>
    decreases |ops|
  {
    if ops == [] then chain else InsertAll(AfterInsert(chain, ops[0].0, ops[0].1), ops[1..])
  }

  /** The items of a chain, head to tail. */
  function ItemsOf<Item>(chain: seq<(string, Item)>): (r: seq<Item>)
    ensures |r| == |chain|
    ensures forall i :: 0 <= i < |chain| ==> r[i] == chain[i].1
    decreases |chain|
  {
    if chain == [] then [] else [chain[0].1] + ItemsOf(chain[1..])
  }

  function Reverse<T>(xs: seq<T>): seq<T>
    decreases |xs|
  {
    if xs == [] then [] else Reverse(xs[1..]) + [xs[0]]
  }

  /** `setNode_t`: a key, an item and the next node; `chain` is the list from here to the tail. */
  class Node<Item> {
    const key: string
    const item: Item
    const next: Node?<Item>
    ghost const chain: seq<(string, Item)>

    ghost predicate Valid()
      decreases |chain|
    {
      && 0 < |chain|
      && chain[0] == (key, item)
      && (next == null ==> |chain| == 1)
      && (next != null ==> next.chain == chain[1..] && next.Valid())
    }

    constructor (key: string, item: Item, next: Node?<Item>)
      requires next != null ==> next.Valid()
      ensures Valid()
      ensures this.key == key && this.item == item && this.next == next
      ensures chain == [(key, item)] + (if next == null then [] else next.chain)
    {
      this.key := key;
      this.item := item;
      this.next := next;
      this.chain := [(key, item)] + (if next == null then [] else next.chain);
    }
  }

  /** `set_t`: the head of the chain; `Contents` is the chain read from `head`. */
  class Set<Item> {
    var head: Node?<Item>
    ghost var Contents: seq<(string, Item)>

    ghost predicate Valid()
      reads this
    {
      && (head == null ==> Contents == [])
      && (head != null ==> head.Valid() && head.chain == Contents)
      && DistinctKeys(Contents)
    }

    /** `set_new`: an empty set, `head == NULL`. */
    constructor ()
      ensures Valid() && head == null && Contents == []
    {
      head := null;
      Contents := [];
    }
  }

  /**
   * `findNode`: walking from `node`, the first node whose key is `key`, or
   * NULL when the node or the key is NULL or no node matches.
   */
  function FindNode<Item>(node: Node?<Item>, key: Option<string>): (found: Node?<Item>)
    requires node != null ==> node.Valid()
    ensures found == null <==>
      node == null || key.None? || forall i :: 0 <= i < |node.chain| ==> node.chain[i].0 != key.value
    ensures found != null ==>
      && found.Valid() && Some(found.key) == key
      && |found.chain| <= |node.chain|
      && found.chain == node.chain[|node.chain| - |found.chain|..]
      && forall i :: 0 <= i < |node.chain| - |found.chain| ==> node.chain[i].0 != key.value
    decreases if node == null then 0 else |node.chain|
  {
    if node == null || key.None? then null
    else if node.key == key.value then node
    else FindNode(node.next, key)
  }

  /**
   * `set_insert`: refused for a NULL argument or a key already in the set;
   * otherwise a new node holding (key, item) becomes the head.
   */
  method Insert<Item>(s: Set?<Item>, key: Option<string>, item: Option<Item>) returns (ok: bool)
    requires s != null ==> s.Valid()
    modifies s
    ensures s != null ==> s.Valid()
    ensures ok <==> s != null && key.Some? && item.Some? && old(Lookup(s.Contents, key)).None?
    ensures s != null && ok ==> s.Contents == [(key.value, item.value)] + old(s.Contents)
    ensures s != null && ok ==> s.head != null && fresh(s.head) && s.head.next == old(s.head)
    ensures s != null && !ok ==> s.Contents == old(s.Contents) && s.head == old(s.head)
  {
    if s == null || key.None? || item.None? {
      return false;
    }
    var found := FindNode(s.head, key);
    if found != null {
      return false;
    }
    var node := new Node(key.value, item.value, s.head);
    s.head := node;
    s.Contents := node.chain;
    ok := true;
  }

  /** `set_find`: the item paired with `key`, NULL for a NULL set or key or an absent key. */
  method Find<Item>(s: Set?<Item>, key: Option<string>) returns (item: Option<Item>)
    requires s != null ==> s.Valid()
    ensures item == if s == null then None else Lookup(s.Contents, key)
  {
    if s == null || key.None? {
      return None;
    }
    var node := FindNode(s.head, key);
    if node == null {
      return None;
    }
    LookupFirstMatch(s.Contents, key.value, |s.Contents| - |node.chain|);
    item := Some(node.item);
  }

  /** `set_iterate`: the (key, item) arguments passed to `itemfunc`, one call per node, head to tail. */
  method Iterate<Item>(s: Set?<Item>, hasItemFunc: bool) returns (calls: seq<(string, Item)>)
    requires s != null ==> s.Valid()
    ensures calls == if s != null && hasItemFunc then s.Contents else []
  {
    calls := [];
    if s == null || !hasItemFunc {
      return;
    }
    var node := s.head;
    while node != null
      invariant node != null ==> node.Valid()
      invariant calls + (if node == null then [] else node.chain) == s.Contents
      decreases if node == null then 0 else |node.chain|
    {
      calls := calls + [(node.key, node.item)];
      node := node.next;
    }
  }

  /**
   * `set_delete`: refused entirely for a NULL set or a NULL `itemdelete`;
   * otherwise the items passed to `itemdelete`, head to tail, after which
   * the set is released.
   */
  method Delete<Item>(s: Set?<Item>, hasItemDelete: bool) returns (calls: seq<Item>, released: bool)
    requires s != null ==> s.Valid()
    ensures released <==> s != null && hasItemDelete
    ensures calls == if released then ItemsOf(s.Contents) else []
  {
    if s == null || !hasItemDelete {
      return [], false;
    }
    calls := [];
    var node := s.head;
    while node != null
      invariant node != null ==> node.Valid()
      invariant calls + ItemsOf(if node == null then [] else node.chain) == ItemsOf(s.Contents)
      decreases if node == null then 0 else |node.chain|
    {
      var temp := node.next;
      calls := calls + [node.item];
      node := temp;
    }
    released := true;
  }

  // ---------------------------------------------------------------------
  // Properties of the specification functions

  /** With no earlier entry for `key`, the entry at `d` is what the lookup finds. */
  lemma {:induction false} LookupFirstMatch<Item>(chain: seq<(string, Item)>, key: string, d: int)
    requires 0 <= d < |chain| && chain[d].0 == key
    requires forall i :: 0 <= i < d ==> chain[i].0 != key
    ensures Lookup(chain, Some(key)) == Some(chain[d].1)
    decreases d
  {
    if d > 0 {
      LookupFirstMatch(chain[1..], key, d - 1);
    }
  }

  /** With distinct keys, find returns `item` for `key` exactly when (key, item) is in the chain. */
  lemma LookupIffMember<Item>(chain: seq<(string, Item)>, key: string, item: Item)
    requires DistinctKeys(chain)
    ensures Lookup(chain, Some(key)) == Some(item) <==> (key, item) in chain
  {
  }

  /** An insert keeps the keys distinct, and an accepted one puts (key, item) at the head. */
  lemma InsertKeepsDistinct<Item>(chain: seq<(string, Item)>, key: string, item: Item)
    requires DistinctKeys(chain)
    ensures DistinctKeys(AfterInsert(chain, key, item))
    ensures Lookup(chain, Some(key)).None? ==> AfterInsert(chain, key, item) == [(key, item)] + chain
  {
  }

  /**
   * Round trip: after an accepted insert of (key, item), find returns item;
   * a second insert of the key with any item is refused and changes nothing.
   */
  lemma InsertThenFind<Item>(chain: seq<(string, Item)>, key: string, item: Item, other: Item)
    requires Lookup(chain, Some(key)).None?
    ensures Lookup(AfterInsert(chain, key, item), Some(key)) == Some(item)
    ensures AfterInsert(AfterInsert(chain, key, item), key, other) == AfterInsert(chain, key, item)
  {
  }

  /** A found item stays found after any later inserts, and the keys stay distinct. */
  lemma {:induction false} FoundStaysFound<Item>(chain: seq<(string, Item)>, key: string, item: Item,
                                                 ops: seq<(string, Item)>)
    requires DistinctKeys(chain)
    requires Lookup(chain, Some(key)) == Some(item)
    ensures DistinctKeys(InsertAll(chain, ops))
    ensures Lookup(InsertAll(chain, ops), Some(key)) == Some(item)
    decreases |ops|
  {
    if ops != [] {
      var next := AfterInsert(chain, ops[0].0, ops[0].1);
      InsertKeepsDistinct(chain, ops[0].0, ops[0].1);
      LookupIffMember(chain, key, item);
      LookupIffMember(next, key, item);
      FoundStaysFound(next, key, item, ops[1..]);
    }
  }

  /**
   * Iteration order: inserting pairs with fresh, distinct keys leaves the
   * chain, read from `head`, as those pairs in reverse insertion order
   * followed by what was there before.
   */
  lemma {:induction false} ChainIsReverseInsertionOrder<Item>(chain: seq<(string, Item)>, ops: seq<(string, Item)>)
    requires DistinctKeys(chain + ops)
    ensures InsertAll(chain, ops) == Reverse(ops) + chain
    decreases |ops|
  {
    if ops != [] {
      var key := ops[0].0;
      assert (chain + ops)[|chain|] == ops[0];
      forall i | 0 <= i < |chain|
        ensures chain[i].0 != key
      {
        assert (chain + ops)[i] == chain[i];
      }
      var next := [ops[0]] + chain;
      assert AfterInsert(chain, key, ops[0].1) == next;
      assert DistinctKeys(next + ops[1..]) by {
        forall i, j | 0 <= i < j < |next + ops[1..]|
          ensures (next + ops[1..])[i].0 != (next + ops[1..])[j].0
        {
          var x := (next + ops[1..])[i];
          var y := (next + ops[1..])[j];
          var i' := if i == 0 then |chain| else if i <= |chain| then i - 1 else i;
          var j' := if j == 0 then |chain| else if j <= |chain| then j - 1 else j;
          assert x == (chain + ops)[i'] && y == (chain + ops)[j'];
        }
      }
      ChainIsReverseInsertionOrder(next, ops[1..]);
      assert Reverse(ops) == Reverse(ops[1..]) + [ops[0]];
    }
  }
}
