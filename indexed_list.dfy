/**
 * The position-aware doubly linked list of src/IndexedList.java: a list of
 * string keys held in `head`/`tail`/`size`, and an index from every key to its
 * ordinal position and its node. The index is the library `HashMap` of the
 * source and is a mathematical map here.
 */
module IndexedLists {
  import opened Nodes
  import opened Counting

  /** `r` is `m` with every entry at position `from` or later moved by `amount`. */
  ghost predicate Shifted(m: map<string, Entry>, r: map<string, Entry>, from: int, amount: int) {
    && r.Keys == m.Keys
    && forall k :: k in m ==>
         r[k] == if m[k].position >= from then m[k].(position := m[k].position + amount) else m[k]
  }

  /** `r` is `m` with every entry moved by `amount`. */
  ghost predicate Bumped(m: map<string, Entry>, r: map<string, Entry>, amount: int) {
    && r.Keys == m.Keys
    && forall k :: k in m ==> r[k] == m[k].(position := m[k].position + amount)
  }

  /**
   * The loop over `index.values()` that pushFront, insert and popFront run:
   * every entry whose position is at least `from` moves by `amount`, and
   * nothing else changes. The two loops that bump every entry pass
   * `from == 0`, which under the list invariant is every entry.
   */
  method Renumbered(m: map<string, Entry>, from: int, amount: int) returns (r: map<string, Entry>)
    ensures Shifted(m, r, from, amount)
  {
    r := m;
    var todo := m.Keys;
    while todo != {}
      invariant todo <= m.Keys == r.Keys
      invariant forall k :: k in m ==>
        r[k] == if k in todo || m[k].position < from then m[k] else m[k].(position := m[k].position + amount)
      decreases todo
    {
      var k :| k in todo;
      if r[k].position >= from {
        r := r[k := r[k].(position := r[k].position + amount)];
      }
      todo := todo - {k};
    }
  }

  /** The entry of key `k`, if any, is its position in `order` and the node there. */
  ghost predicate KeyAt(index: map<string, Entry>, order: seq<Node>, k: string) {
    k in index ==>
      && 0 <= index[k].position < |order|
      && index[k].node == order[index[k].position]
      && order[index[k].position].data == k
  }

  /** The key of the node at `i`, if any, has an entry that records position `i`. */
  ghost predicate NodeAt(index: map<string, Entry>, order: seq<Node>, i: int) {
    0 <= i < |order| ==> order[i].data in index && index[order[i].data].position == i
  }

  /**
   * `index` describes the forward order `order`: its keys are exactly the keys
   * of the nodes, and each key's entry holds the key's position and its node.
   */
  ghost predicate Indexes(index: map<string, Entry>, order: seq<Node>) {
    && (forall k :: KeyAt(index, order, k))
    && (forall i :: NodeAt(index, order, i))
  }

  /** Appending a key needs no renumbering. */
  lemma IndexesAppend(m: map<string, Entry>, order: seq<Node>, n: Node)
    requires Indexes(m, order) && n.data !in m
    ensures Indexes(m[n.data := Entry(|order|, n)], order + [n])
  {
    var m', order' := m[n.data := Entry(|order|, n)], order + [n];
    forall k
      ensures KeyAt(m', order', k)
    {
      assert KeyAt(m, order, k);
    }
    forall i
      ensures NodeAt(m', order', i)
    {
      assert NodeAt(m, order, i);
      if 0 <= i < |order| {
        assert order'[i] == order[i];
      }
    }
  }

  /** Inserting at `p` after moving the entries at `p` and later up by one keeps the index exact. */
  lemma IndexesInsert(m: map<string, Entry>, r: map<string, Entry>, order: seq<Node>, n: Node, p: int)
    requires Indexes(m, order) && n.data !in m && 0 <= p <= |order|
    requires Shifted(m, r, p, 1)
    ensures Indexes(r[n.data := Entry(p, n)], order[..p] + [n] + order[p..])
  {
    var r', order' := r[n.data := Entry(p, n)], order[..p] + [n] + order[p..];
    forall k
      ensures KeyAt(r', order', k)
    {
      assert KeyAt(m, order, k);
      if k in r' && k != n.data {
        var i := m[k].position;
        if i >= p {
          assert order'[i + 1] == order[i];
        } else {
          assert order'[i] == order[i];
        }
      }
    }
    forall i
      ensures NodeAt(r', order', i)
    {
      if 0 <= i < p {
        assert order'[i] == order[i];
        assert NodeAt(m, order, i);
      } else if p < i < |order'| {
        assert order'[i] == order[i - 1];
        assert NodeAt(m, order, i - 1);
      }
    }
  }

  /** Removing the first key and moving every other entry down by one keeps the index exact. */
  lemma IndexesPopFront(m: map<string, Entry>, r: map<string, Entry>, order: seq<Node>)
    requires Indexes(m, order) && order != []
    requires Shifted(m - {order[0].data}, r, 0, -1)
    ensures Indexes(r, order[1..])
  {
    assert NodeAt(m, order, 0);
    forall k
      ensures KeyAt(r, order[1..], k)
    {
      assert KeyAt(m, order, k);
    }
    forall i
      ensures NodeAt(r, order[1..], i)
    {
      assert NodeAt(m, order, i + 1);
    }
  }

  /** Removing the last key needs no renumbering. */
  lemma IndexesPopBack(m: map<string, Entry>, order: seq<Node>)
    requires Indexes(m, order) && order != []
    ensures Indexes(m - {order[|order| - 1].data}, order[..|order| - 1])
  {
    var last := |order| - 1;
    assert NodeAt(m, order, last);
    forall k
      ensures KeyAt(m - {order[last].data}, order[..last], k)
    {
      assert KeyAt(m, order, k);
    }
    forall i
      ensures NodeAt(m - {order[last].data}, order[..last], i)
    {
      assert NodeAt(m, order, i);
    }
  }

  /**
   * Removing the key at `i` and moving every later entry down by one keeps
   * the index exact; popFront is the case `i == 0`.
   */
  lemma IndexesDelete(m: map<string, Entry>, r: map<string, Entry>, order: seq<Node>, i: int)
    requires Indexes(m, order) && 0 <= i < |order|
    requires Shifted(m - {order[i].data}, r, i, -1)
    ensures Indexes(r, order[..i] + order[i + 1..])
  {
    var o := order[..i] + order[i + 1..];
    assert NodeAt(m, order, i);
    forall k
      ensures KeyAt(r, o, k)
    {
      assert KeyAt(m, order, k);
      if k in r {
        var p := m[k].position;
        if p > i {
          assert o[p - 1] == order[p];
        } else {
          assert o[p] == order[p];
        }
      }
    }
    forall j
      ensures NodeAt(r, o, j)
    {
      if 0 <= j < i {
        assert o[j] == order[j];
        assert NodeAt(m, order, j);
      } else if i <= j < |o| {
        assert o[j] == order[j + 1];
        assert NodeAt(m, order, j + 1);
      }
    }
  }

  /**
   * The index side of pushFront and insert: every entry at `p` or later moves
   * up by one, then the new key is put at `p`.
   */
  method ShiftIn(m: map<string, Entry>, ghost order: seq<Node>, n: Node, p: int) returns (r: map<string, Entry>)
    requires Indexes(m, order) && n.data !in m && 0 <= p <= |order|
    ensures Indexes(r, order[..p] + [n] + order[p..])
    ensures r.Keys == m.Keys + {n.data} && r[n.data] == Entry(p, n)
    ensures forall k :: k in m ==>
      r[k] == if m[k].position >= p then m[k].(position := m[k].position + 1) else m[k]
    ensures p == 0 ==> Bumped(m, r - {n.data}, 1)
  {
    forall k | k in m
      ensures m[k].position >= 0
    {
      assert KeyAt(m, order, k);
    }
    var shifted := Renumbered(m, p, 1);
    IndexesInsert(m, shifted, order, n, p);
    r := shifted[n.data := Entry(p, n)];
    assert r - {n.data} == shifted;
  }

  /** The index side of popFront: the first key goes, then every entry moves down by one. */
  method ShiftOut(m: map<string, Entry>, ghost order: seq<Node>, key: string) returns (r: map<string, Entry>)
    requires Indexes(m, order) && order != [] && key == order[0].data
    ensures Indexes(r, order[1..])
    ensures Bumped(m - {key}, r, -1)
  {
    forall k | k in m
      ensures m[k].position >= 0
    {
      assert KeyAt(m, order, k);
    }
    r := Renumbered(m - {key}, 0, -1);
    IndexesPopFront(m, r, order);
  }

  /** Under an exact index no two positions hold the same node. */
  lemma IndexedDistinct(m: map<string, Entry>, order: seq<Node>)
    requires Indexes(m, order)
    ensures Distinct(order)
  {
    forall i, j
      ensures Apart(order, i, j)
    {
      assert NodeAt(m, order, i) && NodeAt(m, order, j);
    }
  }

  /** An exact index has one entry per node. */
  lemma IndexedSize(m: map<string, Entry>, order: seq<Node>)
    requires Indexes(m, order)
    ensures |m| == |order|
  {
    var key := (n: Node) => n.data;
    forall i, j | 0 <= i < j < |order|
      ensures key(order[i]) != key(order[j])
    {
      assert NodeAt(m, order, i) && NodeAt(m, order, j);
    }
    DistinctImages(order, key, |order|);
    var keys := Images(order, key, |order|);
    forall k | k in m
      ensures k in keys
    {
      assert KeyAt(m, order, k);
      assert key(order[m[k].position]) == k;
    }
    forall k | k in keys
      ensures k in m
    {
      var i :| 0 <= i < |order| && key(order[i]) == k;
      assert NodeAt(m, order, i);
    }
    assert m.Keys == keys;
  }

  /** No node occurs twice in `order`. */
  ghost predicate Distinct(order: seq<Node>) {
    forall i, j :: Apart(order, i, j)
  }

  /** Two different positions of `order` hold different nodes. */
  ghost predicate Apart(order: seq<Node>, i: int, j: int) {
    0 <= i < |order| && 0 <= j < |order| && i != j ==> order[i] != order[j]
  }

  /** The node at `i`, if it has a predecessor in `order`, links back to it. */
  ghost predicate PrevLink(order: seq<Node>, i: int)
    reads order
  {
    0 < i < |order| ==> order[i].prev == order[i - 1]
  }

  /** The node at `i`, if it has a successor in `order`, links forward to it. */
  ghost predicate NextLink(order: seq<Node>, i: int)
    reads order
  {
    0 <= i < |order| - 1 ==> order[i].next == order[i + 1]
  }

  /** The `prev`/`next` links of the nodes follow `order` in both directions, with null at both ends. */
  ghost predicate Chain(order: seq<Node>)
    reads order
  {
    && (order != [] ==> order[0].prev == null && order[|order| - 1].next == null)
    && (forall i :: PrevLink(order, i))
    && (forall i :: NextLink(order, i))
  }

  /**
   * Links the detached node `n` in between `before` and `after`, the nodes at
   * `p - 1` and `p` (null past either end): the four assignments shared by
   * pushBack, pushFront and insert.
   */
  method SpliceIn(ghost order: seq<Node>, p: int, before: Node?, n: Node, after: Node?)
    requires Chain(order) && Distinct(order) && n !in order && 0 <= p <= |order|
    requires n.prev == null && n.next == null
    requires before == (if p > 0 then order[p - 1] else null)
    requires after == (if p < |order| then order[p] else null)
    modifies n, before, after
    ensures Chain(order[..p] + [n] + order[p..])
    ensures var o := order[..p] + [n] + order[p..];
      && o[0] == (if p == 0 then n else order[0])
      && o[|o| - 1] == (if p == |order| then n else order[|order| - 1])
  {
    if before != null {
      before.next := n;
      n.prev := before;
    }
    if after != null {
      n.next := after;
      after.prev := n;
    }
    ghost var o := order[..p] + [n] + order[p..];
    if 0 < p {
      assert o[0] == order[0] && Apart(order, 0, p);
    }
    if p < |order| {
      assert o[|o| - 1] == order[|order| - 1] && Apart(order, |order| - 1, p - 1);
    }
    forall i
      ensures PrevLink(o, i)
    {
      if 0 < i < p {
        assert o[i] == order[i] && o[i - 1] == order[i - 1];
        assert old(PrevLink(order, i)) && Apart(order, i, p);
      } else if p + 1 < i < |o| {
        assert o[i] == order[i - 1] && o[i - 1] == order[i - 2];
        assert old(PrevLink(order, i - 1)) && Apart(order, i - 1, p);
      }
    }
    forall i
      ensures NextLink(o, i)
    {
      if 0 <= i < p - 1 {
        assert o[i] == order[i] && o[i + 1] == order[i + 1];
        assert old(NextLink(order, i)) && Apart(order, i, p - 1);
      } else if p < i < |o| - 1 {
        assert o[i] == order[i - 1] && o[i + 1] == order[i];
        assert old(NextLink(order, i - 1)) && Apart(order, i - 1, p - 1);
      }
    }
  }

  /**
   * Unlinks the node at `i` by joining its neighbours, as delete does; the
   * node's own links are left as they were.
   */
  method Unlink(ghost order: seq<Node>, ghost i: int, n: Node)
    requires Chain(order) && Distinct(order) && 0 <= i < |order| && n == order[i]
    modifies n.prev, n.next
    ensures 0 < i ==> order[i - 1].next == old(n.next)
    ensures i < |order| - 1 ==> order[i + 1].prev == old(n.prev)
    ensures Chain(order[..i] + order[i + 1..])
  {
    assert PrevLink(order, i) && NextLink(order, i);
    if n.prev != null {
      n.prev.next := n.next;
    }
    if n.next != null {
      n.next.prev := n.prev;
    }
    ghost var o := order[..i] + order[i + 1..];
    if o != [] {
      if i == 0 {
        assert o[0] == order[1];
      } else {
        assert o[0] == order[0] && Apart(order, 0, i + 1);
      }
      if i == |order| - 1 {
        assert o[|o| - 1] == order[|order| - 2];
      } else {
        assert o[|o| - 1] == order[|order| - 1] && Apart(order, |order| - 1, i - 1);
      }
    }
    forall j
      ensures PrevLink(o, j)
    {
      if 0 < j < i {
        assert o[j] == order[j] && o[j - 1] == order[j - 1];
        assert old(PrevLink(order, j)) && Apart(order, j, i + 1);
      } else if i < j < |o| {
        assert o[j] == order[j + 1] && o[j - 1] == order[j];
        assert old(PrevLink(order, j + 1)) && Apart(order, j + 1, i + 1);
      }
    }
    forall j
      ensures NextLink(o, j)
    {
      if 0 <= j < i - 1 {
        assert o[j] == order[j] && o[j + 1] == order[j + 1];
        assert old(NextLink(order, j)) && Apart(order, j, i - 1);
      } else if i <= j < |o| - 1 {
        assert o[j] == order[j + 1] && o[j + 1] == order[j + 2];
        assert old(NextLink(order, j + 1)) && Apart(order, j + 1, i - 1);
      }
    }
  }

  /** Clears the back link of the second node, making it the first (popFront). */
  method CutFront(ghost order: seq<Node>, second: Node)
    requires Chain(order) && Distinct(order) && |order| > 1 && second == order[1]
    modifies second
    ensures Chain(order[1..])
  {
    second.prev := null;
    ghost var o := order[1..];
    forall j
      ensures PrevLink(o, j)
    {
      if 0 < j < |o| {
        assert o[j] == order[j + 1];
        assert old(PrevLink(order, j + 1)) && Apart(order, j + 1, 1);
      }
    }
    forall j
      ensures NextLink(o, j)
    {
      if 0 <= j < |o| - 1 {
        assert old(NextLink(order, j + 1));
      }
    }
  }

  /** Clears the forward link of the next-to-last node, making it the last (popBack). */
  method CutBack(ghost order: seq<Node>, last: Node)
    requires Chain(order) && Distinct(order) && |order| > 1 && last == order[|order| - 2]
    modifies last
    ensures Chain(order[..|order| - 1])
  {
    last.next := null;
    ghost var o := order[..|order| - 1];
    forall j
      ensures PrevLink(o, j)
    {
      if 0 < j < |o| {
        assert old(PrevLink(order, j));
      }
    }
    forall j
      ensures NextLink(o, j)
    {
      if 0 <= j < |o| - 1 {
        assert o[j] == order[j];
        assert old(NextLink(order, j)) && Apart(order, j, |order| - 2);
      }
    }
  }

  /** The keys of `order`, one per node. */
  ghost function KeysOf(order: seq<Node>): seq<string> {
    seq(|order|, i requires 0 <= i < |order| => order[i].data)
  }

  lemma KeysOfConcat(a: seq<Node>, b: seq<Node>)
    ensures KeysOf(a + b) == KeysOf(a) + KeysOf(b)
  {
  }

  lemma KeysOfSlice(s: seq<Node>, i: int)
    requires 0 <= i <= |s|
    ensures KeysOf(s[..i]) == KeysOf(s)[..i] && KeysOf(s[i..]) == KeysOf(s)[i..]
  {
  }

  class IndexedList {
    var index: map<string, Entry>
    var head: Node?
    var tail: Node?
    var size: int

    /** The nodes in forward order from `head`. */
    ghost var Order: seq<Node>

    /** The keys of the list in forward order. */
    ghost function Keys(): seq<string>
      reads this
    {
      KeysOf(Order)
    }


    /** `head`, `tail` and `size` agree with `Order`, whose links run both ways. */
    ghost predicate Linked()
      reads this, Order
    {
      && size == |Order|
      && (if Order == [] then head == null && tail == null
          else head == Order[0] && tail == Order[|Order| - 1])
      && Chain(Order)
    }

    /** The index agrees with the forward order. */
    ghost predicate Positioned()
      reads this
    {
      Indexes(index, Order)
    }

    ghost predicate Valid()
      reads this, Order
    {
      Linked() && Positioned()
    }

    constructor ()
      ensures Valid() && Keys() == [] && index == map[]
    {
      head := null;
      tail := null;
      index := map[];
      size := 0;
      Order := [];
    }

    function Size(): (n: int)
      reads this, Order
      requires Valid()
      ensures n == |Keys()| == |index|
    {
      IndexedSize(index, Order);
      size
    }

    function IsEmpty(): (empty: bool)
      reads this, Order
      requires Valid()
      ensures empty <==> Keys() == []
    {
      size == 0
    }

    /** The node of `key` (index.get(key).node); the source fails on an absent key. */
    function Get(key: string): (n: Node)
      reads this, Order
      requires Valid() && key in index
      ensures n.data == key
      ensures 0 <= index[key].position < |Order| && n == Order[index[key].position]
    {
      assert KeyAt(index, Order, key);
      index[key].node
    }

    /** How far `key` is from the end of the list; the source fails on an absent key. */
    function KFromLast(key: string): (d: int)
      reads this, Order
      requires Valid() && key in index
      ensures 0 <= d < |Keys()| && Keys()[|Keys()| - 1 - d] == key
    {
      assert KeyAt(index, Order, key);
      size - 1 - index[key].position
    }

    /** A key is in the index exactly when it is in the list. */
    lemma IndexHoldsKeys(key: string)
      requires Valid()
      ensures key in index <==> key in Keys()
    {
      assert KeyAt(index, Order, key);
      if key in index {
        assert Keys()[index[key].position] == key;
      }
      if key in Keys() {
        var i :| 0 <= i < |Keys()| && Keys()[i] == key;
        assert NodeAt(index, Order, i);
      }
    }

    method PushBack(key: string)
      requires Valid() && key !in index
      modifies this, Order
      ensures Valid()
      ensures Keys() == old(Keys()) + [key]
      ensures Order == old(Order) + [Order[|Order| - 1]] && fresh(Order[|Order| - 1])
      ensures index == old(index)[key := Entry(old(size), Order[|Order| - 1])]
    {
      IndexedDistinct(index, Order);
      ghost var o := Order;
      var empty := IsEmpty();
      var newNode := new Node(key);
      IndexesAppend(index, Order, newNode);
      index := index[key := Entry(size, newNode)];
      size := size + 1;
      assert Order + [newNode] == Order[..|Order|] + [newNode] + Order[|Order|..];
      KeysOfConcat(Order, [newNode]);
      Order := Order + [newNode];
      SpliceIn(o, size - 1, tail, newNode, null);
      if empty {
        head := newNode;
      }
      tail := newNode;
    }

    method PushFront(key: string)
      requires Valid() && key !in index
      modifies this, Order
      ensures Valid()
      ensures Keys() == [key] + old(Keys())
      ensures Order == [Order[0]] + old(Order) && fresh(Order[0])
      ensures key in index && index[key] == Entry(0, Order[0])
      ensures Bumped(old(index), index - {key}, 1)
    {
      ghost var o := Order;
      IndexedDistinct(index, o);
      var empty := IsEmpty();
      var newNode := new Node(key);
      index := ShiftIn(index, o, newNode, 0);
      size := size + 1;
      assert [newNode] + o == o[..0] + [newNode] + o[0..];
      KeysOfConcat([newNode], o);
      Order := [newNode] + o;
      SpliceIn(o, 0, null, newNode, head);
      if empty {
        tail := newNode;
      }
      head := newNode;
    }

    /**
     * Inserts `key` at `position`; a position at or past the end, or any
     * position on an empty list, appends, and position 0 prepends. A negative
     * position on a non-empty list makes the source walk off the list, so it
     * is excluded.
     */
    method Insert(key: string, position: int)
      requires Valid() && key !in index && (0 <= position || size == 0)
      modifies this, Order
      ensures Valid()
      ensures var p := if position >= old(size) || old(size) == 0 then old(size) else position;
        && Keys() == old(Keys())[..p] + [key] + old(Keys())[p..]
        && Order == old(Order)[..p] + [Order[p]] + old(Order)[p..] && fresh(Order[p])
        && index.Keys == old(index).Keys + {key}
        && index[key].position == p
        && forall k :: k in old(index) ==>
             index[k] == if old(index)[k].position >= p
                         then old(index)[k].(position := old(index)[k].position + 1)
                         else old(index)[k]
    {
      if position >= size || head == null {
        forall k | k in index
          ensures index[k].position < size
        {
          assert KeyAt(index, Order, k);
        }
        PushBack(key);
      } else if position == 0 {
        forall k | k in index
          ensures index[k].position >= 0
        {
          assert KeyAt(index, Order, k);
        }
        PushFront(key);
      } else {
        InsertInside(key, position);
      }
    }

    /** The splice of insert between the nodes at `position - 1` and `position`. */
    method InsertInside(key: string, position: int)
      requires Valid() && key !in index && 0 < position < size
      modifies this, Order
      ensures Valid()
      ensures Keys() == old(Keys())[..position] + [key] + old(Keys())[position..]
      ensures Order == old(Order)[..position] + [Order[position]] + old(Order)[position..] && fresh(Order[position])
      ensures index.Keys == old(index).Keys + {key} && index[key].position == position
      ensures Shifted(old(index), index - {key}, position, 1)
    {
      IndexedDistinct(index, Order);
      ghost var o := Order;
      var newNode := new Node(key);
      var before := FindBefore(position);
      var oldNext := before.next;
      // The index and the ghost order are updated first, so that the links
      // are proved in the final heap.
      ghost var m := index;
      index := ShiftIn(index, Order, newNode, position);
      assert (index - {key}).Keys == m.Keys;
      size := size + 1;
      KeysOfConcat(Order[..position] + [newNode], Order[position..]);
      KeysOfConcat(Order[..position], [newNode]);
      KeysOfSlice(Order, position);
      Order := Order[..position] + [newNode] + Order[position..];
      assert Order[position] == newNode;
      SpliceIn(o, position, before, newNode, oldNext);
      assert head == Order[0] && tail == Order[|Order| - 1];
    }

    /**
     * The walk of insert to the node before `position`: from `head` when
     * `(size - position) < size / 2` holds, otherwise back from `tail`. Both
     * walks end at the node at `position - 1`.
     */
    method FindBefore(position: int) returns (before: Node)
      requires Valid() && 0 < position < size
      ensures before == Order[position - 1] && before.next == Order[position]
    {
      assert NextLink(Order, position - 1);
      var startLeft := (size - position) < size / 2;
      var node := head;
      if startLeft {
        for i := 0 to position - 1
          invariant node == Order[i]
        {
          assert NextLink(Order, i);
          node := node.next;
        }
      } else {
        node := tail;
        for i := 0 to size - position
          invariant node == Order[size - 1 - i]
        {
          assert PrevLink(Order, size - 1 - i);
          node := node.prev;
        }
      }
      before := node;
    }

    /**
     * Unlinks the node of `key` and drops its entry. The source neither moves
     * `head`/`tail` off a deleted end node nor renumbers the later keys, so the
     * result is stated as it is: the remaining nodes are still linked both
     * ways, but the later keys keep their old positions, one more than their
     * place in the list, and only an interior delete leaves `head` and `tail`
     * on the ends.
     */
    method Delete(key: string)
      requires Valid() && key in index
      modifies this, Order
      ensures var i := old(index[key].position);
        && 0 <= i < old(size)
        && index == old(index) - {key}
        && size == old(size) - 1
        && head == old(head) && tail == old(tail)
        && Order == old(Order[..i] + Order[i + 1..])
        && (0 < i ==> old(Order)[i - 1].next == old(Order[i].next))
        && (i < old(size) - 1 ==> old(Order)[i + 1].prev == old(Order[i].prev))
        && old(Order)[i].prev == old(Order[i].prev) && old(Order)[i].next == old(Order[i].next)
        && (forall j :: 0 <= j < i ==> Keys()[j] in index && index[Keys()[j]].position == j)
        && (forall j :: i <= j < |Keys()| ==> Keys()[j] in index && index[Keys()[j]].position == j + 1)
        && Chain(Order)
        && (0 < i < old(size) - 1 ==> Linked())
    {
      assert KeyAt(index, Order, key);
      ghost var i := index[key].position;
      ghost var o := Order;
      ghost var m := index;
      IndexedDistinct(index, Order);
      var n := index[key].node;
      assert PrevLink(Order, i) && NextLink(Order, i);
      assert Apart(Order, i, i - 1) && Apart(Order, i, i + 1);
      Unlink(Order, i, n);
      index := index - {key};
      size := size - 1;
      Order := Order[..i] + Order[i + 1..];
      forall j | 0 <= j < |Order|
        ensures Keys()[j] in index && index[Keys()[j]].position == if j < i then j else j + 1
      {
        if j < i {
          assert Order[j] == o[j];
          assert NodeAt(m, o, j);
        } else {
          assert Order[j] == o[j + 1];
          assert NodeAt(m, o, j + 1);
        }
      }
    }

    /**
     * delete with its end cases repaired: a deleted first or last node hands
     * `head` or `tail` to its neighbour. It also moves every later key down by
     * one, as the loop of popFront does for all keys; the O(1) delete of the
     * source does not, and this renumbering is what keeps the list valid.
     */
    method DeleteRelinked(key: string)
      requires Valid() && key in index
      modifies this, Order
      ensures Valid()
      ensures var i := old(index[key].position);
        && 0 <= i < old(size)
        && Order == old(Order[..i] + Order[i + 1..])
        && Keys() == old(Keys()[..i] + Keys()[i + 1..])
        && Shifted(old(index) - {key}, index, i, -1)
    {
      assert KeyAt(index, Order, key);
      IndexedDistinct(index, Order);
      var i := index[key].position;
      var n := index[key].node;
      ghost var o := Order;
      assert PrevLink(Order, i) && NextLink(Order, i);
      assert Apart(Order, 0, i) && Apart(Order, |Order| - 1, i);
      var before, after := n.prev, n.next;
      var rest := Renumbered(index - {key}, i, -1);
      IndexesDelete(index, rest, Order, i);
      index := rest;
      size := size - 1;
      KeysOfConcat(o[..i], o[i + 1..]);
      KeysOfSlice(o, i);
      KeysOfSlice(o, i + 1);
      Order := Order[..i] + Order[i + 1..];
      if head == n {
        head := after;
      }
      if tail == n {
        tail := before;
      }
      Unlink(o, i, n);
    }

    method PopFront()
      requires Valid() && size > 0
      modifies this, Order
      ensures Valid()
      ensures Keys() == old(Keys())[1..] && Order == old(Order)[1..]
      ensures Bumped(old(index) - {old(Keys())[0]}, index, -1)
      ensures Keys() == [] ==> head == null && tail == null
    {
      IndexedDistinct(index, Order);
      assert Apart(Order, 0, |Order| - 1);
      var key := head.data;
      if tail == head {
        tail := null;
        head := null;
      } else {
        assert NextLink(Order, 0);
        head := head.next;
        CutFront(Order, head);
      }
      index := ShiftOut(index, Order, key);
      size := size - 1;
      KeysOfSlice(Order, 1);
      Order := Order[1..];
    }

    method PopBack()
      requires Valid() && size > 0
      modifies this, Order
      ensures Valid()
      ensures Keys() == old(Keys())[..old(size) - 1] && Order == old(Order)[..old(size) - 1]
      ensures index == old(index) - {old(Keys())[old(size) - 1]}
      ensures Keys() == [] ==> head == null && tail == null
    {
      IndexedDistinct(index, Order);
      assert Apart(Order, 0, |Order| - 1);
      var key := tail.data;
      if tail == head {
        tail := null;
        head := null;
      } else {
        assert PrevLink(Order, |Order| - 1);
        tail := tail.prev;
        CutBack(Order, tail);
      }
      IndexesPopBack(index, Order);
      index := index - {key};
      size := size - 1;
      KeysOfSlice(Order, size);
      Order := Order[..size];
    }

    /**
     * Deletes the key at `position`: the last key when `position >= size - 1`,
     * else the first when `position == 0`; nothing on an empty list. The
     * source leaves the interior case unwritten, so it is excluded.
     */
    method DeleteAt(position: int)
      requires Valid()
      requires size == 0 || position == 0 || position >= size - 1
      modifies this, Order
      ensures Valid()
      ensures old(size) == 0 ==> Keys() == old(Keys()) && index == old(index)
      ensures old(size) > 0 && position >= old(size) - 1 ==>
        Keys() == old(Keys())[..old(size) - 1] && index == old(index) - {old(Keys())[old(size) - 1]}
      ensures old(size) > 0 && position < old(size) - 1 ==>
        && Keys() == old(Keys())[1..]
        && Bumped(old(index) - {old(Keys())[0]}, index, -1)
    {
      if size > 0 {
        if position >= size - 1 {
          PopBack();
        } else if position == 0 {
          PopFront();
        }
      }
    }
  }
}
