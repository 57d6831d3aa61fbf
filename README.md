# Indexed list and probing index

This project models two classes and proves properties of them.

`IndexedList` is a doubly linked list of string keys. Beside the list it keeps an index from each key to a pair: the key's position in the list and its node. This makes `get` and `kFromLast` constant-time. Adding a key at the front or in the middle, and removing the first key, renumber the positions of the other keys. `delete`, which removes a key anywhere, is constant-time and renumbers nothing.

`Index` is an open-addressing hash table with linear probing, written for the same purpose. In the source the list does not use it: it uses `java.util.HashMap`, which is modelled here as a Dafny `map`.

Modules:

- `Options`: the `Option` datatype.
- `Counting`: one lemma, shared by both classes: elements with pairwise different keys have as many keys as elements.
- `Nodes`: the `Node` class. It also holds `Entry`, the (position, node) pair that stands for both `IndexNodePair` and `NodeIndexPair`.
- `IndexedLists`: the `IndexedList` class and the module-level methods and lemmas the class uses.
  - The ghost field `Order` is the sequence of nodes from `head` to `tail`.
  - `Valid` says these agree with the structure:
    - the `prev`/`next` links run both ways;
    - `head`, `tail` and `size` match `Order`;
    - the index holds exactly the keys of `Order`, each with its position and node.
  - The loops over `index.values()` that bump positions are modelled on values by `Renumbered` and `ShiftIn`/`ShiftOut`. Each pair is an immutable value in the map, not a shared object.
- `ProbeChains`: the table modelled as a sequence of slots, with the facts about linear probing:
  - `Contiguous`: no empty slot lies on the way from an entry's home slot to the entry.
  - `Tied`: the slots hold exactly the ghost contents, one slot per key.
  - The facts about backward-shift deletion (`Gapped` and the `Gap*` lemmas).
- `HashIndex`: the `Index` class.
  - It has the `entries` array and the `size` and `capacity` fields.
  - The ghost `Contents` map is what the table stores; the ghost `Slot` map says where each key sits.
  - The key hash is a function parameter of the constructors.
- `AsWritten`: `remove` and `grow` modelled as the code is written, with inputs on which they go wrong.

Decisions about meaning:

- `hash` clears the sign bit of a Java `int`; for a negative hash code that adds 2^31. The result is reduced modulo the capacity.
- The growth test `size / capacity >= .75f` compares an integer quotient. It fires exactly when `size` reaches `capacity` (`GrowthTest`). Without overwrites that is when the table is full. Because `size` also counts overwrites, it can fire earlier.
- `put` adds 1 to `size` even when it overwrites a key. The model keeps this, so `size` is only an upper bound on the number of keys.
- `grow` does not copy `size` either, and the model keeps that too.
- `grow` in the model doubles the capacity. As written it rebuilds into `new Index()`; see "## Findings".
- `remove` in the model is backward-shift deletion, Algorithm R of Knuth, The Art of Computer Programming, Volume 3, section 6.4. Its goal is that every other key stays findable. The comment at `src/Index.java:30` describes a different scheme: one move of the run's last entry into the freed slot. That scheme can lose keys too, so the model does not follow it. The deletion continues over the whole run after the freed slot, because a later entry of the run may still have to move even after one that stays.
- `insert` picks its walk with `startLeft = (size - position) < size / 2`, exactly as written. This walks from `head` when the position lies in the back half. Both walks stop at the node before `position`, so only the walk's length differs.
- `delete` leaves `head`/`tail` on a deleted end node. It also does not renumber the keys after it; the source labels it O(1), so that is by design. Its contract states that new state: the remaining nodes are always linked both ways (`Chain`), `Linked` holds only for an interior node, and `Valid` never holds after it. `DeleteRelinked` is the corrected delete; see "## Findings". Besides moving `head`/`tail` it renumbers the later keys, so that `Valid` holds after it. That renumbering is a choice of the model, not something the source intends.
- `get`, `kFromLast` and `delete` require the key to be present, because the source dereferences a null pair otherwise. `pushBack`, `pushFront` and `insert` require it to be absent, because the source would leave a stale node in the list.

## Model

| member | source | states |
|---|---|---|
| `IndexedLists.Renumbered` | src/IndexedList.java:146-152 | the result has the same keys; exactly the pairs at or after `from` move by `amount`; the others are unchanged |
| `IndexedLists.ShiftIn` | src/IndexedList.java:146-153 | after renumbering by +1 from `p` and storing the new key at `p`, the index describes the order with the node spliced in at `p` |
| `IndexedLists.ShiftOut` | src/IndexedList.java:191-195 | removing the first key and moving every other pair by -1 gives the index of the order without its first node |
| `IndexedLists.IndexesAppend` | src/IndexedList.java:51 | storing `(size, node)` for a new key keeps the index consistent with the order extended by that node |
| `IndexedLists.IndexesInsert` | src/IndexedList.java:146-153 | an index shifted by +1 from `p`, plus the new key at `p`, matches the order with the node inserted at `p` |
| `IndexedLists.IndexesPopFront` | src/IndexedList.java:191-195 | an index with the first key dropped and the rest moved by -1 matches the order without its first node |
| `IndexedLists.IndexesDelete` | src/IndexedList.java:168 | the index step of `DeleteRelinked`, not of the literal delete: dropping the key at `i` and moving every later entry by -1 matches the order without node `i` |
| `IndexedLists.IndexesPopBack` | src/IndexedList.java:217 | dropping the last key leaves an index consistent with the order without its last node |
| `IndexedLists.IndexedDistinct` | src/IndexedList.java:8 | a consistent index makes the nodes of the order pairwise distinct |
| `IndexedLists.IndexedSize` | src/IndexedList.java:8-12 | a consistent index has exactly as many keys as the list has nodes |
| `IndexedLists.SpliceIn` | src/IndexedList.java:126-130 | linking a fresh node between the nodes at `p - 1` and `p` (or at either end) gives a two-way chain for the order with the node at `p` |
| `IndexedLists.Unlink` | src/IndexedList.java:166-167 | the neighbours of node `i` point past it, and the rest of the order is a two-way chain without it, at either end as well as inside |
| `IndexedLists.CutFront` | src/IndexedList.java:188-189 | after `head.prev = null` on the second node, the order without its first node is a two-way chain |
| `IndexedLists.CutBack` | src/IndexedList.java:214-215 | after `tail.next = null` on the next-to-last node, the order without its last node is a two-way chain |
| `Nodes.Node.constructor` | src/Node.java:12-17 | a new node holds `data`, with null `prev` and `next` |
| `IndexedLists.IndexedList.constructor` | src/IndexedList.java:14-20 | a new list is valid and empty |
| `IndexedLists.IndexedList.Size` | src/IndexedList.java:22-25 | `size` is the number of keys in the list and in the index |
| `IndexedLists.IndexedList.IsEmpty` | src/IndexedList.java:27-30 | true exactly when the list has no keys |
| `IndexedLists.IndexedList.Get` | src/IndexedList.java:88-91 | the node returned holds `key` and is the node at `key`'s position |
| `IndexedLists.IndexedList.KFromLast` | src/IndexedList.java:98-102 | the result `d` lies in `[0, size)` and `key` is the `d`-th key counted back from the end |
| `IndexedLists.IndexedList.IndexHoldsKeys` | src/IndexedList.java:8 | a key is in the index exactly when it is in the list |
| `IndexedLists.IndexedList.PushBack` | src/IndexedList.java:37-53 | keys become `old + [key]`; `key` gets position `old size` and a fresh node; every other pair is unchanged; the list stays valid |
| `IndexedLists.IndexedList.PushFront` | src/IndexedList.java:60-80 | keys become `[key] + old`; `key` gets position 0 and a fresh node; every other position goes up by 1; the list stays valid |
| `IndexedLists.IndexedList.Insert` | src/IndexedList.java:109-156 | with `p` the position clamped to `size` (and `size` itself on an empty list, even for a negative position): keys become `old[..p] + [key] + old[p..]` and the nodes the old nodes with one fresh node at `p`; `key` goes to position `p`; positions at or after `p` go up by 1; the others stay |
| `IndexedLists.IndexedList.InsertInside` | src/IndexedList.java:114-155 | for `0 < position < size`: a fresh node is spliced in at `position` and every old node keeps its place around it, positions at or after it go up by 1, and the list stays valid |
| `IndexedLists.IndexedList.FindBefore` | src/IndexedList.java:116-138 | both walks, from `head` and back from `tail`, stop at the node at `position - 1`, whose `next` is the node at `position` |
| `IndexedLists.IndexedList.Delete` | src/IndexedList.java:163-170 | the key leaves the index and the order; its neighbours point past it while its own `prev`/`next` stay as they were; `size` drops by 1; `head`/`tail` are unchanged; the remaining nodes form a two-way chain; later keys keep their old positions |
| `IndexedLists.IndexedList.DeleteRelinked` | src/IndexedList.java:163-170 | delete with `head`/`tail` repaired: the key's node leaves the order and `head`/`tail` move off it; the model also lowers the later positions by 1 so that the list stays valid |
| `IndexedLists.IndexedList.PopFront` | src/IndexedList.java:177-197 | keys become `old[1..]`; the first key leaves the index; every other position drops by 1; an emptied list has null `head` and `tail` |
| `IndexedLists.IndexedList.PopBack` | src/IndexedList.java:204-219 | keys become the old keys without the last; the last key leaves the index; the other pairs are unchanged; an emptied list has null `head` and `tail` |
| `IndexedLists.IndexedList.DeleteAt` | src/IndexedList.java:226-240 | an empty list is unchanged; `position >= size - 1` acts as popBack; `position == 0` acts as popFront |
| `ProbeChains.Hash` | src/Index.java:93-96 | for a positive capacity, the home slot lies in `[0, capacity)` |
| `ProbeChains.Next` | src/Index.java:26 | the next slot is `i + 1`, wrapping round to 0 after the last slot |
| `ProbeChains.ProbeHit` | src/Index.java:67-68 | a slot that holds a key holds that key's stored pair, and is the key's slot |
| `ProbeChains.ProbeMiss` | src/Index.java:67-69 | in a contiguous table, a probe that reaches an empty slot proves the key absent |
| `ProbeChains.HasEmpty` | src/Index.java:50 | a table holding fewer keys than slots has an empty slot, so every probe ends |
| `ProbeChains.EmptyTable` | src/Index.java:16-21 | an all-empty table is contiguous and holds nothing |
| `ProbeChains.FillKeepsContiguous` | src/Index.java:49-53 | filling the first empty slot of a key's probe keeps the table contiguous |
| `ProbeChains.FillKeepsTied` | src/Index.java:53 | filling an empty slot with a new key adds exactly that key to the contents |
| `ProbeChains.OverwriteKeeps` | src/Index.java:50-53 | replacing the pair in a key's own slot keeps the table contiguous and updates only that key |
| `ProbeChains.Relabel` | src/Index.java:81-83 | relabelling keeps a slot empty or occupied, and keeps its key |
| `ProbeChains.RangeShifted` | src/Index.java:77-86 | the same keys; exactly the positions in `[start, end)` move by `amount` |
| `ProbeChains.RelabelKeeps` | src/Index.java:77-86 | relabelling every slot keeps the table contiguous and holds the range-shifted contents |
| `ProbeChains.GapStart` | src/Index.java:28 | emptying a slot of a contiguous table opens a gap in which only entries after the slot may break contiguity |
| `ProbeChains.GapStay` | src/Index.java:31-34 | an entry whose home lies after the gap and no further than the entry can stay; the scan moves on (the Algorithm R step that replaces the literal loop) |
| `ProbeChains.GapMove` | src/Index.java:32-33 | any other entry moves into the gap and its own slot becomes the gap (the Algorithm R step that replaces the literal loop) |
| `ProbeChains.GapDone` | src/Index.java:31 | once the scan reaches an empty slot, the table is contiguous again |
| `ProbeChains.ClearKeepsTied` | src/Index.java:28 | emptying the slot of a key removes exactly that key from the contents |
| `ProbeChains.MoveKeepsTied` | src/Index.java:32-33 | moving an entry into an empty slot keeps the contents and re-points only that key's slot |
| `HashIndex.GrowthTest` | src/Index.java:56 | the test `size / capacity >= .75f` on integers holds exactly when `size >= capacity` |
| `HashIndex.BelowStep` | src/Index.java:105-106 | putting slot `i` extends the entries already copied to those of the slots before `i + 1` |
| `HashIndex.Index.constructor` | src/Index.java:11-14 | a new table is valid and empty, with capacity 16 |
| `HashIndex.Index.WithCapacity` | src/Index.java:16-21 | a new table of the given positive capacity is valid and empty |
| `HashIndex.Index.HashOf` | src/Index.java:93-96 | the key's home slot lies in `[0, capacity)` |
| `HashIndex.Index.Find` | src/Index.java:66-67 | the probe ends at the key's own slot when the key is stored, and otherwise at an empty slot reached past keys other than it |
| `HashIndex.Index.Get` | src/Index.java:64-70 | returns the pair stored for `key`, or None exactly when none is stored; it changes nothing |
| `HashIndex.Index.Put` | src/Index.java:46-57 | contents gain `key` ↦ `pair` and `size` grows by 1. Without growth only one slot changes: the key's own slot, or the first empty slot of its probe. When `size` reaches `capacity`, the capacity doubles. The table stays valid. |
| `HashIndex.Index.Store` | src/Index.java:53-54 | writes the entry into the probed slot (and no other), adds it to the contents and counts it |
| `HashIndex.Index.Grow` | src/Index.java:103-111 | the contents and `size` are kept, the capacity doubles, and the new array is fresh and structured |
| `HashIndex.Index.CopyInto` | src/Index.java:105-107 | putting every occupied slot into a large enough empty table gives it exactly these contents, without it growing |
| `HashIndex.Index.UpdateIndices` | src/Index.java:77-86 | every slot is relabelled: exactly the positions in `[start, end)` move by `amount`; keys, slots, `size` and capacity are unchanged |
| `HashIndex.Index.Remove` | src/Index.java:23-39 | `key` leaves the contents and every other key stays stored and findable; `size` drops by 1 exactly when the key was present; an absent key changes no slot |
| `HashIndex.Index.CloseGap` | src/Index.java:29-34 | the backward-shift scan after the freed slot restores contiguity and keeps the contents |
| `HashIndex.Index.MoveBack` | src/Index.java:32-33 | one move of the scan: slot `j` goes into the gap and `j` becomes the gap; the contents stay |
| `AsWritten.ShiftAsWritten` | src/Index.java:31-34 | the literal inner loop of remove never reads out of bounds and keeps the table length |
| `AsWritten.RemoveAsWritten` | src/Index.java:23-39 | the literal remove, ending with a table, an out-of-bounds read, or an exhausted step bound; a table it returns has the old length |
| `AsWritten.RemoveLastSlotOutOfBounds` | src/Index.java:29 | removing a key found in the last slot, without wrapping round, reads past the end of the array |
| `AsWritten.RemoveAsWrittenLosesKey` | src/Index.java:31-34 | from a contiguous four-slot table, the literal remove of "A" leaves "C" behind an empty slot, so the table is not contiguous |
| `AsWritten.GrowAsWritten` | src/Index.java:103-111 | the literal grow, by the number of entries it reinserts into a new 16-slot table: it ends at capacity 16, or nests a further grow once that table fills |
| `AsWritten.GrowAsWrittenDiverges` | src/Index.java:104 | with 16 or more entries, the literal grow never returns, whatever bound is put on its nesting; with fewer it keeps capacity 16 |
| `AsWritten.DeleteLastLeavesStaleTail` | src/IndexedList.java:163-170 | on the list "a", "b", deleting "b" with the literal delete leaves `tail` on the node of "b", which is no longer in the list |

## Left out

- `print` and every `toString`: they only format output.
- The middle branch of `deleteAt`: it is an unwritten stub that dereferences a null node. `DeleteAt` requires `position == 0`, `position >= size - 1` or an empty list.
- Java's `String.hashCode` and the internals of `java.util.HashMap`: the hash code is a function parameter, and the list's `HashMap` is a `map`.
- Sharing of the mutable pair objects: pairs are values. Where the source bumps `pair.index` in place, the model writes a new pair into the map or the slot.
- Java `int` overflow of `size`, of positions and of `2 * capacity` in grow: integers are unbounded. The hash code itself is an `int32`.
- `Index(0)` and negative capacities: `Index(0)` is constructed and fails at the first `hash` (`% 0`); a negative capacity fails in the constructor, at `new HashEntry[capacity]` (`src/Index.java:18`). `HashIndex.Index.WithCapacity` requires a positive capacity.
- `insert` with a negative position on a non-empty list: the source walks back past `head` and throws a NullPointerException at `src/IndexedList.java:137`, before any state changes. `Insert` excludes that case.
- The Java `assert size > 0` in `popFront` and `popBack`: it is a `requires`.
- The order in which `pushBack`, `pushFront` and `insert` update links and the index: the model updates the index first and the links last. The two writes touch disjoint state, so the final state is the same.
- `Node.data` is a constant: the source never reassigns it.
- The literal remove loop: the class uses the corrected deletion. The literal loop is kept, and shown wrong, in `AsWritten`.
- `AsWritten.GrowAsWritten`: models only the number of entries the literal grow reinserts, not the table contents. That number decides whether the nested grow repeats.

## Findings

| source | as written | input that shows it | evidently intended | confidence | as-written member | corrected member |
|---|---|---|---|---|---|---|
| src/Index.java:29 | after a hit, `entries[index + 1]` is read without `% capacity` | the key to remove sits in the last slot, e.g. slot 3 of 4 | read the next slot circularly, `(index + 1) % capacity` | high, not executed | `AsWritten.RemoveLastSlotOutOfBounds` | `HashIndex.Index.Remove` |
| src/Index.java:31-34 | each step of the repair loop copies slot `j` into the same freed slot and empties `j`, so all but the last moved entry are lost from their probe path | keys A, B, C all hashing to slot 0 in slots 0-2 of 4: removing A gives [B, empty, C, empty], and C can no longer be found | every other key stays findable after a remove; the model reaches this by backward-shift deletion (Algorithm R), which moves each later entry of the run back only when its home allows | high, not executed | `AsWritten.RemoveAsWrittenLosesKey` | `HashIndex.Index.Remove` |
| src/Index.java:104 | `grow` rebuilds into `new Index()`, which has capacity 16 whatever the old capacity | putting 16 distinct keys: the 16th put grows into a new 16-slot table, whose own 16th put grows again, without end | a larger table, e.g. twice the capacity | high, not executed | `AsWritten.GrowAsWrittenDiverges` | `HashIndex.Index.Grow` |
| src/IndexedList.java:163-170 | `delete` unlinks the node but never moves `head` or `tail` off it | pushBack "a", pushBack "b", delete "b": `tail` is still the node of "b", so a following pushBack links after that node and the walk from `head` stops at "a" | a deleted end node hands `head`/`tail` to its neighbour. `DeleteRelinked` also lowers the later positions, a choice of the model so that `Valid` holds; the source's O(1) delete does not renumber | high, not executed | `AsWritten.DeleteLastLeavesStaleTail` | `IndexedLists.IndexedList.DeleteRelinked` |
