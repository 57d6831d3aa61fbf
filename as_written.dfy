/**
 * Two operations of src/Index.java modelled as the code is written, and the
 * delete of src/IndexedList.java run on a small list, next to inputs on which
 * they go wrong. The models in HashIndex and IndexedLists replace them with
 * the behaviour evidently intended.
 */
module AsWritten {
  import opened Options
  import opened Nodes
  import opened ProbeChains
  import HashIndex
  import IndexedLists

  /** How a call ends: returning a table, throwing ArrayIndexOutOfBounds, or not within the step bound. */
  datatype Outcome = Returned(t: Table) | OutOfBounds | Unfinished

  /**
   * The inner loop of remove (src/Index.java:31-34) from slot `j` on: while
   * the slot after `j` is occupied, copy slot `j` into slot `index` and empty
   * slot `j`. Each step overwrites what the step before moved into `index`.
   */
  function ShiftAsWritten(t: Table, index: int, j: int, fuel: nat): (r: Outcome)
    requires 0 <= index < |t| && 0 <= j < |t|
    ensures r.Returned? ==> |r.t| == |t|
    ensures r != OutOfBounds
    decreases fuel
  {
    if fuel == 0 then Unfinished
    else if t[Next(j, |t|)].None? then Returned(t)
    else ShiftAsWritten(t[index := t[j]][j := None], index, Next(j, |t|), fuel - 1)
  }

  /**
   * The outer loop of remove as written (src/Index.java:25-38), from slot
   * `index` on; `fuel` bounds the number of loop steps. The slot after a hit
   * is read as `index + 1`, without wrapping round.
   */
  function RemoveAsWritten(t: Table, key: string, index: int, fuel: nat): (r: Outcome)
    requires 0 <= index < |t|
    ensures r.Returned? ==> |r.t| == |t|
    decreases fuel
  {
    if fuel == 0 then Unfinished
    else if t[index].None? then Returned(t)
    else if t[index].value.key != key then RemoveAsWritten(t, key, Next(index, |t|), fuel - 1)
    else
      var cleared := t[index := None];
      if index + 1 >= |t| then OutOfBounds
      else if cleared[index + 1].None? then RemoveAsWritten(cleared, key, Next(index, |t|), fuel - 1)
      else
        var shifted := ShiftAsWritten(cleared, index, index + 1, fuel - 1);
        if shifted.Returned? then RemoveAsWritten(shifted.t, key, Next(index, |t|), fuel - 1) else shifted
  }

  /**
   * When the probe for `key` runs from slot `i` to the last slot without
   * wrapping round and finds `key` there, remove reads one slot past the end
   * of the array.
   */
  lemma {:induction false} RemoveLastSlotOutOfBounds(t: Table, key: string, i: int, fuel: nat)
    requires 0 <= i < |t| && t[|t| - 1].Some? && t[|t| - 1].value.key == key
    requires forall q :: i <= q < |t| - 1 ==> t[q].Some? && t[q].value.key != key
    requires fuel >= |t| - i
    ensures RemoveAsWritten(t, key, i, fuel) == OutOfBounds
    decreases |t| - i
  {
    if i < |t| - 1 {
      RemoveLastSlotOutOfBounds(t, key, i + 1, fuel - 1);
    }
  }

  /** Keys "A", "B" and "C", all with home slot 0, fill the first three of four slots. */
  function Crowded(n: Node): Table {
    [Some(HashEntry("A", Entry(0, n))), Some(HashEntry("B", Entry(1, n))), Some(HashEntry("C", Entry(2, n))), None]
  }

  function ZeroCode(key: string): int32 {
    0
  }

  /**
   * Removing "A" from `Crowded` moves "B" into slot 0 and empties slot 1,
   * while "C" stays in slot 2: the table is no longer contiguous, and a
   * probe for "C" from its home slot stops at the empty slot 1.
   */
  lemma RemoveAsWrittenLosesKey(n: Node, fuel: nat)
    requires fuel >= 3
    ensures Contiguous(Crowded(n), ZeroCode)
    ensures RemoveAsWritten(Crowded(n), "A", Hash(ZeroCode("A"), 4), fuel)
         == Returned([Some(HashEntry("B", Entry(1, n))), None, Some(HashEntry("C", Entry(2, n))), None])
    ensures !Contiguous([Some(HashEntry("B", Entry(1, n))), None, Some(HashEntry("C", Entry(2, n))), None], ZeroCode)
  {
    var t := Crowded(n);
    forall p, q
      ensures Reach(t, ZeroCode, p, q)
    {
      if OnPath(t, ZeroCode, p, q) {
        assert Home(t, ZeroCode, p) == 0;
      }
    }
    var cleared := t[0 := None];
    var moved := cleared[0 := cleared[1]][1 := None];
    assert ShiftAsWritten(moved, 0, 2, fuel - 2) == Returned(moved);
    assert ShiftAsWritten(cleared, 0, 1, fuel - 1) == Returned(moved);
    assert RemoveAsWritten(moved, "A", 1, fuel - 1) == Returned(moved);
    assert RemoveAsWritten(t, "A", 0, fuel) == Returned(moved);
    assert Home(moved, ZeroCode, 2) == 0;
    assert !Reach(moved, ZeroCode, 2, 1);
  }

  /**
   * grow as written (src/Index.java:103-111) moves the `n` entries of the
   * table into `new Index()`, a table of the initial capacity whatever the
   * old capacity was. Each put there adds one to the new size, and the
   * growth test fires at the put that makes the size equal to the capacity,
   * calling grow again on a table that then holds exactly InitialCapacity
   * entries. The result is the capacity grow leaves, or None when the
   * nesting of grow within put within grow exceeds `depth`.
   */
  function GrowAsWritten(n: nat, depth: nat): (r: Option<int>)
    decreases depth
  {
    if depth == 0 then None
    else if n < HashIndex.InitialCapacity then Some(HashIndex.InitialCapacity)
    else GrowAsWritten(HashIndex.InitialCapacity, depth - 1)
  }

  /**
   * A table holding InitialCapacity or more entries never finishes growing,
   * whatever bound is put on the nesting; a smaller one ends at the initial
   * capacity, not at a larger one.
   */
  lemma {:induction false} GrowAsWrittenDiverges(n: nat, depth: nat)
    ensures n >= HashIndex.InitialCapacity ==> GrowAsWritten(n, depth) == None
    ensures n < HashIndex.InitialCapacity && depth > 0 ==> GrowAsWritten(n, depth) == Some(HashIndex.InitialCapacity)
    decreases depth
  {
    if depth > 0 && n >= HashIndex.InitialCapacity {
      GrowAsWrittenDiverges(HashIndex.InitialCapacity, depth - 1);
    }
  }

  /**
   * delete does not touch `head` or `tail`: on the list "a", "b", deleting
   * "b" leaves `tail` on the unlinked node of "b", which is no longer in the
   * list, so a later pushBack would link its node after that one.
   */
  method DeleteLastLeavesStaleTail() returns (l: IndexedLists.IndexedList)
    ensures l.Keys() == ["a"] && "b" !in l.index
    ensures l.tail != null && l.tail.data == "b" && l.tail !in l.Order
  {
    l := new IndexedLists.IndexedList();
    l.PushBack("a");
    ghost var a := l.Order[0];
    l.PushBack("b");
    ghost var b := l.Order[1];
    assert l.Keys()[1] == b.data;
    assert l.tail == b != a;
    assert l.index["b"].position == 1;
    l.Delete("b");
    assert l.Order == [a];
  }
}
