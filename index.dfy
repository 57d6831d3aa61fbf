/**
 * The hash table of src/Index.java: keys mapped to (position, node) pairs in
 * an array of slots with linear probing. The ghost map `Contents` is what the
 * table stores and `Slot` says where each key sits; `Valid` ties both to the
 * array and keeps every key reachable from its home slot.
 */
module HashIndex {
  import opened Options
  import opened Nodes
  import opened ProbeChains

  /** The capacity of a table made without one (INITIAL_CAPACITY). */
  const InitialCapacity := 16

  /** The entries of `contents` whose slots come before `i`. */
  ghost function Below(contents: map<string, Entry>, slot: map<string, int>, i: int): map<string, Entry>
    requires slot.Keys == contents.Keys
  {
    map k | k in contents && slot[k] < i :: contents[k]
  }

  /** Re-putting slot `i` extends the entries below `i` to the entries below `i + 1`. */
  lemma BelowStep(t: Table, contents: map<string, Entry>, slot: map<string, int>, i: int)
    requires Tied(t, contents, slot) && 0 <= i < |t|
    ensures t[i].None? ==> Below(contents, slot, i + 1) == Below(contents, slot, i)
    ensures t[i].Some? ==>
      && t[i].value.key !in Below(contents, slot, i)
      && Below(contents, slot, i + 1) == Below(contents, slot, i)[t[i].value.key := t[i].value.value]
      && |Below(contents, slot, i)| < |contents|
  {
    var lo, hi := Below(contents, slot, i), Below(contents, slot, i + 1);
    forall k | k in contents && slot[k] == i
      ensures t[i] == Some(HashEntry(k, contents[k]))
    {
      assert Holds(t, contents, slot, k);
    }
    if t[i].Some? {
      var k := t[i].value.key;
      ProbeHit(t, contents, slot, i);
      assert hi == lo[k := t[i].value.value];
      assert lo.Keys <= contents.Keys - {k};
      SubsetSize(lo.Keys, contents.Keys - {k});
    } else {
      assert hi == lo;
    }
  }

  lemma BelowAll(t: Table, contents: map<string, Entry>, slot: map<string, int>)
    requires Tied(t, contents, slot)
    ensures Below(contents, slot, 0) == map[]
    ensures Below(contents, slot, |t|) == contents
  {
    forall k | k in contents
      ensures 0 <= slot[k] < |t|
    {
      assert Holds(t, contents, slot, k);
    }
  }

  /** The growth test of put compares the integer quotient `size / capacity` with 0.75. */
  lemma GrowthTest(size: int, capacity: int)
    requires 0 <= size && 0 < capacity
    ensures size / capacity >= 1 <==> size >= capacity
  {
    if size < capacity {
      assert size / capacity == 0;
    }
  }

  lemma RemoveSize(contents: map<string, Entry>, key: string)
    requires key in contents
    ensures |contents - {key}| == |contents| - 1
  {
    assert (contents - {key}).Keys == contents.Keys - {key};
  }

  class Index {
    var entries: array<Option<HashEntry>>
    var size: int
    var capacity: int
    /** The key hash (String.hashCode), which is library code and is given to the constructors. */
    const hashCode: string -> int32

    /** What the table stores. */
    ghost var Contents: map<string, Entry>
    /** The slot of every stored key. */
    ghost var Slot: map<string, int>

    /** The array holds `Contents`, one slot per key, each reachable from its home. */
    ghost predicate Structured()
      reads this, entries
    {
      && 0 < capacity == entries.Length
      && Contiguous(entries[..], hashCode)
      && Tied(entries[..], Contents, Slot)
    }

    /**
     * `size` counts every put and every successful remove, so it bounds the
     * number of keys; the table grows before `size` reaches `capacity`, so an
     * empty slot always remains.
     */
    ghost predicate Valid()
      reads this, entries
    {
      Structured() && |Contents| <= size < capacity
    }

    constructor (hashCode: string -> int32)
      ensures Valid() && fresh(entries)
      ensures Contents == map[] && size == 0 && capacity == InitialCapacity && this.hashCode == hashCode
    {
      this.hashCode := hashCode;
      entries := new Option<HashEntry>[InitialCapacity](_ => None);
      size := 0;
      capacity := InitialCapacity;
      Contents := map[];
      Slot := map[];
      new;
      EmptyTable(entries[..], hashCode);
    }

    /** A zero or negative capacity makes the source fail (at the first hash, or allocating the array). */
    constructor WithCapacity(capacity: int, hashCode: string -> int32)
      requires capacity > 0
      ensures Valid() && fresh(entries)
      ensures Contents == map[] && size == 0 && this.capacity == capacity && this.hashCode == hashCode
    {
      this.hashCode := hashCode;
      entries := new Option<HashEntry>[capacity](_ => None);
      size := 0;
      this.capacity := capacity;
      Contents := map[];
      Slot := map[];
      new;
      EmptyTable(entries[..], hashCode);
    }

    /** The home slot of `key` (hash). */
    function HashOf(key: string): (h: int)
      reads this
      requires capacity > 0
      ensures 0 <= h < capacity
    {
      Hash(hashCode(key), capacity)
    }

    /**
     * The probe shared by get, put and remove: from the home slot of `key`,
     * step forward until the slot holds `key` or is empty.
     */
    method Find(key: string) returns (index: int)
      requires Valid()
      ensures 0 <= index < capacity
      ensures entries[index].Some? <==> key in Contents
      ensures key in Contents ==> Slot[key] == index && entries[index] == Some(HashEntry(key, Contents[key]))
      ensures key !in Contents ==> Probed(entries[..], HashOf(key), index, key)
    {
      ghost var t := entries[..];
      ghost var e := HasEmpty(t, Contents, Slot);
      index := HashOf(key);
      ghost var h := index;
      ProbedStart(t, h, key);
      while entries[index].Some? && entries[index].value.key != key
        invariant 0 <= index < capacity
        invariant Dist(h, index, capacity) <= Dist(h, e, capacity)
        invariant Probed(t, h, index, key)
        decreases Dist(h, e, capacity) - Dist(h, index, capacity)
      {
        DistNext(h, index, capacity);
        ProbedNext(t, h, index, key);
        index := Next(index, capacity);
      }
      if entries[index].Some? {
        ProbeHit(t, Contents, Slot, index);
      } else {
        ProbeMiss(t, hashCode, Contents, Slot, key, index);
      }
    }

    /** The pair stored under `key`, or None (null) when there is none. */
    method Get(key: string) returns (r: Option<Entry>)
      requires Valid()
      ensures r == if key in Contents then Some(Contents[key]) else None
    {
      var index := Find(key);
      if entries[index] != None {
        return Some(entries[index].value.value);
      }
      return None;
    }

    /**
     * Stores `pair` under `key`, in the key's slot if it is there and else in
     * the first empty slot of its probe; `size` goes up either way. When the
     * new `size` reaches `capacity` the table grows.
     */
    method Put(key: string, pair: Entry)
      requires Valid()
      modifies this, entries
      ensures Valid()
      ensures Contents == old(Contents)[key := pair] && size == old(size) + 1
      ensures old(size) + 1 < old(capacity) ==> capacity == old(capacity) && entries == old(entries)
      ensures old(size) + 1 < old(capacity) ==>
        && key in Slot && 0 <= Slot[key] < capacity
        && entries[..] == old(entries[..])[Slot[key] := Some(HashEntry(key, pair))]
        && (key in old(Contents) ==> Slot[key] == old(Slot)[key])
        && (key !in old(Contents) ==> old(entries[..])[Slot[key]].None? && Probed(old(entries[..]), old(HashOf(key)), Slot[key], key))
      ensures old(size) + 1 >= old(capacity) ==> capacity == 2 * old(capacity) && fresh(entries)
      decreases if size + 1 < capacity then 0 else 3
    {
      var index := Find(key);
      Store(index, key, pair);
      // `size / capacity >= .75f` compares an integer quotient, so it holds
      // exactly when the quotient is at least 1.
      GrowthTest(size, capacity);
      if size / capacity >= 1 {
        Grow();
      }
    }

    /** Writes the entry for `key` into the slot `Find` returned and counts it. */
    method Store(index: int, key: string, pair: Entry)
      requires Valid() && 0 <= index < capacity
      requires entries[index].Some? <==> key in Contents
      requires key in Contents ==> Slot[key] == index && entries[index] == Some(HashEntry(key, Contents[key]))
      requires key !in Contents ==> Probed(entries[..], HashOf(key), index, key)
      modifies this, entries
      ensures Structured() && |Contents| <= size <= capacity
      ensures Contents == old(Contents)[key := pair] && size == old(size) + 1
      ensures entries == old(entries) && capacity == old(capacity) && Slot[key] == index
      ensures entries[..] == old(entries[..])[index := Some(HashEntry(key, pair))]
    {
      var hashEntry := HashEntry(key, pair);
      ghost var t := entries[..];
      if entries[index].Some? {
        OverwriteKeeps(t, hashCode, Contents, Slot, index, pair);
      } else {
        FillKeepsContiguous(t, hashCode, index, hashEntry);
        FillKeepsTied(t, Contents, Slot, index, key, pair);
        Slot := Slot[key := index];
      }
      Contents := Contents[key := pair];
      size := size + 1;
      entries[index] := Some(hashEntry);
      assert entries[..] == t[index := Some(hashEntry)];
    }

    /**
     * Moves every entry into a fresh table of twice the capacity by putting
     * them there one by one. The count `size` is left as it was.
     */
    method Grow()
      requires Structured() && |Contents| <= capacity
      modifies this
      ensures Structured() && fresh(entries)
      ensures Contents == old(Contents) && size == old(size) && capacity == 2 * old(capacity)
      decreases 2
    {
      var newIndex := new Index.WithCapacity(2 * capacity, hashCode);
      CopyInto(newIndex);
      entries := newIndex.entries;
      capacity := newIndex.capacity;
      Slot := newIndex.Slot;
    }

    /**
     * The loop of grow: puts every occupied slot, in slot order, into the
     * empty table `target`, which is large enough not to grow meanwhile.
     */
    method CopyInto(target: Index)
      requires Structured() && target.Valid() && target.Contents == map[] && target.size == 0
      requires target != this && target.entries != entries
      requires target.hashCode == hashCode && |Contents| < target.capacity
      modifies target, target.entries
      ensures target.Valid() && target.Contents == Contents && target.size == |Contents|
      ensures target.entries == old(target.entries) && target.capacity == old(target.capacity)
      decreases 1
    {
      BelowAll(entries[..], Contents, Slot);
      for i := 0 to capacity
        invariant target.Valid() && target.entries == old(target.entries) && target.capacity == old(target.capacity)
        invariant target.Contents == Below(Contents, Slot, i) && target.size == |target.Contents|
      {
        BelowStep(entries[..], Contents, Slot, i);
        if entries[i] != None {
          target.Put(entries[i].value.key, entries[i].value.value);
        }
      }
    }

    /**
     * Moves the position of every stored pair in [start, end) by `amount`
     * (updateIndices); keys and slots stay where they are.
     */
    method UpdateIndices(start: int, end: int, amount: int)
      requires Valid()
      modifies this, entries
      ensures Valid() && Contents == RangeShifted(old(Contents), start, end, amount)
      ensures entries == old(entries) && size == old(size) && capacity == old(capacity) && Slot == old(Slot)
      ensures forall i :: 0 <= i < entries.Length ==> entries[i] == Relabel(old(entries[i]), start, end, amount)
    {
      ghost var t := entries[..];
      for i := 0 to capacity
        modifies entries
        invariant forall q :: 0 <= q < capacity ==> entries[q] == if q < i then Relabel(t[q], start, end, amount) else t[q]
      {
        var entry := entries[i];
        if entry.Some? && entry.value.value.position >= start && entry.value.value.position < end {
          entries[i] := Some(entry.value.(value := entry.value.value.(position := entry.value.value.position + amount)));
        }
      }
      RelabelKeeps(t, entries[..], hashCode, Contents, Slot, start, end, amount);
      Contents := RangeShifted(Contents, start, end, amount);
    }

    /**
     * Removes `key`, if present, by backward-shift deletion: the slot is
     * emptied and the rest of its run is closed up behind it.
     */
    method Remove(key: string)
      requires Valid()
      modifies this, entries
      ensures Valid() && Contents == old(Contents) - {key}
      ensures size == if key in old(Contents) then old(size) - 1 else old(size)
      ensures entries == old(entries) && capacity == old(capacity)
      ensures key !in old(Contents) ==> entries[..] == old(entries[..])
    {
      var index := Find(key);
      if entries[index].None? {
        return;
      }
      ghost var t := entries[..];
      ghost var e := HasEmpty(t, Contents, Slot);
      ClearKeepsTied(t, Contents, Slot, index);
      RemoveSize(Contents, key);
      GapStart(t, hashCode, index);
      Contents := Contents - {key};
      Slot := Slot - {key};
      size := size - 1;
      entries[index] := None;
      assert entries[..] == t[index := None];
      CloseGap(index, e);
    }

    /**
     * Walks the run after the gap: an entry whose home lies after the gap
     * and no further than the entry itself stays; any other entry moves
     * into the gap, and its own slot becomes the gap.
     */
    method CloseGap(gap0: int, ghost e: int)
      requires 0 <= gap0 < capacity == entries.Length && 0 <= e < capacity && 1 < capacity
      requires Gapped(entries[..], hashCode, gap0, Next(gap0, capacity)) && Tied(entries[..], Contents, Slot)
      requires entries[e].None? && gap0 != e
      modifies this, entries
      ensures Structured() && Contents == old(Contents)
      ensures entries == old(entries) && capacity == old(capacity) && size == old(size)
    {
      var gap := gap0;
      var j := Next(gap0, capacity);
      DistNext(gap, gap, capacity);
      while entries[j].Some?
        invariant entries == old(entries) && capacity == old(capacity) && size == old(size) && Contents == old(Contents)
        invariant 0 <= gap < capacity && 0 <= j < capacity
        invariant Gapped(entries[..], hashCode, gap, j) && Tied(entries[..], Contents, Slot)
        invariant entries[e].None? && gap != e
        invariant Dist(gap, j, capacity) <= Dist(gap, e, capacity)
        decreases Dist(j, e, capacity)
      {
        ghost var u := entries[..];
        var home := HashOf(entries[j].value.key);
        DistStep(j, e, capacity);
        if !(0 < Dist(gap, home, capacity) <= Dist(gap, j, capacity)) {
          MoveBack(gap, j);
          gap := j;
        } else {
          GapStay(u, hashCode, gap, j);
        }
        DistNext(gap, j, capacity);
        j := Next(j, capacity);
      }
      GapDone(entries[..], hashCode, gap, j);
    }
  
    /** Moves the entry at `j` into the gap at `g`, so that `j` becomes the gap. */
    method MoveBack(g: int, j: int)
      requires 0 <= g < capacity == entries.Length && 0 <= j < capacity && 1 < capacity
      requires Gapped(entries[..], hashCode, g, j) && Tied(entries[..], Contents, Slot) && entries[j].Some?
      requires !(0 < Dist(g, HashOf(entries[j].value.key), capacity) <= Dist(g, j, capacity))
      modifies this, entries
      ensures entries == old(entries) && capacity == old(capacity) && size == old(size) && Contents == old(Contents)
      ensures Gapped(entries[..], hashCode, j, Next(j, capacity)) && Tied(entries[..], Contents, Slot)
      ensures entries[..] == old(entries[..][g := entries[j]][j := None])
    {
      ghost var u := entries[..];
      GapMove(u, hashCode, g, j);
      MoveKeepsTied(u, Contents, Slot, g, j);
      Slot := Slot[entries[j].value.key := g];
      entries[g] := entries[j];
      entries[j] := None;
      assert entries[..] == u[g := u[j]][j := None];
    }
  }
}
