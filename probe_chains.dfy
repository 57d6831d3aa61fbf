/**
 * The open-addressing table of src/Index.java, seen as a sequence of slots,
 * and the facts about linear probing that the Index class relies on: where a
 * key's probe starts, why an empty slot ends a search, why filling the first
 * empty slot keeps every key findable, and why the backward-shift deletion
 * (Algorithm R of Knuth, The Art of Computer Programming, Volume 3, section
 * 6.4) does too.
 */
module ProbeChains {
  import opened Options
  import opened Nodes
  import opened Counting

  /** A Java `int`. */
  newtype int32 = x: int | -0x8000_0000 <= x < 0x8000_0000

  /** An occupied slot of the table: a key and the pair stored under it. */
  datatype HashEntry = HashEntry(key: string, value: Entry)

  /** The slots of a table; `None` is an empty slot (a null array element). */
  type Table = seq<Option<HashEntry>>

  /**
   * The home slot of a key with hash code `code`: `(code & 0x7fffffff) % capacity`.
   * Clearing the sign bit of a negative two's-complement `int` adds 2^31.
   */
  function Hash(code: int32, capacity: int): (h: int)
    requires capacity > 0
    ensures 0 <= h < capacity
  {
    (if code < 0 then code as int + 0x8000_0000 else code as int) % capacity
  }

  /** The slot after `i`, wrapping round: `(i + 1) % capacity`. */
  function Next(i: int, capacity: int): (j: int)
    requires 0 <= i < capacity
    ensures 0 <= j < capacity
    ensures j == if i == capacity - 1 then 0 else i + 1
  {
    (i + 1) % capacity
  }

  /** How many steps of Next lead from slot `from` to slot `to`. */
  function Dist(from: int, to: int, capacity: int): (d: int)
    requires 0 <= from < capacity && 0 <= to < capacity
    ensures 0 <= d < capacity
  {
    if from <= to then to - from else to - from + capacity
  }

  /** Dist counts steps of Next: one step more, unless the step closes the circle. */
  lemma DistNext(from: int, to: int, capacity: int)
    requires 0 <= from < capacity && 0 <= to < capacity
    ensures Dist(from, Next(to, capacity), capacity)
         == if Next(to, capacity) == from then 0 else Dist(from, to, capacity) + 1
  {
  }

  /** A step away from `from` shortens the way to any other slot by one. */
  lemma DistStep(from: int, to: int, capacity: int)
    requires 0 <= from < capacity && 0 <= to < capacity && from != to
    ensures Dist(Next(from, capacity), to, capacity) == Dist(from, to, capacity) - 1
  {
  }

  /** A slot on the way from `a` to `c` splits the distance. */
  lemma DistSplit(a: int, b: int, c: int, capacity: int)
    requires 0 <= a < capacity && 0 <= b < capacity && 0 <= c < capacity
    requires Dist(a, b, capacity) <= Dist(a, c, capacity)
    ensures Dist(a, c, capacity) == Dist(a, b, capacity) + Dist(b, c, capacity)
  {
  }

  /** Two legs that do not close the circle add up. */
  lemma DistJoin(a: int, b: int, c: int, capacity: int)
    requires 0 <= a < capacity && 0 <= b < capacity && 0 <= c < capacity
    requires Dist(a, b, capacity) + Dist(b, c, capacity) < capacity
    ensures Dist(a, c, capacity) == Dist(a, b, capacity) + Dist(b, c, capacity)
  {
  }

  /** The home slot of the entry at `p`. */
  function Home(t: Table, hc: string -> int32, p: int): (h: int)
    requires 0 <= p < |t| && t[p].Some?
    ensures 0 <= h < |t|
  {
    Hash(hc(t[p].value.key), |t|)
  }

  /** Slot `q` lies on the probe path from the home of the entry at `p` to `p`. */
  ghost predicate OnPath(t: Table, hc: string -> int32, p: int, q: int) {
    && 0 <= p < |t| && t[p].Some? && 0 <= q < |t|
    && Dist(Home(t, hc, p), q, |t|) <= Dist(Home(t, hc, p), p, |t|)
  }

  ghost predicate Reach(t: Table, hc: string -> int32, p: int, q: int) {
    OnPath(t, hc, p, q) ==> t[q].Some?
  }

  /**
   * Every entry is reachable from its home slot: no empty slot lies on the
   * way from the home of an entry to the entry.
   */
  ghost predicate Contiguous(t: Table, hc: string -> int32) {
    forall p, q :: Reach(t, hc, p, q)
  }

  /** The slot of `k`, if any, holds `k` and its value. */
  ghost predicate Holds(t: Table, contents: map<string, Entry>, slot: map<string, int>, k: string) {
    k in slot ==> k in contents && 0 <= slot[k] < |t| && t[slot[k]] == Some(HashEntry(k, contents[k]))
  }

  /** The key in slot `i`, if any, has `i` as its slot. */
  ghost predicate Owned(t: Table, slot: map<string, int>, i: int) {
    0 <= i < |t| && t[i].Some? ==> t[i].value.key in slot && slot[t[i].value.key] == i
  }

  /**
   * The table holds exactly `contents`, each key in the slot `slot` names,
   * so no key occurs twice.
   */
  ghost predicate Tied(t: Table, contents: map<string, Entry>, slot: map<string, int>) {
    && slot.Keys == contents.Keys
    && (forall k :: Holds(t, contents, slot, k))
    && (forall i :: Owned(t, slot, i))
  }

  /** Slot `q`, if it comes before `i` on the probe from `h`, holds some key other than `key`. */
  ghost predicate Passed(t: Table, h: int, i: int, key: string, q: int) {
    && 0 <= h < |t| && 0 <= i < |t|
    && (0 <= q < |t| && Dist(h, q, |t|) < Dist(h, i, |t|) ==> t[q].Some? && t[q].value.key != key)
  }

  /** A probe for `key` from `h` has reached `i` without meeting `key` or an empty slot. */
  ghost predicate Probed(t: Table, h: int, i: int, key: string) {
    forall q :: Passed(t, h, i, key, q)
  }

  lemma ProbedStart(t: Table, h: int, key: string)
    requires 0 <= h < |t|
    ensures Probed(t, h, h, key)
  {
    forall q
      ensures Passed(t, h, h, key, q)
    {
    }
  }

  lemma ProbedNext(t: Table, h: int, i: int, key: string)
    requires Probed(t, h, i, key) && 0 <= h < |t| && 0 <= i < |t|
    requires t[i].Some? && t[i].value.key != key && Dist(h, i, |t|) < |t| - 1
    ensures Probed(t, h, Next(i, |t|), key)
  {
    DistNext(h, i, |t|);
    forall q
      ensures Passed(t, h, Next(i, |t|), key, q)
    {
      assert Passed(t, h, i, key, q);
    }
  }

  /** On a contiguous table every slot on an entry's path is occupied. */
  lemma ReachAt(t: Table, hc: string -> int32, p: int, q: int)
    requires Contiguous(t, hc) && OnPath(t, hc, p, q)
    ensures t[q].Some?
  {
    assert Reach(t, hc, p, q);
  }

  /** A probe that reaches an empty slot from the home of `key` proves `key` absent. */
  lemma ProbeMiss(t: Table, hc: string -> int32, contents: map<string, Entry>, slot: map<string, int>, key: string, i: int)
    requires |t| > 0 && Contiguous(t, hc) && Tied(t, contents, slot)
    requires 0 <= i < |t| && t[i].None? && Probed(t, Hash(hc(key), |t|), i, key)
    ensures key !in contents
  {
    if key in contents {
      var s := slot[key];
      assert Holds(t, contents, slot, key);
      assert Passed(t, Hash(hc(key), |t|), i, key, s);
      ReachAt(t, hc, s, i);
      assert false;
    }
  }

  /** A probe that meets `key` has found its value. */
  lemma ProbeHit(t: Table, contents: map<string, Entry>, slot: map<string, int>, i: int)
    requires Tied(t, contents, slot) && 0 <= i < |t| && t[i].Some?
    ensures t[i].value.key in contents && contents[t[i].value.key] == t[i].value.value
    ensures slot[t[i].value.key] == i
  {
    assert Owned(t, slot, i);
    assert Holds(t, contents, slot, t[i].value.key);
  }

  /** Fewer keys than slots leaves an empty slot, so every probe ends. */
  lemma HasEmpty(t: Table, contents: map<string, Entry>, slot: map<string, int>) returns (e: int)
    requires Tied(t, contents, slot) && |contents| < |t|
    ensures 0 <= e < |t| && t[e].None?
  {
    if forall i :: 0 <= i < |t| ==> t[i].Some? {
      var key := (e: Option<HashEntry>) => if e.Some? then e.value.key else "";
      forall i, j | 0 <= i < j < |t|
        ensures key(t[i]) != key(t[j])
      {
        assert Owned(t, slot, i) && Owned(t, slot, j);
      }
      DistinctImages(t, key, |t|);
      var keys := Images(t, key, |t|);
      forall k | k in keys
        ensures k in contents
      {
        var i :| 0 <= i < |t| && key(t[i]) == k;
        assert Owned(t, slot, i);
      }
      assert keys <= contents.Keys;
      SubsetSize(keys, contents.Keys);
      assert false;
    }
    e :| 0 <= e < |t| && t[e].None?;
  }

  lemma {:induction false} SubsetSize<T>(a: set<T>, b: set<T>)
    requires a <= b
    ensures |a| <= |b|
  {
    if a != {} {
      var x :| x in a;
      SubsetSize(a - {x}, b - {x});
    }
  }

  /** The empty table. */
  lemma EmptyTable(t: Table, hc: string -> int32)
    requires forall i :: 0 <= i < |t| ==> t[i].None?
    ensures Contiguous(t, hc) && Tied(t, map[], map[])
  {
    forall p, q
      ensures Reach(t, hc, p, q)
    {
    }
    forall k
      ensures Holds(t, map[], map[], k)
    {
    }
    forall i
      ensures Owned(t, map[], i)
    {
    }
  }

  /** Filling the empty slot where a probe for a new key stopped keeps every entry reachable. */
  lemma FillKeepsContiguous(t: Table, hc: string -> int32, i: int, x: HashEntry)
    requires Contiguous(t, hc) && 0 <= i < |t| && t[i].None?
    requires Probed(t, Hash(hc(x.key), |t|), i, x.key)
    ensures Contiguous(t[i := Some(x)], hc)
  {
    var t' := t[i := Some(x)];
    forall p, q
      ensures Reach(t', hc, p, q)
    {
      if OnPath(t', hc, p, q) {
        if p == i {
          assert Passed(t, Hash(hc(x.key), |t|), i, x.key, q);
        } else {
          assert Reach(t, hc, p, q);
        }
      }
    }
  }

  lemma FillKeepsTied(t: Table, contents: map<string, Entry>, slot: map<string, int>, i: int, k: string, v: Entry)
    requires Tied(t, contents, slot) && 0 <= i < |t| && t[i].None? && k !in contents
    ensures Tied(t[i := Some(HashEntry(k, v))], contents[k := v], slot[k := i])
  {
    var t', c', s' := t[i := Some(HashEntry(k, v))], contents[k := v], slot[k := i];
    forall k'
      ensures Holds(t', c', s', k')
    {
      assert Holds(t, contents, slot, k');
    }
    forall j
      ensures Owned(t', s', j)
    {
      assert Owned(t, slot, j);
    }
  }

  /** Replacing the value of a key in place changes no key and no slot. */
  lemma OverwriteKeeps(t: Table, hc: string -> int32, contents: map<string, Entry>, slot: map<string, int>, i: int, v: Entry)
    requires Contiguous(t, hc) && Tied(t, contents, slot) && 0 <= i < |t| && t[i].Some?
    ensures var k := t[i].value.key;
      && Contiguous(t[i := Some(HashEntry(k, v))], hc)
      && Tied(t[i := Some(HashEntry(k, v))], contents[k := v], slot)
  {
    var k := t[i].value.key;
    var t' := t[i := Some(HashEntry(k, v))];
    ProbeHit(t, contents, slot, i);
    forall p, q
      ensures Reach(t', hc, p, q)
    {
      assert Reach(t, hc, p, q);
    }
    var c' := contents[k := v];
    forall k'
      ensures Holds(t', c', slot, k')
    {
      assert Holds(t, contents, slot, k');
    }
    forall j
      ensures Owned(t', slot, j)
    {
      assert Owned(t, slot, j);
    }
  }

  /** An entry at or after `start` and before `end` moves by `amount`; others are left alone. */
  function Relabel(x: Option<HashEntry>, start: int, end: int, amount: int): (y: Option<HashEntry>)
    ensures y.Some? == x.Some? && (y.Some? ==> y.value.key == x.value.key)
  {
    if x.Some? && start <= x.value.value.position < end
    then Some(x.value.(value := x.value.value.(position := x.value.value.position + amount)))
    else x
  }

  /** `contents` with the positions in [start, end) moved by `amount`. */
  ghost function RangeShifted(contents: map<string, Entry>, start: int, end: int, amount: int): (r: map<string, Entry>)
    ensures r.Keys == contents.Keys
    ensures forall k :: k in r ==>
      r[k].node == contents[k].node
      && r[k].position == if start <= contents[k].position < end
                          then contents[k].position + amount else contents[k].position
  {
    map k | k in contents ::
      if start <= contents[k].position < end then contents[k].(position := contents[k].position + amount) else contents[k]
  }

  /** Relabelling every slot keeps each key in its slot and shifts the contents. */
  lemma RelabelKeeps(t: Table, t': Table, hc: string -> int32, contents: map<string, Entry>, slot: map<string, int>,
                     start: int, end: int, amount: int)
    requires Contiguous(t, hc) && Tied(t, contents, slot)
    requires |t'| == |t| && forall i :: 0 <= i < |t| ==> t'[i] == Relabel(t[i], start, end, amount)
    ensures Contiguous(t', hc) && Tied(t', RangeShifted(contents, start, end, amount), slot)
  {
    var c' := RangeShifted(contents, start, end, amount);
    forall p, q
      ensures Reach(t', hc, p, q)
    {
      assert Reach(t, hc, p, q);
      if 0 <= p < |t| && 0 <= q < |t| {
        assert t'[p] == Relabel(t[p], start, end, amount) && t'[q] == Relabel(t[q], start, end, amount);
      }
    }
    forall k
      ensures Holds(t', c', slot, k)
    {
      assert Holds(t, contents, slot, k);
      if k in slot {
        assert t'[slot[k]] == Relabel(t[slot[k]], start, end, amount);
      }
    }
    forall j
      ensures Owned(t', slot, j)
    {
      assert Owned(t, slot, j);
      if 0 <= j < |t| {
        assert t'[j] == Relabel(t[j], start, end, amount);
      }
    }
  }

  // Backward-shift deletion. While the repair runs, `g` is the empty slot
  // (the gap) that may still need filling and `j` is the next slot to look
  // at; the entries between them are already in order.

  /** Every slot on an entry's path is occupied or is the gap. */
  ghost predicate GapReach(t: Table, hc: string -> int32, g: int, p: int, q: int) {
    OnPath(t, hc, p, q) ==> q == g || t[q].Some?
  }

  /** An entry whose path crosses the gap has not been looked at yet. */
  ghost predicate GapAhead(t: Table, hc: string -> int32, g: int, j: int, p: int) {
    && 0 <= g < |t| && 0 <= j < |t|
    && (OnPath(t, hc, p, g) ==> Dist(g, p, |t|) >= Dist(g, j, |t|))
  }

  ghost predicate Gapped(t: Table, hc: string -> int32, g: int, j: int) {
    && 0 <= g < |t| && 0 <= j < |t| && t[g].None? && 0 < Dist(g, j, |t|)
    && (forall p, q :: GapReach(t, hc, g, p, q))
    && (forall p :: GapAhead(t, hc, g, j, p))
  }

  /** Emptying the slot of the removed key starts the repair with the gap there. */
  lemma GapStart(t: Table, hc: string -> int32, i: int)
    requires Contiguous(t, hc) && 0 <= i < |t| && t[i].Some? && |t| > 1
    ensures Gapped(t[i := None], hc, i, Next(i, |t|))
  {
    var t' := t[i := None];
    forall p, q
      ensures GapReach(t', hc, i, p, q)
    {
      assert Reach(t, hc, p, q);
    }
    forall p
      ensures GapAhead(t', hc, i, Next(i, |t|), p)
    {
    }
  }

  /** An entry whose home lies after the gap, up to `j`, stays where it is. */
  lemma GapStay(t: Table, hc: string -> int32, g: int, j: int)
    requires Gapped(t, hc, g, j) && t[j].Some?
    requires 0 < Dist(g, Home(t, hc, j), |t|) <= Dist(g, j, |t|)
    requires Dist(g, j, |t|) < |t| - 1
    ensures Gapped(t, hc, g, Next(j, |t|))
  {
    var n := |t|;
    var j' := Next(j, n);
    DistNext(g, j, n);
    forall p, q
      ensures GapReach(t, hc, g, p, q)
    {
      assert GapReach(t, hc, g, p, q);
    }
    forall p
      ensures GapAhead(t, hc, g, j', p)
    {
      assert GapAhead(t, hc, g, j, p);
      if OnPath(t, hc, p, g) {
        if p == j {
          var r := Home(t, hc, j);
          DistSplit(g, r, j, n);
          DistSplit(r, g, j, n);
          assert false;
        }
      }
    }
  }

  /** Any other entry moves into the gap, and its old slot becomes the gap. */
  lemma GapMove(t: Table, hc: string -> int32, g: int, j: int)
    requires Gapped(t, hc, g, j) && t[j].Some? && |t| > 1
    requires !(0 < Dist(g, Home(t, hc, j), |t|) <= Dist(g, j, |t|))
    ensures Gapped(t[g := t[j]][j := None], hc, j, Next(j, |t|))
  {
    var n := |t|;
    var t' := t[g := t[j]][j := None];
    var r := Home(t, hc, j);
    assert Dist(r, g, n) <= Dist(r, j, n) by {
      if r != g {
        DistSplit(g, j, r, n);
      }
    }
    forall p, q
      ensures GapReach(t', hc, j, p, q)
    {
      if OnPath(t', hc, p, q) {
        if p == g {
          assert Home(t', hc, g) == r;
          assert GapReach(t, hc, g, j, q);
        } else {
          assert GapReach(t, hc, g, p, q);
        }
      }
    }
    forall p
      ensures GapAhead(t', hc, j, Next(j, n), p)
    {
    }
  }

  /** When `j` reaches an empty slot, no path crosses the gap, so every entry is reachable. */
  lemma GapDone(t: Table, hc: string -> int32, g: int, j: int)
    requires Gapped(t, hc, g, j) && t[j].None?
    ensures Contiguous(t, hc)
  {
    var n := |t|;
    forall p, q
      ensures Reach(t, hc, p, q)
    {
      assert GapReach(t, hc, g, p, q);
      if OnPath(t, hc, p, q) && q == g {
        var r := Home(t, hc, p);
        assert GapAhead(t, hc, g, j, p);
        DistSplit(r, g, p, n);
        DistSplit(g, j, p, n);
        DistJoin(r, g, j, n);
        assert GapReach(t, hc, g, p, j);
      }
    }
  }

  lemma ClearKeepsTied(t: Table, contents: map<string, Entry>, slot: map<string, int>, i: int)
    requires Tied(t, contents, slot) && 0 <= i < |t| && t[i].Some?
    ensures var k := t[i].value.key;
      Tied(t[i := None], contents - {k}, slot - {k})
  {
    var k := t[i].value.key;
    var t', c', s' := t[i := None], contents - {k}, slot - {k};
    ProbeHit(t, contents, slot, i);
    forall k'
      ensures Holds(t', c', s', k')
    {
      assert Holds(t, contents, slot, k');
    }
    forall j
      ensures Owned(t', s', j)
    {
      assert Owned(t, slot, j);
    }
  }

  lemma MoveKeepsTied(t: Table, contents: map<string, Entry>, slot: map<string, int>, g: int, j: int)
    requires Tied(t, contents, slot) && 0 <= g < |t| && 0 <= j < |t| && t[g].None? && t[j].Some?
    ensures Tied(t[g := t[j]][j := None], contents, slot[t[j].value.key := g])
  {
    var k := t[j].value.key;
    var t', s' := t[g := t[j]][j := None], slot[k := g];
    ProbeHit(t, contents, slot, j);
    forall k'
      ensures Holds(t', contents, s', k')
    {
      assert Holds(t, contents, slot, k');
    }
    forall i
      ensures Owned(t', s', i)
    {
      assert Owned(t, slot, i);
    }
  }
}
