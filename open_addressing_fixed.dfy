/**
 * The open-addressing map with the correction its remove needs: a removed
 * slot is marked as a tombstone instead of being cleared, so that probes for
 * the keys placed past it carry on. Everything else is as in OpenAddressing:
 * the same hash, linear probing from it, put writing where the probe stops,
 * "HashMap is full" when the probe finds neither the key nor a free slot.
 * A tombstone is passed over like another key and is not reused by put.
 */
module OpenAddressingFixed {
  import opened Wrappers
  import opened OpenAddressing

  /** A key slot: never used, emptied by remove, or holding a key. */
  datatype Mark = Free | Tomb | Holds(key: Key)

  /** The slots and the live-key counter. */
  datatype Table<V> = Table(marks: seq<Mark>, values: seq<Option<V>>, size: int)

  /** How many steps of probing lead from h to slot j. */
  function Dist(h: nat, j: nat, n: nat): (d: nat)
    requires h < n && j < n
    ensures d < n && Slot(h, d, n) == j
  {
    if h <= j then j - h else j + n - h
  }

  /** Offsets of one turn name different slots. */
  lemma SlotDist(h: nat, d: nat, n: nat)
    requires h < n && d < n
    ensures Dist(h, Slot(h, d, n), n) == d
  {
  }

  /** The probe with tombstones: the first slot from offset d that is free or holds key. */
  function FixedProbe(marks: seq<Mark>, key: Key, h: nat, d: nat): (r: Option<nat>)
    requires h < |marks| && d <= |marks|
    ensures r.Some? ==> r.value < |marks| && (marks[r.value].Free? || marks[r.value] == Holds(key))
    decreases |marks| - d
  {
    if d == |marks| then None
    else
      var j := Slot(h, d, |marks|);
      if marks[j].Free? || marks[j] == Holds(key) then Some(j) else FixedProbe(marks, key, h, d + 1)
  }

  function Home(key: Key, marks: seq<Mark>): nat
    requires |marks| > 0
  {
    HashOf(key, |marks|)
  }

  /** The key in slot j, if any, is reached from its hash over slots none of which is free. */
  ghost predicate ChainOk(marks: seq<Mark>, j: nat)
    requires j < |marks|
  {
    marks[j].Holds? ==>
      var h := Home(marks[j].key, marks);
      forall e :: 0 <= e < Dist(h, j, |marks|) ==> !marks[Slot(h, e, |marks|)].Free?
  }

  /** What the tombstones are for: every key is held once and is reachable by probing. */
  ghost predicate Reachable(marks: seq<Mark>)
  {
    && |marks| > 0
    && (forall i, j :: 0 <= i < |marks| && 0 <= j < |marks| && marks[i].Holds? && marks[i] == marks[j] ==> i == j)
    && (forall j :: 0 <= j < |marks| ==> ChainOk(marks, j))
  }

  /** The number of live keys. */
  function Live(marks: seq<Mark>): nat
  {
    if marks == [] then 0 else (if marks[0].Holds? then 1 else 0) + Live(marks[1..])
  }

  lemma {:induction false} LiveUpdate(marks: seq<Mark>, j: nat, x: Mark)
    requires j < |marks|
    ensures Live(marks[j := x]) == Live(marks) - (if marks[j].Holds? then 1 else 0) + (if x.Holds? then 1 else 0)
    decreases |marks|
  {
    if j > 0 {
      assert marks[j := x][1..] == marks[1..][j - 1 := x];
      LiveUpdate(marks[1..], j - 1, x);
    } else {
      assert marks[j := x][1..] == marks[1..];
    }
  }

  ghost predicate TableOk<V>(t: Table<V>)
  {
    |t.marks| == |t.values| && Reachable(t.marks) && t.size == Live(t.marks)
  }

  /** The probe for a held key, started no later than that key's offset, stops at its slot. */
  lemma {:induction false} FindHeld(marks: seq<Mark>, j: nat, d: nat)
    requires Reachable(marks) && j < |marks| && marks[j].Holds?
    requires d <= Dist(Home(marks[j].key, marks), j, |marks|)
    ensures FixedProbe(marks, marks[j].key, Home(marks[j].key, marks), d) == Some(j)
    decreases |marks| - d
  {
    var key := marks[j].key;
    var h := Home(key, marks);
    var n := |marks|;
    if d < Dist(h, j, n) {
      var s := Slot(h, d, n);
      assert ChainOk(marks, j);
      assert !marks[s].Free?;
      SlotDist(h, d, n);
      assert s != j;
      assert marks[s] != Holds(key);
      FindHeld(marks, j, d + 1);
    }
  }

  /** Where the probe stops, at offset Dist, every slot before it was passed over. */
  lemma {:induction false} ProbePassed(marks: seq<Mark>, key: Key, h: nat, d: nat, j: nat)
    requires h < |marks| && d <= |marks| && FixedProbe(marks, key, h, d) == Some(j)
    ensures d <= Dist(h, j, |marks|)
    ensures forall e :: d <= e < Dist(h, j, |marks|) ==> !marks[Slot(h, e, |marks|)].Free? && marks[Slot(h, e, |marks|)] != Holds(key)
    decreases |marks| - d
  {
    var s := Slot(h, d, |marks|);
    SlotDist(h, d, |marks|);
    if !(marks[s].Free? || marks[s] == Holds(key)) {
      ProbePassed(marks, key, h, d + 1, j);
    }
  }

  /** No stop in a full turn: every slot holds a tombstone or another key. */
  lemma {:induction false} ProbeExhausted(marks: seq<Mark>, key: Key, h: nat, d: nat)
    requires h < |marks| && d <= |marks| && FixedProbe(marks, key, h, d).None?
    ensures forall e :: d <= e < |marks| ==> !marks[Slot(h, e, |marks|)].Free? && marks[Slot(h, e, |marks|)] != Holds(key)
    decreases |marks| - d
  {
    if d < |marks| {
      ProbeExhausted(marks, key, h, d + 1);
    }
  }

  /** get with tombstones. */
  function FixedGet<V>(t: Table<V>, key: Key): Option<V>
    requires |t.marks| == |t.values| && |t.marks| > 0
  {
    var stop := FixedProbe(t.marks, key, Home(key, t.marks), 0);
    if stop.Some? && t.marks[stop.value] == Holds(key) then t.values[stop.value] else None
  }

  /** put with tombstones: the source's put, unchanged except that a tombstone is passed over. */
  function FixedPut<V>(t: Table<V>, key: Key, value: V): Result<Table<V>, string>
    requires |t.marks| == |t.values| && |t.marks| > 0
  {
    var stop := FixedProbe(t.marks, key, Home(key, t.marks), 0);
    if stop.None? then Err("HashMap is full")
    else
      var j := stop.value;
      Ok(Table(t.marks[j := Holds(key)], t.values[j := Some(value)], t.size + (if t.marks[j].Free? then 1 else 0)))
  }

  /** remove with tombstones: the key's slot becomes a tombstone. */
  function FixedRemove<V>(t: Table<V>, key: Key): Table<V>
    requires |t.marks| == |t.values| && |t.marks| > 0
  {
    var stop := FixedProbe(t.marks, key, Home(key, t.marks), 0);
    if stop.Some? && t.marks[stop.value] == Holds(key) then
      Table(t.marks[stop.value := Tomb], t.values[stop.value := None], t.size - 1)
    else t
  }

  /** get finds every stored key's value, and nothing for a key not stored. */
  lemma GetFinds<V>(t: Table<V>, key: Key)
    requires TableOk(t)
    ensures forall j :: 0 <= j < |t.marks| && t.marks[j] == Holds(key) ==> FixedGet(t, key) == t.values[j]
    ensures (forall j :: 0 <= j < |t.marks| ==> t.marks[j] != Holds(key)) ==> FixedGet(t, key) == None
  {
    forall j | 0 <= j < |t.marks| && t.marks[j] == Holds(key)
      ensures FixedGet(t, key) == t.values[j]
    {
      FindHeld(t.marks, j, 0);
    }
  }

  /** Writing a tombstone or a key over a slot keeps every other slot's chain. */
  lemma WriteKeepsChains(marks: seq<Mark>, j: nat, x: Mark, i: nat)
    requires j < |marks| && i < |marks| && i != j && !x.Free? && ChainOk(marks, i)
    ensures ChainOk(marks[j := x], i)
  {
    var m2 := marks[j := x];
    if marks[i].Holds? {
      var h := Home(marks[i].key, marks);
      forall e | 0 <= e < Dist(h, i, |marks|)
        ensures !m2[Slot(h, e, |marks|)].Free?
      {
        assert !marks[Slot(h, e, |marks|)].Free?;
      }
    }
  }

  /** A free stop of the probe means the key is stored nowhere. */
  lemma FreeStopAbsent(marks: seq<Mark>, key: Key, j: nat)
    requires Reachable(marks) && FixedProbe(marks, key, Home(key, marks), 0) == Some(j) && marks[j].Free?
    ensures forall i :: 0 <= i < |marks| ==> marks[i] != Holds(key)
  {
    forall i | 0 <= i < |marks| && marks[i] == Holds(key)
      ensures false
    {
      FindHeld(marks, i, 0);
    }
  }

  /** Writing key where its probe stops keeps every key held once and reachable. */
  lemma PutReachable(marks: seq<Mark>, key: Key, j: nat)
    requires Reachable(marks) && FixedProbe(marks, key, Home(key, marks), 0) == Some(j)
    ensures Reachable(marks[j := Holds(key)])
  {
    var n := |marks|;
    var h := Home(key, marks);
    var m2 := marks[j := Holds(key)];
    forall i | 0 <= i < n
      ensures ChainOk(m2, i)
    {
      if i != j {
        WriteKeepsChains(marks, j, Holds(key), i);
      } else {
        ProbePassed(marks, key, h, 0, j);
        forall e | 0 <= e < Dist(h, j, n)
          ensures !m2[Slot(h, e, n)].Free?
        {
          SlotDist(h, e, n);
        }
      }
    }
    if marks[j].Free? {
      FreeStopAbsent(marks, key, j);
    }
  }

  /**
   * Changing only slot j, which was free or held key, into a tombstone or key
   * again leaves get's answer for every other key as it was.
   */
  lemma OthersKept<V>(t: Table<V>, t2: Table<V>, key: Key, j: nat, x: Mark)
    requires TableOk(t) && TableOk(t2) && |t2.marks| == |t.marks| && j < |t.marks|
    requires t.marks[j].Free? || t.marks[j] == Holds(key)
    requires x == Tomb || x == Holds(key)
    requires t2.marks == t.marks[j := x]
    requires forall i :: 0 <= i < |t.marks| && i != j ==> t2.values[i] == t.values[i]
    ensures forall other :: other != key ==> FixedGet(t2, other) == FixedGet(t, other)
  {
    var n := |t.marks|;
    forall other | other != key
      ensures FixedGet(t2, other) == FixedGet(t, other)
    {
      GetFinds(t, other);
      GetFinds(t2, other);
      if exists i :: 0 <= i < n && t.marks[i] == Holds(other) {
        var i :| 0 <= i < n && t.marks[i] == Holds(other);
        assert t2.marks[i] == Holds(other);
      } else {
        assert forall i :: 0 <= i < n ==> t2.marks[i] != Holds(other);
      }
    }
  }

  /** put keeps every key reachable and the counter right, stores the value, and changes no other key's answer. */
  lemma PutKeepsReachable<V>(t: Table<V>, key: Key, value: V)
    requires TableOk(t) && FixedPut(t, key, value).Ok?
    ensures TableOk(FixedPut(t, key, value).value)
    ensures FixedGet(FixedPut(t, key, value).value, key) == Some(value)
    ensures forall other :: other != key ==> FixedGet(FixedPut(t, key, value).value, other) == FixedGet(t, other)
  {
    var j := FixedProbe(t.marks, key, Home(key, t.marks), 0).value;
    var t2 := FixedPut(t, key, value).value;
    assert t2.marks == t.marks[j := Holds(key)] && t2.values[j] == Some(value);
    PutReachable(t.marks, key, j);
    LiveUpdate(t.marks, j, Holds(key));
    assert TableOk(t2);
    GetFinds(t2, key);
    assert t2.marks[j] == Holds(key);
    OthersKept(t, t2, key, j, Holds(key));
  }

  /** put fails only when no slot is free and the key is not stored. */
  lemma PutFull<V>(t: Table<V>, key: Key, value: V)
    requires TableOk(t) && FixedPut(t, key, value).Err?
    ensures forall j :: 0 <= j < |t.marks| ==> !t.marks[j].Free? && t.marks[j] != Holds(key)
  {
    var n := |t.marks|;
    var h := Home(key, t.marks);
    ProbeExhausted(t.marks, key, h, 0);
    forall j | 0 <= j < n
      ensures !t.marks[j].Free? && t.marks[j] != Holds(key)
    {
      assert Slot(h, Dist(h, j, n), n) == j;
    }
  }

  /** Turning key's slot into a tombstone keeps every other key held once and reachable. */
  lemma RemoveReachable(marks: seq<Mark>, key: Key, j: nat)
    requires Reachable(marks) && j < |marks| && marks[j] == Holds(key)
    ensures Reachable(marks[j := Tomb])
    ensures var m2 := marks[j := Tomb]; forall i :: 0 <= i < |m2| ==> m2[i] != Holds(key)
  {
    var m2 := marks[j := Tomb];
    forall i | 0 <= i < |marks|
      ensures ChainOk(m2, i)
    {
      if i != j {
        WriteKeepsChains(marks, j, Tomb, i);
      }
    }
  }

  /** A key the probe misses is stored nowhere. */
  lemma MissAbsent(marks: seq<Mark>, key: Key)
    requires Reachable(marks)
    requires var stop := FixedProbe(marks, key, Home(key, marks), 0); !(stop.Some? && marks[stop.value] == Holds(key))
    ensures forall i :: 0 <= i < |marks| ==> marks[i] != Holds(key)
  {
    forall i | 0 <= i < |marks| && marks[i] == Holds(key)
      ensures false
    {
      FindHeld(marks, i, 0);
    }
  }

  /** remove keeps every other key reachable with its value, and the removed key is gone. */
  lemma RemoveKeepsReachable<V>(t: Table<V>, key: Key)
    requires TableOk(t)
    ensures TableOk(FixedRemove(t, key))
    ensures FixedGet(FixedRemove(t, key), key) == None
    ensures forall other :: other != key ==> FixedGet(FixedRemove(t, key), other) == FixedGet(t, other)
  {
    var stop := FixedProbe(t.marks, key, Home(key, t.marks), 0);
    var t2 := FixedRemove(t, key);
    if stop.Some? && t.marks[stop.value] == Holds(key) {
      var j := stop.value;
      RemoveReachable(t.marks, key, j);
      LiveUpdate(t.marks, j, Tomb);
      assert TableOk(t2);
      GetFinds(t2, key);
      OthersKept(t, t2, key, j, Tomb);
    } else {
      MissAbsent(t.marks, key);
      GetFinds(t, key);
    }
  }

  lemma {:induction false} LiveNoKeys(marks: seq<Mark>)
    requires forall j :: 0 <= j < |marks| ==> marks[j].Free?
    ensures Live(marks) == 0
    decreases |marks|
  {
    if marks != [] {
      assert forall j :: 0 <= j < |marks[1..]| ==> marks[1..][j] == marks[j + 1];
      LiveNoKeys(marks[1..]);
    }
  }

  /** The empty table of the constructor. */
  function EmptyTable<V>(capacity: nat): (t: Table<V>)
    requires capacity > 0
    ensures TableOk(t) && |t.marks| == capacity
    ensures forall key :: FixedGet(t, key) == None
  {
    var marks: seq<Mark> := seq(capacity, _ => Free);
    LiveNoKeys(marks);
    Table(marks, seq(capacity, _ => None), 0)
  }

  /** The sequence of RemoveHidesDisplacedKey on the corrected table: 2 is still found after remove(0). */
  lemma TombstoneKeepsDisplacedKey()
    ensures var t0 := EmptyTable<int>(2);
      && FixedPut(t0, Num(0), 5).Ok?
      && FixedPut(FixedPut(t0, Num(0), 5).value, Num(2), 7).Ok?
      && FixedGet(FixedRemove(FixedPut(FixedPut(t0, Num(0), 5).value, Num(2), 7).value, Num(0)), Num(2)) == Some(7)
  {
    var t0 := EmptyTable<int>(2);
    assert FixedProbe(t0.marks, Num(0), 0, 0) == Some(0);
    PutKeepsReachable(t0, Num(0), 5);
    var t1 := FixedPut(t0, Num(0), 5).value;
    assert HashOf(Num(2), 2) == 0;
    assert FixedProbe(t1.marks, Num(2), 0, 1) == Some(1);
    PutKeepsReachable(t1, Num(2), 7);
    var t2 := FixedPut(t1, Num(2), 7).value;
    RemoveKeepsReachable(t2, Num(0));
  }
}
