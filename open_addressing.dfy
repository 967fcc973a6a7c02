/**
 * The open-addressing hash map of the catalogue: parallel key and value
 * arrays of a fixed capacity, linear probing from the key's hash, a size
 * counter, "HashMap is full" when a new key finds no free slot, and a
 * remove that clears the slot it finds.
 *
 * Keys are the two kinds the hash function distinguishes: numbers, of which
 * the model covers the non-negative integers, and strings, hashed by their
 * UTF-16 code units as `charCodeAt` reads them.
 */
module OpenAddressing {
  import opened Wrappers

  /** A UTF-16 code unit: what `charCodeAt` returns for an index of a string. */
  newtype CodeUnit = x: int | 0 <= x < 0x1_0000

  /** A key; a string is the sequence of its code units, its `length` their number. */
  datatype Key = Num(n: nat) | Str(s: seq<CodeUnit>)

  /**
   * The UTF-16 code units of one character: the character itself below
   * U+10000, else a high and a low surrogate that together give its code.
   */
  function Units(c: char): (r: seq<CodeUnit>)
    ensures |r| == (if c as int < 0x1_0000 then 1 else 2)
    ensures |r| == 1 ==> r[0] as int == c as int
    ensures |r| == 2 ==> && 0xD800 <= r[0] < 0xDC00 && 0xDC00 <= r[1] < 0xE000
                         && c as int == 0x1_0000 + (r[0] as int - 0xD800) * 0x400 + (r[1] as int - 0xDC00)
  {
    var n := c as int;
    if n < 0x1_0000 then [n as CodeUnit]
    else
      var m := n - 0x1_0000;
      [(0xD800 + m / 0x400) as CodeUnit, (0xDC00 + m % 0x400) as CodeUnit]
  }

  /** The UTF-16 form of a string of characters, the form a JavaScript string has. */
  function Utf16(s: string): (r: seq<CodeUnit>)
    ensures |r| >= |s|
  {
    if s == [] then [] else Utf16(s[..|s| - 1]) + Units(s[|s| - 1])
  }

  /** A string without characters beyond U+FFFF has one code unit per character, equal to its code. */
  lemma {:induction false} BasicPlaneUnits(s: string)
    requires forall i :: 0 <= i < |s| ==> s[i] as int < 0x1_0000
    ensures |Utf16(s)| == |s| && forall i :: 0 <= i < |s| ==> Utf16(s)[i] as int == s[i] as int
  {
    if s != [] {
      BasicPlaneUnits(s[..|s| - 1]);
    }
  }

  /** A character beyond U+FFFF counts as two code units; U+1F600 is D83D DE00. */
  lemma AstralIsTwoUnits()
    ensures Utf16("\U{1F600}") == [0xD83D, 0xDE00]
    ensures Utf16("a\U{1F600}") == [0x61, 0xD83D, 0xDE00]
  {
    assert "a\U{1F600}"[..1] == "a";
    assert "a"[..0] == [];
  }

  /** The string hash after the code units of s: each step multiplies by 31, adds the unit and reduces. */
  function StringHash(s: seq<CodeUnit>, capacity: nat): (h: nat)
    requires capacity > 0
    ensures h < capacity
  {
    if s == [] then 0 else (StringHash(s[..|s| - 1], capacity) * 31 + s[|s| - 1] as int) % capacity
  }

  /** hash(key) for a string: the loop over its code units. */
  method HashString(s: seq<CodeUnit>, capacity: nat) returns (hash: nat)
    requires capacity > 0
    ensures hash == StringHash(s, capacity)
  {
    hash := 0;
    var i := 0;
    while i < |s|
      invariant 0 <= i <= |s| && hash == StringHash(s[..i], capacity)
    {
      assert s[..i + 1][..i] == s[..i];
      hash := (hash * 31 + s[i] as int) % capacity;
      i := i + 1;
    }
    assert s[..i] == s;
  }

  /** hash(key): a number modulo the capacity, a string by StringHash. */
  function HashOf(key: Key, capacity: nat): (h: nat)
    requires capacity > 0
    ensures h < capacity
  {
    match key
    case Num(n) => n % capacity
    case Str(s) => StringHash(s, capacity)
  }

  /** hash(key), shared by both maps of the catalogue. */
  method Hash(key: Key, capacity: nat) returns (hash: nat)
    requires capacity > 0
    ensures hash == HashOf(key, capacity) && hash < capacity
  {
    match key
    case Num(n) =>
      hash := n % capacity;
    case Str(s) =>
      hash := HashString(s, capacity);
  }

  /** The slot d steps after h, wrapping round a table of n slots once. */
  function Slot(h: nat, d: nat, n: nat): (j: nat)
    requires h < n && d <= n
    ensures j < n
  {
    if h + d < n then h + d else h + d - n
  }

  /** The source's step (index + 1) % capacity is the next slot, round to 0 after the last. */
  lemma NextSlot(index: nat, n: nat)
    requires index < n
    ensures (index + 1) % n == if index + 1 == n then 0 else index + 1
  {
  }

  /**
   * The slot where the probe for key stops, looking at offsets d, d + 1, ...
   * from h: the first that is free or holds key; None when every slot up to
   * one full turn holds another key.
   */
  function Probe(keys: seq<Option<Key>>, key: Key, h: nat, d: nat): (r: Option<nat>)
    requires h < |keys| && d <= |keys|
    ensures r.Some? ==> r.value < |keys| && (keys[r.value].None? || keys[r.value] == Some(key))
    decreases |keys| - d
  {
    if d == |keys| then None
    else
      var j := Slot(h, d, |keys|);
      if keys[j].None? || keys[j] == Some(key) then Some(j) else Probe(keys, key, h, d + 1)
  }

  /** The slots probed before offset d all hold other keys. */
  ghost predicate PassedOver(keys: seq<Option<Key>>, key: Key, h: nat, d: nat)
    requires h < |keys| && d <= |keys|
  {
    forall e :: 0 <= e < d ==> keys[Slot(h, e, |keys|)].Some? && keys[Slot(h, e, |keys|)] != Some(key)
  }

  /** The probe stops nowhere exactly when one full turn meets only other keys. */
  lemma {:induction false} ProbeNone(keys: seq<Option<Key>>, key: Key, h: nat, d: nat)
    requires h < |keys| && d <= |keys| && PassedOver(keys, key, h, d)
    ensures Probe(keys, key, h, d).None? <==> PassedOver(keys, key, h, |keys|)
    decreases |keys| - d
  {
    if d < |keys| {
      var j := Slot(h, d, |keys|);
      if !(keys[j].None? || keys[j] == Some(key)) {
        ProbeNone(keys, key, h, d + 1);
      }
    }
  }

  /** Writing key into the slot where its probe stops leaves the probe stopping there. */
  lemma {:induction false} ProbeAfterWrite(keys: seq<Option<Key>>, key: Key, h: nat, d: nat)
    requires h < |keys| && d <= |keys| && Probe(keys, key, h, d).Some?
    ensures Probe(keys[Probe(keys, key, h, d).value := Some(key)], key, h, d) == Probe(keys, key, h, d)
    decreases |keys| - d
  {
    var j := Slot(h, d, |keys|);
    var k2 := keys[Probe(keys, key, h, d).value := Some(key)];
    if !(keys[j].None? || keys[j] == Some(key)) {
      assert k2[j] == keys[j];
      ProbeAfterWrite(keys, key, h, d + 1);
    }
  }

  /** get's answer on given arrays: the value at the probe's stop when it holds key. */
  function Lookup<V>(keys: seq<Option<Key>>, values: seq<Option<V>>, key: Key): Option<V>
    requires |keys| == |values| && |keys| > 0
  {
    var stop := Probe(keys, key, HashOf(key, |keys|), 0);
    if stop.Some? && keys[stop.value] == Some(key) then values[stop.value] else None
  }

  /** The number of slots in use. */
  function Occupied(keys: seq<Option<Key>>): nat
  {
    if keys == [] then 0 else (if keys[0].Some? then 1 else 0) + Occupied(keys[1..])
  }

  lemma {:induction false} OccupiedUpdate(keys: seq<Option<Key>>, j: nat, x: Option<Key>)
    requires j < |keys|
    ensures Occupied(keys[j := x]) == Occupied(keys) - (if keys[j].Some? then 1 else 0) + (if x.Some? then 1 else 0)
    decreases |keys|
  {
    if j > 0 {
      assert keys[j := x][1..] == keys[1..][j - 1 := x];
      OccupiedUpdate(keys[1..], j - 1, x);
    } else {
      assert keys[j := x][1..] == keys[1..];
    }
  }

  lemma {:induction false} OccupiedZero(keys: seq<Option<Key>>)
    ensures Occupied(keys) == 0 <==> forall j :: 0 <= j < |keys| ==> keys[j].None?
    decreases |keys|
  {
    if keys != [] {
      OccupiedZero(keys[1..]);
      assert forall j :: 1 <= j < |keys| ==> keys[j] == keys[1..][j - 1];
    }
  }

  /** put(k, v) and then get(k) gives v. */
  lemma PutThenGet<V>(keys: seq<Option<Key>>, values: seq<Option<V>>, key: Key, v: V)
    requires |keys| == |values| && |keys| > 0
    requires Probe(keys, key, HashOf(key, |keys|), 0).Some?
    ensures var j := Probe(keys, key, HashOf(key, |keys|), 0).value;
      Lookup(keys[j := Some(key)], values[j := Some(v)], key) == Some(v)
  {
    ProbeAfterWrite(keys, key, HashOf(key, |keys|), 0);
  }

  /**
   * remove clears the slot outright, so a key that was placed past it by
   * probing can no longer be found: with two slots, 0 and 2 both hash to
   * slot 0, 2 is placed in slot 1, and after remove(0) the probe for 2 stops
   * at the cleared slot 0.
   */
  lemma RemoveHidesDisplacedKey()
    ensures Probe([None, None], Num(0), HashOf(Num(0), 2), 0) == Some(0)
    ensures Probe([Some(Num(0)), None], Num(2), HashOf(Num(2), 2), 0) == Some(1)
    ensures Probe([Some(Num(0)), Some(Num(2))], Num(0), HashOf(Num(0), 2), 0) == Some(0)
    ensures Lookup([None, Some(Num(2))], [None, Some(7)], Num(2)) == None
  {
    assert HashOf(Num(2), 2) == 0;
    assert Probe([Some(Num(0)), None], Num(2), 0, 1) == Some(1);
  }

  class HashMap<V> {
    const capacity: nat
    var size: int
    const keys: array<Option<Key>>
    const values: array<Option<V>>

    ghost predicate Valid()
      reads this, keys
    {
      capacity > 0 && keys.Length == capacity && values.Length == capacity && keys as object != values as object &&
      size == Occupied(keys[..])
    }

    /** A table of capacity free slots (16 unless given). */
    constructor(capacity: nat)
      requires capacity > 0
      ensures Valid() && this.capacity == capacity && size == 0
      ensures forall j :: 0 <= j < capacity ==> keys[j].None?
      ensures fresh(keys) && fresh(values)
    {
      this.capacity := capacity;
      size := 0;
      keys := new Option<Key>[capacity](_ => None);
      values := new Option<V>[capacity](_ => None);
      new;
      OccupiedZero(keys[..]);
    }

    /**
     * The probing loop shared by put, get and remove: from hash(key), step to
     * the next slot while the current one holds another key; stop at a free
     * slot or key's slot, or report a full turn.
     */
    method FindSlot(key: Key) returns (slot: Option<nat>)
      requires Valid()
      ensures slot == Probe(keys[..], key, HashOf(key, capacity), 0)
    {
      var index := Hash(key, capacity);
      var initialIndex := index;
      ghost var d := 0;
      while keys[index].Some?
        invariant 0 <= d < capacity && index == Slot(initialIndex, d, capacity)
        invariant Probe(keys[..], key, initialIndex, 0) == Probe(keys[..], key, initialIndex, d)
        decreases capacity - d
      {
        if keys[index] == Some(key) {
          return Some(index);
        }
        NextSlot(index, capacity);
        index := (index + 1) % capacity;
        d := d + 1;
        if index == initialIndex {
          return None;
        }
      }
      return Some(index);
    }

    /**
     * put(key, value): overwrite key's value where the probe finds it, or
     * fill the free slot where it stops and count one more entry; a full
     * turn over other keys is the "HashMap is full" error.
     */
    method Put(key: Key, value: V) returns (r: Result<(), string>)
      requires Valid()
      modifies this, keys, values
      ensures Valid()
      ensures var stop := Probe(old(keys[..]), key, HashOf(key, capacity), 0);
        match stop
        case None =>
          r == Err("HashMap is full") && keys[..] == old(keys[..]) && values[..] == old(values[..]) && size == old(size)
        case Some(j) =>
          r.Ok? && keys[..] == old(keys[..])[j := Some(key)] && values[..] == old(values[..])[j := Some(value)] &&
          size == old(size) + (if old(keys[j]).None? then 1 else 0)
    {
      var slot := FindSlot(key);
      if slot.None? {
        return Err("HashMap is full");
      }
      var index := slot.value;
      OccupiedUpdate(keys[..], index, Some(key));
      if keys[index] == Some(key) {
        assert keys[..][index := Some(key)] == keys[..];
        values[index] := Some(value);
        return Ok(());
      }
      ghost var k0 := keys[..];
      keys[index] := Some(key);
      assert keys[..] == k0[index := Some(key)];
      values[index] := Some(value);
      size := size + 1;
      return Ok(());
    }

    /** get(key): the value where the probe finds key, undefined otherwise. */
    method Get(key: Key) returns (r: Option<V>)
      requires Valid()
      ensures r == Lookup(keys[..], values[..], key)
    {
      var slot := FindSlot(key);
      if slot.Some? && keys[slot.value] == Some(key) {
        return values[slot.value];
      }
      return None;
    }

    /** remove(key): clear the slot where the probe finds key and count one entry fewer; otherwise nothing. */
    method Remove(key: Key)
      requires Valid()
      modifies this, keys, values
      ensures Valid()
      ensures var stop := Probe(old(keys[..]), key, HashOf(key, capacity), 0);
        if stop.Some? && old(keys[stop.value]) == Some(key) then
          keys[..] == old(keys[..])[stop.value := None] && values[..] == old(values[..])[stop.value := None] &&
          size == old(size) - 1
        else
          keys[..] == old(keys[..]) && values[..] == old(values[..]) && size == old(size)
    {
      var slot := FindSlot(key);
      if slot.Some? && keys[slot.value] == Some(key) {
        var index := slot.value;
        OccupiedUpdate(keys[..], index, None);
        ghost var k0 := keys[..];
        keys[index] := None;
        assert keys[..] == k0[index := None];
        values[index] := None;
        size := size - 1;
      }
    }

    method SizeValue() returns (n: int)
      requires Valid()
      ensures n == Occupied(keys[..]) && n >= 0
    {
      return size;
    }

    /** isEmpty: no slot is in use. */
    method IsEmpty() returns (empty: bool)
      requires Valid()
      ensures empty <==> forall j :: 0 <= j < keys.Length ==> keys[j].None?
    {
      OccupiedZero(keys[..]);
      return size == 0;
    }
  }
}
