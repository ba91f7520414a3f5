/** The insertion-ordered hash map of the Grayscale runtime: open addressing with linear probing
    and tombstones, beside an append-only order array with holes. */
module GrayMap {
  import opened Options
  import opened Bits
  import opened MapKeys
  import opened OrderedMapSpec
  import opened HashTable

  // With fewer entries than this the capacity never has to pass MAX_CAPACITY.
  const MAX_ENTRIES := 0x1800_0000

  /** The least power of two that is at least `hint`, between 8 and 2^30. */
  method RoundCapacity(hint: int) returns (capacity: int)
    ensures hint < MIN_CAPACITY ==> capacity == MIN_CAPACITY
    ensures hint > 0x4000_0000 ==> capacity == 0x4000_0000
    ensures MIN_CAPACITY <= hint <= MAX_CAPACITY ==> IsCapacity(capacity) && hint <= capacity
    ensures IsCapacity(hint) ==> capacity == hint
    ensures hint <= MAX_CAPACITY ==> IsCapacity(capacity)
    ensures MIN_CAPACITY < capacity && hint <= 0x4000_0000 ==> capacity < 2 * hint
    ensures MAX_CAPACITY < hint ==> capacity == 0x4000_0000
  {
    Pow2Values();
    if hint < MIN_CAPACITY {
      assert MIN_CAPACITY == Pow2(3);
      if IsCapacity(hint) { CapacityFacts(hint); }
      return MIN_CAPACITY;
    }
    if hint > 0x4000_0000 {
      if IsCapacity(hint) { CapacityFacts(hint); }
      return 0x4000_0000;
    }
    capacity := MIN_CAPACITY;
    ghost var k: nat := 3;
    while capacity < hint
      invariant k >= 3 && capacity == Pow2(k)
      invariant k > 3 ==> Pow2(k - 1) < hint
      decreases hint - capacity
    {
      capacity := capacity * 2;
      k := k + 1;
    }
    LeastPower(hint, k);
  }

  lemma LoadAfterInsert(count: int, capacity: int)
    requires IsCapacity(capacity) && count * 4 < capacity * 3
    ensures (count + 1) * 4 <= capacity * 3
  {
    var k: nat :| 3 <= k <= 29 && capacity == Pow2(k);
    Pow2Fours(k);
  }

  lemma LeastPower(hint: int, k: nat)
    requires MIN_CAPACITY <= hint <= Pow2(k) && k >= 3 && (k > 3 ==> Pow2(k - 1) < hint)
    ensures hint <= MAX_CAPACITY ==> IsCapacity(Pow2(k))
    ensures IsCapacity(hint) ==> Pow2(k) == hint
    ensures MAX_CAPACITY < hint <= 0x4000_0000 ==> Pow2(k) == 0x4000_0000
  {
    hide Pow2;
    Pow2Values();
    Doubled(29);
    if MAX_CAPACITY < hint <= 0x4000_0000 {
      if k < 30 { Pow2Monotone(k, 29); }
      if k > 30 { Pow2Monotone(30, k - 1); }
    }
    if hint <= MAX_CAPACITY && k > 29 {
      Pow2Monotone(29, k - 1);
    }
    if IsCapacity(hint) {
      var m: nat :| 3 <= m <= 29 && hint == Pow2(m);
      if m < k {
        Pow2Monotone(m, k - 1);
      }
      Pow2Monotone(k, m);
    }
  }

  method NewTables<V(0)>(capacity: int)
    returns (keys: array<Key>, values: array<V>, states: array<int>, order: array<int>, position: array<int>)
    requires capacity > 0
    ensures fresh(keys) && fresh(values) && fresh(states) && fresh(order) && fresh(position)
    ensures keys.Length == values.Length == states.Length == order.Length == position.Length == capacity
    ensures keys as object != values && keys as object !in {states as object, order, position}
    ensures values as object !in {states as object, order, position} && order != position
    ensures states !in {order, position}
    ensures forall s :: 0 <= s < capacity ==> states[s] == EMPTY
  {
    keys, values := new Key[capacity], new V[capacity];
    states := new int[capacity](_ => EMPTY);
    order, position := new int[capacity], new int[capacity];
  }

  class GrayMap<V(0)> {
    const hash: Hash
    var keys: array<Key>
    var values: array<V>
    var states: array<int>
    var order: array<int>
    var orderPosition: array<int>
    var count: int
    var capacity: int
    var orderLength: int
    var iterating: int

    /** The five tables are those of the previous state. */
    twostate predicate SameTables()
      reads this
    {
      keys == old(keys) && values == old(values) && states == old(states)
      && order == old(order) && orderPosition == old(orderPosition)
    }

    /** The five tables were all allocated since the previous state. */
    twostate predicate FreshTables()
      reads this
    {
      fresh(keys) && fresh(values) && fresh(states) && fresh(order) && fresh(orderPosition)
    }

    ghost predicate Separate()
      reads this
    {
      && keys as object != values && order != orderPosition && order != states && orderPosition != states
      && keys as object != states && keys as object != order && keys as object != orderPosition
      && values as object != states && values as object != order && values as object != orderPosition
    }

    /** The object is none of the map's tables. */
    ghost predicate Apart(o: object)
      reads this
    {
      o != keys && o != values && o != states && o != order && o != orderPosition
    }

    ghost predicate Sized()
      reads this
    {
      && Separate()
      && keys.Length == values.Length == states.Length == order.Length == orderPosition.Length == capacity
      && 0 <= orderLength <= capacity
    }

    ghost function Snapshot(): Table<V>
      requires Sized()
      reads this, keys, values, states, order, orderPosition
    {
      Table(keys[..], values[..], states[..], order[..orderLength], orderPosition[..])
    }

    ghost predicate Valid()
      reads this, keys, values, states, order, orderPosition
    {
      && Sized() && IsCapacity(capacity)
      && Inv(Snapshot(), hash)
      && count == |Entries(Snapshot())|
      && count * 4 <= capacity * 3
    }

    /** The entries of the map in insertion order: its abstract value. */
    ghost function Contents(): seq<Entry<V>>
      requires Valid()
      reads this, keys, values, states, order, orderPosition
    {
      Entries(Snapshot())
    }

    predicate NeedsRebuild()
      reads this
    {
      count * 4 >= capacity * 3 || orderLength >= capacity
    }

    constructor (hash: Hash, initialCapacity: int)
      requires initialCapacity <= MAX_CAPACITY
      ensures this.hash == hash && iterating == 0
      ensures Valid()
      ensures fresh(keys) && fresh(values) && fresh(states) && fresh(order) && fresh(orderPosition)
      ensures Contents() == []
    {
      var rounded := RoundCapacity(initialCapacity);
      CapacityFacts(rounded);
      hide Inv, Entries, IsCapacity;
      this.hash := hash;
      count, capacity, orderLength, iterating := 0, rounded, 0, 0;
      var newKeys, newValues, newStates, newOrder, newPositions := NewTables<V>(rounded);
      keys, values, states, order, orderPosition := newKeys, newValues, newStates, newOrder, newPositions;
      new;
      IsBlank(Snapshot());
      BlankInv(Snapshot(), hash);
    }

    /** The slot that holds `key`, or -1. */
    method FindSlot(key: Key) returns (slot: int)
      requires Valid()
      ensures slot == -1 || (0 <= slot < capacity && states[slot] == OCCUPIED && Canon(keys[slot]) == Canon(key))
      ensures slot == -1 ==> Absent(Snapshot(), key)
    {
      hide Inv, Shaped, Entries, IsCapacity, Passed, Absent, Canon, KeysEqual, HashedBytes, BitAnd, Probe, Pow2;
      CapacityFacts(capacity);
      ghost var t := Snapshot();
      var mask := capacity - 1;
      MaskIsProbe(hash(HashedBytes(key)), 0, capacity);
      var index := BitAnd(hash(HashedBytes(key)), mask);
      PassNone(t, hash, key);
      var i := 0;
      while i < capacity
        invariant 0 <= i <= capacity && Passed(t, hash, key, i)
      {
        MaskIsProbe(hash(HashedBytes(key)), i, capacity);
        var probe := BitAnd(index + i, mask);
        assert probe == Probe(Home(hash, key, capacity), i, capacity);
        if states[probe] == EMPTY {
          ProbeStops(t, hash, key, i);
          return -1;
        }
        EqualIffSameCanon(keys[probe], key);
        if states[probe] == OCCUPIED && KeysEqual(keys[probe], key) {
          return probe;
        }
        PassOne(t, hash, key, i);
        i := i + 1;
      }
      ProbeStops(t, hash, key, capacity);
      return -1;
    }

    method Get(key: Key) returns (result: Option<V>)
      requires Valid()
      ensures result == Lookup(Contents(), key)
    {
      hide Indexed, KeysDiffer, Reachable, NonEmpty, Live, Entries;
      var index := FindSlot(key);
      if index < 0 {
        AbsentKey(Snapshot(), hash, key);
        return None;
      }
      ghost var i := SlotEntryOf(Snapshot(), hash, index, key);
      return Some(values[index]);
    }

    method Has(key: Key) returns (result: bool)
      requires Valid()
      ensures result <==> Lookup(Contents(), key).Some?
    {
      hide Indexed, KeysDiffer, Reachable, NonEmpty, Live, Entries;
      var index := FindSlot(key);
      if index < 0 {
        AbsentKey(Snapshot(), hash, key);
      } else {
        ghost var i := SlotEntryOf(Snapshot(), hash, index, key);
      }
      return index >= 0;
    }

    /** The probe loop of a set: the slot to update, or the free slot to insert into. */
    method FindInsertSlot(key: Key) returns (slot: int, isUpdate: bool)
      requires Valid() && orderLength < capacity
      ensures 0 <= slot < capacity
      ensures isUpdate ==> states[slot] == OCCUPIED && Canon(keys[slot]) == Canon(key)
      ensures !isUpdate ==> FreeFor(Snapshot(), hash, key, slot)
    {
      hide Entries, IsCapacity, Passed, Absent, FreeFor, Indexed, KeysDiffer, Reachable, NonEmpty, Canon, KeysEqual;
      hide Met, HashedBytes, BitAnd, Probe, Pow2;
      CapacityFacts(capacity);
      ghost var t := Snapshot();
      var mask := capacity - 1;
      MaskIsProbe(hash(HashedBytes(key)), 0, capacity);
      var index := BitAnd(hash(HashedBytes(key)), mask);
      var firstTombstone := -1;
      PassNone(t, hash, key);
      var i := 0;
      while i < capacity
        invariant 0 <= i <= capacity && Passed(t, hash, key, i)
        invariant -1 <= firstTombstone < capacity
        invariant firstTombstone >= 0 ==> t.states[firstTombstone] == TOMBSTONE && Met(t, hash, key, firstTombstone, i)
      {
        MaskIsProbe(hash(HashedBytes(key)), i, capacity);
        var probe := BitAnd(index + i, mask);
        assert probe == Probe(Home(hash, key, capacity), i, capacity);
        MetOne(t, hash, key, i, firstTombstone);
        if states[probe] == TOMBSTONE {
          if firstTombstone < 0 {
            firstTombstone := probe;
          }
          PassOne(t, hash, key, i);
          i := i + 1;
          continue;
        }
        if states[probe] == EMPTY {
          slot := if firstTombstone >= 0 then firstTombstone else probe;
          FreeSlot(t, hash, key, i, slot);
          return slot, false;
        }
        EqualIffSameCanon(keys[probe], key);
        if KeysEqual(keys[probe], key) {
          return probe, true;
        }
        PassOne(t, hash, key, i);
        i := i + 1;
      }
      // The C code falls back to the first tombstone here. While the order array has room some
      // probe meets an empty slot, so the loop has returned.
      NeverAllNonEmpty(t, hash, key);
      assert false;
    }

    /** Place a new entry in a free slot: state, order entry and count move together. */
    method InsertAt(slot: int, key: Key, value: V)
      requires Valid() && !NeedsRebuild()
      requires 0 <= slot < capacity && FreeFor(Snapshot(), hash, key, slot)
      modifies this`count, this`orderLength, keys, values, states, order, orderPosition
      ensures Valid()
      ensures Contents() == SetEntry(old(Contents()), key, value) == old(Contents()) + [Entry(key, value)]
      ensures orderLength == old(orderLength) + 1 && count == old(count) + 1
    {
      CapacityFacts(capacity);
      hide Inv, Shaped, Indexed, KeysDiffer, Reachable, NonEmpty, Live, Entries;
      ghost var t := Snapshot();
      InsertKeepsInv(t, hash, slot, key, value);
      keys[slot] := key;
      values[slot] := value;
      states[slot] := OCCUPIED;
      orderPosition[slot] := orderLength;
      order[orderLength] := slot;
      orderLength := orderLength + 1;
      count := count + 1;
      assert order[..orderLength] == t.order + [slot];
      assert Snapshot() == Inserted(t, slot, key, value);
      LoadAfterInsert(old(count), capacity);
    }

    method UpdateAt(slot: int, key: Key, value: V)
      requires Valid() && 0 <= slot < capacity
      requires states[slot] == OCCUPIED && Canon(keys[slot]) == Canon(key)
      modifies values
      ensures Valid()
      ensures IndexOf(old(Contents()), key) >= 0
      ensures Contents() == SetEntry(old(Contents()), key, value)
    {
      hide Indexed, KeysDiffer, Reachable, NonEmpty, Live, Entries;
      ghost var t := Snapshot();
      UpdateKeepsInv(t, hash, slot, key, value);
      ghost var i := SlotEntryOf(t, hash, slot, key);
      values[slot] := value;
      assert Snapshot() == Updated(t, slot, value);
    }

    /** The part of a set that follows the rebuilds. */
    method Place(key: Key, value: V)
      requires Valid() && !NeedsRebuild()
      modifies this`count, this`orderLength, keys, values, states, order, orderPosition
      ensures Valid()
      ensures Contents() == SetEntry(old(Contents()), key, value)
      ensures IndexOf(old(Contents()), key) < 0 ==> orderLength == old(orderLength) + 1 && count == old(count) + 1
    {
      hide Inv, Shaped, Entries, IsCapacity, FreeFor, Absent, IndexOf, SetEntry;
      var slot, isUpdate := FindInsertSlot(key);
      if isUpdate {
        UpdateAt(slot, key, value);
      } else {
        InsertAt(slot, key, value);
      }
    }

    /** Sets `key` to `value`; panics, changing nothing, when that would add a key during iteration. */
    method Set(key: Key, value: V) returns (panicked: bool)
      requires Valid() && |Contents()| < MAX_ENTRIES
      modifies this, keys, values, states, order, orderPosition
      ensures Valid() && iterating == old(iterating)
      ensures panicked <==> iterating > 0 && IndexOf(old(Contents()), key) < 0
      ensures Contents() == if panicked then old(Contents()) else SetEntry(old(Contents()), key, value)
      ensures SameTables() || FreshTables()
      ensures !old(NeedsRebuild()) ==> capacity == old(capacity)
      ensures !old(NeedsRebuild()) && !panicked && IndexOf(old(Contents()), key) < 0 ==>
                orderLength == old(orderLength) + 1 && count == old(count) + 1
      decreases if NeedsRebuild() then 2 else 0
    {
      hide Inv, Shaped, Entries, IndexOf, SetEntry, IsCapacity, Absent;
      CapacityFacts(capacity);
      if iterating > 0 {
        var existing := FindSlot(key);
        if existing < 0 {
          AbsentKey(Snapshot(), hash, key);
          return true;
        }
        UpdateAt(existing, key, value);
        return false;
      }
      if count * 4 >= capacity * 3 {
        Rebuild(capacity * 2);
      }
      if orderLength >= capacity {
        Rebuild(capacity);
      }
      Place(key, value);
      return false;
    }

    /** Fresh, empty tables of the given capacity. */
    method AllocateTables(newCapacity: int)
      requires IsCapacity(newCapacity)
      modifies this`keys, this`values, this`states, this`order, this`orderPosition, this`capacity, this`count
      modifies this`orderLength
      ensures Valid() && iterating == old(iterating) && FreshTables()
      ensures capacity == newCapacity && orderLength == count == 0
      ensures Contents() == []
    {
      hide Inv, Entries, IsCapacity, Blank;
      CapacityFacts(newCapacity);
      var newKeys, newValues, newStates, newOrder, newPositions := NewTables<V>(newCapacity);
      keys, values, states, order, orderPosition := newKeys, newValues, newStates, newOrder, newPositions;
      capacity, count, orderLength := newCapacity, 0, 0;
      assert Sized();
      IsBlank(Snapshot());
      BlankInv(Snapshot(), hash);
    }

    /** Re-inserts the live entries, in order, into fresh tables. The old tables are left as they
        were, and none of the insertions rebuilds again. */
    method Rebuild(newCapacity: int)
      requires Valid() && iterating <= 0
      requires IsCapacity(newCapacity) && count <= newCapacity && 4 * (count - 1) < 3 * newCapacity
      requires count <= MAX_ENTRIES
      modifies this
      ensures Valid() && iterating == old(iterating) && FreshTables()
      ensures capacity == newCapacity && orderLength == count == old(count)
      ensures Contents() == old(Contents())
      decreases 1, 1
    {
      hide Inv, Shaped, Entries, Live, IsCapacity, IndexOf, SetEntry, AreTables;
      var rounded := RoundCapacity(newCapacity);
      ghost var t := Snapshot();
      TableFacts(t, hash);
      var oldKeys, oldValues, oldStates, oldOrder, oldOrderLength := keys, values, states, order, orderLength;
      AreTablesNow(t, keys, values, states, order);
      AllocateTables(rounded);
      Reinsert(oldKeys, oldValues, oldStates, oldOrder, oldOrderLength, t);
    }

    /** Inserts what the old tables hold, in order, into the empty ones. */
    method Reinsert(oldKeys: array<Key>, oldValues: array<V>, oldStates: array<int>, oldOrder: array<int>,
                    oldOrderLength: int, ghost t: Table<V>)
      requires Valid() && iterating <= 0 && Contents() == [] && orderLength == count == 0
      requires Inv(t, hash) && oldOrderLength == |t.order| && AreTables(t, oldKeys, oldValues, oldStates, oldOrder)
      requires Apart(oldKeys) && Apart(oldValues) && Apart(oldStates) && Apart(oldOrder)
      requires |Entries(t)| <= capacity && 4 * (|Entries(t)| - 1) < 3 * capacity && |Entries(t)| <= MAX_ENTRIES
      modifies this, keys, values, states, order, orderPosition
      ensures Valid() && iterating == old(iterating) && (SameTables() || FreshTables())
      ensures capacity == old(capacity) && orderLength == count == |Entries(t)|
      ensures Contents() == Entries(t)
      decreases 1, 0
    {
      hide Indexed, KeysDiffer, Reachable, NonEmpty, Live, IsCapacity, IndexOf, SetEntry, AreTables;
      var i := 0;
      while i < oldOrderLength
        invariant 0 <= i <= oldOrderLength == |t.order|
        invariant Valid() && capacity == old(capacity) && iterating == old(iterating) && (SameTables() || FreshTables())
        invariant AreTables(t, oldKeys, oldValues, oldStates, oldOrder)
        invariant Contents() == Live(t.order[..i], t.keys, t.values) && orderLength == count
      {
        TablesAt(t, oldKeys, oldValues, oldStates, oldOrder, i);
        var slot := oldOrder[i];
        NextLive(t, hash, i);
        if slot >= 0 && oldStates[slot] == OCCUPIED {
          var panicked := Set(oldKeys[slot], oldValues[slot]);
        }
        i := i + 1;
      }
      assert t.order[..oldOrderLength] == t.order;
    }

    /** Tombstones an occupied slot and punches a hole in the order array. */
    method RemoveAt(slot: int, key: Key)
      requires Valid() && 0 <= slot < capacity
      requires states[slot] == OCCUPIED && Canon(keys[slot]) == Canon(key)
      modifies this`count, states, order
      ensures Valid()
      ensures IndexOf(old(Contents()), key) >= 0
      ensures Contents() == RemoveEntry(old(Contents()), key)
    {
      hide Inv, Shaped, Entries, IndexOf, RemoveEntry, Canon;
      ghost var t := Snapshot();
      RemoveKeepsInv(t, hash, slot, key);
      ghost var i := SlotEntryOf(t, hash, slot, key);
      states[slot] := TOMBSTONE;
      count := count - 1;
      var position := orderPosition[slot];
      if position >= 0 && position < orderLength && order[position] == slot {
        order[position] := -1;
      }
      assert Snapshot() == Removed(t, slot);
    }

    method Remove(key: Key) returns (panicked: bool, removed: bool)
      requires Valid()
      modifies this`count, states, order
      ensures Valid()
      ensures panicked <==> iterating > 0
      ensures removed <==> !panicked && Lookup(old(Contents()), key).Some?
      ensures Contents() == if panicked then old(Contents()) else RemoveEntry(old(Contents()), key)
    {
      hide Inv, Shaped, Entries, Absent, IndexOf, Canon;
      if iterating > 0 {
        return true, false;
      }
      var index := FindSlot(key);
      if index < 0 {
        AbsentKey(Snapshot(), hash, key);
        return false, false;
      }
      RemoveAt(index, key);
      return false, true;
    }

    method Clear() returns (panicked: bool)
      requires Valid()
      modifies this`count, this`orderLength, states
      ensures Valid()
      ensures panicked <==> iterating > 0
      ensures Contents() == if panicked then old(Contents()) else []
    {
      hide Indexed, KeysDiffer, Reachable, NonEmpty, Live, Entries;
      if iterating > 0 {
        return true;
      }
      CapacityFacts(capacity);
      forall s | 0 <= s < states.Length {
        states[s] := EMPTY;
      }
      count, orderLength := 0, 0;
      BlankInv(Snapshot(), hash);
      return false;
    }

    /** A map with the same entries and tables of its own: no later change to either shows in the other. */
    constructor Copy(source: GrayMap<V>)
      requires source.Valid()
      ensures Valid() && iterating == 0 && hash == source.hash
      ensures fresh(keys) && fresh(values) && fresh(states) && fresh(order) && fresh(orderPosition)
      ensures Contents() == source.Contents()
    {
      hide Indexed, KeysDiffer, Reachable, NonEmpty, Live, Entries;
      hash := source.hash;
      count, capacity, orderLength, iterating := source.count, source.capacity, source.orderLength, 0;
      keys := new Key[source.capacity](
        i requires 0 <= i < source.keys.Length reads source, source.keys => source.keys[i]);
      values := new V[source.capacity](
        i requires 0 <= i < source.values.Length reads source, source.values => source.values[i]);
      states := new int[source.capacity](
        i requires 0 <= i < source.states.Length reads source, source.states => source.states[i]);
      order := new int[source.capacity](
        i requires 0 <= i < source.order.Length reads source, source.order => source.order[i]);
      orderPosition := new int[source.capacity](
        i requires 0 <= i < source.orderPosition.Length reads source, source.orderPosition => source.orderPosition[i]);
      new;
      assert Snapshot() == source.Snapshot();
    }
  }

  // The given arrays hold the tables of `t`.
  ghost predicate AreTables<V>(t: Table<V>, keys: array<Key>, values: array<V>, states: array<int>, order: array<int>)
    reads keys, values, states, order
  {
    keys[..] == t.keys && values[..] == t.values && states[..] == t.states && t.order <= order[..]
  }

  lemma AreTablesNow<V>(t: Table<V>, keys: array<Key>, values: array<V>, states: array<int>, order: array<int>)
    requires keys[..] == t.keys && values[..] == t.values && states[..] == t.states && t.order <= order[..]
    ensures AreTables(t, keys, values, states, order)
  {
  }

  lemma TablesAt<V>(t: Table<V>, keys: array<Key>, values: array<V>, states: array<int>, order: array<int>, i: nat)
    requires AreTables(t, keys, values, states, order) && i < |t.order|
    ensures keys.Length == |t.keys| && values.Length == |t.values| && states.Length == |t.states| && i < order.Length
    ensures order[i] == t.order[i]
    ensures 0 <= t.order[i] < |t.keys| && |t.keys| == |t.values| == |t.states| ==>
              && keys[t.order[i]] == t.keys[t.order[i]] && values[t.order[i]] == t.values[t.order[i]]
              && states[t.order[i]] == t.states[t.order[i]]
  {
  }

  lemma IsBlank<V>(t: Table<V>)
    requires IsCapacity(|t.keys|) && |t.values| == |t.states| == |t.position| == |t.keys| && t.order == []
    requires forall s :: 0 <= s < |t.states| ==> t.states[s] == EMPTY
    ensures Blank(t)
  {
  }

  lemma TableFacts<V>(t: Table<V>, hash: Hash)
    requires Inv(t, hash)
    ensures Shaped(t) && Entries(t) == Live(t.order, t.keys, t.values) && Live(t.order[..0], t.keys, t.values) == []
  {
  }

  // Reading one more element of the order array: a hole, or a live key that is not among those
  // already read, which are few enough.
  lemma NextLive<V>(t: Table<V>, hash: Hash, i: nat)
    requires Inv(t, hash) && i < |t.order|
    ensures t.order[i] < 0 ==> Live(t.order[..i + 1], t.keys, t.values) == Live(t.order[..i], t.keys, t.values)
    ensures t.order[i] >= 0 ==>
              && t.states[t.order[i]] == OCCUPIED
              && Live(t.order[..i + 1], t.keys, t.values)
                 == SetEntry(Live(t.order[..i], t.keys, t.values), t.keys[t.order[i]], t.values[t.order[i]])
              && IndexOf(Live(t.order[..i], t.keys, t.values), t.keys[t.order[i]]) == -1
              && |Live(t.order[..i], t.keys, t.values)| < |Entries(t)|
  {
    assert t.order[..i + 1][..i] == t.order[..i];
    if t.order[i] >= 0 {
      var front, key := Live(t.order[..i], t.keys, t.values), t.keys[t.order[i]];
      LiveSplit(t.order, i, t.keys, t.values);
      EntriesDistinct(t, hash);
      DistinctPrefix(Entries(t), front, key);
    }
  }

  lemma DistinctPrefix<V>(es: seq<Entry<V>>, front: seq<Entry<V>>, key: Key)
    requires Distinct(es) && front < es && es[|front|].key == key
    ensures IndexOf(front, key) == -1
  {
  }
}
