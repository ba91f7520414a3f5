/** The open-addressing table behind a Grayscale map, as a value: its representation invariant,
    the entries it stands for, and what one slot update does to both. */
module HashTable {
  import opened Bits
  import opened MapKeys
  import opened OrderedMapSpec

  const EMPTY := 0
  const OCCUPIED := 1
  const TOMBSTONE := 2
  const MIN_CAPACITY := 8
  const MAX_CAPACITY := 0x2000_0000  // 2^29: above it the int32 load test would overflow

  /** `order` is the used part of the order array; `position` its reverse index. */
  datatype Table<V> = Table(keys: seq<Key>, values: seq<V>, states: seq<int>, order: seq<int>, position: seq<int>)

  ghost predicate IsCapacity(c: int) {
    exists k: nat :: 3 <= k <= 29 && c == Pow2(k)
  }

  lemma CapacityFacts(c: int)
    requires IsCapacity(c)
    ensures MIN_CAPACITY <= c <= MAX_CAPACITY
    ensures c < MAX_CAPACITY ==> IsCapacity(2 * c)
  {
    var k: nat :| 3 <= k <= 29 && c == Pow2(k);
    Pow2Bounds(k);
    if c < MAX_CAPACITY {
      assert 2 * c == Pow2(k + 1);
    }
  }

  lemma Pow2Bounds(k: nat)
    requires 3 <= k <= 29
    ensures MIN_CAPACITY <= Pow2(k) <= MAX_CAPACITY
    ensures Pow2(k) == MAX_CAPACITY ==> k == 29
    ensures Pow2(k) < MAX_CAPACITY ==> k < 29
  {
    Pow2Values();
    Pow2Monotone(3, k);
    Pow2Monotone(k, 29);
    if k < 29 {
      Pow2Monotone(k + 1, 29);
    }
  }

  lemma Pow2Fours(k: nat)
    requires k >= 2
    ensures Pow2(k) % 4 == 0
  {
    hide Pow2;
    Doubled(k - 1);
    Doubled(k - 2);
    FourTimes(Pow2(k - 2));
  }

  lemma FourTimes(n: nat)
    ensures 2 * (2 * n) % 4 == 0
  {
  }

  /** Slot number `i` of the probe sequence that starts at `home`. */
  function Probe(home: nat, i: nat, capacity: nat): (slot: nat)
    requires home < capacity && i <= capacity
    ensures slot < capacity
  {
    if home + i < capacity then home + i else home + i - capacity
  }

  function Home(hash: Hash, key: Key, capacity: nat): (slot: nat)
    requires capacity > 0
    ensures slot < capacity
  {
    hash(HashedBytes(key)) % capacity
  }

  // What the C code computes with the mask `capacity - 1`.
  lemma MaskIsProbe(h: nat, i: nat, capacity: nat)
    requires IsCapacity(capacity) && i < capacity
    ensures BitAnd(h, capacity - 1) == h % capacity
    ensures BitAnd(h % capacity + i, capacity - 1) == Probe(h % capacity, i, capacity)
  {
    var k: nat :| 3 <= k <= 29 && capacity == Pow2(k);
    MaskOfPower(h, i, capacity, k);
  }

  lemma MaskOfPower(h: nat, i: nat, capacity: nat, k: nat)
    requires capacity == Pow2(k) && i < capacity
    ensures BitAnd(h, capacity - 1) == h % capacity
    ensures BitAnd(h % capacity + i, capacity - 1) == Probe(h % capacity, i, capacity)
  {
    AndMask(h, k);
    AndMask(h % capacity + i, k);
    WrapOnce(h % capacity + i, capacity);
  }

  lemma WrapOnce(x: nat, capacity: nat)
    requires 0 <= x < 2 * capacity
    ensures x % capacity == if x < capacity then x else x - capacity
  {
  }

  // ---------- The entries a table stands for ----------

  ghost predicate InTable<V>(order: seq<int>, keys: seq<Key>, values: seq<V>) {
    |keys| == |values| && forall p :: 0 <= p < |order| ==> order[p] < |keys|
  }

  /** The live slots in `order`, read in sequence; a negative number is a hole. */
  ghost function Live<V>(order: seq<int>, keys: seq<Key>, values: seq<V>): (es: seq<Entry<V>>)
    requires InTable(order, keys, values)
    ensures |es| <= |order|
  {
    if order == [] then []
    else
      var front, last := Live(order[..|order| - 1], keys, values), order[|order| - 1];
      if last < 0 then front else front + [Entry(keys[last], values[last])]
  }

  lemma {:induction false} LiveConcat<V>(a: seq<int>, b: seq<int>, keys: seq<Key>, values: seq<V>)
    requires InTable(a, keys, values) && InTable(b, keys, values)
    ensures InTable(a + b, keys, values)
    ensures Live(a + b, keys, values) == Live(a, keys, values) + Live(b, keys, values)
  {
    if b == [] {
      assert a + b == a;
    } else {
      LiveConcat(a, b[..|b| - 1], keys, values);
      assert (a + b)[..|a + b| - 1] == a + b[..|b| - 1];
    }
  }

  // Splitting the order array around one live slot.
  lemma LiveSplit<V>(order: seq<int>, p: nat, keys: seq<Key>, values: seq<V>)
    requires InTable(order, keys, values) && p < |order| && order[p] >= 0
    ensures Live(order, keys, values)
         == Live(order[..p], keys, values) + [Entry(keys[order[p]], values[order[p]])]
             + Live(order[p + 1..], keys, values)
  {
    assert order == order[..p] + ([order[p]] + order[p + 1..]);
    LiveConcat([order[p]], order[p + 1..], keys, values);
    LiveConcat(order[..p], [order[p]] + order[p + 1..], keys, values);
    assert Live([order[p]], keys, values) == [Entry(keys[order[p]], values[order[p]])];
  }

  lemma {:induction false} LiveFrame<V>(order: seq<int>, keys: seq<Key>, values: seq<V>, keys': seq<Key>,
                                        values': seq<V>)
    requires InTable(order, keys, values) && InTable(order, keys', values') && |keys| == |keys'|
    requires forall p :: 0 <= p < |order| && order[p] >= 0 ==>
               keys'[order[p]] == keys[order[p]] && values'[order[p]] == values[order[p]]
    ensures Live(order, keys', values') == Live(order, keys, values)
  {
    if order != [] {
      LiveFrame(order[..|order| - 1], keys, values, keys', values');
    }
  }

  // Every entry comes from a live slot.
  lemma {:induction false} LiveSource<V>(order: seq<int>, keys: seq<Key>, values: seq<V>, i: nat) returns (p: nat)
    requires InTable(order, keys, values) && i < |Live(order, keys, values)|
    ensures p < |order| && order[p] >= 0 && i == |Live(order[..p], keys, values)|
    ensures Live(order, keys, values)[i] == Entry(keys[order[p]], values[order[p]])
  {
    var n := |order| - 1;
    if i < |Live(order[..n], keys, values)| {
      p := LiveSource(order[..n], keys, values, i);
      assert order[..n][..p] == order[..p];
    } else {
      p := n;
    }
  }

  // ---------- Counting non-empty slots ----------

  ghost function NonEmpty(states: seq<int>): (n: nat)
    ensures n <= |states|
  {
    if states == [] then 0
    else NonEmpty(states[..|states| - 1]) + (if states[|states| - 1] != EMPTY then 1 else 0)
  }

  lemma {:induction false} NonEmptyUpdate(states: seq<int>, s: nat, x: int)
    requires s < |states|
    ensures NonEmpty(states[s := x])
         == NonEmpty(states) + (if x != EMPTY then 1 else 0) - (if states[s] != EMPTY then 1 else 0)
  {
    var n := |states| - 1;
    if s == n {
      assert states[s := x][..n] == states[..n];
    } else {
      NonEmptyUpdate(states[..n], s, x);
      assert states[s := x][..n] == states[..n][s := x];
    }
  }

  lemma {:induction false} AllNonEmpty(states: seq<int>)
    requires forall s :: 0 <= s < |states| ==> states[s] != EMPTY
    ensures NonEmpty(states) == |states|
  {
    if states != [] {
      AllNonEmpty(states[..|states| - 1]);
    }
  }

  lemma {:induction false} AllEmpty(states: seq<int>)
    requires forall s :: 0 <= s < |states| ==> states[s] == EMPTY
    ensures NonEmpty(states) == 0
  {
    if states != [] {
      AllEmpty(states[..|states| - 1]);
    }
  }

  // ---------- The representation invariant ----------

  ghost predicate Shaped<V>(t: Table<V>) {
    && IsCapacity(|t.keys|)
    && |t.values| == |t.states| == |t.position| == |t.keys|
    && |t.order| <= |t.keys|
    && (forall s :: 0 <= s < |t.states| ==> EMPTY <= t.states[s] <= TOMBSTONE)
    && (forall p :: 0 <= p < |t.order| ==> -1 <= t.order[p] < |t.keys|)
  }

  // `position` inverts `order` on the occupied slots, and `order` lists nothing else.
  ghost predicate Indexed<V>(t: Table<V>)
    requires Shaped(t)
  {
    && (forall p :: 0 <= p < |t.order| && t.order[p] >= 0 ==>
          t.states[t.order[p]] == OCCUPIED && t.position[t.order[p]] == p)
    && (forall s :: 0 <= s < |t.states| && t.states[s] == OCCUPIED ==>
          0 <= t.position[s] < |t.order| && t.order[t.position[s]] == s)
  }

  ghost predicate KeysDiffer<V>(t: Table<V>)
    requires Shaped(t)
  {
    forall s, s' :: 0 <= s < s' < |t.states| && t.states[s] == OCCUPIED && t.states[s'] == OCCUPIED ==>
      Canon(t.keys[s]) != Canon(t.keys[s'])
  }

  /** No slot among the first `n` probed from `home` is empty. */
  ghost predicate ChainUnbroken(states: seq<int>, home: nat, n: nat)
    requires home < |states| && n <= |states|
  {
    forall i :: 0 <= i < n ==> states[Probe(home, i, |states|)] != EMPTY
  }

  /** How many steps a probe from `home` takes to arrive at `slot`. */
  function Distance(home: nat, slot: nat, capacity: nat): (d: nat)
    requires home < capacity && slot < capacity
    ensures d < capacity && Probe(home, d, capacity) == slot
    ensures forall i :: 0 <= i < capacity && Probe(home, i, capacity) == slot ==> i == d
  {
    if home <= slot then slot - home else slot + capacity - home
  }

  ghost predicate Reachable<V>(t: Table<V>, hash: Hash)
    requires Shaped(t)
  {
    CapacityFacts(|t.keys|);
    forall s :: 0 <= s < |t.states| && t.states[s] == OCCUPIED ==>
      var home := Home(hash, t.keys[s], |t.states|);
      ChainUnbroken(t.states, home, Distance(home, s, |t.states|))
  }

  ghost predicate Inv<V>(t: Table<V>, hash: Hash) {
    && Shaped(t)
    && Indexed(t)
    && KeysDiffer(t)
    && Reachable(t, hash)
    && NonEmpty(t.states) <= |t.order|
  }

  ghost function Entries<V>(t: Table<V>): seq<Entry<V>>
    requires Shaped(t)
  {
    Live(t.order, t.keys, t.values)
  }

  /** A table of the given capacity with nothing in it. */
  ghost predicate Blank<V>(t: Table<V>) {
    && IsCapacity(|t.keys|)
    && |t.values| == |t.states| == |t.position| == |t.keys|
    && t.order == []
    && (forall s :: 0 <= s < |t.states| ==> t.states[s] == EMPTY)
  }

  lemma BlankInv<V>(t: Table<V>, hash: Hash)
    requires Blank(t)
    ensures Inv(t, hash) && Entries(t) == []
  {
    AllEmpty(t.states);
  }

  // The index among the entries of the key in an occupied slot.
  lemma SlotEntry<V>(t: Table<V>, hash: Hash, s: nat) returns (i: nat)
    requires Inv(t, hash) && s < |t.states| && t.states[s] == OCCUPIED
    ensures i == |Live(t.order[..t.position[s]], t.keys, t.values)| < |Entries(t)|
    ensures Entries(t)[i] == Entry(t.keys[s], t.values[s])
    ensures IndexOf(Entries(t), t.keys[s]) == i
  {
    var p := t.position[s];
    LiveSplit(t.order, p, t.keys, t.values);
    i := |Live(t.order[..p], t.keys, t.values)|;
    EntriesDistinct(t, hash);
    IndexOfUnique(Entries(t), t.keys[s], i);
  }

  lemma EntriesDistinct<V>(t: Table<V>, hash: Hash)
    requires Inv(t, hash)
    ensures Distinct(Entries(t))
  {
    var es := Entries(t);
    forall i, j | 0 <= i < j < |es|
      ensures Canon(es[i].key) != Canon(es[j].key)
    {
      var p := LiveSource(t.order, t.keys, t.values, i);
      var q := LiveSource(t.order, t.keys, t.values, j);
      assert p != q;
      assert t.order[p] != t.order[q] by {
        assert t.position[t.order[p]] == p && t.position[t.order[q]] == q;
      }
    }
  }

  /** No occupied slot holds `key`. */
  ghost predicate Absent<V>(t: Table<V>, key: Key) {
    |t.keys| == |t.states| && forall s :: 0 <= s < |t.states| && t.states[s] == OCCUPIED ==>
        Canon(t.keys[s]) != Canon(key)
  }

  lemma AbsentKey<V>(t: Table<V>, hash: Hash, key: Key)
    requires Inv(t, hash) && Absent(t, key)
    ensures IndexOf(Entries(t), key) == -1
  {
    var i := IndexOf(Entries(t), key);
    if i >= 0 {
      var p := LiveSource(t.order, t.keys, t.values, i);
      assert false;
    }
  }

  /** The first `n` slots probed for `key` are in use, none of them by `key`. */
  ghost predicate Passed<V>(t: Table<V>, hash: Hash, key: Key, n: nat) {
    && 0 < |t.states| == |t.keys| && n <= |t.states|
    && ChainUnbroken(t.states, Home(hash, key, |t.states|), n)
    && forall i {:trigger Probe(Home(hash, key, |t.states|), i, |t.states|)} :: 0 <= i < n ==>
         var s := Probe(Home(hash, key, |t.states|), i, |t.states|);
         t.states[s] == OCCUPIED ==> Canon(t.keys[s]) != Canon(key)
  }

  lemma PassNone<V>(t: Table<V>, hash: Hash, key: Key)
    requires 0 < |t.states| == |t.keys|
    ensures Passed(t, hash, key, 0)
  {
  }

  lemma PassOne<V>(t: Table<V>, hash: Hash, key: Key, n: nat)
    requires Passed(t, hash, key, n) && n < |t.states|
    requires var s := Probe(Home(hash, key, |t.states|), n, |t.states|);
             t.states[s] != EMPTY && (t.states[s] == OCCUPIED ==> !KeysEqual(t.keys[s], key))
    ensures Passed(t, hash, key, n + 1)
  {
  }

  // A probe that stands on an empty slot, or has been all the way round, has looked far enough.
  lemma ProbeStops<V>(t: Table<V>, hash: Hash, key: Key, n: nat)
    requires Inv(t, hash) && Passed(t, hash, key, n)
    requires n < |t.states| ==> t.states[Probe(Home(hash, key, |t.states|), n, |t.states|)] == EMPTY
    ensures Absent(t, key)
  {
  }

  // While the order array has room, some probe meets an empty slot.
  lemma NeverAllNonEmpty<V>(t: Table<V>, hash: Hash, key: Key)
    requires Inv(t, hash) && |t.order| < |t.states|
    ensures !Passed(t, hash, key, |t.states|)
  {
    if Passed(t, hash, key, |t.states|) {
      forall s | 0 <= s < |t.states|
        ensures t.states[s] != EMPTY
      {
        var home := Home(hash, key, |t.states|);
        var d := Distance(home, s, |t.states|);
        assert t.states[Probe(home, d, |t.states|)] != EMPTY;
      }
      AllNonEmpty(t.states);
    }
  }

  /** A slot met by the first `n` probes for `key`. */
  ghost predicate Met<V>(t: Table<V>, hash: Hash, key: Key, s: int, n: nat) {
    && 0 <= s < |t.states| && n <= |t.states|
    && Distance(Home(hash, key, |t.states|), s, |t.states|) < n
  }

  lemma MetOne<V>(t: Table<V>, hash: Hash, key: Key, n: nat, tombstone: int)
    requires n < |t.states|
    ensures Met(t, hash, key, Probe(Home(hash, key, |t.states|), n, |t.states|), n + 1)
    ensures Met(t, hash, key, tombstone, n) ==> Met(t, hash, key, tombstone, n + 1)
  {
  }

  /** A free slot into which the absent `key` may go. */
  ghost predicate FreeFor<V>(t: Table<V>, hash: Hash, key: Key, s: int) {
    && 0 <= s < |t.states| && t.states[s] != OCCUPIED
    && Absent(t, key)
    && var home := Home(hash, key, |t.states|);
       ChainUnbroken(t.states, home, Distance(home, s, |t.states|))
  }

  // The slot an insertion picks: the first tombstone met, or the empty slot that ended the probe.
  lemma FreeSlot<V>(t: Table<V>, hash: Hash, key: Key, n: nat, s: int)
    requires Inv(t, hash) && Passed(t, hash, key, n) && n < |t.states|
    requires t.states[Probe(Home(hash, key, |t.states|), n, |t.states|)] == EMPTY
    requires Met(t, hash, key, s, n + 1) && t.states[s] != OCCUPIED
    ensures FreeFor(t, hash, key, s)
  {
  }

  // ---------- Slot updates ----------

  function Updated<V>(t: Table<V>, s: nat, value: V): Table<V>
    requires s < |t.values|
  {
    t.(values := t.values[s := value])
  }

  lemma UpdateKeepsInv<V>(t: Table<V>, hash: Hash, s: nat, key: Key, value: V)
    requires Inv(t, hash) && s < |t.states| && t.states[s] == OCCUPIED && Canon(t.keys[s]) == Canon(key)
    ensures Inv(Updated(t, s, value), hash)
    ensures Entries(Updated(t, s, value)) == SetEntry(Entries(t), key, value)
  {
    var i := SlotEntryOf(t, hash, s, key);
    SplitAtSlot(t, s, t.values);
    SplitAtSlot(t, s, t.values[s := value]);
    SetBetween(Live(t.order[..t.position[s]], t.keys, t.values), Entry(t.keys[s], t.values[s]),
               Live(t.order[t.position[s] + 1..], t.keys, t.values), key, value);
  }

  lemma SlotEntryOf<V>(t: Table<V>, hash: Hash, s: nat, key: Key) returns (i: nat)
    requires Inv(t, hash) && s < |t.states| && t.states[s] == OCCUPIED && Canon(t.keys[s]) == Canon(key)
    ensures 0 <= t.position[s] < |t.order| && t.order[t.position[s]] == s
    ensures i == |Live(t.order[..t.position[s]], t.keys, t.values)| < |Entries(t)|
    ensures Entries(t)[i] == Entry(t.keys[s], t.values[s])
    ensures IndexOf(Entries(t), key) == i
  {
    i := SlotEntry(t, hash, s);
    EntriesDistinct(t, hash);
    IndexOfUnique(Entries(t), key, i);
  }

  lemma SetBetween<V>(a: seq<Entry<V>>, e: Entry<V>, b: seq<Entry<V>>, key: Key, value: V)
    requires IndexOf(a + [e] + b, key) == |a|
    ensures SetEntry(a + [e] + b, key, value) == a + [Entry(e.key, value)] + b
    ensures RemoveEntry(a + [e] + b, key) == a + b
  {
  }

  // The entries around an occupied slot do not depend on the value stored there.
  lemma SplitAtSlot<V>(t: Table<V>, s: nat, values': seq<V>)
    requires Shaped(t) && Indexed(t) && s < |t.states| && t.states[s] == OCCUPIED
    requires |values'| == |t.values| && forall s' :: 0 <= s' < |t.values| && s' != s ==> values'[s'] == t.values[s']
    ensures Live(t.order, t.keys, values')
         == Live(t.order[..t.position[s]], t.keys, t.values) + [Entry(t.keys[s], values'[s])]
            + Live(t.order[t.position[s] + 1..], t.keys, t.values)
  {
    var p := t.position[s];
    LiveSplit(t.order, p, t.keys, values');
    assert forall q :: 0 <= q < |t.order| && q != p && t.order[q] >= 0 ==> t.order[q] != s;
    LiveFrame(t.order[..p], t.keys, t.values, t.keys, values');
    LiveFrame(t.order[p + 1..], t.keys, t.values, t.keys, values');
  }

  // Filling a slot, or leaving it non-empty, keeps every occupied slot reachable.
  lemma ReachableAfter<V>(t: Table<V>, hash: Hash, t': Table<V>, s: nat)
    requires Shaped(t) && Shaped(t') && Reachable(t, hash) && |t'.states| == |t.states| && s < |t.states|
    requires t'.states == t.states[s := t'.states[s]] && t'.states[s] != EMPTY
    requires forall s' :: 0 <= s' < |t.keys| && s' != s ==> t'.keys[s'] == t.keys[s']
    requires t'.states[s] == OCCUPIED ==>
               var home := Home(hash, t'.keys[s], |t.states|);
               ChainUnbroken(t.states, home, Distance(home, s, |t.states|))
    ensures Reachable(t', hash)
  {
  }

  function Removed<V>(t: Table<V>, s: nat): Table<V>
    requires s < |t.states| && s < |t.position| && 0 <= t.position[s] < |t.order|
  {
    t.(states := t.states[s := TOMBSTONE], order := t.order[t.position[s] := -1])
  }

  lemma RemoveKeepsInv<V>(t: Table<V>, hash: Hash, s: nat, key: Key)
    requires Inv(t, hash) && s < |t.states| && t.states[s] == OCCUPIED && Canon(t.keys[s]) == Canon(key)
    ensures Inv(Removed(t, s), hash)
    ensures Entries(Removed(t, s)) == RemoveEntry(Entries(t), key)
    ensures |Entries(Removed(t, s))| == |Entries(t)| - 1
  {
    hide Reachable, KeysDiffer, NonEmpty, Live, RemoveEntry, Canon;
    RemoveKeepsShape(t, s);
    NonEmptyUpdate(t.states, s, TOMBSTONE);
    ReachableAfter(t, hash, Removed(t, s), s);
    var i := SlotEntryOf(t, hash, s, key);
    SplitAtSlot(t, s, t.values);
    HoleDrops(t.order, t.position[s], t.keys, t.values);
    SetBetween(Live(t.order[..t.position[s]], t.keys, t.values), Entry(t.keys[s], t.values[s]),
               Live(t.order[t.position[s] + 1..], t.keys, t.values), key, t.values[s]);
  }

  lemma RemoveKeepsShape<V>(t: Table<V>, s: nat)
    requires Shaped(t) && Indexed(t) && KeysDiffer(t) && s < |t.states| && t.states[s] == OCCUPIED
    ensures Shaped(Removed(t, s))
    ensures Indexed(Removed(t, s)) && KeysDiffer(Removed(t, s))
  {
  }

  lemma HoleDrops<V>(order: seq<int>, p: nat, keys: seq<Key>, values: seq<V>)
    requires InTable(order, keys, values) && p < |order|
    ensures Live(order[p := -1], keys, values) == Live(order[..p], keys, values) + Live(order[p + 1..], keys, values)
  {
    assert order[p := -1] == order[..p] + ([-1] + order[p + 1..]);
    LiveConcat([-1], order[p + 1..], keys, values);
    LiveConcat(order[..p], [-1] + order[p + 1..], keys, values);
    assert Live([-1], keys, values) == [];
  }

  function Inserted<V>(t: Table<V>, s: nat, key: Key, value: V): Table<V>
    requires s < |t.keys| && |t.values| == |t.states| == |t.position| == |t.keys|
  {
    Table(t.keys[s := key], t.values[s := value], t.states[s := OCCUPIED], t.order + [s], t.position[s := |t.order|])
  }

  // A fresh key may go into any free slot that its own probe reaches without crossing an empty one.
  lemma InsertKeepsInv<V>(t: Table<V>, hash: Hash, s: nat, key: Key, value: V)
    requires Inv(t, hash) && |t.order| < |t.keys|
    requires FreeFor(t, hash, key, s)
    ensures Inv(Inserted(t, s, key, value), hash)
    ensures Entries(Inserted(t, s, key, value)) == SetEntry(Entries(t), key, value)
    ensures Entries(Inserted(t, s, key, value)) == Entries(t) + [Entry(key, value)]
  {
    NonEmptyUpdate(t.states, s, OCCUPIED);
    InsertKeepsShape(t, s, key, value);
    ReachableAfter(t, hash, Inserted(t, s, key, value), s);
    AbsentKey(t, hash, key);
    InsertAppends(t, s, key, value);
  }

  lemma InsertKeepsShape<V>(t: Table<V>, s: nat, key: Key, value: V)
    requires Shaped(t) && Indexed(t) && KeysDiffer(t) && |t.order| < |t.keys|
    requires s < |t.states| && t.states[s] != OCCUPIED && Absent(t, key)
    ensures Shaped(Inserted(t, s, key, value))
    ensures Indexed(Inserted(t, s, key, value)) && KeysDiffer(Inserted(t, s, key, value))
  {
  }

  lemma InsertAppends<V>(t: Table<V>, s: nat, key: Key, value: V)
    requires Shaped(t) && Indexed(t) && s < |t.states| && t.states[s] != OCCUPIED
    ensures Live(t.order + [s], t.keys[s := key], t.values[s := value]) == Entries(t) + [Entry(key, value)]
  {
    var keys', values' := t.keys[s := key], t.values[s := value];
    assert forall p :: 0 <= p < |t.order| && t.order[p] >= 0 ==> t.order[p] != s;
    LiveFrame(t.order, t.keys, t.values, keys', values');
    assert (t.order + [s])[..|t.order|] == t.order;
  }
}
