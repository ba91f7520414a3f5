/** The import cache as the resolver uses it. */
module ImportCache {
  import opened Options
  import opened Bits
  import opened HashTable
  import opened ImportSet

  /** The slot of `path`, or the free slot where it belongs; the probe stops because one is free. */
  method FindSlot(table: array<Slot>, hash: PathHash, path: string, ghost owners: map<string, Owner>)
    returns (slot: nat, ghost n: nat)
    requires IsBuckets(table.Length) && Holds(table[..], hash, owners) && |owners| < table.Length
    ensures n < table.Length && slot == Probe(HomeSlot(hash, path, table.Length), n, table.Length)
    ensures TakenByOthers(table[..], HomeSlot(hash, path, table.Length), n, path)
    ensures if table[slot].Free? then path !in owners
            else table[slot].path == path && path in owners && owners[path] == table[slot].owner
  {
    hide Pow2;
    ghost var slots := table[..];
    var home := BitAnd(hash(path), table.Length - 1);
    MaskIsSlot(hash(path), 0, table.Length);
    slot, n := home, 0;
    while table[slot].Taken? && table[slot].path != path
      invariant n < table.Length && slot == Probe(home, n, table.Length) && TakenByOthers(slots, home, n, path)
      decreases table.Length - n
    {
      assert TakenByOthers(slots, home, n + 1, path);
      ProbeEnds(slots, home, n + 1, path);
      MaskIsSlot(home, n + 1, table.Length);
      slot := BitAnd(slot + 1, table.Length - 1);
      NextProbe(home, n, table.Length);
      n := n + 1;
    }
    if table[slot].Free? {
      FreeMeansAbsent(slots, hash, owners, path, n);
    } else {
      assert SlotHolds(slots, hash, owners, slot);
    }
  }

  lemma NextProbe(home: nat, n: nat, capacity: nat)
    requires IsBuckets(capacity) && home < capacity && n + 1 < capacity
    ensures BitAnd(Probe(home, n, capacity) + 1, capacity - 1) == Probe(home, n + 1, capacity)
  {
    BucketFacts(capacity);
    var slot := Probe(home, n, capacity);
    WrapOnce(slot, capacity);
    MaskIsSlot(slot, 1, capacity);
  }

  /** Places every entry of the old table in a new one of twice the size. */
  method Rehash(table: array<Slot>, newTable: array<Slot>, hash: PathHash, ghost owners: map<string, Owner>)
    requires table != newTable && Holds(table[..], hash, owners) && Holds(newTable[..], hash, map[])
    requires IsBuckets(newTable.Length) && newTable.Length == 2 * table.Length
    modifies newTable
    ensures Holds(newTable[..], hash, owners)
  {
    hide Holds, Pow2, IsBuckets;
    ghost var slots := table[..];
    ghost var placed: map<string, Owner> := map[];
    var i := 0;
    while i < table.Length
      invariant 0 <= i <= table.Length && |placed| <= i && table[..] == slots
      invariant Holds(newTable[..], hash, placed) && PlacedUpTo(slots, placed, i)
    {
      TakeNext(slots, hash, owners, placed, i);
      assert table[i] == slots[i];
      if table[i].Taken? {
        var path, owner := table[i].path, table[i].owner;
        var slot, n := FindSlot(newTable, hash, path, placed);
        TakeKeepsHolds(newTable[..], hash, placed, path, owner, n);
        newTable[slot] := Taken(path, owner);
        assert |placed[path := owner]| == |placed| + 1 by {
          assert placed[path := owner].Keys == placed.Keys + {path};
        }
        placed := placed[path := owner];
      }
      i := i + 1;
    }
    AllPlaced(slots, hash, owners, placed);
  }

  class Cache {
    const hash: PathHash
    var table: array?<Slot>
    var count: nat
    ghost var owners: map<string, Owner>

    constructor (hash: PathHash)
      ensures this.hash == hash && Valid() && owners == map[] && table == null
    {
      this.hash := hash;
      table, count, owners := null, 0, map[];
    }

    ghost predicate Valid()
      reads this, table
    {
      && count == |owners|
      && (table == null ==> owners == map[])
      && (table != null ==>
            && IsBuckets(table.Length) && (table.Length <= INITIAL_BUCKETS || table.Length <= 4 * (count + 1))
            && Holds(table[..], hash, owners) && 2 * count <= table.Length)
    }

    /** Makes room for one more entry at a load of one half or less. */
    method Reserve()
      requires Valid() && count < MAX_FILES
      modifies this`table
      ensures Valid() && table != null && 2 * (count + 1) <= table.Length
      ensures table == old(table) || fresh(table)
    {
      hide Holds, Pow2, IsBuckets;
      if table != null && (count + 1) * 2 <= table.Length {
        return;
      }
      var newBuckets := NewSize(table, count);
      var newTable := new Slot[newBuckets](_ => Free);
      BucketFacts(newBuckets);
      NothingHeld(newTable[..], hash);
      if table != null {
        Rehash(table, newTable, hash, owners);
      }
      table := newTable;
    }

    method AlreadyImported(path: string) returns (found: bool)
      requires Valid()
      ensures found <==> path in owners
    {
      hide Holds;
      if table == null {
        return false;
      }
      var slot, _ := FindSlot(table, hash, path, owners);
      return table[slot].Taken?;
    }

    method ImportedBy(path: string) returns (owner: Option<Owner>)
      requires Valid()
      ensures owner == if path in owners then Some(owners[path]) else None
    {
      hide Holds;
      if table == null {
        return None;
      }
      var slot, _ := FindSlot(table, hash, path, owners);
      return if table[slot].Taken? then Some(table[slot].owner) else None;
    }

    /** Records the owner of a path that has none yet. */
    method MarkImported(path: string, owner: Owner)
      requires Valid() && count < MAX_FILES
      modifies this, table
      ensures Valid() && owners == (if path in old(owners) then old(owners) else old(owners)[path := owner])
      ensures table == old(table) || fresh(table)
    {
      hide Holds, Pow2, IsBuckets;
      Reserve();
      var slot, n := FindSlot(table, hash, path, owners);
      if table[slot].Free? {
        TakeKeepsHolds(table[..], hash, owners, path, owner, n);
        table[slot] := Taken(path, owner);
        count := count + 1;
        owners := owners[path := owner];
      }
    }
  }
}
