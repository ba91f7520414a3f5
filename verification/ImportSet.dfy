/** The cache of imported files: an open-addressing hash set keyed by canonical path. */
module ImportSet {
  import opened Options
  import opened Bits
  import opened HashTable

  // Who brought a file in: the module it belongs to, the importing file, and whether as part of a directory.
  datatype Owner = Owner(moduleName: Option<string>, from: Option<string>, isFromDirectory: bool)

  datatype Slot = Free | Taken(path: string, owner: Owner)

  type PathHash = string -> nat

  const INITIAL_BUCKETS := 512
  const MAX_BUCKETS := 0x8000_0000  // 2^31: twice as many is zero in uint32_t
  const MAX_FILES := 0x4000_0000  // 2^30: up to here the bucket count stays within MAX_BUCKETS

  ghost predicate IsBuckets(n: int) {
    exists k: nat :: 3 <= k <= 31 && n == Pow2(k)
  }

  lemma BucketFacts(n: int)
    requires IsBuckets(n)
    ensures 8 <= n <= MAX_BUCKETS
    ensures n < MAX_BUCKETS ==> 2 * n <= MAX_BUCKETS && IsBuckets(2 * n)
  {
    hide Pow2;
    var k: nat :| 3 <= k <= 31 && n == Pow2(k);
    Pow2Values();
    Doubled(31);
    Pow2Monotone(3, k);
    Pow2Monotone(k, 31);
    Doubled(k);
    if n < MAX_BUCKETS {
      Pow2Monotone(k + 1, 31);
    }
  }

  // What the C code computes with the mask `n - 1`.
  lemma MaskIsSlot(h: nat, i: nat, n: nat)
    requires IsBuckets(n) && i < n
    ensures BitAnd(h, n - 1) == h % n
    ensures BitAnd(h % n + i, n - 1) == Probe(h % n, i, n)
  {
    var k: nat :| 3 <= k <= 31 && n == Pow2(k);
    MaskOfPower(h, i, n, k);
  }

  function HomeSlot(hash: PathHash, path: string, n: nat): (slot: nat)
    requires n > 0
    ensures slot < n
  {
    hash(path) % n
  }

  function CountTaken(slots: seq<Slot>): (n: nat)
    ensures n <= |slots|
  {
    if slots == [] then 0 else CountTaken(slots[..|slots| - 1]) + if slots[|slots| - 1].Taken? then 1 else 0
  }

  /** The first n slots probed from `home` are taken, and none by `path`. */
  ghost predicate TakenByOthers(slots: seq<Slot>, home: nat, n: nat, path: string) {
    && home < |slots| && n <= |slots|
    && forall i {:trigger Probe(home, i, |slots|)} :: 0 <= i < n ==>
         slots[Probe(home, i, |slots|)].Taken? && slots[Probe(home, i, |slots|)].path != path
  }

  /** Slot s, if taken, holds a binding of `owners` and is found by probing from its home. */
  ghost predicate SlotHolds(slots: seq<Slot>, hash: PathHash, owners: map<string, Owner>, s: nat)
    requires s < |slots|
  {
    slots[s].Taken? ==>
      var path, home := slots[s].path, HomeSlot(hash, slots[s].path, |slots|);
      path in owners && owners[path] == slots[s].owner && TakenByOthers(slots, home, Distance(home, s, |slots|), path)
  }

  ghost predicate IsHeld(slots: seq<Slot>, path: string) {
    exists s :: 0 <= s < |slots| && slots[s].Taken? && slots[s].path == path
  }

  /** The slots hold exactly the bindings of `owners`. */
  ghost predicate Holds(slots: seq<Slot>, hash: PathHash, owners: map<string, Owner>) {
    && |slots| > 0
    && (forall s :: 0 <= s < |slots| ==> SlotHolds(slots, hash, owners, s))
    && (forall path :: path in owners ==> IsHeld(slots, path))
    && CountTaken(slots) == |owners|
  }

  lemma {:induction false} AllTaken(slots: seq<Slot>)
    requires forall s :: 0 <= s < |slots| ==> slots[s].Taken?
    ensures CountTaken(slots) == |slots|
  {
    if slots != [] {
      AllTaken(slots[..|slots| - 1]);
    }
  }

  lemma {:induction false} TakenUpdate(slots: seq<Slot>, s: nat, slot: Slot)
    requires s < |slots| && slots[s].Free? && slot.Taken?
    ensures CountTaken(slots[s := slot]) == CountTaken(slots) + 1
  {
    var n := |slots| - 1;
    if s == n {
      assert slots[s := slot][..n] == slots[..n];
    } else {
      TakenUpdate(slots[..n], s, slot);
      assert slots[s := slot][..n] == slots[..n][s := slot];
    }
  }

  lemma {:induction false} NoneTaken(slots: seq<Slot>)
    requires forall s :: 0 <= s < |slots| ==> slots[s].Free?
    ensures CountTaken(slots) == 0
  {
    if slots != [] {
      NoneTaken(slots[..|slots| - 1]);
    }
  }

  // A probe cannot pass every slot while one is free.
  lemma ProbeEnds(slots: seq<Slot>, home: nat, n: nat, path: string)
    requires TakenByOthers(slots, home, n, path) && CountTaken(slots) < |slots|
    ensures n < |slots|
  {
    if n == |slots| {
      forall s | 0 <= s < |slots| ensures slots[s].Taken? {
        assert Probe(home, Distance(home, s, |slots|), |slots|) == s;
      }
      AllTaken(slots);
    }
  }

  // A free slot at the end of the probe means the path is not there.
  lemma FreeMeansAbsent(slots: seq<Slot>, hash: PathHash, owners: map<string, Owner>, path: string, n: nat)
    requires Holds(slots, hash, owners) && n < |slots|
    requires TakenByOthers(slots, HomeSlot(hash, path, |slots|), n, path)
    requires slots[Probe(HomeSlot(hash, path, |slots|), n, |slots|)].Free?
    ensures path !in owners
  {
    forall s | 0 <= s < |slots| && slots[s].Taken? ensures slots[s].path != path {
      assert SlotHolds(slots, hash, owners, s);
    }
    assert !IsHeld(slots, path);
  }

  lemma TakeKeepsHolds(slots: seq<Slot>, hash: PathHash, owners: map<string, Owner>, path: string, owner: Owner, n: nat)
    requires Holds(slots, hash, owners) && path !in owners && n < |slots|
    requires TakenByOthers(slots, HomeSlot(hash, path, |slots|), n, path)
    requires slots[Probe(HomeSlot(hash, path, |slots|), n, |slots|)].Free?
    ensures Holds(slots[Probe(HomeSlot(hash, path, |slots|), n, |slots|) := Taken(path, owner)], hash,
        owners[path := owner])
  {
    var home := HomeSlot(hash, path, |slots|);
    var slot, taken := Probe(home, n, |slots|), Taken(path, owner);
    var slots', owners' := slots[slot := taken], owners[path := owner];
    TakenUpdate(slots, slot, taken);
    assert owners'.Keys == owners.Keys + {path};
    assert |owners'| == |owners| + 1;
    hide SlotHolds, IsHeld, TakenByOthers, CountTaken;
    forall s | 0 <= s < |slots'| ensures SlotHolds(slots', hash, owners', s) {
      if s == slot {
        NewSlotHolds(slots, hash, owners, path, owner, n);
      } else {
        OldSlotHolds(slots, hash, owners, slot, path, owner, s);
      }
    }
    forall p | p in owners' ensures IsHeld(slots', p) {
      StillHeld(slots, slot, path, owner, p);
    }
  }

  lemma NewSlotHolds(slots: seq<Slot>, hash: PathHash, owners: map<string, Owner>, path: string, owner: Owner, n: nat)
    requires n < |slots|
    requires TakenByOthers(slots, HomeSlot(hash, path, |slots|), n, path)
    requires slots[Probe(HomeSlot(hash, path, |slots|), n, |slots|)].Free?
    ensures var slot := Probe(HomeSlot(hash, path, |slots|), n, |slots|);
            SlotHolds(slots[slot := Taken(path, owner)], hash, owners[path := owner], slot)
  {
  }

  lemma OldSlotHolds(slots: seq<Slot>, hash: PathHash, owners: map<string, Owner>, slot: nat, path: string,
                     owner: Owner, s: nat)
    requires slot < |slots| && s < |slots| && s != slot && path !in owners && slots[slot].Free?
    requires SlotHolds(slots, hash, owners, s)
    ensures SlotHolds(slots[slot := Taken(path, owner)], hash, owners[path := owner], s)
  {
  }

  lemma StillHeld(slots: seq<Slot>, slot: nat, path: string, owner: Owner, p: string)
    requires slot < |slots| && slots[slot].Free? && (p == path || IsHeld(slots, p))
    ensures IsHeld(slots[slot := Taken(path, owner)], p)
  {
    var slots' := slots[slot := Taken(path, owner)];
    if p == path {
      assert slots'[slot].path == p;
    } else {
      var s :| 0 <= s < |slots| && slots[s].Taken? && slots[s].path == p;
      assert slots'[s] == slots[s];
    }
  }

  // ---------- Rehashing ----------

  lemma NothingHeld(slots: seq<Slot>, hash: PathHash)
    requires |slots| > 0 && forall s :: 0 <= s < |slots| ==> slots[s].Free?
    ensures Holds(slots, hash, map[])
  {
    NoneTaken(slots);
  }

  /** `placed` binds the paths of the first n slots, with their owners. */
  ghost predicate PlacedUpTo(slots: seq<Slot>, placed: map<string, Owner>, n: nat) {
    && n <= |slots|
    && (forall s :: 0 <= s < n && slots[s].Taken? ==>
        slots[s].path in placed && placed[slots[s].path] == slots[s].owner)
    && (forall path :: path in placed ==> IsHeld(slots[..n], path))
  }

  // The next taken slot holds a path that has not been placed.
  lemma TakeNext(slots: seq<Slot>, hash: PathHash, owners: map<string, Owner>, placed: map<string, Owner>, i: nat)
    requires Holds(slots, hash, owners) && PlacedUpTo(slots, placed, i) && i < |slots|
    ensures slots[i].Taken? ==>
              && slots[i].path !in placed
              && PlacedUpTo(slots, placed[slots[i].path := slots[i].owner], i + 1)
    ensures slots[i].Free? ==> PlacedUpTo(slots, placed, i + 1)
  {
    hide Holds;
    forall path ensures IsHeld(slots[..i], path) ==> IsHeld(slots[..i + 1], path) {
      HeldLonger(slots, i, path);
    }
    if slots[i].Taken? {
      assert slots[..i + 1][i].path == slots[i].path;
      NotBefore(slots, hash, owners, i);
    }
  }

  lemma HeldLonger(slots: seq<Slot>, i: nat, path: string)
    requires i < |slots|
    ensures IsHeld(slots[..i], path) ==> IsHeld(slots[..i + 1], path)
  {
  }

  lemma NotBefore(slots: seq<Slot>, hash: PathHash, owners: map<string, Owner>, i: nat)
    requires Holds(slots, hash, owners) && i < |slots| && slots[i].Taken?
    ensures !IsHeld(slots[..i], slots[i].path)
  {
    forall s | 0 <= s < i && slots[s].Taken? ensures slots[s].path != slots[i].path {
      PathsDiffer(slots, hash, owners, s, i);
    }
  }

  lemma PathsDiffer(slots: seq<Slot>, hash: PathHash, owners: map<string, Owner>, s: nat, t: nat)
    requires Holds(slots, hash, owners) && s < t < |slots| && slots[s].Taken? && slots[t].Taken?
    ensures slots[s].path != slots[t].path
  {
    assert SlotHolds(slots, hash, owners, s) && SlotHolds(slots, hash, owners, t);
    var home := HomeSlot(hash, slots[s].path, |slots|);
    assert Probe(home, Distance(home, s, |slots|), |slots|) == s;
    assert Probe(home, Distance(home, t, |slots|), |slots|) == t;
  }

  lemma AllPlaced(slots: seq<Slot>, hash: PathHash, owners: map<string, Owner>, placed: map<string, Owner>)
    requires Holds(slots, hash, owners) && PlacedUpTo(slots, placed, |slots|)
    ensures placed == owners
  {
    assert slots[..|slots|] == slots;
    forall path | path in owners ensures path in placed && placed[path] == owners[path] {
      var s :| 0 <= s < |slots| && slots[s].Taken? && slots[s].path == path;
      assert SlotHolds(slots, hash, owners, s);
    }
    forall path | path in placed ensures path in owners {
      var s :| 0 <= s < |slots| && slots[s].Taken? && slots[s].path == path;
      assert SlotHolds(slots, hash, owners, s);
    }
  }

  /** Twice the buckets, or the initial number. */
  method NewSize(table: array?<Slot>, count: nat) returns (buckets: nat)
    requires count < MAX_FILES
    requires table != null ==>
               && IsBuckets(table.Length) && (table.Length <= INITIAL_BUCKETS || table.Length <= 4 * (count + 1))
               && table.Length < 2 * (count + 1)
    ensures IsBuckets(buckets) && (buckets <= INITIAL_BUCKETS || buckets <= 4 * (count + 1))
    ensures if table == null then buckets == INITIAL_BUCKETS else buckets == 2 * table.Length
  {
    if table == null {
      assert Pow2(9) == INITIAL_BUCKETS;
      return INITIAL_BUCKETS;
    }
    BucketFacts(table.Length);
    return table.Length * 2 % 0x1_0000_0000;
  }
}
