/** The layout of live allocations over an arena's chain of blocks, as values. */
module ArenaLayout {
  const SIZE_LIMIT := 0x1_0000_0000_0000_0000

  // size_t
  type Size = x: int | 0 <= x < SIZE_LIMIT

  function Wrap(n: nat): Size {
    n % SIZE_LIMIT
  }

  lemma WrapFits(size: Size)
    ensures Wrap(size) == size
  {
  }

  /** Rounds up to a multiple of 8 in size_t arithmetic. */
  function AlignUp(size: Size): (r: Size)
    ensures r % 8 == 0
  {
    Wrap(size + 7) / 8 * 8
  }

  // The rounded size covers the request unless the addition wraps, and then nothing is reserved.
  lemma AlignUpCovers(size: Size)
    ensures size <= AlignUp(size) < size + 8 <==> size <= SIZE_LIMIT - 8
    ensures size > SIZE_LIMIT - 8 ==> AlignUp(size) == 0
  {
  }

  // A live allocation: bytes offset .. offset + length of block number `block`.
  datatype Region = Region(block: nat, offset: nat, length: nat)

  // A saved scope: where the arena stood, and how many allocations were live.
  datatype Mark = Mark(block: nat, used: nat, count: nat)

  function Sum(values: seq<nat>): nat {
    if values == [] then 0 else Sum(values[..|values| - 1]) + values[|values| - 1]
  }

  function Lengths(live: seq<Region>): nat {
    if live == [] then 0 else Lengths(live[..|live| - 1]) + live[|live| - 1].length
  }

  predicate Below(region: Region, block: nat, used: nat) {
    region.block < block || (region.block == block && region.offset + region.length <= used)
  }

  predicate Disjoint(a: Region, b: Region) {
    a.block != b.block || a.offset + a.length <= b.offset || b.offset + b.length <= a.offset
  }

  /** Regions lie in order, aligned, and inside the used part of the blocks up to `at`. */
  ghost predicate Placed(used: seq<nat>, at: nat, live: seq<Region>) {
    && at < |used|
    && (forall i :: 0 <= i < |live| ==>
          live[i].block <= at && live[i].offset % 8 == 0 && Below(live[i], live[i].block, used[live[i].block]))
    && (forall i, j :: 0 <= i < j < |live| ==> Below(live[i], live[j].block, live[j].offset))
  }

  /** Used parts are aligned and fit, the blocks after `at` are empty, and the used bytes are
      exactly the bytes of the live regions. */
  ghost predicate Filled(sizes: seq<nat>, used: seq<nat>, at: nat, live: seq<Region>) {
    && |sizes| == |used| && at < |used|
    && (forall i :: 0 <= i < |used| ==> used[i] <= sizes[i] && used[i] % 8 == 0 && (i > at ==> used[i] == 0))
    && Sum(used) == Lengths(live)
  }

  ghost predicate MarkHolds(used: seq<nat>, at: nat, live: seq<Region>, mark: Mark) {
    && at < |used| && mark.block <= at && mark.used <= used[mark.block] && mark.used % 8 == 0 && mark.count <= |live|
    && (forall i :: 0 <= i < mark.count ==> Below(live[i], mark.block, mark.used))
    && Sum(used[..mark.block]) + mark.used == Lengths(live[..mark.count])
  }

  predicate Earlier(a: Mark, b: Mark) {
    (a.block < b.block || (a.block == b.block && a.used <= b.used)) && a.count <= b.count
  }

  ghost predicate MarksHold(used: seq<nat>, at: nat, live: seq<Region>, marks: seq<Mark>) {
    && (forall k :: 0 <= k < |marks| ==> MarkHolds(used, at, live, marks[k]))
    && (forall j, k :: 0 <= j < k < |marks| ==> Earlier(marks[j], marks[k]))
  }

  ghost predicate Layout(sizes: seq<nat>, used: seq<nat>, at: nat, live: seq<Region>, marks: seq<Mark>) {
    Placed(used, at, live) && Filled(sizes, used, at, live) && MarksHold(used, at, live, marks)
  }

  /** What the layout is for: live allocations never overlap, are 8-aligned and in bounds, and lie in
      no block after the current one. */
  lemma LiveAllocationsAreSafe(sizes: seq<nat>, used: seq<nat>, at: nat, live: seq<Region>, marks: seq<Mark>)
    requires Layout(sizes, used, at, live, marks)
    ensures forall i, j :: 0 <= i < j < |live| ==> Disjoint(live[i], live[j])
    ensures forall i :: 0 <= i < |live| ==>
              live[i].block <= at && live[i].offset % 8 == 0 && live[i].offset + live[i].length <= sizes[live[i].block]
  {
  }

  lemma UsedIsLive(sizes: seq<nat>, used: seq<nat>, at: nat, live: seq<Region>, marks: seq<Mark>)
    requires Layout(sizes, used, at, live, marks)
    ensures Sum(used) == Lengths(live)
  {
  }

  // ---------- Sums ----------

  lemma {:induction false} SumAppend(a: seq<nat>, b: seq<nat>)
    ensures Sum(a + b) == Sum(a) + Sum(b)
    decreases |b|
  {
    if b == [] {
      assert a + b == a;
    } else {
      assert (a + b)[..|a + b| - 1] == a + b[..|b| - 1];
      SumAppend(a, b[..|b| - 1]);
    }
  }

  lemma {:induction false} SumOfZeros(a: seq<nat>)
    requires forall i :: 0 <= i < |a| ==> a[i] == 0
    ensures Sum(a) == 0
  {
    if a != [] {
      SumOfZeros(a[..|a| - 1]);
    }
  }

  // With nothing used after `at`, the sum ends there.
  lemma SumUpTo(used: seq<nat>, at: nat)
    requires at < |used| && forall i :: at < i < |used| ==> used[i] == 0
    ensures Sum(used) == Sum(used[..at]) + used[at]
  {
    assert used == used[..at] + [used[at]] + used[at + 1..];
    assert [used[at]][..0] == [];
    SumAppend(used[..at] + [used[at]], used[at + 1..]);
    SumAppend(used[..at], [used[at]]);
    SumOfZeros(used[at + 1..]);
  }

  lemma {:induction false} SumPrefix(sizes: seq<nat>, n: nat)
    requires n <= |sizes|
    ensures Sum(sizes[..n]) <= Sum(sizes)
    decreases |sizes|
  {
    if n < |sizes| {
      assert sizes[..|sizes| - 1][..n] == sizes[..n];
      SumPrefix(sizes[..|sizes| - 1], n);
    } else {
      assert sizes[..n] == sizes;
    }
  }

  // ---------- Steps ----------

  lemma Fresh(size: nat)
    ensures Layout([size], [0], 0, [], [])
  {
  }

  lemma AllEmpty(sizes: seq<nat>, was: seq<nat>)
    requires |sizes| == |was| > 0
    ensures Layout(sizes, Emptied(was, 0), 0, [], [])
  {
    SumOfZeros(Emptied(was, 0));
  }

  lemma UsedFits(sizes: seq<nat>, used: seq<nat>, at: nat, live: seq<Region>, marks: seq<Mark>)
    requires Layout(sizes, used, at, live, marks)
    ensures at < |used| == |sizes| && used[at] <= sizes[at]
  {
  }

  /** Reserves `length` bytes at the end of the current block. */
  lemma Bump(sizes: seq<nat>, used: seq<nat>, at: nat, live: seq<Region>, marks: seq<Mark>, length: nat)
    requires Layout(sizes, used, at, live, marks) && length % 8 == 0 && used[at] + length <= sizes[at]
    ensures Layout(sizes, used[at := used[at] + length], at, live + [Region(at, used[at], length)], marks)
  {
    var used', live' := used[at := used[at] + length], live + [Region(at, used[at], length)];
    BumpMarks(used, used', at, live, live', marks);
    BumpFilled(sizes, used, at, live, length);
    forall i, j | 0 <= i < j < |live'| ensures Below(live'[i], live'[j].block, live'[j].offset) {
      if j == |live| {
        assert Below(live[i], live[i].block, used[live[i].block]);
      }
    }
  }

  lemma BumpFilled(sizes: seq<nat>, used: seq<nat>, at: nat, live: seq<Region>, length: nat)
    requires Filled(sizes, used, at, live) && length % 8 == 0 && used[at] + length <= sizes[at]
    ensures Filled(sizes, used[at := used[at] + length], at, live + [Region(at, used[at], length)])
  {
    var used', live' := used[at := used[at] + length], live + [Region(at, used[at], length)];
    SumUpTo(used, at);
    SumUpTo(used', at);
    assert used'[..at] == used[..at];
    assert live'[..|live|] == live;
  }

  lemma BumpMarks(used: seq<nat>, used': seq<nat>, at: nat, live: seq<Region>, live': seq<Region>, marks: seq<Mark>)
    requires MarksHold(used, at, live, marks) && at < |used| <= |used'|
    requires used'[..at] == used[..at] && used'[at] >= used[at] && live <= live'
    ensures MarksHold(used', at, live', marks)
  {
    forall k | 0 <= k < |marks| ensures MarkHolds(used', at, live', marks[k]) {
      var mark := marks[k];
      assert MarkHolds(used, at, live, mark);
      assert used'[..mark.block] == used'[..at][..mark.block] == used[..mark.block];
      assert used'[mark.block] >= used[mark.block] by {
        if mark.block < at { assert used'[..at][mark.block] == used[..at][mark.block]; }
      }
      assert live'[..mark.count] == live[..mark.count];
    }
  }

  /** Replaces the blocks after the current one by a new, empty block and moves to it. */
  lemma Grow(sizes: seq<nat>, used: seq<nat>, at: nat, live: seq<Region>, marks: seq<Mark>, size: nat)
    requires Layout(sizes, used, at, live, marks)
    ensures Layout(sizes[..at + 1] + [size], used[..at + 1] + [0], at + 1, live, marks)
  {
    var used' := used[..at + 1] + [0];
    SumUpTo(used, at);
    SumUpTo(used', at);
    assert used'[..at] == used[..at];
    forall i | 0 <= i < |live| ensures live[i].block <= at + 1 && Below(live[i], live[i].block, used'[live[i].block]) {
      assert live[i].block <= at && Below(live[i], live[i].block, used[live[i].block]);
    }
    forall k | 0 <= k < |marks| ensures MarkHolds(used', at + 1, live, marks[k]) {
      assert MarkHolds(used, at, live, marks[k]);
      assert used'[..marks[k].block] == used[..marks[k].block];
    }
  }

  lemma Save(sizes: seq<nat>, used: seq<nat>, at: nat, live: seq<Region>, marks: seq<Mark>)
    requires Layout(sizes, used, at, live, marks)
    ensures Layout(sizes, used, at, live, marks + [Mark(at, used[at], |live|)])
  {
    var mark := Mark(at, used[at], |live|);
    SumUpTo(used, at);
    assert live[..|live|] == live;
    forall i | 0 <= i < |live| ensures Below(live[i], at, used[at]) {
      assert Below(live[i], live[i].block, used[live[i].block]);
    }
    assert MarkHolds(used, at, live, mark);
    forall k | 0 <= k < |marks| ensures Earlier(marks[k], mark) {
      assert MarkHolds(used, at, live, marks[k]);
    }
  }

  function Rewound(used: seq<nat>, mark: Mark): (r: seq<nat>)
    requires mark.block < |used|
    ensures |r| == |used|
  {
    used[..mark.block] + [mark.used] + seq(|used| - mark.block - 1, _ => 0)
  }

  function Emptied(used: seq<nat>, i: nat): (r: seq<nat>)
    requires i <= |used|
    ensures |r| == |used|
  {
    used[..i] + seq(|used| - i, _ => 0)
  }

  lemma RewoundInSteps(used: seq<nat>, mark: Mark)
    requires mark.block < |used|
    ensures Emptied(used, mark.block + 1)[mark.block := mark.used] == Rewound(used, mark)
  {
  }

  /** Back to mark k: the allocations made since are dropped and the others kept. */
  lemma Restore(sizes: seq<nat>, used: seq<nat>, at: nat, live: seq<Region>, marks: seq<Mark>, k: nat)
    requires Layout(sizes, used, at, live, marks) && k < |marks|
    ensures MarkHolds(used, at, live, marks[k])
    ensures Layout(sizes, Rewound(used, marks[k]), marks[k].block, live[..marks[k].count], marks[..k + 1])
  {
    var mark := marks[k];
    assert MarkHolds(used, at, live, mark);
    var used', live' := Rewound(used, mark), live[..mark.count];
    SumUpTo(used', mark.block);
    assert used'[..mark.block] == used[..mark.block];
    forall i | 0 <= i < |live'|
      ensures live'[i].block <= mark.block && Below(live'[i], live'[i].block, used'[live'[i].block])
    {
      assert Below(live[i], mark.block, mark.used) && Below(live[i], live[i].block, used[live[i].block]);
    }
    RestoreMarks(used, at, live, marks, k);
  }

  lemma RestoreMarks(used: seq<nat>, at: nat, live: seq<Region>, marks: seq<Mark>, k: nat)
    requires MarksHold(used, at, live, marks) && k < |marks| && at < |used| && marks[k].block <= at
    requires marks[k].count <= |live|
    ensures MarksHold(Rewound(used, marks[k]), marks[k].block, live[..marks[k].count], marks[..k + 1])
  {
    var mark := marks[k];
    var used', live' := Rewound(used, mark), live[..mark.count];
    forall j | 0 <= j < k + 1 ensures MarkHolds(used', mark.block, live', marks[j]) {
      var earlier := marks[j];
      assert MarkHolds(used, at, live, earlier);
      assert j < k ==> Earlier(earlier, mark);
      assert used'[..earlier.block] == used[..earlier.block];
      assert live'[..earlier.count] == live[..earlier.count];
    }
  }
}
