/** The scope-marked arena allocator: bump allocation over a chain of blocks. */
module Arena {
  import opened ArenaLayout
  import opened Outcomes

  class Block {
    var next: Block?
    const size: Size
    var used: nat

    constructor (size: Size)
      ensures this.size == size && used == 0 && next == null
    {
      this.size := size;
      next, used := null, 0;
    }
  }

  // An allocation as its caller sees it.
  datatype Address = Address(block: Block, offset: nat)

  datatype ScopeMark = ScopeMark(block: Block, used: nat)

  // ---------- Blocks and the memory behind them ----------

  // The bytes of a block before its data.
  const HEADER := 24

  /** The bytes asked of malloc for a block, in size_t arithmetic. */
  function BlockBytes(size: Size): Size {
    Wrap(HEADER + size)
  }

  /** The data of the block is as long as the block says. */
  predicate IsIntact(size: nat) {
    HEADER + size < SIZE_LIMIT
  }

  /** The bytes from `offset` on lie in the memory of a block of the given size. */
  predicate InMemory(size: Size, offset: nat, length: nat) {
    HEADER + offset + length <= BlockBytes(size)
  }

  // Memory is lost all at once: if the sum with the header wraps, not even the header is there.
  lemma MemoryIsIntact(size: Size, offset: nat, length: nat)
    requires offset + length <= size
    ensures InMemory(size, offset, length) <==> IsIntact(size)
  {
  }

  function Capacities(chain: seq<Block>): (sizes: seq<nat>)
    ensures |sizes| == |chain| && forall i :: 0 <= i < |chain| ==> sizes[i] == chain[i].size
  {
    seq<nat>(|chain|, i requires 0 <= i < |chain| => chain[i].size)
  }

  /** `chain` lists the blocks from its first by their `next` fields; `used` is what each has handed out. */
  ghost predicate Blocks(chain: seq<Block>, used: seq<nat>)
    reads chain
  {
    && |used| == |chain|
    && (forall i, j :: 0 <= i < j < |chain| ==> chain[i] != chain[j])
    && (forall i :: 0 <= i < |chain| ==> chain[i].used == used[i])
    && (forall i :: 0 <= i < |chain| ==> chain[i].next == if i + 1 < |chain| then chain[i + 1] else null)
  }

  lemma BlockAt(chain: seq<Block>, used: seq<nat>, i: nat)
    requires Blocks(chain, used) && i < |chain|
    ensures |used| == |chain| && chain[i].used == used[i]
    ensures chain[i].next == if i + 1 < |chain| then chain[i + 1] else null
  {
  }

  lemma CapacitiesExtend(chain: seq<Block>, n: nat, block: Block)
    requires n <= |chain|
    ensures Capacities(chain[..n] + [block]) == Capacities(chain)[..n] + [block.size]
  {
  }

  /** An empty block takes the place of whatever followed block number `at`. */
  method Link(current: Block, block: Block, ghost chain: seq<Block>, ghost used: seq<nat>, ghost at: nat)
    requires Blocks(chain, used) && at < |chain| && current == chain[at]
    requires block !in chain && block.used == 0 && block.next == null
    modifies current`next
    ensures Blocks(chain[..at + 1] + [block], used[..at + 1] + [0])
  {
    current.next := block;
  }

  method SetUsed(block: Block, bytes: nat, ghost chain: seq<Block>, ghost used: seq<nat>, ghost i: nat)
    requires Blocks(chain, used) && i < |chain| && block == chain[i]
    modifies block`used
    ensures block.used == bytes && Blocks(chain, used[i := bytes])
  {
    block.used := bytes;
  }

  /** Empties the blocks from number i on. */
  method ClearFrom(start: Block?, ghost chain: seq<Block>, ghost used: seq<nat>, ghost i: nat)
    requires Blocks(chain, used) && i <= |chain| && start == if i < |chain| then chain[i] else null
    modifies chain`used
    ensures Blocks(chain, Emptied(used, i))
  {
    assert |used| == |chain|;
    hide Blocks;
    var block := start;
    ghost var j, now := i, used;
    while block != null
      invariant i <= j <= |chain| == |used| == |now| && block == if j < |chain| then chain[j] else null
      invariant Blocks(chain, now)
      invariant forall n :: 0 <= n < |used| ==> now[n] == if i <= n < j then 0 else used[n]
      decreases |chain| - j
    {
      BlockAt(chain, now, j);
      var next := block.next;
      SetUsed(block, 0, chain, now, j);
      block := next;
      j, now := j + 1, now[j := 0];
    }
    assert now == Emptied(used, i);
  }

  // ---------- The memory limit ----------

  /** The guard of the limit, in size_t arithmetic; a limit of zero is none. */
  predicate PassesLimit(total: Size, blockSize: Size, maximumBytes: Size) {
    maximumBytes > 0 && Wrap(total + blockSize) > maximumBytes
  }

  // The guard is right about the bytes counted exactly when the sum does not wrap: a wrapped sum is
  // below a limit that the total respects.
  lemma GuardIsRight(total: Size, blockSize: Size, maximumBytes: Size)
    requires 0 < maximumBytes && total <= maximumBytes
    ensures (PassesLimit(total, blockSize, maximumBytes) <==> total + blockSize > maximumBytes) <==>
            total + blockSize < SIZE_LIMIT
    ensures total + blockSize >= SIZE_LIMIT ==> !PassesLimit(total, blockSize, maximumBytes)
  {
  }

  /** For no block and no limit does the guard mistake the bytes in use, as long as sums do not wrap. */
  ghost predicate GuardsUse(counted: nat, inUse: nat) {
    forall blockSize: Size, maximumBytes: Size {:trigger PassesLimit(counted, blockSize, maximumBytes)} ::
      counted + blockSize < SIZE_LIMIT && maximumBytes > 0 ==>
        (PassesLimit(counted, blockSize, maximumBytes) <==> inUse + blockSize > maximumBytes)
  }

  // The guard is right about the blocks in use exactly when nothing else is counted.
  lemma GuardsUseIff(counted: Size, inUse: nat)
    requires inUse <= counted
    ensures GuardsUse(counted, inUse) <==> counted == inUse
  {
    if inUse < counted {
      if inUse > 0 {
        assert PassesLimit(counted, 0, inUse);
      } else if counted > 1 {
        assert PassesLimit(counted, 0, 1);
      } else {
        assert PassesLimit(counted, 1, 1);
      }
    }
  }

  /** The bytes of the blocks up to the current one. */
  function InUse(sizes: seq<nat>, at: nat): nat
    requires at < |sizes|
  {
    Sum(sizes[..at + 1])
  }

  /** The bytes of the blocks in use are counted. Unless a sum has wrapped, every block has its memory,
      and a limit the first block respects is respected by everything reachable. */
  ghost predicate WithinBudget(sizes: seq<nat>, at: nat, maximumBytes: nat, counted: nat, peakBytes: nat,
                               hasWrapped: bool) {
    && at < |sizes| && InUse(sizes, at) <= counted
    && (!hasWrapped ==>
          && counted < SIZE_LIMIT && counted <= peakBytes
          && (forall i :: 0 <= i < |sizes| ==> IsIntact(sizes[i]))
          && (maximumBytes > 0 && sizes[0] <= maximumBytes ==> Sum(sizes) <= maximumBytes && counted <= maximumBytes))
  }

  predicate Wraps(counted: nat, blockSize: nat) {
    counted + blockSize >= SIZE_LIMIT || !IsIntact(blockSize)
  }

  lemma BudgetGrows(sizes: seq<nat>, at: nat, blockSize: Size, maximumBytes: Size, counted: nat, peak: nat,
                    hasWrapped: bool)
    requires WithinBudget(sizes, at, maximumBytes, counted, peak, hasWrapped)
    requires !PassesLimit(Wrap(counted), blockSize, maximumBytes)
    ensures var total := Wrap(Wrap(counted) + blockSize);
            WithinBudget(sizes[..at + 1] + [blockSize], at + 1, maximumBytes, counted + blockSize, Max(peak, total),
                         hasWrapped || Wraps(counted, blockSize))
    ensures Wrap(Wrap(counted) + blockSize) == Wrap(counted + blockSize)
    ensures InUse(sizes[..at + 1] + [blockSize], at + 1) == InUse(sizes, at) + blockSize
  {
    var sizes' := sizes[..at + 1] + [blockSize];
    assert sizes'[..at + 2] == sizes' && sizes'[..at + 1] == sizes[..at + 1];
  }

  lemma FirstInUse(sizes: seq<nat>)
    requires sizes != []
    ensures InUse(sizes, 0) == sizes[0]
  {
    var one := [sizes[0]];
    assert one[..0] == [] && Sum(one) == sizes[0] && sizes[..1] == one;
  }

  lemma BudgetShrinks(sizes: seq<nat>, at: nat, to: nat, maximumBytes: nat, counted: nat, peak: nat, hasWrapped: bool)
    requires WithinBudget(sizes, at, maximumBytes, counted, peak, hasWrapped) && to <= at
    ensures WithinBudget(sizes, to, maximumBytes, counted, peak, hasWrapped)
    ensures InUse(sizes, at) == InUse(sizes, to) + Sum(sizes[to + 1..at + 1])
    ensures WithinBudget(sizes, 0, maximumBytes, sizes[0], peak, hasWrapped) && InUse(sizes, 0) == sizes[0]
  {
    assert sizes[..at + 1] == sizes[..to + 1] + sizes[to + 1..at + 1];
    SumAppend(sizes[..to + 1], sizes[to + 1..at + 1]);
    FirstInUse(sizes);
    assert sizes[..at + 1][..1] == sizes[..1];
    SumPrefix(sizes[..at + 1], 1);
  }

  class Arena {
    var first: Block
    var current: Block
    const defaultBlockSize: Size
    var maximumBytes: Size  // 0 = unlimited
    var totalAllocated: Size
    var peakBytes: Size
    var allocCount: Size
    var resetCount: Size

    ghost var chain: seq<Block>  // the blocks reachable from `first`
    ghost var used: seq<nat>     // the bytes each of them has handed out
    ghost var at: nat            // the number of the current block
    ghost var live: seq<Region>  // allocations not yet given back, oldest first
    ghost var marks: seq<Mark>   // scopes saved and not yet left, outermost first
    ghost var counted: nat       // what `totalAllocated` counts, without wrap-around
    ghost var hasWrapped: bool   // a block was made whose size wrapped a sum

    ghost predicate Valid()
      reads this, chain
    {
      && |chain| > 0 && first == chain[0] && at < |chain| && current == chain[at]
      && Blocks(chain, used)
      && Layout(Capacities(chain), used, at, live, marks)
      && WithinBudget(Capacities(chain), at, maximumBytes, counted, peakBytes, hasWrapped)
      && totalAllocated == Wrap(counted)
    }

    /** The bytes counted for blocks that are no longer in use. */
    ghost function Abandoned(): int
      reads this
      requires at < |chain|
    {
      counted - InUse(Capacities(chain), at)
    }

    ghost function MarkOf(k: nat): ScopeMark
      reads this
      requires k < |marks| && marks[k].block < |chain|
    {
      ScopeMark(chain[marks[k].block], marks[k].used)
    }

    /** The blocks up to number n stay where they are. */
    twostate predicate KeepsBlocks(n: nat)
      reads this
    {
      n <= |old(chain)| && n <= |chain| && chain[..n] == old(chain[..n])
    }

    constructor (initialSize: Size, maximumBytes: Size)
      ensures Valid() && fresh(chain) && Abandoned() == 0 && hasWrapped == !IsIntact(initialSize)
      ensures chain == [first] && current == first && first.size == initialSize && first.used == 0 && at == 0
      ensures totalAllocated == peakBytes == initialSize
      ensures defaultBlockSize == initialSize && this.maximumBytes == maximumBytes
      ensures live == [] && marks == [] && allocCount == 0 && resetCount == 0
    {
      var block := new Block(initialSize);
      first, current := block, block;
      defaultBlockSize := initialSize;
      this.maximumBytes := maximumBytes;
      totalAllocated, peakBytes := initialSize, initialSize;
      allocCount, resetCount := 0, 0;
      chain, used, at, live, marks := [block], [0], 0, [], [];
      counted, hasWrapped := initialSize, !IsIntact(initialSize);
      new;
      ArenaLayout.Fresh(initialSize);
      assert Capacities(chain) == [initialSize];
      assert [initialSize][..1] == [initialSize] && [initialSize][..0] == [];
    }

    /** Notes where the arena stands now. */
    ghost method Note(chain: seq<Block>, used: seq<nat>, at: nat, live: seq<Region>, marks: seq<Mark>, counted: nat)
      modifies this`chain, this`used, this`at, this`live, this`marks, this`counted
      ensures this.chain == chain && this.used == used && this.at == at
      ensures this.live == live && this.marks == marks && this.counted == counted
    {
      this.chain, this.used, this.at, this.live, this.marks, this.counted := chain, used, at, live, marks, counted;
    }

    /** Counts a block about to be added. */
    method Count(blockSize: Size)
      requires totalAllocated == Wrap(counted)
      requires WithinBudget(Capacities(chain), at, maximumBytes, counted, peakBytes, hasWrapped)
      requires !PassesLimit(totalAllocated, blockSize, maximumBytes)
      modifies this`totalAllocated, this`peakBytes, this`counted, this`hasWrapped
      ensures totalAllocated == Wrap(counted) && counted == old(counted) + blockSize
      ensures totalAllocated == Wrap(old(totalAllocated) + blockSize)
      ensures peakBytes == Max(old(peakBytes), totalAllocated)
      ensures hasWrapped == (old(hasWrapped) || Wraps(old(counted), blockSize))
      ensures WithinBudget(Capacities(chain)[..at + 1] + [blockSize], at + 1, maximumBytes, counted, peakBytes,
          hasWrapped)
      ensures InUse(Capacities(chain)[..at + 1] + [blockSize], at + 1) == InUse(Capacities(chain), at) + blockSize
    {
      hide Sum, Wrap, Wraps, PassesLimit, IsIntact, InUse;
      BudgetGrows(Capacities(chain), at, blockSize, maximumBytes, counted, peakBytes, hasWrapped);
      counted, hasWrapped := counted + blockSize, hasWrapped || Wraps(counted, blockSize);
      totalAllocated := Wrap(totalAllocated + blockSize);
      if totalAllocated > peakBytes {
        peakBytes := totalAllocated;
      }
    }

    /** Appends an empty block after the current one, dropping what followed it. */
    method AddBlock(blockSize: Size)
      requires Valid() && !PassesLimit(totalAllocated, blockSize, maximumBytes)
      modifies this`current, this`totalAllocated, this`peakBytes, this`hasWrapped, current`next
      modifies this`chain, this`used, this`at, this`live, this`marks, this`counted
      ensures Valid() && at == old(at) + 1 && live == old(live) && marks == old(marks)
      ensures chain == old(chain[..at + 1]) + [current]
      ensures fresh(current) && current.size == blockSize && used == old(used)[..at] + [0]
      ensures hasWrapped == (old(hasWrapped) || Wraps(old(counted), blockSize)) && Abandoned() == old(Abandoned())
      ensures totalAllocated == Wrap(old(totalAllocated) + blockSize)
      ensures peakBytes == Max(old(peakBytes), totalAllocated)
    {
      hide Layout, WithinBudget, Sum, Blocks, Wrap, PassesLimit, Wraps, InUse, Capacities, Rewound, ArenaLayout.Emptied;
      BlockAt(chain, used, at);
      Grow(Capacities(chain), used, at, live, marks, blockSize);
      Count(blockSize);
      var previous := current;
      ghost var chain', used', at' := chain, used, at;
      var block := new Block(blockSize);
      CapacitiesExtend(chain, at + 1, block);
      Note(chain[..at + 1] + [block], used[..at + 1] + [0], at + 1, live, marks, counted);
      current := block;
      Link(previous, block, chain', used', at');
    }

    /** Hands out `length` more bytes of the current block. */
    method Reserve(length: nat)
      requires Valid() && length % 8 == 0 && current.used + length <= current.size
      modifies this`live, this`used, current`used
      ensures Valid() && live == old(live) + [Region(at, old(current.used), length)]
      ensures current.used == old(current.used) + length
      ensures used == old(used)[at := old(current.used) + length]
    {
      hide Layout, WithinBudget, Sum, Blocks, Wrap, PassesLimit, Wraps, InUse, Capacities, Rewound, ArenaLayout.Emptied;
      BlockAt(chain, used, at);
      Bump(Capacities(chain), used, at, live, marks, length);
      live, used := live + [Region(at, current.used, length)], used[at := current.used + length];
      SetUsed(current, current.used + length, chain, old(used), at);
    }

    /** Reserves `size` bytes, rounded up, in the current block or in a new one. */
    method Alloc(size: Size) returns (r: Outcome<Address>)
      requires Valid()
      modifies this, chain
      ensures Valid() && fresh(set b | b in chain && b !in old(chain)) && maximumBytes == old(maximumBytes)
      ensures allocCount == Wrap(old(allocCount) + 1) && marks == old(marks) && resetCount == old(resetCount)
      ensures r.Panic? <==>
                && AlignUp(size) > old(current.size - current.used)
                && PassesLimit(old(totalAllocated), Max(AlignUp(size), defaultBlockSize), maximumBytes)
      ensures r.Panic? ==>
                r.code == "P0104" && live == old(live) && chain == old(chain) && used == old(used) && at == old(at)
      ensures r.Value? ==> live == old(live) + [Region(at, r.value.offset, AlignUp(size))] && r.value.block == chain[at]
      ensures r.Value? ==>
                (InMemory(r.value.block.size, r.value.offset, AlignUp(size)) <==> IsIntact(r.value.block.size))
      ensures KeepsBlocks(old(at) + 1)
      ensures r.Value? ==> at == old(at) + if AlignUp(size) > old(current.size - current.used) then 1 else 0
      ensures r.Value? ==> current == chain[at] && current.used == r.value.offset + AlignUp(size)
      ensures r.Value? ==> r.value.offset == if at > old(at) then 0 else old(current.used)
      ensures totalAllocated == if at > old(at) then Wrap(old(totalAllocated) + Max(AlignUp(size), defaultBlockSize))
          else old(totalAllocated)
      ensures peakBytes == if at > old(at) then Max(old(peakBytes), totalAllocated) else old(peakBytes)
      ensures at > old(at) ==>
                chain[at].size == Max(AlignUp(size), defaultBlockSize) && chain == old(chain[..at + 1]) + [chain[at]]
      ensures hasWrapped == (old(hasWrapped)
          || (at > old(at) && Wraps(old(counted), Max(AlignUp(size), defaultBlockSize))))
      ensures Abandoned() == old(Abandoned())
    {
      hide Layout, WithinBudget, Sum, AlignUp, Blocks, Wrap, Wraps, IsIntact, InMemory, InUse;
      allocCount := Wrap(allocCount + 1);
      var aligned := AlignUp(size);
      BlockAt(chain, used, at);
      UsedFits(Capacities(chain), used, at, live, marks);
      if aligned > current.size - current.used {
        var blockSize := Max(aligned, defaultBlockSize);
        if maximumBytes > 0 && Wrap(totalAllocated + blockSize) > maximumBytes {
          return Panic("P0104");
        }
        AddBlock(blockSize);
        BlockAt(chain, used, at);
      }
      r := Value(Address(current, current.used));
      MemoryIsIntact(current.size, current.used, aligned);
      Reserve(aligned);
    }

    method Save() returns (mark: ScopeMark)
      requires Valid()
      modifies this`marks
      ensures Valid() && marks == old(marks) + [Mark(at, current.used, |live|)] && mark == MarkOf(|marks| - 1)
    {
      hide Layout, WithinBudget, Sum, Blocks, Wrap, PassesLimit, Wraps, InUse, Capacities, Rewound, ArenaLayout.Emptied;
      BlockAt(chain, used, at);
      mark := ScopeMark(current, current.used);
      ArenaLayout.Save(Capacities(chain), used, at, live, marks);
      marks := marks + [Mark(at, current.used, |live|)];
    }

    /** Gives back everything allocated since mark k was saved, and nothing else. */
    method Restore(mark: ScopeMark, ghost k: nat)
      requires Valid() && k < |marks| && marks[k].block < |chain| && mark == MarkOf(k)
      modifies this`current, this`chain, this`used, this`at, this`live, this`marks, this`counted, chain`used
      ensures Valid() && chain == old(chain) && counted == old(counted) && marks == old(marks[..k + 1])
      ensures live == old(live[..marks[k].count])
      ensures current == mark.block && current.used == mark.used && used == Rewound(old(used), old(marks[k]))
      ensures at == old(marks[k].block) <= old(at)
      ensures Abandoned() == old(Abandoned()) + Sum(Capacities(chain)[at + 1..old(at) + 1])
    {
      hide Layout, WithinBudget, Sum, Blocks, Wrap, PassesLimit, Wraps, InUse, Capacities, Rewound, ArenaLayout.Emptied;
      ghost var was, saved, m := used, marks[k], marks[k].block;
      BlockAt(chain, used, m);
      ArenaLayout.Restore(Capacities(chain), used, at, live, marks, k);
      BudgetShrinks(Capacities(chain), at, m, maximumBytes, counted, peakBytes, hasWrapped);
      RewoundInSteps(was, saved);
      Note(chain, Rewound(was, saved), m, live[..saved.count], marks[..k + 1], counted);
      current := mark.block;
      ClearFrom(mark.block.next, chain, was, m + 1);
      SetUsed(mark.block, mark.used, chain, ArenaLayout.Emptied(was, m + 1), m);
    }

    /** Gives back everything and starts over in the first block; the other blocks stay reachable. */
    method Reset()
      requires Valid()
      modifies this`current, this`totalAllocated, this`resetCount
      modifies this`chain, this`used, this`at, this`live, this`marks, this`counted, chain`used
      ensures Valid() && chain == old(chain) && live == [] && marks == [] && resetCount == Wrap(old(resetCount) + 1)
      ensures Abandoned() == 0
      ensures current == first && used == ArenaLayout.Emptied(old(used), 0) && totalAllocated == first.size
    {
      hide Layout, WithinBudget, Sum, Blocks, Wrap, PassesLimit, Wraps, InUse, Capacities, Rewound, ArenaLayout.Emptied;
      ghost var was := used;
      BlockAt(chain, was, 0);
      WrapFits(first.size);
      AllEmpty(Capacities(chain), was);
      BudgetShrinks(Capacities(chain), at, 0, maximumBytes, counted, peakBytes, hasWrapped);
      Note(chain, ArenaLayout.Emptied(was, 0), 0, [], [], first.size);
      current, totalAllocated, resetCount := first, first.size, Wrap(resetCount + 1);
      ClearFrom(first, chain, was, 0);
    }

    /** The used bytes of all blocks are the bytes of the live allocations. */
    method Usage() returns (total: Size)
      requires Valid()
      ensures total == Wrap(Lengths(live))
    {
      hide Layout, WithinBudget, Blocks;
      UsedIsLive(Capacities(chain), used, at, live, marks);
      total := 0;
      var block: Block? := first;
      ghost var i := 0;
      BlockAt(chain, used, 0);
      while block != null
        invariant i <= |chain| == |used| && block == if i < |chain| then chain[i] else null
        invariant total == Wrap(Sum(used[..i]))
        decreases |chain| - i
      {
        BlockAt(chain, used, i);
        assert used[..i + 1][..i] == used[..i];
        total := Wrap(total + block.used);
        block := block.next;
        i := i + 1;
      }
      assert used[..i] == used;
    }
  }

  // In every reachable state the live allocations do not overlap, are 8-aligned and inside their
  // blocks, and inside memory exactly when their block's size leaves room for the header. As long as
  // no sum wraps they all are, and the reachable blocks respect a limit that the first block respects.
  lemma ArenaIsSafe(arena: Arena)
    requires arena.Valid()
    ensures forall i, j :: 0 <= i < j < |arena.live| ==> Disjoint(arena.live[i], arena.live[j])
    ensures forall i :: 0 <= i < |arena.live| ==>
              var region, size := arena.live[i], arena.chain[arena.live[i].block].size;
              && region.block <= arena.at && region.offset % 8 == 0 && region.offset + region.length <= size
              && (InMemory(size, region.offset, region.length) <==> IsIntact(size))
    ensures !arena.hasWrapped ==> forall i :: 0 <= i < |arena.chain| ==> IsIntact(arena.chain[i].size)
    ensures !arena.hasWrapped && arena.maximumBytes > 0 && arena.first.size <= arena.maximumBytes ==>
              Sum(Capacities(arena.chain)) <= arena.maximumBytes
    ensures arena.Abandoned() >= 0
  {
    var sizes := Capacities(arena.chain);
    forall i | 0 <= i < |arena.chain| && !arena.hasWrapped ensures IsIntact(arena.chain[i].size) {
      assert IsIntact(sizes[i]);
    }
  }

  // ---------- Where the limit fails ----------

  // A request 24 bytes below 2^64, with 1 MB allocated under a limit of 8 MB: both sums wrap, the
  // guard lets it pass, malloc is asked for nothing, and the address returned is outside its block.
  method OversizedRequest() returns (hasValue: bool, bytes: Size, isInMemory: bool)
    ensures hasValue && bytes == 0 && !isInMemory
  {
    hide Arena.Valid, Arena.Abandoned, Arena.KeepsBlocks, Layout, WithinBudget, Blocks, Sum, InUse;
    var arena := new Arena(0x10_0000, 0x80_0000);
    var r := arena.Alloc(SIZE_LIMIT - 24);
    hasValue := r.Value?;
    bytes := BlockBytes(r.value.block.size);
    isInMemory := InMemory(r.value.block.size, r.value.offset, SIZE_LIMIT - 24);
  }

  lemma RepeatedScopeSums()
    ensures AlignUp(40) == 40 && AlignUp(48) == 48 && Wrap(40 + 48) == 88
    ensures !PassesLimit(40, 48, 100) && PassesLimit(88, 48, 100)
  {
  }

  // An arena of 40-byte blocks under a limit of 100 bytes, in which a scope that took a second block
  // has been left again.
  method LeftScope() returns (arena: Arena, fits: bool)
    ensures fresh(arena) && fresh(arena.chain) && arena.Valid() && fits
    ensures arena.defaultBlockSize == 40 && arena.maximumBytes == 100 && arena.totalAllocated == 88
    ensures arena.current.used == arena.current.size == 40
    ensures arena.at == 0 < |arena.chain| && InUse(Capacities(arena.chain), 0) == 40
  {
    hide Arena.Valid, Arena.Abandoned, AlignUp, Wrap, PassesLimit, Wraps, InMemory, IsIntact, Capacities, Rewound;
    hide InUse;
    RepeatedScopeSums();
    arena := new Arena(40, 100);
    var kept := arena.Alloc(40);
    var mark := arena.Save();
    var inScope := arena.Alloc(48);
    arena.Restore(mark, 0);
    FirstInUse(Capacities(arena.chain));
    fits := kept.Value? && inScope.Value?;
  }

  // Going back to a mark does not take its block off the count, so the same allocation of 48 bytes is
  // refused the second time, although 88 bytes would be in use, as before.
  method RepeatedScope() returns (first: bool, second: bool, ghost inUse: nat)
    ensures first && !second && inUse == 40 && inUse + AlignUp(48) == 88
  {
    hide Arena.Valid, Arena.Abandoned, AlignUp, Wrap, PassesLimit, Wraps, InMemory, IsIntact, Capacities, Rewound;
    hide InUse;
    RepeatedScopeSums();
    var arena;
    arena, first := LeftScope();
    inUse := InUse(Capacities(arena.chain), arena.at);
    var r := arena.Alloc(48);
    second := r.Value?;
  }

  function Max(a: nat, b: nat): nat {
    if a > b then a else b
  }
}
