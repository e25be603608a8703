/** The bump allocator of the Unity memory extra: one array, a rising index, and guards around every block. */
module BumpHeap {
  import opened Bytes

  /** `UNITY_MALLOC_ALIGNMENT` and `sizeof(size_t)`, for 64-bit pointers. */
  const WORD: nat := 8
  /** `sizeof(Guard)` */
  const GUARD: nat := 16
  /** `sizeof(end)` */
  const MARK: nat := 4
  const DONT_FAIL: int := -1

  datatype Guard = Guard(size: nat, space: nat)

  function RoundUp(size: nat): (r: nat)
    ensures r % WORD == 0 && size <= r < size + WORD
  {
    (size + WORD - 1) / WORD * WORD
  }

  /** What a block takes after its guard. */
  function BlockSize(size: nat): nat {
    RoundUp(size + MARK)
  }

  lemma BlockSizeBounds(size: nat)
    ensures size + MARK <= BlockSize(size) && BlockSize(size) % WORD == 0
  {
  }

  /** The failure countdown after one more request: it falls to 0, where every request is refused, unless it is off. */
  function CountedDown(countdown: int): int {
    if countdown > 0 then countdown - 1 else countdown
  }

  /** The countdown after a number of requests. */
  function AfterRequests(countdown: int, requests: nat): int {
    if requests == 0 then countdown else AfterRequests(CountedDown(countdown), requests - 1)
  }

  /** A countdown of `n` lets `n` requests pass and refuses all that follow; switched off, it refuses none. */
  lemma {:induction false} CountdownRefuses(n: nat, requests: nat)
    ensures AfterRequests(n, requests) == 0 <==> n <= requests
    ensures AfterRequests(DONT_FAIL, requests) == DONT_FAIL
  {
    if requests > 0 {
      CountdownRefuses(if n > 0 then n - 1 else 0, requests - 1);
    }
  }

  /** A block is aligned and lies, with its guard and its end mark, below the heap index. */
  predicate Placed(mem: nat, size: nat, heapIndex: nat) {
    && 0 < size && GUARD <= mem && (mem - GUARD) % WORD == 0
    && mem + BlockSize(size) <= heapIndex
  }

  /** Two blocks, guards and end marks included, do not overlap. */
  predicate Disjoint(m: nat, size: nat, n: nat, other: nat) {
    m + BlockSize(size) + GUARD <= n || n + BlockSize(other) + GUARD <= m
  }

  /** All blocks are placed below the index, apart from each other. */
  ghost predicate Packed(live: map<nat, nat>, heapIndex: nat) {
    && (forall m {:trigger Placed(m, live[m], heapIndex)} | m in live :: Placed(m, live[m], heapIndex))
    && (forall m, n {:trigger Disjoint(m, live[m], n, live[n])} | m in live && n in live && m != n :: Disjoint(m, live[m], n, live[n]))
  }

  lemma Below(live: map<nat, nat>, heapIndex: nat)
    requires Packed(live, heapIndex)
    ensures forall m | m in live :: GUARD <= m && m + live[m] + MARK <= heapIndex
  {
    hide BlockSize;
    forall m | m in live
      ensures GUARD <= m && m + live[m] + MARK <= heapIndex
    {
      BlockSizeBounds(live[m]);
      assert Placed(m, live[m], heapIndex);
    }
  }

  lemma PackedPush(live: map<nat, nat>, heapIndex: nat, size: nat)
    requires Packed(live, heapIndex) && heapIndex % WORD == 0 && size > 0
    ensures var mem, top := heapIndex + GUARD, heapIndex + GUARD + BlockSize(size);
            mem !in live && Packed(live[mem as nat := size], top) && top % WORD == 0
  {
    hide BlockSize;
    BlockSizeBounds(size);
    var mem: nat := heapIndex + GUARD;
    assert mem !in live by { Below(live, heapIndex); }
    forall m | m in live
      ensures Placed(m, live[m], mem + BlockSize(size)) && Disjoint(m, live[m], mem, size) && Disjoint(mem, size, m, live[m])
    {
      assert Placed(m, live[m], heapIndex);
      BlockSizeBounds(live[m]);
    }
  }

  /** Giving back a block, and lowering the index to its guard if it is the topmost. */
  lemma PackedPop(live: map<nat, nat>, heapIndex: nat, mem: nat)
    requires Packed(live, heapIndex) && mem in live && heapIndex % WORD == 0
    ensures var top := if mem + BlockSize(live[mem]) == heapIndex then mem - GUARD else heapIndex;
            0 <= top <= heapIndex && top % WORD == 0 && Packed(live - {mem}, top)
  {
    hide BlockSize;
    assert Placed(mem, live[mem], heapIndex);
    forall m | m in live - {mem}
      ensures Placed(m, live[m], if mem + BlockSize(live[mem]) == heapIndex then mem - GUARD else heapIndex)
    {
      BlockSizeBounds(live[m]);
      assert Placed(m, live[m], heapIndex) && Disjoint(m, live[m], mem, live[mem]);
    }
  }

  // ---- guards and end marks ----

  /** The bytes of `end` stand at a place. */
  predicate Marked(bytes: seq<byte>, e: nat) {
    e + MARK <= |bytes| && bytes[e] == 69 && bytes[e + 1] == 78 && bytes[e + 2] == 68 && bytes[e + 3] == 0
  }

  /** A byte of the mark at its place means a mark that was whole before still is. */
  lemma MarkByte(bytes: seq<byte>, e: nat, k: nat, b: byte)
    requires Marked(bytes, e) && k < MARK
    ensures Marked(bytes[e + k := b], e) <==> b == (Ascii("END") + [0])[k]
  {
    assert Ascii("END") + [0] == [69, 78, 68, 0];
  }

  /** The guard and the end mark of a block are as they were written. */
  predicate Guarded(bytes: seq<byte>, guards: map<nat, Guard>, mem: nat, size: nat) {
    GUARD <= mem && mem - GUARD in guards && guards[mem - GUARD] == Guard(size, 0) && Marked(bytes, mem + size)
  }

  ghost predicate AllGuarded(bytes: seq<byte>, guards: map<nat, Guard>, live: map<nat, nat>) {
    forall m {:trigger Guarded(bytes, guards, m, live[m])} | m in live :: Guarded(bytes, guards, m, live[m])
  }

  /** A new block above the others: its guard and its mark are written, the rest is kept. */
  lemma GuardNew(bytes: seq<byte>, guards: map<nat, Guard>, live: map<nat, nat>, index: nat, mem: nat, size: nat, after: seq<byte>)
    requires AllGuarded(bytes, guards, live) && Packed(live, index) && mem == index + GUARD
    requires |after| == |bytes| && Marked(after, mem + size)
    requires forall i | 0 <= i < |bytes| && !(mem + size <= i < mem + size + MARK) :: after[i] == bytes[i]
    ensures AllGuarded(after, guards[index := Guard(size, 0)], live[mem := size])
  {
    hide Packed;
    Below(live, index);
    var blocks := live[mem := size];
    forall m | m in blocks
      ensures Guarded(after, guards[index := Guard(size, 0)], m, blocks[m])
    {
      if m != mem { assert Guarded(bytes, guards, m, live[m]); }
    }
  }

  /** Two blocks' bytes, their end marks included, do not meet. */
  lemma BytesApart(live: map<nat, nat>, index: nat, mem: nat, m: nat)
    requires Packed(live, index) && mem in live && m in live && m != mem
    ensures m + live[m] + MARK <= mem || mem + live[mem] + MARK <= m
  {
    hide BlockSize;
    BlockSizeBounds(live[mem]);
    BlockSizeBounds(live[m]);
    assert Disjoint(m, live[m], mem, live[mem]);
  }

  /** A byte written inside a block touches no mark and no other block. */
  lemma StoreInside(bytes: seq<byte>, guards: map<nat, Guard>, live: map<nat, nat>, index: nat, mem: nat, k: nat, b: byte)
    requires AllGuarded(bytes, guards, live) && Packed(live, index) && index <= |bytes|
    requires mem in live && k < live[mem] && mem + k < |bytes|
    ensures AllGuarded(bytes[mem + k := b], guards, live)
    ensures forall m | m in live && m != mem :: !(m <= mem + k < m + live[m])
  {
    hide Packed;
    forall m | m in live
      ensures Guarded(bytes[mem + k := b], guards, m, live[m])
      ensures m != mem ==> !(m <= mem + k < m + live[m])
    {
      assert Guarded(bytes, guards, m, live[m]);
      if m != mem { BytesApart(live, index, mem, m); }
    }
  }

  /** A byte written into the mark of a block touches no other mark. */
  lemma OthersMarked(bytes: seq<byte>, guards: map<nat, Guard>, live: map<nat, nat>, index: nat, mem: nat, k: nat, b: byte)
    requires AllGuarded(bytes, guards, live) && Packed(live, index) && index <= |bytes|
    requires mem in live && k < MARK && mem + live[mem] + k < |bytes|
    ensures AllGuarded(bytes[mem + live[mem] + k := b], guards, live - {mem})
  {
    hide Packed;
    forall m | m in live - {mem}
      ensures Guarded(bytes[mem + live[mem] + k := b], guards, m, (live - {mem})[m])
    {
      assert Guarded(bytes, guards, m, live[m]);
      BytesApart(live, index, mem, m);
    }
  }

  // ---- what blocks hold ----

  ghost predicate Within(bytes: seq<byte>, live: map<nat, nat>) {
    forall m {:trigger m in live} | m in live :: m + live[m] <= |bytes|
  }

  ghost function BlocksIn(bytes: seq<byte>, live: map<nat, nat>): (r: map<nat, seq<byte>>)
    requires Within(bytes, live)
    ensures r.Keys == live.Keys
    ensures forall m {:trigger r[m]} | m in live :: |r[m]| == live[m]
  {
    map m | m in live :: bytes[m..m + live[m]]
  }

  lemma Slice(s: seq<byte>, i: nat, a: nat, b: nat)
    requires a <= b <= i <= |s|
    ensures s[..i][a..b] == s[a..b]
  {
  }

  /** A new block on top: what is below the index has not changed. */
  lemma BlocksPush(bytes: seq<byte>, after: seq<byte>, live: map<nat, nat>, index: nat, mem: nat, size: nat)
    requires Packed(live, index) && index <= mem && mem + size <= |after| == |bytes| && after[..index] == bytes[..index]
    ensures Within(bytes, live) && Within(after, live[mem := size])
    ensures BlocksIn(after, live[mem := size]) == BlocksIn(bytes, live)[mem := after[mem..mem + size]]
  {
    hide Packed;
    Below(live, index);
    forall m | m in live
      ensures m != mem && bytes[m..m + live[m]] == after[m..m + live[m]]
    {
      Slice(bytes, index, m, m + live[m]);
      Slice(after, index, m, m + live[m]);
    }
  }

  /** A byte written inside one block. */
  lemma BlocksStore(bytes: seq<byte>, live: map<nat, nat>, index: nat, mem: nat, k: nat, b: byte)
    requires Packed(live, index) && index <= |bytes| && mem in live && k < live[mem]
    ensures Within(bytes, live) && mem + k < |bytes| && Within(bytes[mem + k := b], live)
    ensures var held: seq<byte> := BlocksIn(bytes, live)[mem][k := b]; BlocksIn(bytes[mem + k := b], live) == BlocksIn(bytes, live)[mem := held]
  {
    hide Packed;
    Below(live, index);
    forall m | m in live && m != mem
      ensures bytes[mem + k := b][m..m + live[m]] == bytes[m..m + live[m]]
    {
      BytesApart(live, index, mem, m);
    }
    assert bytes[mem + k := b][mem..mem + live[mem]] == bytes[mem..mem + live[mem]][k := b];
  }

  lemma Inside(bytes: seq<byte>, live: map<nat, nat>, index: nat)
    requires Packed(live, index) && index <= |bytes|
    ensures Within(bytes, live)
  {
    hide Packed;
    Below(live, index);
  }

  lemma GuardedOne(bytes: seq<byte>, guards: map<nat, Guard>, live: map<nat, nat>, mem: nat)
    requires AllGuarded(bytes, guards, live) && mem in live
    ensures Guarded(bytes, guards, mem, live[mem])
  {
  }

  lemma GuardedDrop(bytes: seq<byte>, guards: map<nat, Guard>, live: map<nat, nat>, mem: nat)
    requires AllGuarded(bytes, guards, live)
    ensures AllGuarded(bytes, guards, live - {mem})
  {
    forall m | m in live - {mem}
      ensures Guarded(bytes, guards, m, (live - {mem})[m])
    {
      assert Guarded(bytes, guards, m, live[m]);
    }
  }

  lemma BlocksDrop(bytes: seq<byte>, live: map<nat, nat>, mem: nat)
    requires Within(bytes, live)
    ensures Within(bytes, live - {mem}) && BlocksIn(bytes, live - {mem}) == BlocksIn(bytes, live) - {mem}
  {
  }

  // ---- blocks on top of each other ----

  /** The blocks stand one on the other from `base` to the heap index, in the order they were handed out. */
  ghost predicate Stacked(live: map<nat, nat>, base: nat, blocks: seq<nat>, index: nat)
    decreases |blocks|
  {
    if blocks == [] then index == base
    else
      var last := blocks[|blocks| - 1];
      last in live && GUARD <= last && index == last + BlockSize(live[last]) && Stacked(live - {last}, base, blocks[..|blocks| - 1], last - GUARD)
  }

  /** A new block goes on top. */
  lemma StackedPush(live: map<nat, nat>, base: nat, blocks: seq<nat>, index: nat, size: nat)
    requires Stacked(live, base, blocks, index) && index + GUARD !in live
    ensures Stacked(live[index + GUARD := size], base, blocks + [index + GUARD], index + GUARD + BlockSize(size))
  {
    hide BlockSize;
    var more := live[index + GUARD := size];
    assert more - {index + GUARD} == live;
    assert (blocks + [index + GUARD])[..|blocks|] == blocks;
  }

  /** Growing the topmost block where it is keeps the stack. */
  lemma StackedGrow(live: map<nat, nat>, base: nat, blocks: seq<nat>, index: nat, size: nat)
    requires blocks != [] && Stacked(live, base, blocks, index)
    ensures var last := blocks[|blocks| - 1];
            Stacked((live - {last})[last := size], base, blocks, last + BlockSize(size))
  {
    hide BlockSize;
    var last := blocks[|blocks| - 1];
    assert (live - {last})[last := size] - {last} == live - {last};
  }

  lemma StackedTop(live: map<nat, nat>, base: nat, blocks: seq<nat>, index: nat)
    requires blocks != [] && Stacked(live, base, blocks, index)
    ensures var last := blocks[|blocks| - 1];
            && last in live && GUARD <= last && index == last + BlockSize(live[last])
            && Stacked(live - {last}, base, blocks[..|blocks| - 1], last - GUARD)
  {
    hide BlockSize;
  }

  lemma StackedEmpty(live: map<nat, nat>, base: nat, blocks: seq<nat>, index: nat)
    requires blocks == [] && Stacked(live, base, blocks, index)
    ensures index == base
  {
  }

  ghost function Elements(blocks: seq<nat>): set<nat> {
    set m | m in blocks
  }

  lemma TopBlock(blocks: seq<nat>, k: nat)
    requires k < |blocks|
    ensures blocks[..k + 1][..k] == blocks[..k] && blocks[..k + 1][k] == blocks[k]
    ensures Elements(blocks[k..]) == {blocks[k]} + Elements(blocks[k + 1..])
  {
    assert blocks[k..] == [blocks[k]] + blocks[k + 1..];
  }

  class Heap {
    const heap: array<byte>
    /** The guard headers, by the index they stand at. */
    var guards: map<nat, Guard>
    var heapIndex: nat
    var mallocCount: int
    var failCountdown: int
    /** The blocks handed out and not yet given back: their addresses and sizes. */
    ghost var live: map<nat, nat>

    /** Live blocks are aligned, below the index and apart, with their guards and marks intact; the count is their number. */
    ghost predicate Valid()
      reads this, heap
    {
      && heapIndex <= heap.Length && heapIndex % WORD == 0
      && mallocCount == |live| && failCountdown >= DONT_FAIL
      && Packed(live, heapIndex)
      && AllGuarded(heap[..], guards, live)
    }

    constructor (size: nat)
      ensures Valid() && fresh(heap) && heap.Length == size && heapIndex == 0 && live == map[] && failCountdown == DONT_FAIL
    {
      heap := new byte[size];
      guards, heapIndex, mallocCount, failCountdown, live := map[], 0, 0, DONT_FAIL, map[];
    }

    /** What all live blocks hold. */
    ghost function Blocks(): (r: map<nat, seq<byte>>)
      requires Valid()
      reads this, heap
      ensures r.Keys == live.Keys
      ensures forall m {:trigger r[m]} | m in live :: |r[m]| == live[m]
    {
      Below(live, heapIndex);
      BlocksIn(heap[..], live)
    }

    /** What a block holds. */
    ghost function Contents(mem: nat): (r: seq<byte>)
      requires Valid() && mem in live
      reads this, heap
      ensures |r| == live[mem]
    {
      Blocks()[mem]
    }

    // ---- allocating ----

    /** Room above the heap index, unless the countdown has run out, nothing is asked for, or too much. */
    method Malloc(size: nat) returns (r: Option<nat>)
      requires Valid()
      modifies this, heap
      ensures Valid()
      ensures failCountdown == CountedDown(old(failCountdown))
      ensures r == None <==> old(failCountdown) == 0 || size == 0 || old(heapIndex) + GUARD + BlockSize(size) > heap.Length
      ensures r == None ==> heapIndex == old(heapIndex) && live == old(live) && guards == old(guards) && heap[..] == old(heap[..])
      ensures r.Some? ==> r.value == old(heapIndex) + GUARD && r.value !in old(live)
      ensures r.Some? ==> live == old(live)[r.value := size] && heapIndex == r.value + BlockSize(size)
      ensures r.Some? ==> heap[..r.value + size] == old(heap[..r.value + size])
      ensures Blocks() == if r == None then old(Blocks()) else old(Blocks())[r.value := Contents(r.value)]
    {
      hide BlockSize, Packed, AllGuarded, Valid, Blocks, Contents;
      var totalSize := GUARD + BlockSize(size);
      var refused := CountDown();
      if refused || size == 0 { return None; }
      if heapIndex + totalSize > heap.Length { return None; }
      Push(size);
      r := Some(heapIndex - BlockSize(size));
    }

    /** `UnityMalloc_MakeMallocFailAfterCount`, with a count or `DONT_FAIL`. */
    method MakeMallocFailAfterCount(countdown: int)
      requires Valid() && countdown >= DONT_FAIL
      modifies this`failCountdown
      ensures Valid() && failCountdown == countdown && Blocks() == old(Blocks())
    {
      hide BlockSize, Packed, AllGuarded, BlocksIn;
      failCountdown := countdown;
    }

    /** The failure countdown, which refuses when it has run out. */
    method CountDown() returns (refused: bool)
      requires Valid()
      modifies this`failCountdown
      ensures Valid() && Blocks() == old(Blocks())
      ensures refused <==> old(failCountdown) == 0
      ensures failCountdown == CountedDown(old(failCountdown))
    {
      hide BlockSize, Packed, AllGuarded, BlocksIn;
      if failCountdown != DONT_FAIL {
        if failCountdown == 0 { return true; }
        failCountdown := failCountdown - 1;
      }
      refused := false;
    }

    /** The next block is taken: index, count, guard and end mark. */
    method Push(size: nat)
      requires Valid() && size > 0 && heapIndex + GUARD + BlockSize(size) <= heap.Length
      modifies this`heapIndex, this`mallocCount, this`guards, this`live, heap
      ensures Valid()
      ensures var mem := old(heapIndex) + GUARD;
              && mem !in old(live) && live == old(live)[mem := size] && heapIndex == mem + BlockSize(size)
              && heap[..mem + size] == old(heap[..mem + size])
              && Blocks() == old(Blocks())[mem := Contents(mem)]
    {
      hide BlockSize, Packed, AllGuarded, BlocksIn;
      BlockSizeBounds(size);
      PackedPush(live, heapIndex, size);
      ghost var bytes := heap[..];
      var guard := heapIndex;
      var mem := guard + GUARD;
      WriteMark(mem + size);
      GuardNew(bytes, guards, live, guard, mem, size, heap[..]);
      BlocksPush(bytes, heap[..], live, guard, mem, size);
      heapIndex := mem + BlockSize(size);
      mallocCount := mallocCount + 1;
      guards := guards[guard := Guard(size, 0)];
      live := live[mem := size];
    }

    method WriteMark(e: nat)
      requires e + MARK <= heap.Length
      modifies heap
      ensures Marked(heap[..], e)
      ensures forall i {:trigger heap[i]} | 0 <= i < heap.Length && !(e <= i < e + MARK) :: heap[i] == old(heap[i])
    {
      heap[e], heap[e + 1], heap[e + 2], heap[e + 3] := 69, 78, 68, 0;
    }

    /** `unity_calloc`: a block of zeros. */
    method Calloc(num: nat, size: nat) returns (r: Option<nat>)
      requires Valid()
      modifies this, heap
      ensures Valid()
      ensures failCountdown == CountedDown(old(failCountdown))
      ensures r == None <==> old(failCountdown) == 0 || num * size == 0 || old(heapIndex) + GUARD + BlockSize(num * size) > heap.Length
      ensures r == None ==> heapIndex == old(heapIndex) && live == old(live)
      ensures r.Some? ==> r.value == old(heapIndex) + GUARD && r.value !in old(live) && live == old(live)[r.value := num * size]
      ensures r.Some? ==> heapIndex == r.value + BlockSize(num * size)
      ensures r.Some? ==> Contents(r.value) == seq(num * size, _ => 0)
      ensures r.Some? ==> heap[..r.value] == old(heap[..r.value])
      ensures Blocks() == if r == None then old(Blocks()) else old(Blocks())[r.value := Contents(r.value)]
    {
      hide Packed, AllGuarded, BlockSize, Valid, Blocks, Contents;
      r := AllocateCleared(num * size);
    }

    method AllocateCleared(total: nat) returns (r: Option<nat>)
      requires Valid()
      modifies this, heap
      ensures Valid()
      ensures failCountdown == CountedDown(old(failCountdown))
      ensures r == None <==> old(failCountdown) == 0 || total == 0 || old(heapIndex) + GUARD + BlockSize(total) > heap.Length
      ensures r == None ==> heapIndex == old(heapIndex) && live == old(live)
      ensures r.Some? ==> r.value == old(heapIndex) + GUARD && r.value !in old(live) && live == old(live)[r.value := total]
      ensures r.Some? ==> heapIndex == r.value + BlockSize(total)
      ensures r.Some? ==> Contents(r.value) == seq(total, _ => 0)
      ensures r.Some? ==> heap[..r.value] == old(heap[..r.value])
      ensures Blocks() == if r == None then old(Blocks()) else old(Blocks())[r.value := Contents(r.value)]
    {
      hide Packed, AllGuarded, BlockSize, Valid, Blocks;
      r := Malloc(total);
      if r == None { return; }
      InHeap(r.value);
      assert heap[..r.value] == heap[..r.value + total][..r.value];
      ClearBlock(r.value, total);
    }

    /** `memset` of a whole block. */
    method ClearBlock(mem: nat, size: nat)
      requires Valid() && mem in live && size == live[mem]
      modifies heap
      ensures Valid() && Contents(mem) == seq(size, _ => 0)
      ensures mem <= heap.Length && heap[..mem] == old(heap[..mem])
      ensures Blocks() == old(Blocks())[mem := Contents(mem)]
    {
      hide Packed, AllGuarded, BlockSize, Valid, Blocks;
      InHeap(mem);
      var k := 0;
      assert old(Blocks())[mem := Contents(mem)] == old(Blocks());
      while k < size
        invariant 0 <= k <= size && Valid()
        invariant Contents(mem)[..k] == seq(k, _ => 0)
        invariant heap[..mem] == old(heap[..mem])
        invariant Blocks() == old(Blocks())[mem := Contents(mem)]
      {
        Store(mem, k, 0);
        k := k + 1;
      }
      assert Contents(mem)[..size] == Contents(mem);
    }

    /** A block lies in the heap, above its guard. */
    lemma InHeap(mem: nat)
      requires Valid() && mem in live
      ensures GUARD <= mem && mem + live[mem] <= heap.Length
    {
      hide BlockSize, Packed, AllGuarded;
      Below(live, heapIndex);
    }

    // ---- giving back ----

    /** The same, but that the client of one block may have written over its end mark. */
    ghost predicate ValidBut(mem: nat)
      reads this, heap
    {
      && heapIndex <= heap.Length && heapIndex % WORD == 0
      && mallocCount == |live| && failCountdown >= DONT_FAIL
      && Packed(live, heapIndex) && mem in live && GUARD <= mem
      && mem - GUARD in guards && guards[mem - GUARD] == Guard(live[mem], 0)
      && AllGuarded(heap[..], guards, live - {mem})
    }

    lemma ValidAnyhow(mem: nat)
      requires Valid() && mem in live
      ensures ValidBut(mem) && Marked(heap[..], mem + live[mem])
    {
      hide Packed, AllGuarded;
      GuardedOne(heap[..], guards, live, mem);
      GuardedDrop(heap[..], guards, live, mem);
    }

    /** A client writes past the end of its block, over a byte of the end mark. */
    method WritePast(mem: nat, size: nat, k: nat, b: byte)
      requires Valid() && mem in live && size == live[mem] && k < MARK
      modifies heap
      ensures ValidBut(mem) && mem + live[mem] + k < heap.Length && heap[..] == old(heap[..])[mem + live[mem] + k := b]
      ensures Marked(heap[..], mem + live[mem]) <==> b == (Ascii("END") + [0])[k]
    {
      hide Packed, AllGuarded;
      Below(live, heapIndex);
      ValidAnyhow(mem);
      MarkByte(heap[..], mem + live[mem], k, b);
      OthersMarked(heap[..], guards, live, heapIndex, mem, k, b);
      heap[mem + size + k] := b;
    }

    /** `isOverrun`: the end mark is no longer what was written. */
    method IsOverrun(mem: nat) returns (overrun: bool)
      requires ValidBut(mem)
      ensures overrun <==> !Marked(heap[..], mem + live[mem])
      ensures GUARD <= mem && mem - GUARD in guards && guards[mem - GUARD] == Guard(live[mem], 0)
    {
      hide Packed, AllGuarded;
      var guard := guards[mem - GUARD];
      overrun := guard.space != 0 || !Marked(heap[..], mem + guard.size);
    }

    /** `release_memory`: only the topmost block lowers the heap index. */
    method Release(mem: nat)
      requires ValidBut(mem)
      modifies this
      ensures Valid() && failCountdown == old(failCountdown) && guards == old(guards)
      ensures live == old(live) - {mem} && mallocCount == old(mallocCount) - 1
      ensures heapIndex == if old(mem + BlockSize(live[mem]) == heapIndex) then mem - GUARD else old(heapIndex)
      ensures old(Valid()) ==> Blocks() == old(Blocks()) - {mem}
    {
      hide Packed, BlocksIn, AllGuarded, Within;
      PackedPop(live, heapIndex, mem);
      var guard := guards[mem - GUARD];
      mallocCount := mallocCount - 1;
      var blockSize := RoundUp(guard.size + MARK);
      Inside(heap[..], live, heapIndex);
      if mem + blockSize == heapIndex {
        heapIndex := heapIndex - (GUARD + blockSize);
      }
      BlocksDrop(heap[..], live, mem);
      live := live - {mem};
    }

    lemma MarkIfValid(mem: nat)
      requires ValidBut(mem)
      ensures Valid() ==> Marked(heap[..], mem + live[mem])
    {
      if Valid() { ValidAnyhow(mem); }
    }

    /** `unity_free`: the block is given back, and an overrun of it reported. */
    method Free(mem: Option<nat>) returns (overrun: bool)
      requires if mem.Some? then ValidBut(mem.value) else Valid()
      modifies this
      ensures Valid() && failCountdown == old(failCountdown)
      ensures mem == None ==> !overrun && unchanged(this)
      ensures mem.Some? ==> (overrun <==> !old(Marked(heap[..], mem.value + live[mem.value])))
      ensures mem.Some? ==> Gone(old(live), old(heapIndex), mem.value)
      ensures mem.Some? && old(Valid()) ==> !overrun && Blocks() == old(Blocks()) - {mem.value}
    {
      hide Packed, AllGuarded, BlockSize, Valid, Blocks;
      if mem == None { return false; }
      MarkIfValid(mem.value);
      overrun := IsOverrun(mem.value);
      Release(mem.value);
    }

    /** Writing past the end of a block, within the mark, is reported when the block is freed, unless nothing was changed. */
    method OverrunIsReported(mem: nat, size: nat, k: nat, b: byte) returns (overrun: bool)
      requires Valid() && mem in live && size == live[mem] && k < MARK
      modifies this, heap
      ensures Valid() && (overrun <==> b != (Ascii("END") + [0])[k])
    {
      hide Packed, AllGuarded, BlockSize, Valid, Blocks, Marked, ValidBut;
      WritePast(mem, size, k, b);
      overrun := Free(Some(mem));
    }

    /** A block has been given back. */
    ghost predicate Gone(before: map<nat, nat>, index: nat, mem: nat)
      requires mem in before
      reads this
    {
      && live == before - {mem}
      && heapIndex == if mem + BlockSize(before[mem]) == index then mem - GUARD else index
    }

    /** A client writes inside its block: no other block changes, and nothing of the allocator's. */
    method Store(mem: nat, k: nat, b: byte)
      requires Valid() && mem in live && k < live[mem]
      modifies heap
      ensures Valid() && mem + k < heap.Length && heap[..] == old(heap[..])[mem + k := b]
      ensures Contents(mem) == old(Contents(mem))[k := b]
      ensures Blocks() == old(Blocks())[mem := Contents(mem)]
    {
      hide Packed, AllGuarded, BlockSize, BlocksIn;
      Below(live, heapIndex);
      StoreInside(heap[..], guards, live, heapIndex, mem, k, b);
      BlocksStore(heap[..], live, heapIndex, mem, k, b);
      heap[mem + k] := b;
      assert heap[..] == old(heap[..])[mem + k := b];
    }

    // ---- growing ----

    /**
     * `unity_realloc`: what the old block held stands at the head of the new one, and every other block holds what
     * it held. The topmost block grows where it is; if the countdown makes that fail, the block is lost.
     */
    method Realloc(oldMem: Option<nat>, size: nat) returns (r: Option<nat>)
      requires Valid() && (oldMem.Some? ==> oldMem.value in live)
      modifies this, heap
      ensures Valid()
      ensures failCountdown == if oldMem.Some? && size <= old(live[oldMem.value]) then old(failCountdown) else CountedDown(old(failCountdown))
      ensures oldMem == None ==>
                && (r == None <==> old(failCountdown) == 0 || size == 0 || old(heapIndex) + GUARD + BlockSize(size) > heap.Length)
                && (r == None ==> live == old(live) && heapIndex == old(heapIndex))
                && (r.Some? ==> r.value == old(heapIndex) + GUARD && r.value !in old(live))
                && (r.Some? ==> live == old(live)[r.value := size] && heapIndex == r.value + BlockSize(size))
                && Blocks() == (if r == None then old(Blocks()) else old(Blocks())[r.value := Contents(r.value)])
      ensures oldMem.Some? && size == 0 ==> r == None && Gone(old(live), old(heapIndex), oldMem.value) && Blocks() == old(Blocks()) - {oldMem.value}
      ensures oldMem.Some? && 0 < size <= old(live[oldMem.value]) ==>
                r == oldMem && live == old(live) && heapIndex == old(heapIndex) && heap[..] == old(heap[..]) && Blocks() == old(Blocks())
      ensures oldMem.Some? && size > old(live[oldMem.value]) ==>
                var mem, held := oldMem.value, old(live[oldMem.value]);
                if GrowsInPlace(old(heapIndex), mem, held, size) then
                  && (r == None <==> old(failCountdown) == 0)
                  && (r == None ==> Gone(old(live), old(heapIndex), mem) && Blocks() == old(Blocks()) - {mem})
                  && (r.Some? ==> r == oldMem && Grown(old(live), old(Blocks()), mem, mem, size))
                else
                  && (r == None <==> old(failCountdown) == 0 || old(heapIndex) + GUARD + BlockSize(size) > heap.Length)
                  && (r == None ==> live == old(live) && heapIndex == old(heapIndex) && Blocks() == old(Blocks()))
                  && (r.Some? ==> r.value == old(heapIndex) + GUARD && r.value !in old(live) && Grown(old(live), old(Blocks()), mem, r.value, size))
    {
      hide Packed, AllGuarded, BlockSize, Gone, Grown, Blocks, Contents;
      if oldMem == None {
        r := Malloc(size);
        return;
      }
      var mem := oldMem.value;
      ValidAnyhow(mem);
      var overrun := IsOverrun(mem);
      if size == 0 {
        GiveBack(mem);
        return None;
      }
      var held := guards[mem - GUARD].size;
      if held >= size { return oldMem; }
      if mem + BlockSize(held) == heapIndex && mem + BlockSize(size) <= heap.Length {
        r := GrowInPlace(mem, held, size);
        return;
      }
      r := Move(mem, held, size);
    }

    /** The topmost block can grow if the heap ends no earlier than the larger block would. */
    predicate GrowsInPlace(index: nat, mem: nat, held: nat, size: nat) {
      mem + BlockSize(held) == index && mem + BlockSize(size) <= heap.Length
    }

    /** A block has become a larger one, which is the topmost and begins with what the old one held; the others are as they were. */
    ghost predicate Grown(before: map<nat, nat>, blocks: map<nat, seq<byte>>, mem: nat, to: nat, size: nat)
      requires Valid() && mem in blocks
      reads this, heap
    {
      && live == (before - {mem})[to := size] && heapIndex == to + BlockSize(size)
      && blocks[mem] <= Contents(to) && Blocks() == (blocks - {mem})[to := Contents(to)]
    }

    method GiveBack(mem: nat)
      requires Valid() && mem in live
      modifies this
      ensures Valid() && failCountdown == old(failCountdown) && Gone(old(live), old(heapIndex), mem) && Blocks() == old(Blocks()) - {mem}
    {
      hide Packed, AllGuarded, BlockSize, Valid, Blocks;
      ValidAnyhow(mem);
      Release(mem);
    }

    method GrowInPlace(mem: nat, held: nat, size: nat) returns (r: Option<nat>)
      requires Valid() && mem in live && held == live[mem] && held < size && GrowsInPlace(heapIndex, mem, held, size)
      modifies this, heap
      ensures Valid()
      ensures failCountdown == CountedDown(old(failCountdown))
      ensures r == None <==> old(failCountdown) == 0
      ensures r == None ==> Gone(old(live), old(heapIndex), mem) && Blocks() == old(Blocks()) - {mem}
      ensures r.Some? ==> r.value == mem && Grown(old(live), old(Blocks()), mem, mem, size)
    {
      hide Packed, AllGuarded, BlockSize, Valid, Blocks;
      HeldAt(mem);
      ghost var bytes := heap[..];
      ValidAnyhow(mem);
      Release(mem);
      r := Malloc(size);
      if r.Some? {
        HeldAt(mem);
        PrefixHeld(bytes, heap[..], mem, held, size);
      }
    }

    /** A block holds the bytes from its address on. */
    lemma HeldAt(mem: nat)
      requires Valid() && mem in live
      ensures mem + live[mem] <= heap.Length && Blocks()[mem] == heap[mem..mem + live[mem]]
    {
      hide Packed, AllGuarded, BlockSize;
      InHeap(mem);
    }

    lemma PrefixHeld(bytes: seq<byte>, now: seq<byte>, mem: nat, held: nat, size: nat)
      requires held <= size && mem + size <= |bytes| == |now| && now[..mem + size] == bytes[..mem + size]
      ensures bytes[mem..mem + held] <= now[mem..mem + size]
    {
      assert now[..mem + size][mem..mem + held] == bytes[..mem + size][mem..mem + held];
    }

    method Move(mem: nat, held: nat, size: nat) returns (r: Option<nat>)
      requires Valid() && mem in live && held == live[mem] && held < size && !GrowsInPlace(heapIndex, mem, held, size)
      modifies this, heap
      ensures Valid()
      ensures failCountdown == CountedDown(old(failCountdown))
      ensures r == None <==> old(failCountdown) == 0 || old(heapIndex) + GUARD + BlockSize(size) > heap.Length
      ensures r == None ==> live == old(live) && heapIndex == old(heapIndex) && Blocks() == old(Blocks())
      ensures r.Some? ==> r.value == old(heapIndex) + GUARD && r.value !in old(live) && Grown(old(live), old(Blocks()), mem, r.value, size)
    {
      hide Packed, AllGuarded, BlockSize, Valid, Blocks;
      BlockBelow(mem);
      r := Malloc(size);
      if r == None { return; }
      Copy(r.value, mem, held);
      ValidAnyhow(mem);
      Release(mem);
    }

    lemma BlockBelow(mem: nat)
      requires Valid() && mem in live
      ensures mem + BlockSize(live[mem]) <= heapIndex
    {
      assert Placed(mem, live[mem], heapIndex);
    }

    method CopyByte(to: nat, from: nat, k: nat)
      requires Valid() && to in live && from in live && to != from && k < live[to] && k < live[from]
      modifies heap
      ensures Valid() && Contents(from) == old(Contents(from))
      ensures Contents(to) == old(Contents(to))[k := old(Contents(from))[k]]
      ensures Blocks() == old(Blocks())[to := Contents(to)]
    {
      hide Packed, AllGuarded, BlockSize, Valid, Blocks;
      HeldAt(from);
      Store(to, k, heap[from + k]);
    }

    /** `memcpy` between two blocks. */
    method Copy(to: nat, from: nat, n: nat)
      requires Valid() && to in live && from in live && to != from && n <= live[to] && n == live[from]
      modifies heap
      ensures Valid() && old(Contents(from)) <= Contents(to)
      ensures Blocks() == old(Blocks())[to := Contents(to)]
    {
      hide Packed, AllGuarded, BlockSize, Valid, Blocks;
      var k := 0;
      assert old(Blocks())[to := Contents(to)] == old(Blocks());
      while k < n
        invariant 0 <= k <= n && Valid()
        invariant Contents(from) == old(Contents(from)) && Contents(to)[..k] == old(Contents(from))[..k]
        invariant Blocks() == old(Blocks())[to := Contents(to)]
      {
        CopyByte(to, from, k);
        k := k + 1;
      }
    }

    // ---- runs ----

    /** Freeing blocks in the reverse of the order they were handed out gives all their room back. */
    method FreeInReverse(blocks: seq<nat>, ghost base: nat)
      requires Valid() && Stacked(live, base, blocks, heapIndex)
      modifies this
      ensures Valid() && heapIndex == base && failCountdown == old(failCountdown)
      ensures Blocks() == old(Blocks()) - Elements(blocks) && live == old(live) - Elements(blocks)
    {
      hide Packed, AllGuarded, BlockSize, Stacked, Valid, ValidBut, Blocks, Marked;
      var k := |blocks|;
      assert blocks[..k] == blocks;
      while k > 0
        invariant 0 <= k <= |blocks| && Valid() && failCountdown == old(failCountdown)
        invariant Stacked(live, base, blocks[..k], heapIndex)
        invariant Blocks() == old(Blocks()) - Elements(blocks[k..]) && live == old(live) - Elements(blocks[k..])
      {
        StackedTop(live, base, blocks[..k], heapIndex);
        k := k - 1;
        TopBlock(blocks, k);
        ValidAnyhow(blocks[k]);
        var overrun := Free(Some(blocks[k]));
      }
      StackedEmpty(live, base, blocks[..0], heapIndex);
      assert blocks[0..] == blocks;
    }

    /** `UnityMalloc_EndTest`: a test leaks exactly when it leaves a block behind. */
    method EndTest() returns (leaks: bool)
      requires Valid()
      modifies this`failCountdown
      ensures Valid() && failCountdown == DONT_FAIL
      ensures leaks <==> live != map[]
    {
      failCountdown := DONT_FAIL;
      leaks := mallocCount != 0;
      assert live.Keys == {} ==> live == map[];
    }
  }
}
