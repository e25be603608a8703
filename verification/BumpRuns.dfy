/** Runs of the bump heap: a client that allocates, resizes, writes inside its blocks and frees them. */
module BumpRuns {
  import opened Bytes
  import opened BumpHeap

  /** A block is named by the number of the allocation that handed it out. */
  datatype Step =
    | Malloc(size: nat)
    | Calloc(num: nat, size: nat)
    | Realloc(h: nat, size: nat)
    | Store(h: nat, k: nat, b: byte)
    | Free(h: nat)

  /** A block as its owner knows it: where it is, and the bytes that are known of it. */
  datatype Slot = Slot(at: nat, known: seq<Option<byte>>)

  type Client = seq<Option<Slot>>

  function Unknown(n: nat): (r: seq<Option<byte>>)
    ensures |r| == n && forall i | 0 <= i < n :: r[i] == None
  {
    seq(n, _ => None)
  }

  function Zeros(n: nat): (r: seq<Option<byte>>)
    ensures |r| == n && forall i | 0 <= i < n :: r[i] == Some(0)
  {
    seq(n, _ => Some(0))
  }

  function Given(r: Option<nat>, known: seq<Option<byte>>): Option<Slot> {
    match r
    case None => None
    case Some(m) => Some(Slot(m, known))
  }

  function SlotOf(c: Client, h: nat): Option<Slot> {
    if h < |c| then c[h] else None
  }

  predicate Stores(c: Client, h: nat, k: nat) {
    SlotOf(c, h).Some? && k < |c[h].value.known|
  }

  /** What a client knows after a step was answered: a resized block keeps what is known, and a refused one stays. */
  function Answered(c: Client, s: Step, r: Option<nat>): Client {
    match s
    case Malloc(size) => c + [Given(r, Unknown(size))]
    case Calloc(num, size) => c + [Given(r, Zeros(num * size))]
    case Realloc(h, size) =>
      if h >= |c| then c
      else if c[h] == None then c[h := Given(r, Unknown(size))]
      else if size == 0 then c[h := None]
      else if r == None then c
      else
        var known := c[h].value.known;
        c[h := Some(Slot(r.value, if size <= |known| then known else known + Unknown(size - |known|)))]
    case Store(h, k, b) =>
      if Stores(c, h, k) then c[h := Some(Slot(c[h].value.at, c[h].value.known[k := Some(b)]))] else c
    case Free(h) => if h < |c| then c[h := None] else c
  }

  /** The blocks in the order they were handed out, as long as they are given back in reverse and none is moved. */
  datatype Run = Run(client: Client, order: seq<nat>, inOrder: bool)

  predicate IsLast(order: seq<nat>, m: nat) {
    order != [] && order[|order| - 1] == m
  }

  function HandedOut(run: Run, client: Client, r: Option<nat>): Run {
    Run(client, if r.Some? then run.order + [r.value] else run.order, run.inOrder)
  }

  function GivenBack(run: Run, client: Client, m: nat): Run {
    if IsLast(run.order, m) then Run(client, run.order[..|run.order| - 1], run.inOrder) else Run(client, run.order, false)
  }

  function Next(run: Run, s: Step, r: Option<nat>): Run {
    var client := Answered(run.client, s, r);
    match s
    case Malloc(_) => HandedOut(run, client, r)
    case Calloc(_, _) => HandedOut(run, client, r)
    case Realloc(h, size) =>
      (match SlotOf(run.client, h)
       case None => if h < |run.client| then HandedOut(run, client, r) else Run(client, run.order, run.inOrder)
       case Some(slot) =>
         if size == 0 then GivenBack(run, client, slot.at)
         else Run(client, run.order, run.inOrder && (r == None || r == Some(slot.at))))
    case Store(_, _, _) => Run(client, run.order, run.inOrder)
    case Free(h) =>
      (match SlotOf(run.client, h)
       case None => Run(client, run.order, run.inOrder)
       case Some(slot) => GivenBack(run, client, slot.at))
  }

  function Replay(steps: seq<Step>, answers: seq<Option<nat>>): Run
    requires |steps| == |answers|
    decreases |steps|
  {
    if steps == [] then Run([], [], true)
    else
      var n := |steps| - 1;
      Next(Replay(steps[..n], answers[..n]), steps[n], answers[n])
  }

  // ---- what every step keeps ----

  /** A block is as large as its slot says, and holds what is known of it. */
  predicate Holds(block: seq<byte>, known: seq<Option<byte>>) {
    |block| == |known| && forall k | 0 <= k < |known| && known[k].Some? :: block[k] == known[k].value
  }

  /**
   * Every slot has a block of its own that holds what its owner knows; the blocks from before are as they were; and
   * there are no others.
   */
  ghost predicate Served(blocks: map<nat, seq<byte>>, c: Client, before: map<nat, seq<byte>>) {
    && (forall i {:trigger c[i]} | 0 <= i < |c| && c[i].Some? ::
          var slot := c[i].value; slot.at in blocks && slot.at !in before && Holds(blocks[slot.at], slot.known))
    && (forall i, j {:trigger c[i], c[j]} | 0 <= i < j < |c| && c[i].Some? && c[j].Some? :: c[i].value.at != c[j].value.at)
    && (forall m {:trigger m in blocks} | m in blocks :: m in before || exists i :: 0 <= i < |c| && c[i].Some? && c[i].value.at == m)
    && (forall m {:trigger m in before} | m in before :: m in blocks && blocks[m] == before[m])
  }

  /** The slots are the same but for one. */
  predicate Elsewhere(c: Client, d: Client, h: nat) {
    |c| <= |d| && h < |d| && forall i {:trigger c[i]} {:trigger d[i]} | 0 <= i < |d| && i != h :: i < |c| && d[i] == c[i]
  }

  function AtOf(c: Client, h: nat): Option<nat> {
    if SlotOf(c, h).Some? then Some(c[h].value.at) else None
  }

  /** Nothing but the slot `h` and its block has changed. */
  lemma Changed(blocks: map<nat, seq<byte>>, now: map<nat, seq<byte>>, c: Client, d: Client, h: nat, before: map<nat, seq<byte>>)
    requires Served(blocks, c, before) && Elsewhere(c, d, h)
    requires forall m {:trigger m in blocks} | m in blocks && AtOf(c, h) != Some(m) :: m in now && now[m] == blocks[m]
    requires forall m {:trigger m in now} | m in now :: (m in blocks && AtOf(c, h) != Some(m)) || AtOf(d, h) == Some(m)
    requires d[h].Some? ==> var slot := d[h].value; slot.at in now && Holds(now[slot.at], slot.known) && (slot.at !in blocks || AtOf(c, h) == Some(slot.at))
    ensures Served(now, d, before)
  {
    hide Holds;
    forall m | m in now && m !in before
      ensures exists i :: 0 <= i < |d| && d[i].Some? && d[i].value.at == m
    {
      if AtOf(d, h) != Some(m) {
        var i :| 0 <= i < |c| && c[i].Some? && c[i].value.at == m;
        assert i != h && d[i] == c[i];
      }
    }
  }

  /** While the run is in order its blocks stand on top of each other, from where the heap index was. */
  ghost predicate Ordered(live: map<nat, nat>, index: nat, run: Run, before: map<nat, seq<byte>>, base: nat) {
    run.inOrder ==>
      && Stacked(live, base, run.order, index)
      && (forall i {:trigger run.client[i]} | 0 <= i < |run.client| && run.client[i].Some? :: run.client[i].value.at in run.order)
      && (forall i {:trigger run.order[i]} | 0 <= i < |run.order| :: run.order[i] !in before)
      && (forall i, j | 0 <= i < j < |run.order| :: run.order[i] != run.order[j])
  }

  /** What holds before and after every step. */
  ghost predicate Running(heap: Heap, run: Run, before: map<nat, seq<byte>>, base: nat)
    reads heap, heap.heap
  {
    && heap.Valid() && heap.failCountdown == DONT_FAIL
    && Served(heap.Blocks(), run.client, before) && Ordered(heap.live, heap.heapIndex, run, before, base)
  }

  // ---- the stack ----

  lemma OrderedPush(live: map<nat, nat>, index: nat, run: Run, before: map<nat, seq<byte>>, base: nat, client: Client, size: nat)
    requires Ordered(live, index, run, before, base) && index + GUARD !in live && (forall m | m in before :: m in live)
    requires forall i {:trigger client[i]} | 0 <= i < |client| && client[i].Some? ::
               client[i].value.at == index + GUARD || (i < |run.client| && run.client[i].Some? && run.client[i].value.at == client[i].value.at)
    ensures Ordered(live[index + GUARD := size], index + GUARD + BlockSize(size), HandedOut(run, client, Some(index + GUARD)), before, base)
  {
    if run.inOrder {
      StackedPush(live, base, run.order, index, size);
      StackedIn(live, base, run.order, index);
    }
  }

  lemma {:induction false} StackedIn(live: map<nat, nat>, base: nat, blocks: seq<nat>, index: nat)
    requires Stacked(live, base, blocks, index)
    ensures forall i {:trigger blocks[i]} | 0 <= i < |blocks| :: blocks[i] in live
    decreases |blocks|
  {
    hide BlockSize;
    if blocks != [] {
      var last := blocks[|blocks| - 1];
      StackedIn(live - {last}, base, blocks[..|blocks| - 1], last - GUARD);
      assert forall i | 0 <= i < |blocks| - 1 :: blocks[i] == blocks[..|blocks| - 1][i];
    }
  }

  lemma OrderedPop(live: map<nat, nat>, index: nat, run: Run, before: map<nat, seq<byte>>, base: nat, client: Client, h: nat)
    requires Ordered(live, index, run, before, base) && h < |run.client| && run.client[h].Some? && client == run.client[h := None]
    requires run.client[h].value.at in live && GUARD <= run.client[h].value.at
    requires forall i, j {:trigger run.client[i], run.client[j]} | 0 <= i < j < |run.client| && run.client[i].Some? && run.client[j].Some? ::
               run.client[i].value.at != run.client[j].value.at
    ensures var m := run.client[h].value.at;
            Ordered(live - {m}, if m + BlockSize(live[m]) == index then m - GUARD else index, GivenBack(run, client, m), before, base)
  {
    hide BlockSize;
    var m := run.client[h].value.at;
    if run.inOrder && IsLast(run.order, m) {
      StackedTop(live, base, run.order, index);
      var n := |run.order| - 1;
      forall i | 0 <= i < |client| && client[i].Some?
        ensures client[i].value.at in run.order[..n]
      {
        assert client[i] == run.client[i] && run.client[i].value.at in run.order && run.client[i].value.at != m;
      }
    }
  }

  /** A block that ends at the heap index is the last of the stack. */
  lemma TopIsLast(live: map<nat, nat>, index: nat, base: nat, blocks: seq<nat>, m: nat)
    requires Stacked(live, base, blocks, index) && Packed(live, index) && m in live && m in blocks && m + BlockSize(live[m]) == index
    ensures IsLast(blocks, m)
  {
    hide BlockSize;
    StackedTop(live, base, blocks, index);
    var last := blocks[|blocks| - 1];
    assert m == last || Disjoint(m, live[m], last, live[last]);
  }

  lemma OrderedGrow(live: map<nat, nat>, index: nat, run: Run, before: map<nat, seq<byte>>, base: nat, client: Client, m: nat, size: nat)
    requires Ordered(live, index, run, before, base) && Packed(live, index) && m in live && m + BlockSize(live[m]) == index
    requires run.inOrder ==> m in run.order
    requires |client| == |run.client|
    requires forall i {:trigger client[i]} | 0 <= i < |client| && client[i].Some? :: run.client[i].Some? && run.client[i].value.at == client[i].value.at
    ensures Ordered((live - {m})[m := size], m + BlockSize(size), Run(client, run.order, run.inOrder), before, base)
  {
    hide BlockSize;
    if run.inOrder {
      TopIsLast(live, index, base, run.order, m);
      StackedGrow(live, base, run.order, index, size);
    }
  }

  // ---- steps ----

  /** A new block for the slot `h`, which had none, or a refusal. */
  lemma HandedOutAt(heap: Heap, blocks: map<nat, seq<byte>>, live: map<nat, nat>, index: nat, run: Run, before: map<nat, seq<byte>>, base: nat,
                    h: nat, r: Option<nat>, known: seq<Option<byte>>)
    requires Served(blocks, run.client, before) && Ordered(live, index, run, before, base) && blocks.Keys == live.Keys
    requires heap.Valid() && heap.failCountdown == DONT_FAIL
    requires h <= |run.client| && (h < |run.client| ==> run.client[h] == None)
    requires r == None ==> heap.live == live && heap.heapIndex == index && heap.Blocks() == blocks
    requires r.Some? ==>
               && r.value == index + GUARD && r.value !in live
               && heap.live == live[r.value := |known|] && heap.heapIndex == r.value + BlockSize(|known|)
               && Holds(heap.Contents(r.value), known) && heap.Blocks() == blocks[r.value := heap.Contents(r.value)]
    ensures var slot := Given(r, known);
            var client := if h < |run.client| then run.client[h := slot] else run.client + [slot];
            Running(heap, HandedOut(run, client, r), before, base)
  {
    hide Heap.Valid, Heap.Blocks, Packed, AllGuarded, BlockSize, Stacked, Holds, Served, Ordered;
    HandedOutServed(blocks, heap.Blocks(), run.client, before, h, Given(r, known), live);
    HandedOutOrdered(blocks, live, index, run, before, base, h, r, known);
  }

  lemma HandedOutServed(blocks: map<nat, seq<byte>>, now: map<nat, seq<byte>>, c: Client, before: map<nat, seq<byte>>, h: nat, slot: Option<Slot>, live: map<nat, nat>)
    requires Served(blocks, c, before) && h <= |c| && (h < |c| ==> c[h] == None) && blocks.Keys == live.Keys
    requires slot == None ==> now == blocks
    requires slot.Some? ==>
               && slot.value.at !in live && slot.value.at in now
               && Holds(now[slot.value.at], slot.value.known) && now == blocks[slot.value.at := now[slot.value.at]]
    ensures Served(now, if h < |c| then c[h := slot] else c + [slot], before)
  {
    hide Holds;
    Changed(blocks, now, c, if h < |c| then c[h := slot] else c + [slot], h, before);
  }

  lemma HandedOutOrdered(blocks: map<nat, seq<byte>>, live: map<nat, nat>, index: nat, run: Run, before: map<nat, seq<byte>>, base: nat,
                         h: nat, r: Option<nat>, known: seq<Option<byte>>)
    requires Served(blocks, run.client, before) && Ordered(live, index, run, before, base) && blocks.Keys == live.Keys
    requires h <= |run.client| && (r.Some? ==> r.value == index + GUARD && r.value !in live)
    ensures var slot := Given(r, known);
            var run' := HandedOut(run, if h < |run.client| then run.client[h := slot] else run.client + [slot], r);
            if r.Some? then Ordered(live[r.value := |known|], r.value + BlockSize(|known|), run', before, base)
            else Ordered(live, index, run', before, base)
  {
    hide BlockSize, Stacked, Holds;
    var slot, c := Given(r, known), run.client;
    if r.Some? { OrderedPush(live, index, run, before, base, if h < |c| then c[h := slot] else c + [slot], |known|); }
  }

  /** The block of the slot `h` has been given back. */
  lemma GivenBackAt(heap: Heap, blocks: map<nat, seq<byte>>, live: map<nat, nat>, index: nat, run: Run, before: map<nat, seq<byte>>, base: nat, h: nat)
    requires Served(blocks, run.client, before) && Ordered(live, index, run, before, base) && blocks.Keys == live.Keys
    requires heap.Valid() && heap.failCountdown == DONT_FAIL && SlotOf(run.client, h).Some?
    requires var m := run.client[h].value.at;
             m in live && GUARD <= m && heap.Gone(live, index, m) && heap.Blocks() == blocks - {m}
    ensures Running(heap, GivenBack(run, run.client[h := None], run.client[h].value.at), before, base)
  {
    hide Heap.Valid, Heap.Blocks, Packed, AllGuarded, BlockSize, Stacked, Holds, Served, Ordered;
    GivenBackServed(blocks, heap.Blocks(), run.client, before, h);
    GivenBackOrdered(blocks, live, index, run, before, base, h);
  }

  lemma GivenBackServed(blocks: map<nat, seq<byte>>, now: map<nat, seq<byte>>, c: Client, before: map<nat, seq<byte>>, h: nat)
    requires Served(blocks, c, before) && SlotOf(c, h).Some? && now == blocks - {c[h].value.at}
    ensures Served(now, c[h := None], before)
  {
    hide Holds;
    Changed(blocks, now, c, c[h := None], h, before);
  }

  lemma GivenBackOrdered(blocks: map<nat, seq<byte>>, live: map<nat, nat>, index: nat, run: Run, before: map<nat, seq<byte>>, base: nat, h: nat)
    requires Served(blocks, run.client, before) && Ordered(live, index, run, before, base) && SlotOf(run.client, h).Some?
    requires run.client[h].value.at in live && GUARD <= run.client[h].value.at
    ensures var m := run.client[h].value.at;
            Ordered(live - {m}, if m + BlockSize(live[m]) == index then m - GUARD else index, GivenBack(run, run.client[h := None], m), before, base)
  {
    hide BlockSize, Stacked, Holds, Ordered;
    OrderedPop(live, index, run, before, base, run.client[h := None], h);
  }

  /** The block of the slot `h` has grown, in place or into a new one. */
  lemma GrownAt(heap: Heap, blocks: map<nat, seq<byte>>, live: map<nat, nat>, index: nat, run: Run, before: map<nat, seq<byte>>, base: nat,
                h: nat, to: nat, size: nat)
    requires Served(blocks, run.client, before) && Ordered(live, index, run, before, base) && blocks.Keys == live.Keys && Packed(live, index)
    requires heap.Valid() && heap.failCountdown == DONT_FAIL && SlotOf(run.client, h).Some? && |run.client[h].value.known| < size
    requires var m := run.client[h].value.at;
             && m in live && heap.Grown(live, blocks, m, to, size) && (to == m || to !in live)
             && (to == m ==> m + BlockSize(live[m]) == index)
    ensures Running(heap, Next(run, Realloc(h, size), Some(to)), before, base)
  {
    hide Heap.Valid, Heap.Blocks, Packed, AllGuarded, BlockSize, Stacked, Holds, Served, Ordered;
    GrownServed(blocks, heap.Blocks(), run.client, before, h, to, size);
    GrownOrdered(live, index, run, before, base, h, to, size);
  }

  /** The slot after its block has grown. */
  function GrownSlot(c: Client, h: nat, to: nat, size: nat): Client
    requires SlotOf(c, h).Some? && |c[h].value.known| < size
  {
    c[h := Some(Slot(to, c[h].value.known + Unknown(size - |c[h].value.known|)))]
  }

  lemma GrownServed(blocks: map<nat, seq<byte>>, now: map<nat, seq<byte>>, c: Client, before: map<nat, seq<byte>>, h: nat, to: nat, size: nat)
    requires Served(blocks, c, before) && SlotOf(c, h).Some? && |c[h].value.known| < size
    requires var m := c[h].value.at;
             && m in blocks && (to == m || to !in blocks) && to in now && |now[to]| == size && blocks[m] <= now[to]
             && now == (blocks - {m})[to := now[to]]
    ensures Served(now, GrownSlot(c, h, to, size), before)
  {
    hide Holds;
    var slot := c[h].value;
    assert Holds(blocks[slot.at], slot.known);
    HoldsMore(blocks[slot.at], slot.known, now[to], slot.known + Unknown(size - |slot.known|));
    Changed(blocks, now, c, GrownSlot(c, h, to, size), h, before);
  }

  lemma GrownOrdered(live: map<nat, nat>, index: nat, run: Run, before: map<nat, seq<byte>>, base: nat, h: nat, to: nat, size: nat)
    requires Ordered(live, index, run, before, base) && Packed(live, index)
    requires SlotOf(run.client, h).Some? && |run.client[h].value.known| < size && run.client[h].value.at in live
    requires to == run.client[h].value.at ==> to + BlockSize(live[to]) == index
    ensures var m := run.client[h].value.at;
            Ordered((live - {m})[to := size], to + BlockSize(size),
                    Run(GrownSlot(run.client, h, to, size), run.order, run.inOrder && to == m), before, base)
  {
    hide BlockSize, Packed, Stacked;
    assert run.client[h] == run.client[h];
    if to == run.client[h].value.at { OrderedGrow(live, index, run, before, base, GrownSlot(run.client, h, to, size), to, size); }
  }

  lemma HoldsMore(block: seq<byte>, known: seq<Option<byte>>, larger: seq<byte>, more: seq<Option<byte>>)
    requires Holds(block, known) && block <= larger && |more| == |larger| && known <= more
    requires forall k | |known| <= k < |more| :: more[k] == None
    ensures Holds(larger, more)
  {
  }

  method DoMalloc(heap: Heap, size: nat, ghost run: Run, ghost before: map<nat, seq<byte>>, ghost base: nat) returns (r: Option<nat>)
    requires Running(heap, run, before, base)
    modifies heap, heap.heap
    ensures Running(heap, Next(run, Malloc(size), r), before, base)
  {
    hide Heap.Valid, Heap.Blocks, Packed, AllGuarded, BlockSize, Stacked, Served, Ordered;
    ghost var blocks, live, index := heap.Blocks(), heap.live, heap.heapIndex;
    r := heap.Malloc(size);
    HandedOutAt(heap, blocks, live, index, run, before, base, |run.client|, r, Unknown(size));
  }

  lemma UnknownHeld(block: seq<byte>, n: nat)
    requires |block| == n
    ensures Holds(block, Unknown(n))
  {
  }

  lemma ZerosHeld(block: seq<byte>, n: nat)
    requires block == seq(n, _ => 0)
    ensures Holds(block, Zeros(n)) && |Zeros(n)| == n
  {
  }

  method DoCalloc(heap: Heap, num: nat, size: nat, ghost run: Run, ghost before: map<nat, seq<byte>>, ghost base: nat) returns (r: Option<nat>)
    requires Running(heap, run, before, base)
    modifies heap, heap.heap
    ensures Running(heap, Next(run, Calloc(num, size), r), before, base)
  {
    hide Heap.Valid, Heap.Blocks, Packed, AllGuarded, BlockSize, Stacked, Served, Ordered, Holds, Zeros;
    ghost var blocks, live, index := heap.Blocks(), heap.live, heap.heapIndex;
    var total := num * size;
    r := heap.Calloc(num, size);
    if r.Some? { ZerosHeld(heap.Contents(r.value), total); }
    HandedOutAt(heap, blocks, live, index, run, before, base, |run.client|, r, Zeros(total));
  }

  /** A slot's block is live and lies above its guard. */
  lemma SlotLive(heap: Heap, run: Run, before: map<nat, seq<byte>>, base: nat, h: nat)
    requires Running(heap, run, before, base) && SlotOf(run.client, h).Some?
    ensures var slot := run.client[h].value;
            && slot.at in heap.live && GUARD <= slot.at && heap.live[slot.at] == |slot.known|
            && Holds(heap.Contents(slot.at), slot.known) && Packed(heap.live, heap.heapIndex)
  {
    hide Packed, AllGuarded, BlockSize, Stacked;
    assert run.client[h] == run.client[h];
    heap.InHeap(run.client[h].value.at);
  }

  method DoFree(heap: Heap, h: nat, client: Client, ghost run: Run, ghost before: map<nat, seq<byte>>, ghost base: nat)
    requires Running(heap, run, before, base) && client == run.client
    modifies heap
    ensures Running(heap, Next(run, Free(h), None), before, base)
  {
    hide Heap.Valid, Heap.Blocks, Heap.Gone, Packed, AllGuarded, BlockSize, Stacked, Served, Ordered, Holds;
    if SlotOf(client, h) == None {
      assert h < |client| ==> client[h := None] == client;
      return;
    }
    SlotLive(heap, run, before, base, h);
    ghost var blocks, live, index := heap.Blocks(), heap.live, heap.heapIndex;
    heap.ValidAnyhow(client[h].value.at);
    var overrun := heap.Free(Some(client[h].value.at));
    GivenBackAt(heap, blocks, live, index, run, before, base, h);
  }

  method DoStore(heap: Heap, h: nat, k: nat, b: byte, client: Client, ghost run: Run, ghost before: map<nat, seq<byte>>, ghost base: nat)
    requires Running(heap, run, before, base) && client == run.client
    modifies heap.heap
    ensures Running(heap, Next(run, Store(h, k, b), None), before, base)
  {
    hide Heap.Valid, Heap.Blocks, Packed, AllGuarded, BlockSize, Stacked, Served, Ordered, Holds;
    if !Stores(client, h, k) { return; }
    SlotLive(heap, run, before, base, h);
    ghost var blocks := heap.Blocks();
    heap.Store(client[h].value.at, k, b);
    StoredAt(blocks, heap.Blocks(), run, before, h, k, b);
    assert Ordered(heap.live, heap.heapIndex, Next(run, Store(h, k, b), None), before, base) by {
      SameOrder(heap.live, heap.heapIndex, run, Answered(client, Store(h, k, b), None), before, base);
    }
  }

  lemma StoredAt(blocks: map<nat, seq<byte>>, now: map<nat, seq<byte>>, run: Run, before: map<nat, seq<byte>>, h: nat, k: nat, b: byte)
    requires Served(blocks, run.client, before) && Stores(run.client, h, k)
    requires var m := run.client[h].value.at;
             m in blocks && k < |blocks[m]| && Holds(blocks[m], run.client[h].value.known) && m in now && now[m] == blocks[m][k := b] && now == blocks[m := now[m]]
    ensures Served(now, Answered(run.client, Store(h, k, b), None), before)
  {
    Changed(blocks, now, run.client, Answered(run.client, Store(h, k, b), None), h, before);
  }

  /** The order does not change when slots keep their addresses. */
  lemma SameOrder(live: map<nat, nat>, index: nat, run: Run, client: Client, before: map<nat, seq<byte>>, base: nat)
    requires Ordered(live, index, run, before, base) && |client| == |run.client|
    requires forall i {:trigger client[i]} | 0 <= i < |client| && client[i].Some? :: run.client[i].Some? && run.client[i].value.at == client[i].value.at
    ensures Ordered(live, index, Run(client, run.order, run.inOrder), before, base)
  {
  }

  /** Realloc of a slot without a block allocates one; otherwise the block is freed, kept or grown. */
  method DoRealloc(heap: Heap, h: nat, size: nat, client: Client, ghost run: Run, ghost before: map<nat, seq<byte>>, ghost base: nat) returns (r: Option<nat>)
    requires Running(heap, run, before, base) && client == run.client
    modifies heap, heap.heap
    ensures Running(heap, Next(run, Realloc(h, size), r), before, base)
  {
    hide Heap.Valid, Heap.Blocks, Heap.Gone, Heap.Grown, Packed, AllGuarded, BlockSize, Stacked, Served, Ordered, Holds;
    r := None;
    if h >= |client| { return; }
    ghost var blocks, live, index := heap.Blocks(), heap.live, heap.heapIndex;
    if client[h] == None {
      r := heap.Realloc(None, size);
      if r.Some? { UnknownHeld(heap.Contents(r.value), size); }
      HandedOutAt(heap, blocks, live, index, run, before, base, h, r, Unknown(size));
      return;
    }
    var slot := client[h].value;
    SlotLive(heap, run, before, base, h);
    r := heap.Realloc(Some(slot.at), size);
    if size == 0 {
      GivenBackAt(heap, blocks, live, index, run, before, base, h);
    } else if r.Some? && size > |slot.known| {
      GrownAt(heap, blocks, live, index, run, before, base, h, r.value, size);
    } else {
      assert client[h := Some(slot)] == client;
    }
  }

  method DoStep(heap: Heap, s: Step, run: Run, ghost before: map<nat, seq<byte>>, ghost base: nat) returns (r: Option<nat>)
    requires Running(heap, run, before, base)
    modifies heap, heap.heap
    ensures Running(heap, Next(run, s, r), before, base)
  {
    hide Running, Next;
    r := None;
    match s
    case Malloc(size) => r := DoMalloc(heap, size, run, before, base);
    case Calloc(num, size) => r := DoCalloc(heap, num, size, run, before, base);
    case Realloc(h, size) => r := DoRealloc(heap, h, size, run.client, run, before, base);
    case Store(h, k, b) => DoStore(heap, h, k, b, run.client, run, before, base);
    case Free(h) => DoFree(heap, h, run.client, run, before, base);
  }

  // ---- runs ----

  /**
   * Every run, with the failure countdown off: the heap stays valid, every block that is live holds what its owner
   * knows of it, the blocks from before are untouched, and while the run is in order its blocks are stacked.
   */
  method RunHeap(heap: Heap, steps: seq<Step>) returns (run: Run, answers: seq<Option<nat>>)
    requires heap.Valid() && heap.failCountdown == DONT_FAIL
    modifies heap, heap.heap
    ensures |answers| == |steps| && run == Replay(steps, answers)
    ensures Running(heap, run, old(heap.Blocks()), old(heap.heapIndex))
  {
    hide Running, Next;
    ghost var before, base := heap.Blocks(), heap.heapIndex;
    run, answers := Run([], [], true), [];
    Idle(heap);
    for i := 0 to |steps|
      invariant |answers| == i && run == Replay(steps[..i], answers)
      invariant Running(heap, run, before, base)
    {
      var r := DoStep(heap, steps[i], run, before, base);
      run := Next(run, steps[i], r);
      answers := answers + [r];
      OneMore(steps[..i + 1], answers, steps[..i], answers[..i]);
    }
    assert steps[..|steps|] == steps;
  }

  lemma Idle(heap: Heap)
    requires heap.Valid() && heap.failCountdown == DONT_FAIL
    ensures Running(heap, Run([], [], true), heap.Blocks(), heap.heapIndex)
  {
  }

  lemma OneMore(steps: seq<Step>, answers: seq<Option<nat>>, first: seq<Step>, given: seq<Option<nat>>)
    requires |steps| == |answers| > 0 && first == steps[..|steps| - 1] && given == answers[..|steps| - 1]
    ensures Replay(steps, answers) == Next(Replay(first, given), steps[|steps| - 1], answers[|steps| - 1])
  {
  }

  /** After a run in order, freeing its blocks in reverse leaves the heap as it was before the run. */
  method RunAndFreeInReverse(heap: Heap, steps: seq<Step>) returns (run: Run, answers: seq<Option<nat>>)
    requires heap.Valid() && heap.failCountdown == DONT_FAIL
    modifies heap, heap.heap
    ensures |answers| == |steps| && run == Replay(steps, answers) && heap.Valid()
    ensures run.inOrder ==>
              heap.heapIndex == old(heap.heapIndex) && heap.live == old(heap.live) && heap.Blocks() == old(heap.Blocks())
  {
    hide Heap.Valid, Heap.Blocks, Packed, AllGuarded, BlockSize, Stacked, Replay;
    ghost var before, live, base := heap.Blocks(), heap.live, heap.heapIndex;
    run, answers := RunHeap(heap, steps);
    if run.inOrder {
      OnlyOrdered(heap.Blocks(), heap.live, heap.heapIndex, run, before, live, base);
      heap.FreeInReverse(run.order, base);
    }
  }

  /** The stacked blocks are all that the run has left behind. */
  lemma OnlyOrdered(blocks: map<nat, seq<byte>>, live: map<nat, nat>, index: nat, run: Run, before: map<nat, seq<byte>>, was: map<nat, nat>, base: nat)
    requires Served(blocks, run.client, before) && Ordered(live, index, run, before, base) && run.inOrder
    requires blocks.Keys == live.Keys && (forall m | m in live :: |blocks[m]| == live[m])
    requires before.Keys == was.Keys && (forall m | m in was :: |before[m]| == was[m])
    ensures Stacked(live, base, run.order, index)
    ensures blocks - Elements(run.order) == before && live - Elements(run.order) == was
  {
    hide Stacked, Holds;
    forall m | m in blocks && m !in before
      ensures m in run.order
    {
      var i :| 0 <= i < |run.client| && run.client[i].Some? && run.client[i].value.at == m;
    }
  }

  /** A step that neither frees nor moves a block. */
  predicate StaysPut(c: Client, s: Step, r: Option<nat>) {
    && !s.Free?
    && (s.Realloc? && SlotOf(c, s.h).Some? ==> s.size > 0 && (r == None || r == AtOf(c, s.h)))
  }

  /** A run of such steps is in order. */
  lemma {:induction false} StaysInOrder(steps: seq<Step>, answers: seq<Option<nat>>)
    requires |steps| == |answers|
    requires forall i {:trigger steps[i]} | 0 <= i < |steps| :: StaysPut(Replay(steps[..i], answers[..i]).client, steps[i], answers[i])
    ensures Replay(steps, answers).inOrder
    decreases |steps|
  {
    if steps != [] {
      var n := |steps| - 1;
      forall i | 0 <= i < n
        ensures StaysPut(Replay(steps[..n][..i], answers[..n][..i]).client, steps[..n][i], answers[..n][i])
      {
        assert steps[..n][..i] == steps[..i] && answers[..n][..i] == answers[..i];
        assert steps[i] == steps[..n][i];
      }
      StaysInOrder(steps[..n], answers[..n]);
      assert StaysPut(Replay(steps[..n], answers[..n]).client, steps[n], answers[n]);
    }
  }
}
