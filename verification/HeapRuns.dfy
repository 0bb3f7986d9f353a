/** Runs of allocations, releases and resizings over one arena, against a map from names to buffers. */
module HeapRuns {
  import opened Bytes
  import opened Blocks
  import opened KernelHeap

  // ----- what a client of the heap sees

  /** The bytes a client asked for, where they are, and the size of the block they lie in. */
  datatype Buffer = Buffer(pointer: U64, capacity: nat, data: seq<Byte>)

  type Buffers = map<nat, Buffer>

  datatype Call =
    | Malloc(id: nat, size: U64)
    | Free(id: nat)
    | Realloc(id: nat, size: U64)
    | Store(id: nat, at: nat, data: seq<Byte>)

  /** The rules of use: buffers are named once, only live ones are used, stores stay inside what was asked for, and
      no size is so close to 2^64 that its rounding wraps around. */
  predicate Allowed(a: Buffers, call: Call)
  {
    match call
    case Malloc(id, size) => id !in a && size <= U64_MAX - 7
    case Free(id) => id in a
    case Realloc(id, size) => id in a && size <= U64_MAX - 7
    case Store(id, at, data) => id in a && at + |data| <= |a[id].data|
  }

  /** Buffers fit their blocks and are aligned to 8 bytes, and different blocks with their headers share no byte. */
  predicate Apart(a: Buffers)
  {
    && (forall i :: i in a ==> HEADER < a[i].pointer && a[i].pointer % 8 == 0 && |a[i].data| <= a[i].capacity)
    && (forall i, j :: i in a && j in a && i != j ==>
          a[i].pointer + a[i].capacity <= a[j].pointer - HEADER
          || a[j].pointer + a[j].capacity <= a[i].pointer - HEADER)
  }

  /** A header and n bytes from x on would overlap a block that is in use. */
  predicate Blocked(a: Buffers, x: nat, n: nat)
  {
    exists id :: id in a && a[id].pointer - HEADER < x + HEADER + n && x < a[id].pointer + a[id].capacity
  }

  /** No n bytes and a header are free anywhere between two addresses. */
  ghost predicate Full(a: Buffers, first: nat, end: nat, n: nat)
  {
    forall x: nat :: first <= x && x + HEADER + n <= end ==> Blocked(a, x, n)
  }

  function Least(x: nat, y: nat): nat
  {
    if x <= y then x else y
  }

  /** The buffer after it was resized: as long as asked, and as before up to the smaller size. */
  predicate Resized(b: Buffer, size: nat, b': Buffer)
  {
    && |b'.data| == size
    && b'.data[..Least(|b.data|, size)] == b.data[..Least(|b.data|, size)]
  }

  /** What one call may do: nobody else's bytes change or move, and a call that fails changes nothing. It fails only
      if nothing was asked for, or the arena has no room for the rounded size anywhere. A new block has less than 64
      bytes more than were asked for, and a buffer moves only if its block is too small. */
  ghost predicate Step(first: nat, end: nat, a: Buffers, call: Call, a': Buffers)
    requires Allowed(a, call)
  {
    && Apart(a')
    && match call
       case Malloc(id, size) =>
         if a' == a then size == 0 || Full(a, first, end, Rounded(size))
         else 0 < size && id in a' && |a'[id].data| == size && a'[id].capacity < size + 64 && a' == a[id := a'[id]]
       case Free(id) => a' == a - {id}
       case Realloc(id, size) =>
         if size == 0 then a' == a - {id}
         else (a' == a && a[id].capacity < size && Full(a, first, end, Rounded(size)))
              || (id in a' && Resized(a[id], size, a'[id]) && a' == a[id := a'[id]]
                && if size <= a[id].capacity then a'[id].pointer == a[id].pointer && a'[id].capacity == a[id].capacity
                   else a'[id].capacity < size + 64)
       case Store(id, at, data) => a' == a[id := a[id].(data := Splice(a[id].data, at, data))]
  }

  ghost predicate Run(first: nat, end: nat, states: seq<Buffers>, calls: seq<Call>)
  {
    && |states| == |calls| + 1
    && forall i {:trigger calls[i]} :: 0 <= i < |calls| ==>
         Allowed(states[i], calls[i]) && Step(first, end, states[i], calls[i], states[i + 1])
  }

  lemma RunExtend(first: nat, end: nat, states: seq<Buffers>, calls: seq<Call>, call: Call, a: Buffers)
    requires Run(first, end, states, calls) && Allowed(states[|calls|], call)
             && Step(first, end, states[|calls|], call, a)
    ensures Run(first, end, states + [a], calls + [call])
  {
    hide Step, Allowed;
    var ss, cs := states + [a], calls + [call];
    forall i | 0 <= i < |cs|
      ensures Allowed(ss[i], cs[i]) && Step(first, end, ss[i], cs[i], ss[i + 1])
    {
      if i < |calls| {
        assert cs[i] == calls[i];
      }
    }
  }

  /** A buffer stays where it is and keeps every byte over any run of calls that are not about it. */
  lemma {:induction false} BufferKept(first: nat, end: nat, states: seq<Buffers>, calls: seq<Call>, i: nat, k: nat,
                                      id: nat)
    requires Run(first, end, states, calls) && i <= k <= |calls| && id in states[i]
    requires forall l :: i <= l < k ==> calls[l].id != id
    ensures id in states[k] && states[k][id] == states[i][id]
    decreases k
  {
    hide Apart, Resized, Full;
    if i < k {
      BufferKept(first, end, states, calls, i, k - 1, id);
      assert Step(first, end, states[k - 1], calls[k - 1], states[k - 1 + 1]);
    }
  }

  // ----- the heap keeps to it

  /** Block b holds the buffer. */
  ghost predicate Backs(ram: seq<Byte>, b: Block, buffer: Buffer)
  {
    && buffer.pointer == Payload(b) && |buffer.data| <= b.size == buffer.capacity && End(b) <= |ram|
    && ram[Payload(b)..Payload(b) + |buffer.data|] == buffer.data
  }

  /** The blocks in use are exactly those that hold the buffers, one each. */
  ghost predicate Refines(ram: seq<Byte>, live: set<Block>, a: Buffers, at: map<nat, Block>)
  {
    && at.Keys == a.Keys
    && (forall id :: id in at ==> at[id] in live && Backs(ram, at[id], a[id]))
    && (forall i, j :: i in at && j in at && at[i] == at[j] ==> i == j)
    && (forall b :: b in live ==> exists id :: id in at && at[id] == b)
  }

  lemma StillBacks(ram: seq<Byte>, ram': seq<Byte>, live: set<Block>, b: Block, buffer: Buffer)
    requires Backs(ram, b, buffer) && PayloadsKept(ram, ram', live) && b in live
    ensures Backs(ram', b, buffer)
  {
    var n := |buffer.data|;
    var s, s' := ram[Payload(b)..Payload(b) + n], ram'[Payload(b)..Payload(b) + n];
    forall x | 0 <= x < n
      ensures s'[x] == s[x]
    {
      assert ram'[Payload(b) + x] == ram[Payload(b) + x];
    }
  }

  /** Nothing changed that a buffer lies in. */
  lemma RefinesKept(ram: seq<Byte>, ram': seq<Byte>, live: set<Block>, a: Buffers, at: map<nat, Block>)
    requires Refines(ram, live, a, at) && PayloadsKept(ram, ram', live)
    ensures Refines(ram', live, a, at)
  {
    hide Backs, PayloadsKept;
    forall id | id in at
      ensures at[id] in live && Backs(ram', at[id], a[id])
    {
      StillBacks(ram, ram', live, at[id], a[id]);
    }
  }

  /** A buffer is replaced or added, in block b, and nothing else changed that a buffer lies in. */
  lemma RefinesPut(ram: seq<Byte>, ram': seq<Byte>, live: set<Block>, live': set<Block>, a: Buffers,
                   at: map<nat, Block>,
                   id: nat, b: Block, buffer: Buffer)
    requires Refines(ram, live, a, at) && Backs(ram', b, buffer)
    requires var others := if id in at then live - {at[id]} else live;
             b !in others && live' == others + {b} && PayloadsKept(ram, ram', others)
    ensures Refines(ram', live', a[id := buffer], at[id := b])
  {
    hide Backs, PayloadsKept;
    var a', at', others := a[id := buffer], at[id := b], if id in at then live - {at[id]} else live;
    forall i | i in at'
      ensures at'[i] in live' && Backs(ram', at'[i], a'[i])
    {
      if i != id {
        StillBacks(ram, ram', others, at[i], a[i]);
      }
    }
    forall c | c in live'
      ensures exists i :: i in at' && at'[i] == c
    {
      if c == b {
        assert at'[id] == c;
      } else {
        var i :| i in at && at[i] == c;
        assert at'[i] == c;
      }
    }
  }

  lemma RefinesDrop(ram: seq<Byte>, ram': seq<Byte>, live: set<Block>, live': set<Block>, a: Buffers,
                    at: map<nat, Block>, id: nat)
    requires Refines(ram, live, a, at) && id in at
    requires live' == live - {at[id]} && PayloadsKept(ram, ram', live')
    ensures Refines(ram', live', a - {id}, at - {id})
  {
    hide Backs, PayloadsKept;
    var a', at' := a - {id}, at - {id};
    forall i | i in at'
      ensures at'[i] in live' && Backs(ram', at'[i], a'[i])
    {
      StillBacks(ram, ram', live', at[i], a[i]);
    }
    forall c | c in live'
      ensures exists i :: i in at' && at'[i] == c
    {
      var i :| i in at && at[i] == c;
      assert at'[i] == c;
    }
  }

  /** Buffers lie in different blocks. */
  lemma RefinesApart(ram: seq<Byte>, blocks: seq<Block>, first: nat, end: nat, a: Buffers, at: map<nat, Block>)
    requires Written(ram, blocks, first, end) && Refines(ram, Live(blocks), a, at)
    ensures Apart(a)
  {
    forall i | i in a
      ensures HEADER < a[i].pointer && a[i].pointer % 8 == 0 && |a[i].data| <= a[i].capacity
    {
      var x := BlockIndex(blocks, at[i]);
      Aligned(blocks, first, end, x);
      Inside(blocks, first, end, x);
    }
    forall i, j | i in a && j in a && i != j
      ensures a[i].pointer + a[i].capacity <= a[j].pointer - HEADER
              || a[j].pointer + a[j].capacity <= a[i].pointer - HEADER
    {
      var x := BlockIndex(blocks, at[i]);
      var y := BlockIndex(blocks, at[j]);
      Separate(blocks, first, end, x, y);
    }
  }

  /** If no block fits, there is no room anywhere. */
  lemma MissIsFull(ram: seq<Byte>, blocks: seq<Block>, first: nat, end: nat, a: Buffers, at: map<nat, Block>, n: nat)
    requires Written(ram, blocks, first, end) && Merged(blocks) && FirstFit(blocks, n).None?
             && Refines(ram, Live(blocks), a, at)
    ensures Full(a, first, end, n)
  {
    hide Tiles, Merged, FirstFit, Live, HeaderOk;
    forall x: nat | first <= x && x + HEADER + n <= end
      ensures Blocked(a, x, n)
    {
      MissMeansFull(blocks, first, end, n, x);
      var b :| b in Live(blocks) && !(x + HEADER + n <= b.at || End(b) <= x);
      var id :| id in at && at[id] == b;
      assert Backs(ram, b, a[id]);
    }
  }

  lemma BlockIndex(blocks: seq<Block>, b: Block) returns (k: nat)
    requires b in Live(blocks)
    ensures k < |blocks| && blocks[k] == b && !b.free
  {
    k :| 0 <= k < |blocks| && blocks[k] == b;
  }

  lemma Placed(ram: seq<Byte>, live: set<Block>, a: Buffers, at: map<nat, Block>, id: nat)
    requires Refines(ram, live, a, at) && id in a
    ensures at.Keys == a.Keys && at[id] in live && Backs(ram, at[id], a[id])
  {
  }

  class Client {
    const heap: Heap
    var held: Buffers
    /** The blocks of the buffers. */
    ghost var at: map<nat, Block>

    ghost predicate Valid()
      reads this, heap, heap.ram
    {
      && heap.Valid() && Merged(heap.blocks)
      && Refines(heap.ram[..], Live(heap.blocks), held, at)
    }

    constructor (ram: array<Byte>, base: U64)
      requires 0 < base && base % PAGE_SIZE == 0 && base + INITIAL_SIZE <= ram.Length <= LIMIT
      modifies ram
      ensures Valid() && held == map[] && fresh(heap) && heap.ram == ram
      ensures heap.start == base && heap.end == base + INITIAL_SIZE
    {
      heap := new Heap(ram, base);
      held, at := map[], map[];
    }

    /** The block of a buffer. */
    lemma Position(id: nat) returns (k: nat)
      requires Valid() && id in held
      ensures k < |heap.blocks| && heap.blocks[k] == at[id] && !at[id].free
      ensures held[id].pointer == Payload(at[id]) && |held[id].data| <= at[id].size == held[id].capacity
              && End(at[id]) <= |heap.ram[..]|
      ensures heap.ram[..][Payload(at[id])..Payload(at[id]) + |held[id].data|] == held[id].data
      ensures at[id] in Live(heap.blocks) && at.Keys == held.Keys
    {
      hide Live, Merged, Written, Refines;
      Placed(heap.ram[..], Live(heap.blocks), held, at, id);
      k := BlockIndex(heap.blocks, at[id]);
    }

    method Malloc(id: nat, size: U64)
      requires Valid() && Allowed(held, Call.Malloc(id, size))
      modifies this, heap, heap.ram
      ensures Valid() && Step(heap.start, heap.end, old(held), Call.Malloc(id, size), held)
      ensures heap.start == old(heap.start) && heap.end == old(heap.end)
      ensures OutsideKept(old(heap.ram[..]), heap.ram[..], heap.start, heap.end)
    {
      hide Live, Merged, Refines, Allocated, PayloadsKept, OutsideKept, Backs, Apart, Rounded, Written, Full, HeaderAt;
      ghost var ram, blocks, end := heap.ram[..], heap.blocks, heap.end;
      var pointer := heap.Kmalloc(size, 0);
      AllocatedMerged(ram, blocks, end, Rounded(size), size == 0, heap.ram[..], heap.blocks, heap.end, pointer);
      ghost var at' := Malloced(ram, blocks, end, heap.ram[..], heap.blocks, heap.start, heap.end, pointer, id, size,
                                held, at);
      if pointer != 0 {
        var capacity, free, next, prev := heap.GetHeader(pointer - HEADER);
        held, at := held[id := Buffer(pointer, capacity, heap.ram[pointer..pointer + size])], at';
      }
      RefinesApart(heap.ram[..], heap.blocks, heap.start, heap.end, held, at);
    }

    method Free(id: nat)
      requires Valid() && id in held
      modifies this, heap, heap.ram
      ensures Valid() && Step(heap.start, heap.end, old(held), Call.Free(id), held)
      ensures heap.start == old(heap.start) && heap.end == old(heap.end)
      ensures OutsideKept(old(heap.ram[..]), heap.ram[..], heap.start, heap.end)
    {
      hide Live, Merged, Refines, PayloadsKept, OutsideKept, Backs, Apart, Written;
      ghost var ram, blocks := heap.ram[..], heap.blocks;
      ghost var k := Position(id);
      heap.Kfree(held[id].pointer, k);
      RefinesDrop(ram, heap.ram[..], Live(blocks), Live(heap.blocks), held, at, id);
      held, at := held - {id}, at - {id};
      RefinesApart(heap.ram[..], heap.blocks, heap.start, heap.end, held, at);
    }

    method Realloc(id: nat, size: U64)
      requires Valid() && Allowed(held, Call.Realloc(id, size))
      modifies this, heap, heap.ram
      ensures Valid() && Step(heap.start, heap.end, old(held), Call.Realloc(id, size), held)
      ensures heap.start == old(heap.start) && heap.end == old(heap.end)
      ensures OutsideKept(old(heap.ram[..]), heap.ram[..], heap.start, heap.end)
    {
      hide Live, Merged, Refines, PayloadsKept, OutsideKept, Backs, Apart, Written, Moved, Resized, Full, HeaderAt,
           Rounded, FirstFit;
      ghost var ram, blocks := heap.ram[..], heap.blocks;
      var buffer := held[id];
      ghost var k := Position(id);
      WrappedResize(blocks, heap.end, size, 0, blocks[k].size);
      var pointer := heap.Krealloc(buffer.pointer, size, 0, k);
      if size == 0 {
        RefinesDrop(ram, heap.ram[..], Live(blocks), Live(heap.blocks), held, at, id);
        held, at := held - {id}, at - {id};
      } else {
        if pointer == 0 && held[id].capacity < size {
          MissIsFull(ram, blocks, heap.start, heap.end, held, at, Rounded(size));
        }
        ghost var at' := Realloced(ram, blocks, heap.ram[..], heap.blocks, heap.start, heap.end, k, pointer, id, size,
                                   held, at);
        if pointer != 0 {
          var capacity, free, next, prev := heap.GetHeader(pointer - HEADER);
          held, at := held[id := Buffer(pointer, capacity, heap.ram[pointer..pointer + size])], at';
        }
      }
      RefinesApart(heap.ram[..], heap.blocks, heap.start, heap.end, held, at);
    }

    method Put(start: nat, data: seq<Byte>)
      requires start + |data| <= heap.ram.Length
      modifies heap.ram
      ensures heap.ram[..] == Splice(old(heap.ram[..]), start, data)
    {
      for i := 0 to |data|
        invariant heap.ram[..] == Splice(old(heap.ram[..]), start, data[..i])
      {
        heap.ram[start + i] := data[i];
      }
      assert data[..|data|] == data;
    }

    /** The client stores bytes in a buffer. */
    method Store(id: nat, offset: nat, data: seq<Byte>)
      requires Valid() && Allowed(held, Call.Store(id, offset, data))
      modifies this, heap.ram
      ensures Valid() && Step(heap.start, heap.end, old(held), Call.Store(id, offset, data), held)
      ensures OutsideKept(old(heap.ram[..]), heap.ram[..], heap.start, heap.end)
    {
      hide Live, Merged, Refines, PayloadsKept, OutsideKept, Backs, Apart, Written;
      ghost var ram := heap.ram[..];
      ghost var k := Position(id);
      Put(held[id].pointer + offset, data);
      Stored(ram, heap.ram[..], heap.blocks, heap.start, heap.end, k, held, at, id, offset, data);
      held := held[id := held[id].(data := Splice(held[id].data, offset, data))];
      RefinesApart(heap.ram[..], heap.blocks, heap.start, heap.end, held, at);
    }

    method Do(call: Call)
      requires Valid() && Allowed(held, call)
      modifies this, heap, heap.ram
      ensures Valid() && Step(heap.start, heap.end, old(held), call, held)
      ensures heap.start == old(heap.start) && heap.end == old(heap.end)
      ensures OutsideKept(old(heap.ram[..]), heap.ram[..], heap.start, heap.end)
    {
      hide Step, Valid, OutsideKept;
      match call {
        case Malloc(id, size) => Malloc(id, size);
        case Free(id) => Free(id);
        case Realloc(id, size) => Realloc(id, size);
        case Store(id, offset, data) => Store(id, offset, data);
      }
    }

    /** Performs calls in order, up to the first that the rules of use do not admit. Whatever they were: no buffer
        lost a byte to another, and if every buffer was released again the heap is one free block once more. */
    method RunAll(calls: seq<Call>) returns (done: nat, ghost states: seq<Buffers>)
      requires Valid()
      modifies this, heap, heap.ram
      ensures Valid() && done <= |calls| && Run(heap.start, heap.end, states, calls[..done])
      ensures states[0] == old(held) && states[done] == held
      ensures done < |calls| ==> !Allowed(held, calls[done])
      ensures heap.start == old(heap.start) && heap.end == old(heap.end)
      ensures OutsideKept(old(heap.ram[..]), heap.ram[..], heap.start, heap.end)
      ensures held == map[] ==>
                |heap.blocks| == 1 && heap.blocks[0].free && heap.blocks[0].at == heap.start
                && End(heap.blocks[0]) == heap.end
    {
      hide Step, Valid, Allowed, OutsideKept;
      NothingKept(heap.ram[..], {});
      done, states := 0, [held];
      while done < |calls| && Allowed(held, calls[done])
        invariant Valid() && done <= |calls| && Run(heap.start, heap.end, states, calls[..done])
        invariant states[0] == old(held) && states[done] == held
        invariant heap.start == old(heap.start) && heap.end == old(heap.end)
        invariant OutsideKept(old(heap.ram[..]), heap.ram[..], heap.start, heap.end)
      {
        ghost var ram := heap.ram[..];
        Do(calls[done]);
        OutsideTransitive(old(heap.ram[..]), ram, heap.ram[..], heap.start, heap.end, heap.end);
        RunExtend(heap.start, heap.end, states, calls[..done], calls[done], held);
        assert calls[..done] + [calls[done]] == calls[..done + 1];
        done, states := done + 1, states + [held];
      }
      if held == map[] {
        NoneHeld();
      }
    }

    lemma NoneHeld()
      requires Valid() && held == map[]
      ensures |heap.blocks| == 1 && heap.blocks[0].free && heap.blocks[0].at == heap.start
              && End(heap.blocks[0]) == heap.end
    {
      hide Live, Merged;
      assert Live(heap.blocks) == {};
      AllFreed(heap.blocks, heap.start, heap.end);
    }
  }

  // ----- what the calls did, in terms of buffers

  /** The bytes from the payload of block b on are a buffer in it. */
  lemma BacksSlice(ram: seq<Byte>, b: Block, pointer: U64, size: nat)
    requires pointer == Payload(b) && size <= b.size && End(b) <= |ram|
    ensures pointer + size <= |ram| && Backs(ram, b, Buffer(pointer, b.size, ram[pointer..pointer + size]))
  {
  }

  lemma Malloced(ram: seq<Byte>, blocks: seq<Block>, end: nat, ram': seq<Byte>, blocks': seq<Block>, first: nat,
                 end': nat,
                 pointer: U64, id: nat, size: U64, a: Buffers, at: map<nat, Block>) returns (at': map<nat, Block>)
    requires Refines(ram, Live(blocks), a, at) && id !in a && size <= U64_MAX - 7
    requires Written(ram, blocks, first, end) && Merged(blocks) && Written(ram', blocks', first, end')
    requires Allocated(ram, blocks, end, Rounded(size), size == 0, 0, ram', blocks', end', pointer)
    ensures pointer == 0 ==> Refines(ram', Live(blocks'), a, at) && (size == 0 || Full(a, first, end, Rounded(size)))
    ensures pointer != 0 ==> (0 < size && pointer + size <= |ram'| && Holds(ram', pointer, at', id)
              && at'[id].size < size + 64
              && var buffer := Buffer(pointer, at'[id].size, ram'[pointer..pointer + size]);
                 Refines(ram', Live(blocks'), a[id := buffer], at'))
  {
    hide Live, PayloadsKept, Backs, Blocks.Taken, FirstFit, HeaderAt, Tiles, Merged, Full;
    at' := at;
    if pointer == 0 {
      RefinesKept(ram, ram', Live(blocks), a, at);
      if size != 0 {
        AllocatedMiss(ram, blocks, end, Rounded(size), 0, ram', blocks', end', pointer);
        MissIsFull(ram, blocks, first, end, a, at, Rounded(size));
      }
    } else {
      RoundedUp(size);
      AllocatedLive(ram, blocks, end, Rounded(size), 0, ram', blocks', end', pointer);
      var j: nat :| NewLive(blocks, blocks', j, Rounded(size), pointer);
      var b := blocks'[j];
      Inside(blocks', first, end', j);
      assert HeaderOk(ram', blocks', j);
      BacksSlice(ram', b, pointer, size);
      RefinesPut(ram, ram', Live(blocks), Live(blocks'), a, at, id, b,
                 Buffer(pointer, b.size, ram'[pointer..pointer + size]));
      at' := at[id := b];
    }
  }

  /** The header before the pointer is that of the block of a buffer. */
  ghost predicate Holds(ram: seq<Byte>, pointer: nat, at: map<nat, Block>, id: nat)
  {
    HEADER <= pointer <= |ram| && id in at && HeaderAt(ram, pointer - HEADER).size == at[id].size
  }

  /** A buffer is live in its own block only. */
  lemma OwnBlock(ram: seq<Byte>, live: set<Block>, a: Buffers, at: map<nat, Block>, id: nat)
    requires Refines(ram, live, a, at) && id in at
    ensures at[id] in live && live == live - {at[id]} + {at[id]} && Backs(ram, at[id], a[id])
  {
  }

  lemma Realloced(ram: seq<Byte>, blocks: seq<Block>, ram': seq<Byte>, blocks': seq<Block>, first: nat, end: nat,
                  k: nat,
                  pointer: U64, id: nat, size: U64, a: Buffers, at: map<nat, Block>) returns (at': map<nat, Block>)
    requires Refines(ram, Live(blocks), a, at) && id in a && at.Keys == a.Keys && 0 < size
    requires k < |blocks| && blocks[k] == at[id] && Written(ram', blocks', first, end)
    requires var b := at[id];
             if size <= b.size then pointer == a[id].pointer && blocks' == blocks && ram' == ram
             else Moved(ram, blocks, ram', blocks', b, size, pointer)
    ensures pointer == 0 ==> Refines(ram', Live(blocks'), a, at) && a[id].capacity < size
    ensures pointer != 0 ==> (pointer + size <= |ram'| && Holds(ram', pointer, at', id)
              && (if size <= at[id].size then at' == at && pointer == a[id].pointer else at'[id].size < size + 64)
              && var buffer := Buffer(pointer, at'[id].size, ram'[pointer..pointer + size]);
                 Resized(a[id], size, buffer) && Refines(ram', Live(blocks'), a[id := buffer], at'))
  {
    hide Live, PayloadsKept, HeaderAt, Tiles, Refines, Backs, Resized;
    at' := at;
    var b := at[id];
    OwnBlock(ram, Live(blocks), a, at, id);
    if size <= b.size {
      NothingKept(ram, Live(blocks) - {b});
      BacksSlice(ram, b, pointer, size);
      GrownInPlace(ram, b, a[id], size);
      RefinesPut(ram, ram, Live(blocks), Live(blocks), a, at, id, b,
                 Buffer(pointer, b.size, ram[pointer..pointer + size]));
      assert at[id := b] == at && HeaderOk(ram, blocks, k);
    } else if pointer == 0 {
      RefinesKept(ram, ram', Live(blocks), a, at);
    } else {
      var c :| MovedTo(ram, blocks, ram', blocks', b, c) && pointer == Payload(c)
             && size <= c.size < size + 64;
      var j := BlockIndex(blocks', c);
      Inside(blocks', first, end, j);
      MovedBuffer(ram, ram', b, c, a[id], pointer, size);
      RefinesPut(ram, ram', Live(blocks), Live(blocks'), a, at, id, c,
                 Buffer(pointer, c.size, ram'[pointer..pointer + size]));
      assert HeaderOk(ram', blocks', j);
      at' := at[id := c];
    }
  }

  lemma GrownInPlace(ram: seq<Byte>, b: Block, buffer: Buffer, size: nat)
    requires Backs(ram, b, buffer) && size <= b.size
    ensures buffer.pointer + size <= |ram|
    ensures Resized(buffer, size, Buffer(buffer.pointer, b.size, ram[buffer.pointer..buffer.pointer + size]))
  {
    var p, n := buffer.pointer, Least(|buffer.data|, size);
    assert ram[p..p + size][..n] == ram[p..p + |buffer.data|][..n];
  }

  /** What was copied to block c is the old buffer, and more. */
  lemma MovedBuffer(ram: seq<Byte>, ram': seq<Byte>, b: Block, c: Block, buffer: Buffer, pointer: U64, size: nat)
    requires Backs(ram, b, buffer) && pointer == Payload(c) && b.size < size <= c.size && End(c) <= |ram'|
    requires ram'[Payload(c)..Payload(c) + b.size] == ram[Payload(b)..End(b)]
    ensures var buffer' := Buffer(pointer, c.size, ram'[pointer..pointer + size]);
            Backs(ram', c, buffer') && Resized(buffer, size, buffer')
  {
    var n := |buffer.data|;
    assert ram'[pointer..pointer + size][..n] == ram'[pointer..pointer + b.size][..n];
    assert buffer.data == ram[Payload(b)..End(b)][..n];
  }

  lemma Stored(ram: seq<Byte>, ram': seq<Byte>, blocks: seq<Block>, first: nat, end: nat, k: nat, a: Buffers,
               at: map<nat, Block>, id: nat, offset: nat, data: seq<Byte>)
    requires Written(ram, blocks, first, end) && Refines(ram, Live(blocks), a, at) && id in a && at.Keys == a.Keys
    requires k < |blocks| && blocks[k] == at[id] && offset + |data| <= |a[id].data|
    requires a[id].pointer + offset + |data| <= |ram| && ram' == Splice(ram, a[id].pointer + offset, data)
    ensures Written(ram', blocks, first, end) && OutsideKept(ram, ram', first, end)
    ensures Refines(ram', Live(blocks), a[id := a[id].(data := Splice(a[id].data, offset, data))], at)
  {
    hide Live, PayloadsKept, OutsideKept, HeaderAt, Tiles, Refines, Written;
    var b, buffer := at[id], a[id].(data := Splice(a[id].data, offset, data));
    OwnBlock(ram, Live(blocks), a, at, id);
    StoreWritten(ram, ram', blocks, first, end, k, offset, data);
    assert ram'[Payload(b)..Payload(b) + |buffer.data|] == buffer.data;
    RefinesPut(ram, ram', Live(blocks), Live(blocks), a, at, id, b, buffer);
    assert at[id := b] == at;
  }
}
