/** The frame allocator: one bit per 4 KB frame of physical memory. */
module PhysicalMemory {
  import opened Bytes

  const PAGE := 4096
  const DMA_FIRST: U32 := 0x10
  const DMA_END: U32 := 0xA0

  // ----- one bit of a word

  // The operators on words, named so that proofs above this section need not look into them.

  function And(x: bv32, y: bv32): bv32
  {
    x & y
  }

  function Or(x: bv32, y: bv32): bv32
  {
    x | y
  }

  function AndNot(x: bv32, y: bv32): bv32
  {
    x & !y
  }

  function Double(x: bv32): bv32
  {
    x << 1
  }

  lemma DoubleApart(x: bv32, y: bv32)
    requires And(x, y) == 0
    ensures And(Double(x), Double(y)) == 0
  {
  }

  lemma OneApart(y: bv32)
    ensures And(1, Double(y)) == 0
  {
  }

  lemma DoubleZero()
    ensures Double(0) == 0
  {
  }

  lemma AndSymmetric(x: bv32, y: bv32)
    ensures And(x, y) == And(y, x)
  {
  }

  lemma OrKeeps(w: bv32, x: bv32, y: bv32)
    requires And(x, y) == 0
    ensures And(Or(w, x), y) == And(w, y)
  {
  }

  lemma AndNotKeeps(w: bv32, x: bv32, y: bv32)
    requires And(x, y) == 0
    ensures And(AndNot(w, x), y) == And(w, y)
  {
  }

  lemma OrSets(w: bv32, x: bv32)
    ensures And(Or(w, x), x) == x
  {
  }

  lemma AndNotClears(w: bv32, x: bv32)
    ensures And(AndNot(w, x), x) == 0
  {
  }

  lemma AndZero(x: bv32)
    ensures And(0, x) == 0
  {
  }

  /** The word with only bit b set: 1u << b. */
  function Mask(b: nat): bv32
  {
    if b == 0 then 1 else Double(Mask(b - 1))
  }

  predicate BitIn(w: bv32, b: nat)
  {
    And(w, Mask(b)) != 0
  }

  lemma HighestMask()
    ensures Mask(31) != 0
  {
    assert Mask(3) == 0x8;
    assert Mask(6) == 0x40;
    assert Mask(9) == 0x200;
    assert Mask(12) == 0x1000;
    assert Mask(15) == 0x8000;
    assert Mask(18) == 0x4_0000;
    assert Mask(21) == 0x20_0000;
    assert Mask(24) == 0x100_0000;
    assert Mask(27) == 0x800_0000;
    assert Mask(30) == 0x4000_0000;
  }

  lemma {:induction false} MaskNonzero(b: nat)
    requires b < 32
    ensures Mask(b) != 0
    decreases 31 - b
  {
    hide Double;
    if b == 31 {
      HighestMask();
    } else {
      MaskNonzero(b + 1);
      DoubleZero();
    }
  }

  lemma {:induction false} MasksApart(b: nat, c: nat)
    requires b < c
    ensures And(Mask(b), Mask(c)) == 0
    decreases b
  {
    hide Double, And;
    if b == 0 {
      OneApart(Mask(c - 1));
    } else {
      MasksApart(b - 1, c - 1);
      DoubleApart(Mask(b - 1), Mask(c - 1));
    }
  }

  /** Setting or clearing bit b touches no other bit. */
  lemma BitChanged(w: bv32, b: nat, c: nat)
    requires b < 32 && c < 32
    ensures BitIn(Or(w, Mask(b)), c) <==> b == c || BitIn(w, c)
    ensures BitIn(AndNot(w, Mask(b)), c) <==> b != c && BitIn(w, c)
  {
    hide Mask, And, Or, AndNot;
    MaskNonzero(b);
    if b == c {
      OrSets(w, Mask(b));
      AndNotClears(w, Mask(b));
    } else {
      if b < c {
        MasksApart(b, c);
      } else {
        MasksApart(c, b);
        AndSymmetric(Mask(c), Mask(b));
      }
      OrKeeps(w, Mask(b), Mask(c));
      AndNotKeeps(w, Mask(b), Mask(c));
    }
  }

  // ----- the bitmap as a set of frames

  /** Frame i is in use. */
  predicate InUse(words: seq<bv32>, i: nat)
    requires i < 32 * |words|
  {
    BitIn(words[i / 32], i % 32)
  }

  /** The frames in use. */
  function Frames(words: seq<bv32>, total: nat): set<nat>
    requires total <= 32 * |words|
  {
    set i: nat | i < total && InUse(words, i)
  }

  lemma FrameSet(words: seq<bv32>, total: nat, i: nat)
    requires i < total <= 32 * |words|
    ensures var words' := words[i / 32 := Or(words[i / 32], Mask(i % 32))];
            Frames(words', total) == Frames(words, total) + {i}
  {
    hide Mask, BitIn, Or, AndNot;
    var words' := words[i / 32 := Or(words[i / 32], Mask(i % 32))];
    forall j: nat | j < total
      ensures InUse(words', j) <==> j == i || InUse(words, j)
    {
      if j / 32 == i / 32 {
        BitChanged(words[i / 32], i % 32, j % 32);
      }
    }
  }

  lemma FrameCleared(words: seq<bv32>, total: nat, i: nat)
    requires i < total <= 32 * |words|
    ensures var words' := words[i / 32 := AndNot(words[i / 32], Mask(i % 32))];
            Frames(words', total) == Frames(words, total) - {i}
  {
    hide Mask, BitIn, Or, AndNot;
    var words' := words[i / 32 := AndNot(words[i / 32], Mask(i % 32))];
    forall j: nat | j < total
      ensures InUse(words', j) <==> j != i && InUse(words, j)
    {
      if j / 32 == i / 32 {
        BitChanged(words[i / 32], i % 32, j % 32);
      }
    }
  }

  // ----- runs of free frames

  /** The n frames from i on exist and are free. */
  predicate FreeRun(used: set<nat>, total: nat, i: nat, n: nat)
  {
    i + n <= total && forall j :: i <= j < i + n ==> j !in used
  }

  /** The lowest run of n free frames that starts at i or later. */
  function FirstRun(used: set<nat>, total: nat, n: nat, i: nat): (r: Option<nat>)
    ensures r.Some? ==> i <= r.value && FreeRun(used, total, r.value, n)
    decreases total - i
  {
    if i + n > total then None
    else if FreeRun(used, total, i, n) then Some(i)
    else if i < total then FirstRun(used, total, n, i + 1)
    else None
  }

  lemma {:induction false} FirstRunLowest(used: set<nat>, total: nat, n: nat, i: nat, k: nat)
    requires 0 < n && i <= k && FreeRun(used, total, k, n)
    ensures FirstRun(used, total, n, i).Some? && FirstRun(used, total, n, i).value <= k
    decreases k - i
  {
    if i < k && !FreeRun(used, total, i, n) {
      FirstRunLowest(used, total, n, i + 1, k);
    }
  }

  /** The frames i to i + n - 1. */
  function Run(i: nat, n: nat): set<nat>
  {
    if n == 0 then {} else Run(i, n - 1) + {i + n - 1}
  }

  lemma {:induction false} RunIs(i: nat, n: nat)
    ensures |Run(i, n)| == n && forall x: nat :: x in Run(i, n) <==> i <= x < i + n
  {
    if n != 0 {
      RunIs(i, n - 1);
    }
  }

  lemma NoRun(i: nat)
    ensures Run(i, 0) == {}
  {
  }

  lemma OneRun(used: set<nat>, total: nat)
    ensures var r := Granted(used, total, 1); r.Some? ==> Run(r.value, 1) == {r.value}
  {
    var r := Granted(used, total, 1);
    if r.Some? {
      assert Run(r.value, 0) == {};
    }
  }

  lemma RunNext(used: set<nat>, i: nat, n: nat)
    ensures used + Run(i, n) + {i + n} == used + Run(i, n + 1)
    ensures i + n !in Run(i, n)
  {
    RunIs(i, n);
  }

  lemma RangeNext(used: set<nat>, first: nat, i: nat, total: nat)
    requires first <= i
    ensures used + Run(first, i - first) * Run(0, total) + (if i < total then {i} else {})
         == used + Run(first, i + 1 - first) * Run(0, total)
  {
    RunIs(0, total);
  }

  lemma Distributed(a: set<nat>, b: set<nat>, t: set<nat>)
    ensures {} + a * t + b * t == t * (a + b)
  {
  }

  /** The start of the run found, or NULL. The address 0 is both NULL and the address of frame 0. */
  function RunAddress(r: Option<nat>): nat
  {
    if r.Some? then PAGE * r.value else 0
  }

  /** The frames granted to a request for n frames in a row. */
  function Granted(used: set<nat>, total: nat, n: nat): Option<nat>
  {
    if n == 0 then None else FirstRun(used, total, n, 0)
  }

  /** A request fails exactly if it asks for nothing or no n free frames lie in a row; otherwise it is granted
      the lowest ones. */
  lemma GrantedIff(used: set<nat>, total: nat, n: nat)
    ensures var r := Granted(used, total, n);
            && (r.None? <==> n == 0 || forall k: nat :: !FreeRun(used, total, k, n))
            && (r.Some? ==>
                  FreeRun(used, total, r.value, n) && forall k: nat | k < r.value :: !FreeRun(used, total, k, n))
  {
    if n > 0 {
      forall k: nat | FreeRun(used, total, k, n)
        ensures Granted(used, total, n).Some? && Granted(used, total, n).value <= k
      {
        FirstRunLowest(used, total, n, 0, k);
      }
    }
  }

  // ----- runs of the allocator

  datatype FrameOp = Alloc(n: nat) | Free(frame: nat)

  function ApplyFrames(used: set<nat>, total: nat, op: FrameOp): set<nat>
  {
    match op
    case Alloc(n) =>
      var r := Granted(used, total, n);
      if r.Some? then used + Run(r.value, n) else used
    case Free(frame) => used - {frame}
  }

  ghost predicate FrameRun(states: seq<set<nat>>, ops: seq<FrameOp>, total: nat)
  {
    && |states| == |ops| + 1
    && forall i {:trigger ops[i]} :: 0 <= i < |ops| ==> states[i + 1] == ApplyFrames(states[i], total, ops[i])
  }

  /** Nobody frees one of these frames in the run. */
  ghost predicate NeverFreed(ops: seq<FrameOp>, frames: set<nat>)
  {
    forall i :: 0 <= i < |ops| && ops[i].Free? ==> ops[i].frame !in frames
  }

  lemma {:induction false} FramesStay(states: seq<set<nat>>, ops: seq<FrameOp>, total: nat, frames: set<nat>, lo: nat,
                                      hi: nat)
    requires FrameRun(states, ops, total) && lo <= hi <= |ops| && NeverFreed(ops[lo..], frames) && frames <= states[lo]
    ensures frames <= states[hi]
    decreases hi
  {
    hide Run, FirstRun;
    if lo < hi {
      FramesStay(states, ops, total, frames, lo, hi - 1);
      assert states[hi] == ApplyFrames(states[hi - 1], total, ops[hi - 1]);
      assert ops[lo..][hi - 1 - lo] == ops[hi - 1];
    }
  }

  /** Over any run, no request is granted a frame that was reserved at boot and that nobody freed; in particular
      none is granted frame 0, whose address is NULL. */
  lemma ReservedNeverGranted(states: seq<set<nat>>, ops: seq<FrameOp>, total: nat, reserved: set<nat>, i: nat)
    requires FrameRun(states, ops, total) && NeverFreed(ops, reserved) && reserved <= states[0]
    requires i < |ops| && ops[i].Alloc?
    ensures var r := Granted(states[i], total, ops[i].n);
            && (r.Some? ==> Run(r.value, ops[i].n) !! reserved)
            && (0 in reserved ==> (RunAddress(r) == 0 <==> r.None?))
  {
    hide Run, FirstRun;
    var g := Granted(states[i], total, ops[i].n);
    if g.Some? {
      RunIs(g.value, ops[i].n);
    }
    assert ops[0..] == ops;
    FramesStay(states, ops, total, reserved, 0, i);
  }

  /** Two grants overlap only if a frame was freed in between. */
  lemma GrantsApart(states: seq<set<nat>>, ops: seq<FrameOp>, total: nat, i: nat, j: nat)
    requires FrameRun(states, ops, total) && i < j < |ops| && ops[i].Alloc? && ops[j].Alloc?
    requires Granted(states[i], total, ops[i].n).Some? && Granted(states[j], total, ops[j].n).Some?
    requires NeverFreed(ops[i + 1..], Run(Granted(states[i], total, ops[i].n).value, ops[i].n))
    ensures Run(Granted(states[i], total, ops[i].n).value, ops[i].n) !! Run(Granted(states[j], total, ops[j].n).value,
                                                                            ops[j].n)
  {
    hide Run, FirstRun;
    var g := Granted(states[j], total, ops[j].n);
    if g.Some? {
      RunIs(g.value, ops[j].n);
    }
    assert states[i + 1] == ApplyFrames(states[i], total, ops[i]);
    FramesStay(states, ops, total, Run(Granted(states[i], total, ops[i].n).value, ops[i].n), i + 1, j);
  }

  // ----- the allocator

  class FrameAllocator {
    const bitmap: array<bv32>
    const total: U32
    /** Where the bitmap lies in memory. */
    const place: nat
    var used: U32

    ghost predicate Valid()
      reads this, bitmap
    {
      total < 0x10_0000 && total <= 32 * bitmap.Length && used == |Used()|
    }

    /** The frames in use. */
    ghost function Used(): set<nat>
      requires total <= 32 * bitmap.Length
      reads bitmap
    {
      Frames(bitmap[..], total)
    }

    /** Boots the allocator for memMb megabytes: the bitmap lies at the first page boundary behind the kernel, and just
        the frames with a byte below its end are reserved, and those of the DMA pool. */
    constructor (memMb: U32, kernelEnd: U32)
      requires memMb < 4096 && kernelEnd < 0xFFF0_0000
      ensures Valid() && fresh(bitmap) && total == 256 * memMb
      ensures var reserved := AlignUp(AlignUp(kernelEnd) + 4 * (8 * memMb)) / PAGE;
              Used() == Run(0, total) * (Run(0, reserved) + Run(DMA_FIRST, DMA_END - DMA_FIRST))
      ensures bitmap.Length == 8 * memMb && place % PAGE == 0 && kernelEnd <= place < kernelEnd + PAGE
      ensures forall f: nat :: f in Used() <==>
                f < total && (PAGE * f < place + 4 * bitmap.Length || 0x1_0000 <= PAGE * f < 0xA_0000)
    {
      hide Run, AlignUp, Frames;
      var pages: U32 := memMb * 256;
      var words: U32 := (pages + 31) / 32;
      assert words == 8 * memMb;
      total := pages;
      bitmap := new bv32[words](_ => 0);
      place := AlignUp(kernelEnd);
      used := 0;
      new;
      Empty(bitmap[..], total);
      MarkReserved(kernelEnd, words);
      AlignUpIs(kernelEnd);
      Reserved(AlignUp(kernelEnd) + 4 * words, total);
    }

    /** Reserves the frames of the kernel, of the bitmap and of the DMA pool. */
    method MarkReserved(kernelEnd: U32, words: U32)
      requires Valid() && Used() == {} && kernelEnd < 0xFFF0_0000 && words <= 0x8000
      modifies this`used, bitmap
      ensures Valid()
      ensures var reserved := AlignUp(AlignUp(kernelEnd) + 4 * words) / PAGE;
              Used() == Run(0, total) * (Run(0, reserved) + Run(DMA_FIRST, DMA_END - DMA_FIRST))
    {
      hide Run, Frames;
      var bitmapEnd := AlignUp(kernelEnd) + 4 * words;
      var reserved := AlignUp(bitmapEnd) / PAGE;
      MarkRange(0, reserved);
      MarkRange(DMA_FIRST, DMA_END);
      Distributed(Run(0, reserved), Run(DMA_FIRST, DMA_END - DMA_FIRST), Run(0, total));
    }

    /** Reserves the frames from `first` up to `end`, as far as they exist. */
    method MarkRange(first: nat, end: nat)
      requires Valid() && first <= end
      modifies this`used, bitmap
      ensures Valid() && Used() == old(Used()) + Run(first, end - first) * Run(0, total)
    {
      hide Frames, Run;
      NoRun(first);
      for i := first to end
        invariant Valid() && Used() == old(Used()) + Run(first, i - first) * Run(0, total)
      {
        RangeNext(old(Used()), first, i, total);
        MarkUsed(i);
      }
    }

    /** Sets the bit of a free frame. */
    method Take(i: nat)
      requires Valid() && i < total && i !in Used()
      modifies this`used, bitmap
      ensures Valid() && Used() == old(Used()) + {i}
    {
      hide Mask, BitIn, Or, AndNot;
      FrameSet(bitmap[..], total, i);
      FramesBound(bitmap[..], total, i);
      bitmap[i / 32] := Or(bitmap[i / 32], Mask(i % 32));
      used := used + 1;
    }

    /** Reads the bit of a frame. */
    method IsFree(i: nat) returns (free: bool)
      requires Valid() && i < total
      ensures free <==> i !in Used()
    {
      hide And, Mask;
      free := And(bitmap[i / 32], Mask(i % 32)) == 0;
    }

    /** Reserves a frame; does nothing for frames in use and frames that do not exist. */
    method MarkUsed(i: nat)
      requires Valid()
      modifies this`used, bitmap
      ensures Valid() && Used() == old(Used()) + (if i < total then {i} else {})
    {
      if i >= total {
        return;
      }
      var free := IsFree(i);
      if free {
        Take(i);
      }
    }

    /** Takes the lowest free frame. */
    method AllocPage() returns (address: U64)
      requires Valid()
      modifies this`used, bitmap
      ensures Valid()
      ensures var r := Granted(old(Used()), total, 1);
              && address == RunAddress(r)
              && Used() == old(Used()) + (if r.Some? then {r.value} else {})
      ensures Used() == ApplyFrames(old(Used()), total, Alloc(1))
    {
      hide Frames, InUse;
      OneRun(old(Used()), total);
      for i := 0 to total
        invariant Valid() && Used() == old(Used())
        invariant FirstRun(Used(), total, 1, 0) == FirstRun(Used(), total, 1, i)
      {
        var free := IsFree(i);
        if free {
          assert FirstRun(Used(), total, 1, i) == Some(i);
          Take(i);
          return i * PAGE;
        }
      }
      return 0;
    }

    /** Whether the n frames from i on are free. */
    method IsFreeRun(i: nat, n: nat) returns (free: bool)
      requires Valid() && i + n <= total
      ensures free == FreeRun(Used(), total, i, n)
    {
      for j := 0 to n
        invariant FreeRun(Used(), total, i, j)
      {
        var f := IsFree(i + j);
        if !f {
          return false;
        }
      }
      return true;
    }

    method TakeRun(i: nat, n: nat)
      requires Valid() && FreeRun(Used(), total, i, n)
      modifies this`used, bitmap
      ensures Valid() && Used() == old(Used()) + Run(i, n)
    {
      hide Frames, Run;
      NoRun(i);
      for j := 0 to n
        invariant Valid() && Used() == old(Used()) + Run(i, j)
      {
        RunNext(old(Used()), i, j);
        Take(i + j);
      }
    }

    /** Takes the lowest n free frames in a row. */
    method AllocPages(n: U32) returns (address: U64)
      requires Valid()
      modifies this`used, bitmap
      ensures Valid()
      ensures var r := Granted(old(Used()), total, n);
              && address == RunAddress(r)
              && Used() == old(Used()) + (if r.Some? then Run(r.value, n) else {})
      ensures Used() == ApplyFrames(old(Used()), total, Alloc(n))
    {
      hide Frames, InUse, Run;
      if n == 0 {
        return 0;
      }
      if n == 1 {
        OneRun(old(Used()), total);
        address := AllocPage();
        return;
      }
      if n > total {
        return 0;
      }
      var i := 0;
      while i <= total - n
        invariant 0 <= i <= total - n + 1
        invariant Valid() && Used() == old(Used())
        invariant FirstRun(Used(), total, n, 0) == FirstRun(Used(), total, n, i)
      {
        var free := IsFreeRun(i, n);
        if free {
          TakeRun(i, n);
          return i * PAGE;
        }
        i := i + 1;
      }
      return 0;
    }

    /** Gives a frame back; does nothing for free frames and frames that do not exist. */
    method FreePage(address: U64)
      requires Valid()
      modifies this`used, bitmap
      ensures Valid() && Used() == old(Used()) - {address / PAGE % 0x1_0000_0000}
      ensures Used() == ApplyFrames(old(Used()), total, Free(address / PAGE % 0x1_0000_0000))
    {
      hide Mask, BitIn, Or, AndNot;
      var i: U32 := address / PAGE % 0x1_0000_0000;
      if i >= total {
        return;
      }
      var free := IsFree(i);
      if !free {
        FrameCleared(bitmap[..], total, i);
        bitmap[i / 32] := AndNot(bitmap[i / 32], Mask(i % 32));
        used := used - 1;
      }
    }
  }

  lemma FramesWithin(words: seq<bv32>, total: nat)
    requires total <= 32 * |words|
    ensures Frames(words, total) <= Run(0, total)
  {
    hide InUse, Run;
    RunIs(0, total);
  }

  lemma FramesBound(words: seq<bv32>, total: nat, i: nat)
    requires i < total <= 32 * |words| && !InUse(words, i)
    ensures |Frames(words, total)| < total
  {
    hide InUse, Run;
    RunIs(0, total);
    var f := Frames(words, total);
    assert f <= Run(0, total) - {i};
    SubsetSize(f, Run(0, total) - {i});
  }

  lemma {:induction false} SubsetSize(a: set<nat>, b: set<nat>)
    requires a <= b
    ensures |a| <= |b|
    decreases |a|
  {
    if a != {} {
      var x :| x in a;
      SubsetSize(a - {x}, b - {x});
    }
  }

  /** The next page boundary. */
  function AlignUp(a: nat): nat
  {
    (a + PAGE - 1) / PAGE * PAGE
  }

  /** The next page boundary is one, it is not below, and it is less than a page away. */
  lemma AlignUpIs(a: nat)
    ensures AlignUp(a) % PAGE == 0 && a <= AlignUp(a) < a + PAGE
  {
  }

  /** The frames up to the next page boundary are those that start before the end. */
  lemma Reserved(end: nat, total: nat)
    ensures var used := Run(0, total) * (Run(0, AlignUp(end) / PAGE) + Run(DMA_FIRST, DMA_END - DMA_FIRST));
            forall f: nat :: f in used <==> f < total && (PAGE * f < end || 0x1_0000 <= PAGE * f < 0xA_0000)
  {
    hide Run, AlignUp;
    AlignUpIs(end);
    RunIs(0, total);
    RunIs(0, AlignUp(end) / PAGE);
    RunIs(DMA_FIRST, DMA_END - DMA_FIRST);
  }

  lemma Empty(words: seq<bv32>, total: nat)
    requires total <= 32 * |words| && forall k :: 0 <= k < |words| ==> words[k] == 0
    ensures Frames(words, total) == {}
  {
    hide And, Mask;
    forall i: nat | i < total
      ensures !InUse(words, i)
    {
      AndZero(Mask(i % 32));
    }
  }
}
