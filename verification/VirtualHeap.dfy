/** The kernel's virtual heap: ranges of virtual pages over frames, with a list of freed ranges. */
module VirtualHeap {
  import opened Bytes
  import opened PhysicalMemory
  import opened PageTree
  import opened Paging
  import R = Regions

  const MAX_FREE_REGIONS: U32 := 64
  const HEAP_END: U64 := 0x4000_0000
  const HEAP_PAGES := 0x4_0000

  /** Number of pages for a request; the rounding wraps around for sizes near 2^64. */
  function PagesFor(size: U64): nat
  {
    (size + PAGE - 1) % 0x1_0000_0000_0000_0000 / PAGE
  }

  // ----- mapping several pages

  /** A request gets whole pages: enough for all its bytes, and not one more, exactly if the rounding does not wrap
      around. If it does, it gets none. */
  lemma PagesForIs(size: U64)
    ensures size <= PAGE * PagesFor(size) < size + PAGE <==> size <= U64_MAX - 4095
    ensures size > U64_MAX - 4095 ==> PagesFor(size) == 0
  {
  }

  /** The tables that n pages from v on need. */
  function NeededAll(v: nat, n: nat): set<Node>
  {
    if n == 0 then {} else NeededAll(v, n - 1) + Needed(v + n - 1)
  }

  /** The pages v to v + n - 1 are mapped to the frames from f on, and all other pages as before. */
  ghost predicate RunMapped(mem: seq<Pte>, t: Tables, mem': seq<Pte>, t': Tables, v: nat, n: nat, f: nat)
  {
    && Tree(mem, t) && Tree(mem', t')
    && (forall x: nat :: Clear(mem, t, x) ==>
          Clear(mem', t', x) && Lookup(mem', t', x) == if v <= x < v + n then ToFrame(f + x - v) else Lookup(mem, t, x))
    && UpperKept(mem, t, mem', t')
  }

  /** Mapping pages changes the translation of no other page. */
  lemma RunTranslates(mem: seq<Pte>, t: Tables, mem': seq<Pte>, t': Tables, v: nat, n: nat, f: nat)
    requires RunMapped(mem, t, mem', t', v, n, f)
    ensures KeptBut(mem, t, mem', t', v, n)
  {
    hide Tree, Clear, Lookup, UpperKept, HugeLeaf, UserCan;
    forall x: nat | !(v <= x < v + n)
      ensures Translated(mem', t', x) == Translated(mem, t, x)
    {
      if !Clear(mem, t, x) {
        TranslatedKept(mem, t, mem', t', x);
      }
    }
    RightsKeptBut(mem, t, mem', t', v, n);
  }

  /** A writable page of the kernel. */
  function ToFrame(f: nat): Option<Mapping>
  {
    Some(Mapping(f, true, false))
  }

  /** The address of a frame gives back its number. */
  lemma AddressFrame(f: nat)
    requires f < 0x1_0000_0000
    ensures PAGE * f / PAGE * PAGE == PAGE * f && PAGE * f / PAGE % 0x1_0000_0000 == f
  {
  }

  lemma NothingMapped(mem: seq<Pte>, t: Tables, v: nat, f: nat)
    requires Tree(mem, t)
    ensures RunMapped(mem, t, mem, t, v, 0, f)
  {
    hide Tree, Clear, Lookup;
  }

  lemma OneMoreMapped(mem: seq<Pte>, t: Tables, mem1: seq<Pte>, t1: Tables, mem2: seq<Pte>, t2: Tables, v: nat, n: nat,
                      f: nat)
    requires RunMapped(mem, t, mem1, t1, v, n, f) && Remapped(mem1, t1, mem2, t2, v + n, ToFrame(f + n))
    ensures RunMapped(mem, t, mem2, t2, v, n + 1, f)
  {
    hide Tree, Clear, Lookup, ToFrame;
  }

  lemma AddedTransitive(t: Tables, used: set<nat>, t1: Tables, used1: set<nat>, t2: Tables, used2: set<nat>)
    requires TablesAdded(t, used, t1, used1) && TablesAdded(t1, used1, t2, used2)
    ensures TablesAdded(t, used, t2, used2)
  {
    forall v | v in t1.Values ensures v in t2.Values {
      var k :| k in t1 && t1[k] == v;
      assert t2[k] == v;
    }
  }

  lemma {:induction false} ValuesBound(t: Tables, keys: set<Node>)
    requires keys <= t.Keys
    ensures |set k | k in keys :: t[k]| <= |keys|
    decreases |keys|
  {
    var values := set k | k in keys :: t[k];
    if keys == {} {
      assert values == {};
    } else {
      var k :| k in keys;
      ValuesBound(t, keys - {k});
      var rest := set j | j in keys - {k} :: t[j];
      assert values == rest + {t[k]};
    }
  }

  /** Adding tables takes at most a frame for each. */
  lemma AddedCount(t: Tables, used: set<nat>, t': Tables, used': set<nat>)
    requires TablesAdded(t, used, t', used')
    ensures |used'| <= |used| + |t'.Keys - t.Keys|
  {
    var added := set k | k in t'.Keys - t.Keys :: t'[k];
    ValuesBound(t', t'.Keys - t.Keys);
    forall v | v in used' ensures v in used + added {
      if v !in used {
        var k :| k in t' && t'[k] == v;
        ValueIn(t, k);
        assert k in t'.Keys - t.Keys;
      }
    }
    SubsetSize(used', used + added);
  }

  /** After one page, the tables still missing still have room. */
  lemma RoomAfter(all: set<Node>, one: set<Node>, t: Tables, used: set<nat>, t': Tables, used': set<nat>, total: nat)
    requires one <= all && TablesAdded(t, used, t', used') && t'.Keys == t.Keys + one
    requires Fits(all, t, used, total)
    ensures Fits(all, t', used', total)
  {
    hide TablesAdded;
    AddedCount(t, used, t', used');
    SplitMissing(all, one, t.Keys);
  }

  lemma SplitMissing(all: set<Node>, one: set<Node>, have: set<Node>)
    requires one <= all
    ensures |all - have| == |all - (have + one)| + |(have + one) - have|
  {
    assert all - have == (all - (have + one)) + ((have + one) - have);
  }

  lemma RoomForOne(all: set<Node>, one: set<Node>, t: Tables, used: set<nat>, total: nat)
    requires one <= all && Fits(all, t, used, total)
    ensures Fits(one, t, used, total)
  {
    SubsetCount(one - t.Keys, all - t.Keys);
  }

  lemma {:induction false} SubsetCount(a: set<Node>, b: set<Node>)
    requires a <= b
    ensures |a| <= |b|
    decreases |a|
  {
    if a != {} {
      var x :| x in a;
      SubsetCount(a - {x}, b - {x});
    }
  }

  lemma {:induction false} NeededWithin(v: nat, n: nat, i: nat)
    requires i < n
    ensures Needed(v + i) <= NeededAll(v, n)
  {
    if i < n - 1 {
      NeededWithin(v, n - 1, i);
    }
  }

  // ----- the heap

  /** Every page of the heap's window is mapped exactly if a live range owns it, to the frame it owns. */
  ghost predicate Window(mem: seq<Pte>, t: Tables, lo: nat, mapped: map<nat, nat>)
  {
    && Tree(mem, t)
    && forall x: nat :: lo <= x < HEAP_PAGES ==>
         Clear(mem, t, x) && Lookup(mem, t, x) == if x in mapped then ToFrame(mapped[x]) else None
  }

  /** Every frame in use is reserved, holds a table or belongs to a live range, and only one of these. */
  ghost predicate Accounted(used: set<nat>, reserved: set<nat>, t: Tables, mapped: map<nat, nat>)
  {
    && used == reserved + t.Values + mapped.Values && 0 in reserved
    && reserved !! t.Values && reserved !! mapped.Values && t.Values !! mapped.Values
  }

  /** Mapping pages adds them to those the window has mapped. */
  lemma WindowMapped(mem: seq<Pte>, t: Tables, mem': seq<Pte>, t': Tables, lo: nat, mapped: map<nat, nat>,
                     v: nat, n: nat, f: nat)
    requires Window(mem, t, lo, mapped) && RunMapped(mem, t, mem', t', v, n, f)
    ensures Window(mem', t', lo, mapped + R.PagesTo(v, n, f))
  {
    hide Tree, Clear, Lookup, ToFrame;
    var mapped' := mapped + R.PagesTo(v, n, f);
    forall x: nat | lo <= x < HEAP_PAGES
      ensures Clear(mem', t', x) && Lookup(mem', t', x) == if x in mapped' then ToFrame(mapped'[x]) else None
    {
      assert Clear(mem, t, x);
      assert x in R.PagesTo(v, n, f) <==> R.InSpan(x, R.Span(v, n));
    }
  }

  /** The pages v to v + n - 1 are unmapped, and all others as before. */
  ghost predicate RunUnmapped(mem: seq<Pte>, t: Tables, mem': seq<Pte>, v: nat, n: nat)
  {
    && Tree(mem, t) && Tree(mem', t)
    && (forall x: nat :: Clear(mem, t, x) ==>
          Clear(mem', t, x) && Lookup(mem', t, x) == if v <= x < v + n then None else Lookup(mem, t, x))
    && UpperKept(mem, t, mem', t)
  }

  /** Unmapping pages changes the translation of no other page. */
  lemma UnmappedTranslates(mem: seq<Pte>, t: Tables, mem': seq<Pte>, v: nat, n: nat)
    requires RunUnmapped(mem, t, mem', v, n)
    ensures KeptBut(mem, t, mem', t, v, n)
  {
    hide Tree, Clear, Lookup, UpperKept, HugeLeaf, UserCan;
    forall x: nat | !(v <= x < v + n)
      ensures Translated(mem', t, x) == Translated(mem, t, x)
    {
      if !Clear(mem, t, x) {
        TranslatedKept(mem, t, mem', t, x);
      }
    }
    RightsKeptBut(mem, t, mem', t, v, n);
  }

  lemma NothingTranslates(mem: seq<Pte>, t: Tables)
    requires Tree(mem, t)
    ensures forall v :: KeptBut(mem, t, mem, t, v, 0)
  {
    hide Tree, Translated;
  }

  lemma NothingUnmapped(mem: seq<Pte>, t: Tables, v: nat)
    requires Tree(mem, t)
    ensures RunUnmapped(mem, t, mem, v, 0)
  {
    hide Tree, Clear, Lookup;
  }

  lemma OneMoreUnmapped(mem: seq<Pte>, t: Tables, mem1: seq<Pte>, mem2: seq<Pte>, v: nat, n: nat)
    requires RunUnmapped(mem, t, mem1, v, n) && Remapped(mem1, t, mem2, t, v + n, None)
    ensures RunUnmapped(mem, t, mem2, v, n + 1)
  {
    hide Tree, Clear, Lookup;
  }

  lemma WindowUnmapped(mem: seq<Pte>, t: Tables, mem': seq<Pte>, lo: nat, mapped: map<nat, nat>, v: nat, n: nat, f: nat)
    requires Window(mem, t, lo, mapped) && RunUnmapped(mem, t, mem', v, n)
    ensures Window(mem', t, lo, mapped - R.PagesTo(v, n, f).Keys)
  {
    hide Tree, Clear, Lookup, ToFrame;
    var mapped' := mapped - R.PagesTo(v, n, f).Keys;
    forall x: nat | lo <= x < HEAP_PAGES
      ensures Clear(mem', t, x) && Lookup(mem', t, x) == if x in mapped' then ToFrame(mapped'[x]) else None
    {
      assert Clear(mem, t, x);
      assert x in R.PagesTo(v, n, f) <==> R.InSpan(x, R.Span(v, n));
    }
  }

  lemma PagesToValues(v: nat, n: nat, f: nat)
    ensures R.PagesTo(v, n, f).Values == Run(f, n)
  {
    RunIs(f, n);
    var m := R.PagesTo(v, n, f);
    forall y | y in Run(f, n) ensures y in m.Values {
      assert R.InSpan(y - f + v, R.Span(v, n));
      assert m[y - f + v] == y;
    }
  }

  lemma AccountedAdded(used: set<nat>, reserved: set<nat>, t: Tables, mapped: map<nat, nat>,
                       total: nat, v: nat, n: nat, f: nat, t': Tables, used': set<nat>)
    requires Accounted(used, reserved, t, mapped) && FreeRun(used, total, f, n)
    requires TablesAdded(t, used + Run(f, n), t', used') && mapped.Keys !! R.PagesTo(v, n, f).Keys
    ensures Accounted(used', reserved, t', mapped + R.PagesTo(v, n, f))
  {
    RunIs(f, n);
    PagesToValues(v, n, f);
    hide R.PagesTo, Run;
    var added := R.PagesTo(v, n, f);
    UnionValues(mapped, added);
    MoreTables(t, used + Run(f, n), t', used');
    assert Run(f, n) !! used;
    FourSets(reserved, t.Values, mapped.Values, used, Run(f, n), t'.Values, used');
  }

  lemma MoreTables(t: Tables, used: set<nat>, t': Tables, used': set<nat>)
    requires TablesAdded(t, used, t', used')
    ensures t.Values <= t'.Values && (t'.Values - t.Values) !! used
  {
    forall w | w in t'.Values ensures w in t.Values || w !in used {
      var k :| k in t' && t'[k] == w;
      if k in t {
        assert t[k] in t.Values;
      }
    }
    forall w | w in t.Values ensures w in t'.Values {
      var k :| k in t && t[k] == w;
      assert t'[k] == w;
    }
  }

  /** Reserved frames, tables and mapped frames stay apart when free frames are given to tables and pages. */
  lemma FourSets(a: set<nat>, b: set<nat>, c: set<nat>, used: set<nat>, run: set<nat>, b': set<nat>, used': set<nat>)
    requires used == a + b + c && a !! b && a !! c && b !! c && run !! used
    requires b <= b' && (b' - b) !! used + run && used' == used + run + b'
    ensures used' == a + b' + (c + run) && a !! b' && a !! c + run && b' !! c + run
  {
  }

  /** The frames of the live ranges are in use. */
  lemma FramesTaken(used: set<nat>, reserved: set<nat>, t: Tables, mapped: map<nat, nat>, total: nat, n: nat, f: nat)
    requires Accounted(used, reserved, t, mapped) && FreeRun(used, total, f, n)
    ensures forall x :: x in mapped ==> !R.InSpan(mapped[x], R.Span(f, n))
  {
    forall x | x in mapped ensures !R.InSpan(mapped[x], R.Span(f, n)) {
      assert mapped[x] in mapped.Values;
    }
  }

  lemma FrameIn(m: map<nat, nat>, x: nat)
    ensures x in m ==> m[x] in m.Values
  {
  }

  lemma UnionValues(m: map<nat, nat>, added: map<nat, nat>)
    requires m.Keys !! added.Keys
    ensures (m + added).Values == m.Values + added.Values
  {
    var u := m + added;
    forall w | w in m.Values ensures w in u.Values {
      var x :| x in m && m[x] == w;
      assert u[x] == w;
    }
    forall w | w in added.Values ensures w in u.Values {
      var x :| x in added && added[x] == w;
      assert u[x] == w;
    }
  }

  lemma AccountedFreed(used: set<nat>, reserved: set<nat>, t: Tables, mapped: map<nat, nat>, v: nat, n: nat, f: nat)
    requires Accounted(used, reserved, t, mapped) && R.OneToOne(mapped)
    requires R.PagesTo(v, n, f).Keys <= mapped.Keys && forall x :: x in R.PagesTo(v, n, f) ==>
               mapped[x] == R.PagesTo(v, n, f)[x]
    ensures Accounted(used - Run(f, n), reserved, t, mapped - R.PagesTo(v, n, f).Keys)
    ensures Run(f, n) <= mapped.Values
  {
    PagesToValues(v, n, f);
    hide R.PagesTo, Run;
    var gone := R.PagesTo(v, n, f);
    var mapped' := mapped - gone.Keys;
    forall w | w in gone.Values ensures w in mapped.Values && w !in mapped'.Values {
      var x :| x in gone && gone[x] == w;
      assert mapped[x] == w;
    }
    forall w | w in mapped.Values && w !in gone.Values ensures w in mapped'.Values {
      var x :| x in mapped && mapped[x] == w;
      FrameIn(gone, x);
      assert mapped'[x] == w;
    }
  }

  /** Where a request for n pages goes: to the first free range that is large enough, or to the end. */
  function Place(free: seq<R.Span>, next: nat, n: nat): Option<nat>
  {
    var fit := R.FirstFit(free, n);
    if n == 0 then None
    else if fit.Some? then Some(free[fit.value].first)
    else if next + n <= HEAP_PAGES then Some(next)
    else None
  }

  class Heap {
    const space: AddressSpace
    const pool: array<R.Node>
    const start: U64
    var poolUsed: U32
    var freeList: Option<nat>
    var next: U64
    ghost var list: seq<nat>
    ghost var live: map<nat, R.Live>
    ghost var mapped: map<nat, nat>
    ghost var reserved: set<nat>

    /** The ranges in the free list. */
    ghost function Free(): seq<R.Span>
      reads this, pool
    {
      R.Spans(pool[..], list)
    }

    ghost predicate ListOk()
      reads this, pool
    {
      && pool.Length == MAX_FREE_REGIONS && poolUsed <= MAX_FREE_REGIONS
      && R.Linked(pool[..], poolUsed, freeList, list)
      && 0 < start && start % PAGE == 0 && next % PAGE == 0 && next <= HEAP_END
      && R.Spaced(start / PAGE, next / PAGE, Free(), live)
      && R.Backs(live, mapped)
    }

    ghost predicate Valid()
      reads this, pool, space, space.ram, space.frames, space.frames.bitmap
    {
      && ListOk() && space.Valid()
      && space.ram as object != pool && space.frames.bitmap as object != pool
      && Window(space.ram[..], space.tables, start / PAGE, mapped)
      && Accounted(space.frames.Used(), reserved, space.tables, mapped)
    }

    /** Starts with an empty heap over a window without huge pages in which nothing is mapped. */
    constructor (space: AddressSpace, start: U64, pool: array<R.Node>)
      requires space.Valid() && start % PAGE == 0 && 0 < start <= HEAP_END && pool.Length == MAX_FREE_REGIONS
      requires space.ram as object != pool && space.frames.bitmap as object != pool
      requires Window(space.ram[..], space.tables, start / PAGE, map[])
      ensures Valid() && this.space == space && this.pool == pool && this.start == start && next == start
      ensures live == map[] && Free() == [] && poolUsed == 0
      ensures reserved == space.frames.Used() - space.tables.Values
    {
      hide Tree, Clear, Lookup, Frames, NodeOk, Accounted, Window, Placed;
      AccountedFirst(space.ram[..], space.tables, space.root, space.frames.Used(), space.frames.total);
      this.space, this.start, this.pool := space, start, pool;
      poolUsed, freeList, next := 0, None, start;
      list, live, mapped := [], map[], map[];
      reserved := space.frames.Used() - space.tables.Values;
    }

    /** Walks the free list to the first range of at least n pages. */
    method FindFit(total: nat, ghost n: nat) returns (cur: Option<nat>, prev: Option<nat>, ghost k: nat)
      requires ListOk() && total == PAGE * n
      ensures k <= |list| && cur == R.NodeAt(list, k) && prev == if k == 0 then None else Some(list[k - 1])
      ensures R.FirstFit(Free(), n) == if k < |list| then Some(k) else None
      ensures cur == if R.FirstFit(Free(), n).Some? then Some(list[R.FirstFit(Free(), n).value]) else None
    {
      hide R.Spaced, R.Backs, R.FirstFit;
      cur, prev, k := freeList, None, 0;
      while cur.Some?
        invariant k <= |list| && cur == R.NodeAt(list, k) && prev == if k == 0 then None else Some(list[k - 1])
        invariant forall i :: 0 <= i < k ==> Free()[i].pages < n
        decreases |list| - k
      {
        assert R.LinkOk(pool[..], poolUsed, list, k);
        if pool[cur.value].size >= total {
          R.FirstFitIs(Free(), n, k);
          return;
        }
        prev := cur;
        cur := pool[cur.value].next;
        k := k + 1;
      }
      R.FirstFitIs(Free(), n, k);
    }

    /** Takes n pages off the front of a range in the list, or the whole range. */
    method TakeFront(cur: nat, prev: Option<nat>, total: nat, ghost k: nat, ghost n: nat) returns (virtual: U64)
      requires ListOk() && k < |list| && cur == list[k] && prev == if k == 0 then None else Some(list[k - 1])
      requires total == PAGE * n && n <= Free()[k].pages
      modifies this`freeList, this`list, pool
      ensures ListOk() && Free() == R.Carved(old(Free()), k, n)
      ensures virtual % PAGE == 0 && virtual / PAGE == old(Free())[k].first
      ensures start <= virtual && virtual + PAGE * n <= next
      ensures 0 < n ==> R.Unclaimed(R.Span(virtual / PAGE, n), Free(), live)
                        && R.Within(R.Span(virtual / PAGE, n), start / PAGE, next / PAGE)
    {
      hide R.Spaced, R.Backs, R.Unclaimed, R.Linked;
      ghost var nodes, free := pool[..], Free();
      R.NodeIn(nodes, poolUsed, freeList, list, k);
      R.SomePages(start / PAGE, next / PAGE, free, live, k);
      CarveSpaced(start / PAGE, next / PAGE, free, live, k, n);
      virtual := pool[cur].start;
      if pool[cur].size == total {
        if prev.None? {
          R.HeadUnlinked(nodes, poolUsed, freeList, list);
          assert list[..0] + list[1..] == list[1..] && free[..0] + free[1..] == free[1..];
          freeList := pool[cur].next;
        } else {
          R.Unlinked(nodes, poolUsed, freeList, list, k);
          pool[prev.value] := pool[prev.value].(next := pool[cur].next);
        }
        list := list[..k] + list[k + 1..];
      } else {
        R.LessPages(pool[cur].size, n);
        R.MorePages(pool[cur].start, n);
        ghost var e := pool[cur].(start := pool[cur].start + total, size := pool[cur].size - total);
        pool[cur] := pool[cur].(start := pool[cur].start + total, size := pool[cur].size - total);
        R.Shrunk(nodes, poolUsed, freeList, list, k, e);
      }
    }

    /** Maps n pages to n consecutive frames. */
    method MapRun(virtual: U64, physical: U64, n: nat, ghost f: nat)
      requires space.Valid() && virtual % PAGE == 0 && virtual + PAGE * n <= HEAP_END
      requires physical == PAGE * f && f + n <= space.frames.total
      requires AllClear(space.ram[..], space.tables, virtual / PAGE, n)
      requires Fits(NeededAll(virtual / PAGE, n), space.tables, space.frames.Used(), space.frames.total)
      modifies space.ram, space.frames`used, space.frames.bitmap, space`tables
      ensures space.Valid()
      ensures RunMapped(old(space.ram[..]), old(space.tables), space.ram[..], space.tables, virtual / PAGE, n, f)
      ensures TablesAdded(old(space.tables), old(space.frames.Used()), space.tables, space.frames.Used())
    {
      hide Tree, Clear, Lookup, Frames, Progress, Remapped, NeededAll, Needed, ToFrame, TablesAdded, RunMapped,
           AllClear;
      hide PageOf, Leaf, Fits;
      ghost var v, mem, t, used := virtual / PAGE, space.ram[..], space.tables, space.frames.Used();
      Beginning(mem, t, used, v, n, f, space.frames.total);
      for i := 0 to n
        invariant space.Valid()
        invariant Progress(mem, t, used, space.ram[..], space.tables, space.frames.Used(), v, n, i, f,
                           space.frames.total)
      {
        ghost var mem1, t1, used1 := space.ram[..], space.tables, space.frames.Used();
        PageAt(virtual, i);
        LeafFrame(physical, f, i);
        BeforePage(mem, t, used, mem1, t1, used1, v, n, i, f, space.frames.total);
        space.MapPage(virtual + i * PAGE, physical + i * PAGE, FLAG_WRITABLE);
        AfterPage(mem, t, used, mem1, t1, used1, space.ram[..], space.tables, space.frames.Used(), v, n, i, f,
                  space.frames.total);
      }
      Ending(mem, t, used, space.ram[..], space.tables, space.frames.Used(), v, n, f, space.frames.total);
    }

    /** Frees the frame behind a page. */
    method ReleaseFrame(virtual: U64, ghost f: nat)
      requires space.Valid() && virtual % PAGE == 0 && f < space.frames.total && 0 < f && f !in space.tables.Values
      requires Clear(space.ram[..], space.tables, PageOf(virtual))
      requires Lookup(space.ram[..], space.tables, PageOf(virtual)) == ToFrame(f)
      modifies space.frames`used, space.frames.bitmap
      ensures space.Valid() && space.frames.Used() == old(space.frames.Used()) - {f}
    {
      hide Tree, Clear, Lookup, Frames, Identity, StrayEntry, StrayFrame, PageOf;
      var address := space.GetPhysicalAddress(virtual);
      assert address == PAGE * f;
      AddressFrame(f);
      if address != 0 {
        space.frames.FreePage(address / PAGE * PAGE);
      }
    }

    /** Frees the frames behind n pages. */
    method ReleaseFrames(virtual: U64, n: nat, ghost f: nat)
      requires space.Valid() && virtual % PAGE == 0 && virtual + PAGE * n <= HEAP_END && f + n <= space.frames.total
      requires Run(f, n) !! space.tables.Values && 0 !in Run(f, n)
      requires Behind(space.ram[..], space.tables, virtual / PAGE, n, f)
      modifies space.frames`used, space.frames.bitmap
      ensures space.Valid() && space.frames.Used() == old(space.frames.Used()) - Run(f, n)
    {
      hide Tree, Clear, Lookup, Frames, Run, Behind, Identity, ToFrame, Placed;
      NoRun(f);
      ghost var used := space.frames.Used();
      for i := 0 to n
        invariant space.Valid() && space.frames.Used() == used - Run(f, i)
      {
        PageAt(virtual, i);
        InRun(f, n, i);
        BehindAt(space.ram[..], space.tables, virtual / PAGE, n, f, i);
        ReleaseFrame(virtual + i * PAGE, f + i);
        LessRun(used, f, i, n, space.tables.Values);
      }
    }

    /** Unmaps n pages. */
    method UnmapRun(virtual: U64, n: nat)
      requires space.Valid() && virtual % PAGE == 0 && virtual + PAGE * n <= HEAP_END
      requires AllClear(space.ram[..], space.tables, virtual / PAGE, n)
      modifies space.ram
      ensures space.Valid() && RunUnmapped(old(space.ram[..]), space.tables, space.ram[..], virtual / PAGE, n)
    {
      hide Tree, Clear, Lookup, Frames, RunUnmapped, Remapped;
      ghost var v, mem := virtual / PAGE, space.ram[..];
      NothingUnmapped(mem, space.tables, v);
      for i := 0 to n
        invariant space.Valid() && RunUnmapped(mem, space.tables, space.ram[..], v, i)
      {
        ghost var mem1 := space.ram[..];
        PageAt(virtual, i);
        ClearUnmapped(mem, space.tables, mem1, v, n, i);
        space.UnmapPage(virtual + i * PAGE);
        OneMoreUnmapped(mem, space.tables, mem1, space.ram[..], v, i);
      }
    }

    /** Takes frames for a range of pages and maps it. The number of pages is cut to 32 bits on the way to the
        frame allocator. */
    method Back(virtual: U64, pages: nat) returns (physical: U64)
      requires space.Valid() && virtual % PAGE == 0
      requires (pages <= HEAP_PAGES && virtual + PAGE * pages <= HEAP_END
                && AllClear(space.ram[..], space.tables, virtual / PAGE, pages))
            || (pages > HEAP_PAGES && pages % 0x1_0000_0000 > space.frames.total)
      requires pages <= HEAP_PAGES
               ==> FrameFit(virtual / PAGE, pages, space.tables, space.frames.Used(), space.frames.total)
      modifies space.ram, space.frames`used, space.frames.bitmap, space`tables
      ensures space.Valid()
      ensures physical == 0 ==> space.ram[..] == old(space.ram[..]) && space.tables == old(space.tables)
                                && space.frames.Used() == old(space.frames.Used())
      ensures physical == 0
              <==> pages > HEAP_PAGES || Granted(old(space.frames.Used()), space.frames.total, pages).None?
      ensures physical != 0 ==>
        Backed(old(space.ram[..]), old(space.tables), old(space.frames.Used()), space.ram[..], space.tables,
               space.frames.Used(),
               space.frames.total, virtual / PAGE, pages)
      ensures KeptBut(old(space.ram[..]), old(space.tables), space.ram[..], space.tables, virtual / PAGE,
                      if physical == 0 then 0 else pages)
    {
      hide Tree, Clear, Lookup, Frames, Run, NeededAll, Fits, Granted, FirstRun, RunMapped, TablesAdded, AllClear,
           FreeRun;
      hide KeptBut, Identity;
      ghost var mem, t, used, total := space.ram[..], space.tables, space.frames.Used(), space.frames.total;
      NothingTranslates(mem, t);
      GrantedRun(used, total, pages);
      GrantedRun(used, total, pages % 0x1_0000_0000);
      physical := space.frames.AllocPages(pages % 0x1_0000_0000);
      if physical == 0 {
        return;
      }
      MapRun(virtual, physical, pages, Granted(used, total, pages).value);
      RunTranslates(mem, t, space.ram[..], space.tables, virtual / PAGE, pages, Granted(used, total, pages).value);
    }

    /** If a request for n pages goes through, there are frames left for the tables it needs. */
    ghost predicate TablesFit(n: nat)
      requires Valid()
      reads this, pool, space, space.ram, space.frames, space.frames.bitmap
    {
      var place := Place(Free(), next / PAGE, n);
      place.Some? ==> FrameFit(place.value, n, space.tables, space.frames.Used(), space.frames.total)
    }

    /** Allocates whole pages. A freed range is used again if one is large enough, and is lost if there are no
        frames for it; otherwise the heap grows. */
    method Kmalloc(size: U64) returns (address: U64)
      requires Valid() && TablesFit(PagesFor(size))
      modifies this`freeList, this`list, this`next, this`live, this`mapped, pool
      modifies space.ram, space.frames`used, space.frames.bitmap, space`tables
      ensures Valid() && reserved == old(reserved) && poolUsed == old(poolUsed)
      ensures Allocated(PagesFor(size), old(Free()), old(next), old(live), old(space.tables),
                        Granted(old(space.frames.Used()), space.frames.total, PagesFor(size)),
                        address, Free(), next, live, space.tables)
      ensures KeptBut(old(space.ram[..]), old(space.tables), space.ram[..], space.tables, address / PAGE,
                      if address == 0 then 0 else PagesFor(size))
      ensures address != 0 ==> Serves(space.ram[..], space.tables, live, address, size)
    {
      hide Tree, Clear, Lookup, Frames, Run, R.Spaced, R.Backs, R.Linked, R.Unclaimed, Window, Accounted, NeededAll,
           Fits;
      hide Granted, Backed, AllClear, FrameFit, R.FirstFit, KeptBut, Identity, Serves, PagesFor;
      ghost var n, free := PagesFor(size), Free();
      NothingTranslates(space.ram[..], space.tables);
      var pages := PagesFor(size);
      var total := pages * PAGE;
      var cur, prev, k := FindFit(total, n);
      NoFrames(space.tables, space.frames.Used(), space.frames.total);
      if cur.Some? {
        var virtual := TakeFront(cur.value, prev, total, k, n);
        address := Reuse(virtual, pages);
        if address != 0 {
          Served(address, size);
        }
        return;
      }
      Overflow(size, next);
      StartBelow(start / PAGE, next / PAGE, Free(), live);
      if (next + total) % 0x1_0000_0000_0000_0000 > HEAP_END {
        return 0;
      }
      address := Grow(pages);
      if address != 0 {
        Served(address, size);
      }
    }

    /** A live range of as many pages as the request gets serves it. */
    lemma Served(address: U64, size: U64)
      requires Valid() && address % PAGE == 0 && address / PAGE in live && PagesFor(size) == live[address / PAGE].pages
      ensures Serves(space.ram[..], space.tables, live, address, size)
    {
      hide Tree, Clear, Lookup, Frames, Run, R.Spaced, R.Backs, R.Linked, Window, Accounted, Serves;
      LiveBehind(space.ram[..], space.tables, start / PAGE, next / PAGE, Free(), live, mapped, address / PAGE);
      BehindServes(space.ram[..], space.tables, live, address, size);
    }

    /** Backs a range below the end of the heap that nobody claims. */
    method Reuse(virtual: U64, pages: nat) returns (address: U64)
      requires Valid() && virtual % PAGE == 0 && virtual + PAGE * pages <= HEAP_END && start <= virtual
      requires 0 < pages ==> R.Unclaimed(R.Span(virtual / PAGE, pages), Free(), live)
                             && R.Within(R.Span(virtual / PAGE, pages), start / PAGE, next / PAGE)
      requires FrameFit(virtual / PAGE, pages, space.tables, space.frames.Used(), space.frames.total)
      modifies this`live, this`mapped, space.ram, space.frames`used, space.frames.bitmap, space`tables
      ensures Valid() && Free() == old(Free())
      ensures var frame := Granted(old(space.frames.Used()), space.frames.total, pages);
              if frame.Some? then address == virtual && live == old(live)[virtual / PAGE := R.Live(pages, frame.value)]
              else address == 0 && live == old(live) && space.tables == old(space.tables)
      ensures KeptBut(old(space.ram[..]), old(space.tables), space.ram[..], space.tables, address / PAGE,
                      if address == 0 then 0 else pages)
    {
      hide Tree, Clear, Lookup, Frames, Run, R.Spaced, R.Backs, R.Linked, R.Unclaimed, Window, Accounted, NeededAll,
           Fits;
      hide Granted, Backed, AllClear, FrameFit, KeptBut, Identity;
      ghost var mem, t, used := space.ram[..], space.tables, space.frames.Used();
      NothingTranslates(mem, t);
      ClearWindow(mem, t, start / PAGE, mapped, virtual / PAGE, pages);
      var physical := Back(virtual, pages);
      if physical == 0 {
        return 0;
      }
      ghost var f := Granted(used, space.frames.total, pages).value;
      GrantedRun(used, space.frames.total, pages);
      Attached(mem, t, used, space.ram[..], space.tables, space.frames.Used(), space.frames.total,
               reserved, start / PAGE, next / PAGE, Free(), live, mapped, virtual / PAGE, pages);
      live := live[virtual / PAGE := R.Live(pages, f)];
      mapped := mapped + R.PagesTo(virtual / PAGE, pages, f);
      return virtual;
    }

    /** Backs a range at the end of the heap, and moves the end. */
    method Grow(pages: nat) returns (address: U64)
      requires Valid()
      requires next + PAGE * pages <= HEAP_END || (pages > HEAP_PAGES && pages % 0x1_0000_0000 > 0x10_0000)
      requires pages <= HEAP_PAGES
               ==> FrameFit(next / PAGE, pages, space.tables, space.frames.Used(), space.frames.total)
      modifies this`next, this`live, this`mapped, space.ram, space.frames`used, space.frames.bitmap, space`tables
      ensures Valid() && Free() == old(Free())
      ensures var frame := Granted(old(space.frames.Used()), space.frames.total, pages);
              if pages <= HEAP_PAGES && frame.Some? then
                address == old(next) && live == old(live)[old(next) / PAGE := R.Live(pages, frame.value)]
                && next == old(next) + PAGE * pages
              else address == 0 && live == old(live) && space.tables == old(space.tables) && next == old(next)
      ensures KeptBut(old(space.ram[..]), old(space.tables), space.ram[..], space.tables, address / PAGE,
                      if address == 0 then 0 else pages)
    {
      hide Tree, Clear, Lookup, Frames, Run, R.Spaced, R.Backs, R.Linked, R.Unclaimed, Window, Accounted, NeededAll,
           Fits;
      hide Granted, Backed, AllClear, FrameFit, KeptBut, Identity;
      ghost var mem, t, used := space.ram[..], space.tables, space.frames.Used();
      NothingTranslates(mem, t);
      StartBelow(start / PAGE, next / PAGE, Free(), live);
      if pages <= HEAP_PAGES {
        ClearWindow(mem, t, start / PAGE, mapped, next / PAGE, pages);
      }
      var physical := Back(next, pages);
      if physical == 0 {
        return 0;
      }
      ghost var f := Granted(used, space.frames.total, pages).value;
      GrantedRun(used, space.frames.total, pages);
      R.GrownSpaced(start / PAGE, next / PAGE, Free(), live, pages);
      Attached(mem, t, used, space.ram[..], space.tables, space.frames.Used(), space.frames.total,
               reserved, start / PAGE, next / PAGE + pages, Free(), live, mapped, next / PAGE, pages);
      address := next;
      live := live[next / PAGE := R.Live(pages, f)];
      mapped := mapped + R.PagesTo(next / PAGE, pages, f);
      next := next + pages * PAGE;
    }

    /** Frees a live range: its frames first, then its pages; the range goes to the front of the list, or is
        lost once the pool of nodes has run out. */
    method Kfree(address: U64, size: U64)
      requires Valid()
      requires address != 0 ==>
                 && address % PAGE == 0 && address / PAGE in live
                 && PAGE * (live[address / PAGE].pages - 1) < size <= PAGE * live[address / PAGE].pages
      modifies this`poolUsed, this`freeList, this`list, this`live, this`mapped, pool
      modifies space.ram, space.frames`used, space.frames.bitmap
      ensures Valid() && reserved == old(reserved) && next == old(next) && space.tables == old(space.tables)
      ensures address == 0 ==> live == old(live) && Free() == old(Free()) && poolUsed == old(poolUsed)
                               && space.frames.Used() == old(space.frames.Used())
      ensures address != 0 ==>
        var s := address / PAGE;
        && live == old(live) - {s}
        && space.frames.Used() == old(space.frames.Used()) - Run(old(live)[s].frame, old(live)[s].pages)
        && poolUsed == (if old(poolUsed) < MAX_FREE_REGIONS then old(poolUsed) + 1 else old(poolUsed))
        && Free() == (if old(poolUsed) < MAX_FREE_REGIONS then [R.SpanOf(old(live), s)] + old(Free()) else old(Free()))
      ensures KeptBut(old(space.ram[..]), space.tables, space.ram[..], space.tables, address / PAGE,
                      if address == 0 then 0 else old(live)[address / PAGE].pages)
    {
      hide Tree, Clear, Lookup, Frames, Run, R.Spaced, R.Backs, R.Linked, R.Unclaimed, Window, Accounted;
      hide RunUnmapped, Behind, AllClear, KeptBut, Identity;
      NothingTranslates(space.ram[..], space.tables);
      if address == 0 {
        return;
      }
      var pages := PagesFor(size);
      ghost var s := address / PAGE;
      ghost var f, mem, used := live[s].frame, space.ram[..], space.frames.Used();
      FramesWithin(space.frames.bitmap[..], space.frames.total);
      LiveBehind(mem, space.tables, start / PAGE, next / PAGE, Free(), live, mapped, s);
      LiveFrames(used, reserved, space.tables, space.frames.total, live, mapped, s);
      ReleaseFrames(address, pages, f);
      UnmapRun(address, pages);
      UnmappedTranslates(mem, space.tables, space.ram[..], s, pages);
      Detached(mem, space.tables, space.ram[..], used, reserved, start / PAGE, next / PAGE, Free(), live, mapped, s);
      mapped := mapped - R.PagesTo(s, pages, f).Keys;
      live := live - {s};
      PushFree(address, pages);
    }

    /** Puts a range at the front of the list, in the next node of the pool. */
    method PushFree(address: U64, pages: nat)
      requires ListOk() && address % PAGE == 0 && pages <= HEAP_PAGES
      requires R.Spaced(start / PAGE, next / PAGE, [R.Span(address / PAGE, pages)] + Free(), live)
      modifies this`poolUsed, this`freeList, this`list, pool
      ensures ListOk()
      ensures poolUsed == (if old(poolUsed) < MAX_FREE_REGIONS then old(poolUsed) + 1 else old(poolUsed))
      ensures Free() == if old(poolUsed) < MAX_FREE_REGIONS then [R.Span(address / PAGE, pages)] + old(Free())
              else old(Free())
    {
      hide R.Spaced, R.Backs, R.Linked;
      if poolUsed < MAX_FREE_REGIONS {
        R.Pushed(pool[..], poolUsed, freeList, list, address, pages * PAGE);
        pool[poolUsed] := R.Node(address, pages * PAGE, freeList);
        freeList := Some(poolUsed as nat);
        list := [poolUsed as nat] + list;
        poolUsed := poolUsed + 1;
      }
    }
  }

  /** What an allocation of n pages did, `frame` being the run of frames that was to be had. */
  ghost predicate Allocated(n: nat, free: seq<R.Span>, next: U64, live: map<nat, R.Live>, t: Tables, frame: Option<nat>,
                            address: U64, free': seq<R.Span>, next': U64, live': map<nat, R.Live>, t': Tables)
  {
    var fit, place := R.FirstFit(free, n), Place(free, next / PAGE, n);
    && (address != 0 <==> place.Some? && frame.Some?)
    && (if address != 0 then address == PAGE * place.value && live' == live[place.value := R.Live(n, frame.value)]
        else live' == live && t' == t)
    && free' == (if fit.Some? then R.Carved(free, fit.value, n) else free)
    && next' == next + (if address != 0 && fit.None? then PAGE * n else 0)
  }

  /** If there is a run of frames for n pages from v on, enough frames are left for the tables they need. */
  ghost predicate FrameFit(v: nat, n: nat, t: Tables, used: set<nat>, total: nat)
  {
    var frame := Granted(used, total, n);
    frame.Some? ==> Fits(NeededAll(v, n), t, used + Run(frame.value, n), total)
  }

  /** n pages from v on were mapped to the lowest run of n free frames. */
  ghost predicate Backed(mem: seq<Pte>, t: Tables, used: set<nat>, mem': seq<Pte>, t': Tables, used': set<nat>,
                         total: nat, v: nat, n: nat)
  {
    var frame := Granted(used, total, n);
    && frame.Some? && FreeRun(used, total, frame.value, n)
    && RunMapped(mem, t, mem', t', v, n, frame.value)
    && TablesAdded(t, used + Run(frame.value, n), t', used')
  }

  /** A granted run is free and inside memory, and not at frame 0 once that is in use. */
  lemma GrantedRun(used: set<nat>, total: nat, n: nat)
    ensures var r := Granted(used, total, n);
            && (r.Some? ==> 0 < n <= total && FreeRun(used, total, r.value, n) && r.value + n <= total
                            && (0 in used ==> r.value != 0))
  {
  }

  /** No frames are granted to a request for none, so it needs no tables either. */
  lemma NoFrames(t: Tables, used: set<nat>, total: nat)
    ensures Granted(used, total, 0) == None && forall v :: FrameFit(v, 0, t, used, total)
  {
  }

  /** A sum that wraps around asks for more pages than there are frames, also when cut to 32 bits. */
  lemma Overflow(size: U64, next: U64)
    requires next <= HEAP_END && next % PAGE == 0
    ensures var n := PagesFor(size);
            (next + n * PAGE) % 0x1_0000_0000_0000_0000 <= HEAP_END ==>
              next + PAGE * n <= HEAP_END || (n > HEAP_PAGES && n % 0x1_0000_0000 > 0x10_0000)
    ensures var n := PagesFor(size);
            (next + n * PAGE) % 0x1_0000_0000_0000_0000 > HEAP_END ==> next / PAGE + n > HEAP_PAGES
    ensures next + PAGE * PagesFor(size) <= HEAP_END <==> next / PAGE + PagesFor(size) <= HEAP_PAGES
  {
    var n := PagesFor(size);
    assert n < 0x10_0000_0000_0000;
    if next + n * PAGE >= 0x1_0000_0000_0000_0000 {
      assert n >= 0x10_0000_0000_0000 - HEAP_PAGES;
      var r := n - 0xF_FFFF * 0x1_0000_0000;
      assert 0 <= r < 0x1_0000_0000 && n % 0x1_0000_0000 == r;
    }
  }

  lemma ClearWindow(mem: seq<Pte>, t: Tables, lo: nat, mapped: map<nat, nat>, v: nat, n: nat)
    requires Window(mem, t, lo, mapped) && lo <= v && v + n <= HEAP_PAGES
    ensures AllClear(mem, t, v, n)
  {
    hide Tree, Clear, Lookup;
  }

  lemma StartBelow(lo: nat, next: nat, free: seq<R.Span>, live: map<nat, R.Live>)
    requires R.Spaced(lo, next, free, live)
    ensures lo <= next
  {
  }

  /** A range that nobody claimed, once backed, is one more live range. */
  lemma Attached(mem: seq<Pte>, t: Tables, used: set<nat>, mem': seq<Pte>, t': Tables, used': set<nat>, total: nat,
                 reserved: set<nat>, lo: nat, next: nat, free: seq<R.Span>, live: map<nat, R.Live>,
                 mapped: map<nat, nat>,
                 v: nat, n: nat)
    requires Backed(mem, t, used, mem', t', used', total, v, n)
    requires Window(mem, t, lo, mapped) && Accounted(used, reserved, t, mapped)
    requires R.Spaced(lo, next, free, live) && R.Backs(live, mapped)
    requires R.Unclaimed(R.Span(v, n), free, live) && R.Within(R.Span(v, n), lo, next)
    ensures var f := Granted(used, total, n).value;
            var live', mapped' := live[v := R.Live(n, f)], mapped + R.PagesTo(v, n, f);
            && Window(mem', t', lo, mapped') && Accounted(used', reserved, t', mapped')
            && R.Spaced(lo, next, free, live') && R.Backs(live', mapped')
  {
    hide Window, Accounted, RunMapped, TablesAdded, R.Spaced, R.Backs, R.Unclaimed, Run, R.PagesTo, Granted, FreeRun;
    var f := Granted(used, total, n).value;
    WindowMapped(mem, t, mem', t', lo, mapped, v, n, f);
    R.LiveSpaced(lo, next, free, live, v, R.Live(n, f));
    R.NewPages(live, mapped, free, v, R.Live(n, f));
    AccountedAdded(used, reserved, t, mapped, total, v, n, f, t', used');
    FramesTaken(used, reserved, t, mapped, total, n, f);
    R.NewBacked(live, mapped, v, R.Live(n, f));
  }

  /** The frames from f on are behind the pages v to v + n - 1. */
  ghost predicate Behind(mem: seq<Pte>, t: Tables, v: nat, n: nat, f: nat)
  {
    AllClear(mem, t, v, n) && forall x: nat :: v <= x < v + n ==> Lookup(mem, t, x) == ToFrame(f + x - v)
  }

  lemma BehindAt(mem: seq<Pte>, t: Tables, v: nat, n: nat, f: nat, i: nat)
    requires Behind(mem, t, v, n, f) && i < n
    ensures Tree(mem, t) && Clear(mem, t, v + i) && Lookup(mem, t, v + i) == ToFrame(f + i)
  {
    hide Tree, Clear, Lookup, ToFrame;
  }

  lemma LiveWithin(lo: nat, next: nat, free: seq<R.Span>, live: map<nat, R.Live>, s: nat)
    requires R.Spaced(lo, next, free, live) && s in live
    ensures R.Within(R.SpanOf(live, s), lo, next)
  {
  }

  lemma PageBehind(mem: seq<Pte>, t: Tables, lo: nat, mapped: map<nat, nat>, live: map<nat, R.Live>, s: nat, x: nat)
    requires Window(mem, t, lo, mapped) && R.Backs(live, mapped) && s in live && R.InSpan(x, R.SpanOf(live, s))
    requires lo <= x < HEAP_PAGES
    ensures Lookup(mem, t, x) == ToFrame(live[s].frame + x - s)
  {
    hide Tree, Clear, Lookup, ToFrame;
  }

  /** The pages of a live range are mapped to the frames it owns. */
  lemma LiveBehind(mem: seq<Pte>, t: Tables, lo: nat, next: nat, free: seq<R.Span>, live: map<nat, R.Live>,
                   mapped: map<nat, nat>, s: nat)
    requires Window(mem, t, lo, mapped) && R.Spaced(lo, next, free, live) && R.Backs(live, mapped) && s in live
    requires next <= HEAP_PAGES
    ensures 0 < live[s].pages && lo <= s && s + live[s].pages <= next
    ensures AllClear(mem, t, s, live[s].pages) && Behind(mem, t, s, live[s].pages, live[s].frame)
  {
    hide Tree, Clear, Lookup, ToFrame, Window, R.Spaced, R.Backs;
    var n, f := live[s].pages, live[s].frame;
    LiveWithin(lo, next, free, live, s);
    ClearWindow(mem, t, lo, mapped, s, n);
    forall x: nat | s <= x < s + n ensures Lookup(mem, t, x) == ToFrame(f + x - s) {
      assert R.InSpan(x, R.SpanOf(live, s));
      PageBehind(mem, t, lo, mapped, live, s, x);
    }
  }

  /** The physical address of a virtual one. */
  ghost function Physical(mem: seq<Pte>, t: Tables, a: nat): Option<nat>
    requires Tree(mem, t)
  {
    var m := Translated(mem, t, a / PAGE);
    if m.None? then None else Some(PAGE * m.value.frame + a % PAGE)
  }

  /** A live range starts at the address. It has room for all the bytes of the request, with less than a page to spare,
      and they lie one after the other in the memory the range owns, where the kernel may write to them. */
  ghost predicate Serves(mem: seq<Pte>, t: Tables, live: map<nat, R.Live>, address: nat, size: nat)
  {
    && Tree(mem, t) && address % PAGE == 0 && address / PAGE in live
    && size <= PAGE * live[address / PAGE].pages < size + PAGE
    && forall a: nat :: address <= a < address + size ==>
         && Physical(mem, t, a) == Some(PAGE * live[address / PAGE].frame + (a - address))
         && KernelCanWrite(mem, t, a / PAGE)
  }

  lemma BehindServes(mem: seq<Pte>, t: Tables, live: map<nat, R.Live>, address: nat, size: U64)
    requires Tree(mem, t) && address % PAGE == 0 && address / PAGE in live
    requires PagesFor(size) == live[address / PAGE].pages && 0 < live[address / PAGE].pages
    requires Behind(mem, t, address / PAGE, live[address / PAGE].pages, live[address / PAGE].frame)
    ensures Serves(mem, t, live, address, size)
  {
    hide Tree, Clear, Lookup, PagesFor;
    PagesForIs(size);
    var s, l := address / PAGE, live[address / PAGE];
    forall a: nat | address <= a < address + size
      ensures Physical(mem, t, a) == Some(PAGE * l.frame + (a - address)) && KernelCanWrite(mem, t, a / PAGE)
    {
      PageDecidesWrite(mem, t, a / PAGE);
      assert s <= a / PAGE < s + l.pages;
      assert Clear(mem, t, a / PAGE) && Lookup(mem, t, a / PAGE) == ToFrame(l.frame + a / PAGE - s);
    }
  }

  /** The frames of a live range hold no tables and are not reserved. */
  lemma LiveFrames(used: set<nat>, reserved: set<nat>, t: Tables, total: nat, live: map<nat, R.Live>,
                   mapped: map<nat, nat>, s: nat)
    requires Accounted(used, reserved, t, mapped) && used <= Run(0, total) && R.Backs(live, mapped) && s in live
    ensures var n, f := live[s].pages, live[s].frame;
            Run(f, n) !! t.Values && 0 !in Run(f, n) && (0 < n ==> f + n <= total)
  {
    hide Run, R.PagesTo, R.Backs;
    var n, f := live[s].pages, live[s].frame;
    LivePages(live, mapped, s);
    AccountedFreed(used, reserved, t, mapped, s, n, f);
    RunIs(f, n);
    RunIs(0, total);
    assert 0 < n ==> f + n - 1 in Run(f, n);
  }

  lemma LivePages(live: map<nat, R.Live>, mapped: map<nat, nat>, s: nat)
    requires R.Backs(live, mapped) && s in live
    ensures var gone := R.PagesTo(s, live[s].pages, live[s].frame);
            gone.Keys <= mapped.Keys && (forall x :: x in gone ==> mapped[x] == gone[x]) && R.OneToOne(mapped)
  {
    var gone := R.PagesTo(s, live[s].pages, live[s].frame);
    forall x | x in gone ensures x in mapped && mapped[x] == gone[x] {
      assert R.InSpan(x, R.SpanOf(live, s));
    }
  }

  /** Without its frames and pages the range is live no more. */
  lemma Detached(mem: seq<Pte>, t: Tables, mem': seq<Pte>, used: set<nat>, reserved: set<nat>, lo: nat, next: nat,
                 free: seq<R.Span>, live: map<nat, R.Live>, mapped: map<nat, nat>, s: nat)
    requires Window(mem, t, lo, mapped) && Accounted(used, reserved, t, mapped)
    requires R.Spaced(lo, next, free, live) && R.Backs(live, mapped) && s in live
    requires RunUnmapped(mem, t, mem', s, live[s].pages)
    ensures var n, f := live[s].pages, live[s].frame;
            var live', mapped' := live - {s}, mapped - R.PagesTo(s, n, f).Keys;
            && Window(mem', t, lo, mapped') && Accounted(used - Run(f, n), reserved, t, mapped')
            && R.Spaced(lo, next, free, live') && R.Spaced(lo, next, [R.SpanOf(live, s)] + free, live')
            && R.Backs(live', mapped')
  {
    hide Window, Accounted, RunUnmapped, R.Spaced, R.Backs, Run, R.PagesTo;
    var n, f := live[s].pages, live[s].frame;
    LivePages(live, mapped, s);
    WindowUnmapped(mem, t, mem', lo, mapped, s, n, f);
    AccountedFreed(used, reserved, t, mapped, s, n, f);
    R.FreedSpaced(lo, next, free, live, s);
    R.FreedBacked(lo, next, free, live, mapped, s);
  }

  /** Carving n pages off a free range keeps all ranges apart, also if n is 0. */
  lemma CarveSpaced(lo: nat, next: nat, free: seq<R.Span>, live: map<nat, R.Live>, k: nat, n: nat)
    requires R.Spaced(lo, next, free, live) && k < |free| && n <= free[k].pages
    ensures R.Spaced(lo, next, R.Carved(free, k, n), live)
    ensures 0 < n ==> R.Unclaimed(R.Span(free[k].first, n), R.Carved(free, k, n), live)
                      && R.Within(R.Span(free[k].first, n), lo, next)
  {
    if n == 0 {
      assert R.Within(free[k], lo, next);
      assert R.Carved(free, k, 0) == free;
    } else {
      R.CarvedSpaced(lo, next, free, live, k, n);
    }
  }

  /** The i-th page after an aligned address. */
  lemma PageAt(virtual: U64, i: nat)
    requires virtual % PAGE == 0 && virtual + PAGE * i < HEAP_END
    ensures PageOf(virtual + i * PAGE) == virtual / PAGE + i && (virtual + i * PAGE) % PAGE == 0
  {
  }

  lemma LeafFrame(physical: U64, f: nat, i: nat)
    requires physical == PAGE * f && f + i < 0x10_0000
    ensures Some(Leaf(physical + i * PAGE, FLAG_WRITABLE)) == ToFrame(f + i)
  {
    assert (physical + i * PAGE) / PAGE == f + i;
  }

  lemma ClearUnmapped(mem: seq<Pte>, t: Tables, mem': seq<Pte>, v: nat, n: nat, i: nat)
    requires RunUnmapped(mem, t, mem', v, i) && AllClear(mem, t, v, n) && i < n
    ensures Clear(mem', t, v + i)
  {
    hide Tree, Clear, Lookup;
    assert Clear(mem, t, v + i);
  }

  /** No huge page lies on the way to the pages v to v + n - 1. */
  ghost predicate AllClear(mem: seq<Pte>, t: Tables, v: nat, n: nat)
  {
    Tree(mem, t) && forall x: nat :: v <= x < v + n ==> Clear(mem, t, x)
  }

  /** The first i of n pages have been mapped, and there is room for the tables of the others. */
  ghost predicate Progress(mem: seq<Pte>, t: Tables, used: set<nat>, mem': seq<Pte>, t': Tables, used': set<nat>,
                           v: nat, n: nat, i: nat, f: nat, total: nat)
  {
    && RunMapped(mem, t, mem', t', v, i, f) && AllClear(mem, t, v, n)
    && TablesAdded(t, used, t', used')
    && Fits(NeededAll(v, n), t', used', total)
  }

  lemma Beginning(mem: seq<Pte>, t: Tables, used: set<nat>, v: nat, n: nat, f: nat, total: nat)
    requires AllClear(mem, t, v, n) && t.Values <= used && Fits(NeededAll(v, n), t, used, total)
    ensures Progress(mem, t, used, mem, t, used, v, n, 0, f, total)
  {
    NothingMapped(mem, t, v, f);
    NoneAdded(t, used);
  }

  lemma BeforePage(mem: seq<Pte>, t: Tables, used: set<nat>, mem1: seq<Pte>, t1: Tables, used1: set<nat>,
                   v: nat, n: nat, i: nat, f: nat, total: nat)
    requires Progress(mem, t, used, mem1, t1, used1, v, n, i, f, total) && i < n
    ensures Tree(mem1, t1) && Clear(mem1, t1, v + i)
    ensures Fits(Needed(v + i), t1, used1, total)
  {
    hide Tree, Clear, Lookup, Needed, NeededAll, Fits;
    assert Clear(mem, t, v + i);
    NeededWithin(v, n, i);
    RoomForOne(NeededAll(v, n), Needed(v + i), t1, used1, total);
  }

  lemma AfterPage(mem: seq<Pte>, t: Tables, used: set<nat>, mem1: seq<Pte>, t1: Tables, used1: set<nat>,
                  mem2: seq<Pte>, t2: Tables, used2: set<nat>, v: nat, n: nat, i: nat, f: nat, total: nat)
    requires Progress(mem, t, used, mem1, t1, used1, v, n, i, f, total) && i < n
    requires Remapped(mem1, t1, mem2, t2, v + i, ToFrame(f + i)) && TablesAdded(t1, used1, t2, used2)
    requires t2.Keys == t1.Keys + Needed(v + i)
    ensures Progress(mem, t, used, mem2, t2, used2, v, n, i + 1, f, total)
  {
    hide Tree, Clear, Lookup, Needed, NeededAll, ToFrame, RunMapped, Remapped, TablesAdded, AllClear, Fits;
    OneMoreMapped(mem, t, mem1, t1, mem2, t2, v, i, f);
    AddedTransitive(t, used, t1, used1, t2, used2);
    NeededWithin(v, n, i);
    RoomAfter(NeededAll(v, n), Needed(v + i), t1, used1, t2, used2, total);
  }

  lemma Ending(mem: seq<Pte>, t: Tables, used: set<nat>, mem': seq<Pte>, t': Tables, used': set<nat>,
               v: nat, n: nat, f: nat, total: nat)
    requires Progress(mem, t, used, mem', t', used', v, n, n, f, total)
    ensures RunMapped(mem, t, mem', t', v, n, f) && TablesAdded(t, used, t', used')
  {
  }

  lemma LessRun(used: set<nat>, f: nat, i: nat, n: nat, kept: set<nat>)
    requires i < n
    ensures used - Run(f, i) - {f + i} == used - Run(f, i + 1)
    ensures kept !! Run(f, n) ==> kept !! Run(f, i + 1)
    ensures Run(f, i + 1) <= Run(f, n)
  {
    RunIs(f, n);
    RunIs(f, i);
  }

  lemma InRun(f: nat, n: nat, i: nat)
    requires i < n
    ensures f + i in Run(f, n)
  {
    RunIs(f, n);
  }

  lemma AccountedFirst(mem: seq<Pte>, t: Tables, root: nat, used: set<nat>, total: nat)
    requires Placed(mem, t, root, used, total)
    ensures Accounted(used, used - t.Values, t, map[])
  {
    hide Tree;
    var none: map<nat, nat> := map[];
    assert none.Values == {};
  }

  // ----- conservation

  /** The pages of live ranges are determined by the ranges. */
  lemma BacksUnique(live: map<nat, R.Live>, mapped: map<nat, nat>, mapped': map<nat, nat>)
    requires R.Backs(live, mapped) && R.Backs(live, mapped')
    ensures mapped == mapped'
  {
    hide R.Backs;
    forall x: nat | x in mapped ensures x in mapped' && mapped'[x] == mapped[x] {
      BackedPage(live, mapped, mapped', x);
    }
    forall x: nat | x in mapped' ensures x in mapped {
      BackedPage(live, mapped', mapped, x);
    }
  }

  lemma BackedPage(live: map<nat, R.Live>, mapped: map<nat, nat>, mapped': map<nat, nat>, x: nat)
    requires R.Backs(live, mapped) && R.Backs(live, mapped') && x in mapped
    ensures x in mapped' && mapped'[x] == mapped[x]
  {
    hide R.OneToOne;
    var s :| s in live && R.InSpan(x, R.SpanOf(live, s));
  }

  /** Frames in use are the reserved ones, one for each table and one for each live page. */
  lemma UsedCount(mem: seq<Pte>, used: set<nat>, reserved: set<nat>, t: Tables, mapped: map<nat, nat>)
    requires Accounted(used, reserved, t, mapped) && R.OneToOne(mapped) && Tree(mem, t)
    ensures |used| == |reserved| + |t.Keys| + |mapped.Keys|
  {
    hide Tree;
    TablesDiffer(mem, t);
    TableCount(t, t.Keys);
    PageCount(mapped, mapped.Keys);
    assert (set k | k in t.Keys :: t[k]) == t.Values;
    assert (set x | x in mapped.Keys :: mapped[x]) == mapped.Values;
    assert used == (reserved + t.Values) + mapped.Values;
  }

  lemma TablesDiffer(mem: seq<Pte>, t: Tables)
    requires Tree(mem, t)
    ensures forall j, k :: j in t && k in t && t[j] == t[k] ==> j == k
  {
  }

  lemma {:induction false} TableCount(t: Tables, keys: set<Node>)
    requires keys <= t.Keys && forall j, k :: j in t && k in t && t[j] == t[k] ==> j == k
    ensures |set k | k in keys :: t[k]| == |keys|
    decreases |keys|
  {
    var values := set k | k in keys :: t[k];
    if keys == {} {
      assert values == {};
    } else {
      var k :| k in keys;
      TableCount(t, keys - {k});
      var rest := set j | j in keys - {k} :: t[j];
      assert values == rest + {t[k]};
    }
  }

  lemma {:induction false} PageCount(mapped: map<nat, nat>, keys: set<nat>)
    requires keys <= mapped.Keys && R.OneToOne(mapped)
    ensures |set x | x in keys :: mapped[x]| == |keys|
    decreases |keys|
  {
    var values := set x | x in keys :: mapped[x];
    if keys == {} {
      assert values == {};
    } else {
      var x :| x in keys;
      PageCount(mapped, keys - {x});
      var rest := set y | y in keys - {x} :: mapped[y];
      assert values == rest + {mapped[x]};
    }
  }

  /** With the same live ranges, the frames in use differ only by the tables that were made in between. */
  lemma OnlyTablesRemain(used: set<nat>, used': set<nat>, reserved: set<nat>, t: Tables, t': Tables,
                         live: map<nat, R.Live>, mapped: map<nat, nat>, mapped': map<nat, nat>)
    requires Accounted(used, reserved, t, mapped) && Accounted(used', reserved, t', mapped')
    requires R.Backs(live, mapped) && R.Backs(live, mapped')
    ensures used' == used - t.Values + t'.Values
  {
    hide R.Backs;
    BacksUnique(live, mapped, mapped');
  }

  /** Allocating and freeing again: only tables made on the way stay behind, also if there were no frames. */
  method AllocateAndFree(heap: Heap, size: U64) returns (address: U64)
    requires heap.Valid() && heap.TablesFit(PagesFor(size))
    modifies heap, heap.pool, heap.space.ram, heap.space.frames`used, heap.space.frames.bitmap, heap.space`tables
    ensures heap.Valid() && heap.live == old(heap.live)
    ensures heap.space.frames.Used()
            == old(heap.space.frames.Used()) - old(heap.space.tables.Values) + heap.space.tables.Values
  {
    hide Placed, Frames, Run, R.Spaced, R.Backs, R.Linked, Window, Accounted, R.FirstFit, Granted, Allocated, Place,
         R.Spans;
    ghost var live, used, t, mapped := heap.live, heap.space.frames.Used(), heap.space.tables, heap.mapped;
    ghost var free, next, n := heap.Free(), heap.next, PagesFor(size);
    NotLive(heap.start / PAGE, next / PAGE, free, live, n);
    address := heap.Kmalloc(size);
    AllocatedLive(n, free, next, live, t, Granted(used, heap.space.frames.total, n),
                  address, heap.Free(), heap.next, heap.live, heap.space.tables);
    heap.Kfree(address, size);
    OnlyTablesRemain(used, heap.space.frames.Used(), heap.reserved, t, heap.space.tables, live, mapped, heap.mapped);
  }

  lemma AllocatedLive(n: nat, free: seq<R.Span>, next: U64, live: map<nat, R.Live>, t: Tables, frame: Option<nat>,
                      address: U64, free': seq<R.Span>, next': U64, live': map<nat, R.Live>, t': Tables)
    requires Allocated(n, free, next, live, t, frame, address, free', next', live', t')
    requires Place(free, next / PAGE, n).Some? ==> Place(free, next / PAGE, n).value !in live
    ensures if address == 0 then live' == live
            else address % PAGE == 0 && address / PAGE in live'
                 && live'[address / PAGE].pages == n && live' - {address / PAGE} == live
  {
  }

  /** The place found for a request is not the start of a live range. */
  lemma NotLive(lo: nat, next: nat, free: seq<R.Span>, live: map<nat, R.Live>, n: nat)
    requires R.Spaced(lo, next, free, live)
    ensures var place := Place(free, next, n); place.Some? ==> place.value !in live
  {
    var fit := R.FirstFit(free, n);
    if fit.Some? {
      R.SomePages(lo, next, free, live, fit.value);
      if free[fit.value].first in live {
        R.LivePagesSome(lo, next, free, live, free[fit.value].first);
        R.SameStart(free[fit.value], R.SpanOf(live, free[fit.value].first));
      }
    } else if next in live {
      LiveBelow(lo, next, free, live, next);
    }
  }

  lemma LiveBelow(lo: nat, next: nat, free: seq<R.Span>, live: map<nat, R.Live>, s: nat)
    requires R.Spaced(lo, next, free, live) && s in live
    ensures s < next
  {
    assert R.Within(R.SpanOf(live, s), lo, next);
  }

  // ----- boot

  /** Above the huge pages nothing is mapped at boot. */
  lemma BootedWindow(mem: seq<Pte>, t: Tables, lo: nat)
    requires Booted(mem, t) && HUGE_PAGES * ENTRIES <= lo
    ensures Window(mem, t, lo, map[])
  {
    hide Tree, Clear, Lookup;
  }

  /** Sets up paging and a heap that starts above the huge pages. */
  method Boot(frames: FrameAllocator, ram: array<Pte>, start: U64, pool: array<R.Node>) returns (heap: Heap)
    requires frames.Valid() && ram as object != frames.bitmap && ram.Length == ENTRIES * frames.total
    requires 0 in frames.Used() && |frames.Used()| + 3 <= frames.total
    requires start % PAGE == 0 && HUGE_PAGES * ENTRIES <= start / PAGE && start <= HEAP_END
    requires pool.Length == MAX_FREE_REGIONS && ram as object != pool && frames.bitmap as object != pool
    modifies ram, frames`used, frames.bitmap
    ensures heap.Valid() && fresh(heap) && heap.space.frames == frames && heap.start == start == heap.next
    ensures heap.live == map[] && heap.Free() == [] && heap.reserved == old(frames.Used())
    ensures forall x: nat :: x < HUGE_PAGES * ENTRIES ==>
              Translated(heap.space.ram[..], heap.space.tables, x) == Some(Mapping(x, true, false))
  {
    hide Tree, Clear, Lookup, Frames, Window, Accounted, Booted, Identity, Translated, R.Linked, R.Spaced, R.Backs,
         NodeOk;
    var space := new AddressSpace(frames, ram);
    BootedWindow(ram[..], space.tables, start / PAGE);
    heap := new Heap(space, start, pool);
    BootReserved(old(frames.Used()), space.tables);
    forall x: nat | x < HUGE_PAGES * ENTRIES
      ensures Translated(ram[..], space.tables, x) == Some(Mapping(x, true, false))
    {
      IdentityMapped(ram[..], space.tables, x);
    }
  }

  lemma BootReserved(used: set<nat>, t: Tables)
    requires t.Keys == {Node(4, 0), Node(3, 0), Node(2, 0)} && forall k :: k in t ==> t[k] !in used
    ensures used + {t[Node(4, 0)], t[Node(3, 0)], t[Node(2, 0)]} - t.Values == used
  {
    forall v | v in t.Values
      ensures v !in used
    {
      var k :| k in t && t[k] == v;
    }
    assert t[Node(4, 0)] in t.Values && t[Node(3, 0)] in t.Values && t[Node(2, 0)] in t.Values;
  }
}
