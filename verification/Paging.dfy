/** Mapping pages: the tables are walked and extended in place. */
module Paging {
  import opened Bytes
  import opened PhysicalMemory
  import opened PageTree

  const FLAG_WRITABLE := 2
  const FLAG_USER := 4

  /** Bit `mask` of the flags. */
  predicate HasFlag(flags: U64, mask: nat)
    requires 0 < mask
  {
    flags / mask % 2 == 1
  }

  /** What a page is mapped to by an entry for a physical address; the entry holds 40 bits of the frame. */
  function Leaf(physical: U64, flags: U64): (m: Mapping)
    ensures m.frame < 0x100_0000_0000
  {
    Mapping(physical / PAGE % 0x100_0000_0000, HasFlag(flags, FLAG_WRITABLE), HasFlag(flags, FLAG_USER))
  }

  /** The frame is the one the address lies in, as far as the field of 40 bits reaches, which is exactly for
      addresses below 2^52; the rights are bits 1 and 2 of the flags. */
  lemma LeafIs(physical: U64, high: nat, user: nat, writable: nat, present: nat)
    requires 8 * high + 7 <= U64_MAX && user < 2 && writable < 2 && present < 2
    ensures var m := Leaf(physical, 8 * high + 4 * user + 2 * writable + present);
            && (m.rw <==> writable == 1) && (m.user <==> user == 1)
            && (PAGE * m.frame <= physical < PAGE * m.frame + PAGE <==> physical < 0x10_0000_0000_0000)
            && (physical - PAGE * m.frame) % 0x10_0000_0000_0000 < PAGE
  {
  }

  /** How many pages of 2 MB are mapped at start. */
  const HUGE_PAGES := 16

  /** The page number of an address. */
  function PageOf(address: U64): (x: nat)
    ensures x < PAGES
  {
    address / PAGE % PAGES
  }

  /** The index of an address in tables of a level, cut out of the address as the index macros do. */
  function IndexOf(address: U64, level: nat): nat
    requires 1 <= level <= 4
  {
    if level == 4 then address / 0x80_0000_0000 % ENTRIES
    else if level == 3 then address / 0x4000_0000 % ENTRIES
    else if level == 2 then address / 0x20_0000 % ENTRIES
    else address / 0x1000 % ENTRIES
  }

  lemma Digits(p: nat)
    ensures var x := p % PAGES;
            && p % ENTRIES == x % ENTRIES
            && p / ENTRIES % ENTRIES == x / ENTRIES % ENTRIES
            && p / ENTRIES / ENTRIES % ENTRIES == x / ENTRIES / ENTRIES % ENTRIES
            && p / ENTRIES / ENTRIES / ENTRIES % ENTRIES == x / ENTRIES / ENTRIES / ENTRIES % ENTRIES
  {
    var x, q := p % PAGES, p / PAGES;
    assert p == PAGES * q + x;
    Digit(p, 0x800_0000 * q, x);
    Digit(p / ENTRIES, 0x4_0000 * q, x / ENTRIES);
    Digit(p / ENTRIES / ENTRIES, ENTRIES * q, x / ENTRIES / ENTRIES);
    Digit(p / ENTRIES / ENTRIES / ENTRIES, q, x / ENTRIES / ENTRIES / ENTRIES);
  }

  lemma Digit(p: nat, a: nat, x: nat)
    requires p == ENTRIES * a + x
    ensures p / ENTRIES == a + x / ENTRIES && p % ENTRIES == x % ENTRIES
  {
  }

  lemma Shift21(a: nat)
    ensures a / 0x20_0000 == a / 0x1000 / ENTRIES
  {
  }

  lemma Shift30(a: nat)
    ensures a / 0x4000_0000 == a / 0x20_0000 / ENTRIES
  {
  }

  lemma Shift39(a: nat)
    ensures a / 0x80_0000_0000 == a / 0x4000_0000 / ENTRIES
  {
  }

  lemma Prefixes(x: nat)
    ensures Prefix(x, 0) == x && Prefix(x, 1) == x / ENTRIES && Prefix(x, 2) == x / ENTRIES / ENTRIES
    ensures Prefix(x, 3) == x / ENTRIES / ENTRIES / ENTRIES
  {
    assert Prefix(x, 1) == x / ENTRIES;
    assert Prefix(x, 2) == x / ENTRIES / ENTRIES;
  }

  /** The index macros cut out the digits of the page number. */
  lemma IndexOfIs(address: U64, level: nat)
    requires 1 <= level <= 4
    ensures IndexOf(address, level) == Index(PageOf(address), level)
  {
    var p := address / PAGE;
    var x := PageOf(address);
    Shift21(address);
    Shift30(address);
    Shift39(address);
    Digits(p);
    Prefixes(x);
    hide Prefix;
  }

  /** The tables a page needs. */
  function Needed(x: nat): set<Node>
  {
    {TableOf(x, 1), TableOf(x, 2), TableOf(x, 3)}
  }

  /** There are free frames for the tables that are needed and not there yet. */
  ghost predicate Fits(needed: set<Node>, t: Tables, used: set<nat>, total: nat)
  {
    |needed - t.Keys| + |used| <= total
  }

  /** Every page without a huge page on its way is mapped as before, and every table and huge page is where it was. */
  ghost predicate Grown(mem: seq<Pte>, t: Tables, mem': seq<Pte>, t': Tables)
  {
    && Tree(mem, t) && Tree(mem', t')
    && (forall k :: k in t ==> k in t' && t'[k] == t[k])
    && (forall x :: Clear(mem, t, x) ==> Clear(mem', t', x) && Lookup(mem', t', x) == Lookup(mem, t, x))
    && UpperKept(mem, t, mem', t')
  }

  lemma GrownTransitive(mem1: seq<Pte>, t1: Tables, mem2: seq<Pte>, t2: Tables, mem3: seq<Pte>, t3: Tables)
    requires Grown(mem1, t1, mem2, t2) && Grown(mem2, t2, mem3, t3)
    ensures Grown(mem1, t1, mem3, t3)
  {
    hide Tree, Clear, Lookup;
  }

  /** After `v` was mapped to m, or unmapped, it alone is mapped differently. */
  ghost predicate Remapped(mem: seq<Pte>, t: Tables, mem': seq<Pte>, t': Tables, v: nat, m: Option<Mapping>)
  {
    && Tree(mem, t) && Tree(mem', t')
    && (forall k :: k in t ==> k in t' && t'[k] == t[k])
    && (forall x :: Clear(mem, t, x) ==>
          Clear(mem', t', x) && Lookup(mem', t', x) == if x == v then m else Lookup(mem, t, x))
    && UpperKept(mem, t, mem', t')
  }

  /** All pages but n from v on are translated as before, whether through tables or through huge pages, and programs
      have the rights to them that they had before. */
  ghost predicate KeptBut(mem: seq<Pte>, t: Tables, mem': seq<Pte>, t': Tables, v: nat, n: nat)
  {
    && Tree(mem, t) && Tree(mem', t')
    && forall x: nat :: !(v <= x < v + n) ==>
         Translated(mem', t', x) == Translated(mem, t, x) && UserCan(mem', t', x) == UserCan(mem, t, x)
  }

  /** Growing the tables changes no translation. */
  lemma GrownTranslates(mem: seq<Pte>, t: Tables, mem': seq<Pte>, t': Tables)
    requires Grown(mem, t, mem', t')
    ensures KeptBut(mem, t, mem', t', 0, 0)
  {
    hide Tree, Clear, Lookup, UpperKept, HugeLeaf, UserCan;
    forall x: nat
      ensures Translated(mem', t', x) == Translated(mem, t, x)
    {
      if !Clear(mem, t, x) {
        TranslatedKept(mem, t, mem', t', x);
      }
    }
    RightsKeptBut(mem, t, mem', t', 0, 0);
  }

  /** Remapping a page changes the translation of no other page. */
  lemma RemappedTranslates(mem: seq<Pte>, t: Tables, mem': seq<Pte>, t': Tables, v: nat, m: Option<Mapping>)
    requires Remapped(mem, t, mem', t', v, m)
    ensures KeptBut(mem, t, mem', t', v, 1)
    ensures Clear(mem, t, v) ==> Clear(mem', t', v) && Translated(mem', t', v) == m
  {
    hide Tree, Clear, Lookup, UpperKept, HugeLeaf, UserCan;
    forall x: nat | x != v
      ensures Translated(mem', t', x) == Translated(mem, t, x)
    {
      if !Clear(mem, t, x) {
        TranslatedKept(mem, t, mem', t', x);
      }
    }
    RightsKeptBut(mem, t, mem', t', v, 1);
  }

  lemma RightsKeptBut(mem: seq<Pte>, t: Tables, mem': seq<Pte>, t': Tables, v: nat, n: nat)
    requires Tree(mem, t) && Tree(mem', t') && UpperKept(mem, t, mem', t')
    requires forall x: nat :: !(v <= x < v + n) ==> Translated(mem', t', x) == Translated(mem, t, x)
    ensures KeptBut(mem, t, mem', t', v, n)
  {
    hide Tree, Translated, UpperKept, UserCan;
    forall x: nat | !(v <= x < v + n)
      ensures UserCan(mem', t', x) == UserCan(mem, t, x)
    {
      RightsKept(mem, t, mem', t', x);
    }
  }

  lemma LeafRemapped(mem: seq<Pte>, t: Tables, v: nat, e: Pte)
    requires Tree(mem, t) && TableOf(v, 1) in t && NodeOk(mem, t, TableOf(v, 1))
    ensures Remapped(mem, t, WithEntry(mem, t[TableOf(v, 1)], Index(v, 1), e), t, v,
                     if e.present then Some(Mapping(e.frame, e.rw, e.user)) else None)
  {
    hide Tree, Clear, Lookup, WithEntry, UpperKept;
    LeafTree(mem, t, TableOf(v, 1), Index(v, 1), e);
    LeafKeepsUpper(mem, t, TableOf(v, 1), Index(v, 1), e);
    forall x | Clear(mem, t, x)
      ensures var mem' := WithEntry(mem, t[TableOf(v, 1)], Index(v, 1), e);
              && Clear(mem', t, x)
              && Lookup(mem', t, x) ==
                 if x == v then (if e.present then Some(Mapping(e.frame, e.rw, e.user)) else None)
                 else Lookup(mem, t, x)
    {
      LeafLookup(mem, t, v, e, x);
    }
  }

  lemma GrownRemapped(mem1: seq<Pte>, t1: Tables, mem2: seq<Pte>, t2: Tables, mem3: seq<Pte>, t3: Tables,
                      v: nat, m: Option<Mapping>)
    requires Grown(mem1, t1, mem2, t2) && Remapped(mem2, t2, mem3, t3, v, m)
    ensures Remapped(mem1, t1, mem3, t3, v, m)
  {
    hide Tree, Clear, Lookup;
  }

  lemma NewTableGrown(mem: seq<Pte>, t: Tables, k: Node, i: nat, c: Frame, user: bool)
    requires Hangs(mem, t, k, i, c)
    ensures Child(k, i) !in t && Grown(mem, t, WithTable(mem, t[k], i, c, user), t[Child(k, i) := c])
  {
    hide Tree, Clear, Lookup, WithTable, UpperKept;
    NewTree(mem, t, k, i, c, user);
    NewTableKeepsUpper(mem, t, k, i, c, user);
    var mem', t' := WithTable(mem, t[k], i, c, user), t[Child(k, i) := c];
    forall x | Clear(mem, t, x)
      ensures Clear(mem', t', x) && Lookup(mem', t', x) == Lookup(mem, t, x)
    {
      NewTableKeeps(mem, t, k, i, c, user, x);
    }
  }

  lemma FrameCount(used: set<nat>, f: nat)
    requires f !in used
    ensures |used + {f}| == |used| + 1
  {
  }

  /** A frame can be had while some are free. */
  lemma SomeFrame(used: set<nat>, total: nat)
    requires |used| < total
    ensures Granted(used, total, 1).Some?
    ensures Granted(used, total, 1).value < total && Granted(used, total, 1).value !in used
  {
    RunIs(0, total);
    if Run(0, total) <= used {
      SubsetSize(Run(0, total), used);
    }
    var f :| f in Run(0, total) && f !in used;
    FirstRunLowest(used, total, 1, 0, f);
    assert FreeRun(used, total, Granted(used, total, 1).value, 1);
  }

  /** The tables lie in frames in use, and frame 0 is in use too. */
  ghost predicate Placed(mem: seq<Pte>, t: Tables, root: nat, used: set<nat>, total: nat)
  {
    && |mem| == ENTRIES * total && Tree(mem, t) && t[Node(4, 0)] == root
    && t.Values <= used && 0 in used && 0 !in t.Values
  }

  /** A free frame can become a new table. */
  lemma TablePlaced(mem: seq<Pte>, t: Tables, root: nat, used: set<nat>, total: nat, k: Node, i: nat, c: nat,
                    user: bool)
    requires Placed(mem, t, root, used, total) && total < 0x10_0000 && c < total && c !in used
    requires k in t && 2 <= k.level && i < ENTRIES && NodeOk(mem, t, k) && !mem[ENTRIES * t[k] + i].present
    ensures Child(k, i) !in t && Hangs(mem, t, k, i, c)
    ensures var mem', t' := WithTable(mem, t[k], i, c, user), t[Child(k, i) := c];
            Placed(mem', t', root, used + {c}, total) && Grown(mem, t, mem', t')
  {
    hide Tree, Clear, Lookup, WithTable, Grown;
    NewTableGrown(mem, t, k, i, c, user);
    GrownTrees(mem, t, WithTable(mem, t[k], i, c, user), t[Child(k, i) := c]);
    NewValues(t, Child(k, i), c);
    EntryLeads(mem, t, k, i);
  }

  lemma GrownTrees(mem: seq<Pte>, t: Tables, mem': seq<Pte>, t': Tables)
    requires Grown(mem, t, mem', t')
    ensures Tree(mem', t') && forall k :: k in t ==> k in t' && t'[k] == t[k]
  {
  }

  lemma NewValues(t: Tables, k: Node, c: nat)
    ensures t[k := c].Values <= t.Values + {c} && c in t[k := c].Values
  {
    assert t[k := c][k] == c;
    forall v | v in t[k := c].Values ensures v in t.Values + {c} {
      var j :| j in t[k := c] && t[k := c][j] == v;
      if j != k {
        assert t[j] == v;
      }
    }
  }

  lemma GrownSame(mem: seq<Pte>, t: Tables)
    requires Tree(mem, t)
    ensures Grown(mem, t, mem, t)
  {
    hide Tree, Clear, Lookup;
  }

  class AddressSpace {
    const frames: FrameAllocator
    const ram: array<Pte>
    const root: nat
    ghost var tables: Tables

    /** The tables form a tree in frames of their own. */
    ghost predicate Sound()
      reads this, ram, frames, frames.bitmap
    {
      frames.Valid() && ram as object != frames.bitmap && Placed(ram[..], tables, root, frames.Used(), frames.total)
    }

    /** And the first 32 MB lie under huge pages, as since boot. */
    ghost predicate Valid()
      reads this, ram, frames, frames.bitmap
    {
      Sound() && Identity(ram[..], tables)
    }

    /** Sets up the tables with the first 32 MB mapped by huge pages, and enters a mapping for the VGA buffer, which
        lies under them: it lands in frame 0 and maps nothing. */
    constructor (frames: FrameAllocator, ram: array<Pte>)
      requires frames.Valid() && ram as object != frames.bitmap && ram.Length == ENTRIES * frames.total
               && 0 in frames.Used()
      requires |frames.Used()| + 3 <= frames.total
      modifies ram, frames`used, frames.bitmap
      ensures Valid() && this.frames == frames && this.ram == ram
      ensures tables.Keys == {Node(4, 0), Node(3, 0), Node(2, 0)}
      ensures frames.Used() == old(frames.Used()) + {tables[Node(4, 0)], tables[Node(3, 0)], tables[Node(2, 0)]}
      ensures forall k :: k in tables ==> tables[k] !in old(frames.Used())
      ensures Booted(ram[..], tables)
    {
      hide Tree, Clear, Lookup, Grown, Blanked, AllBlank, Granted, NodeOk, Booted, Frames, Identity, KeptBut,
           TablesAdded, Fits;
      SomeFrame(frames.Used(), frames.total);
      var page := frames.AllocPage();
      this.frames, this.ram, root := frames, ram, page / PAGE;
      tables := map[Node(4, 0) := page / PAGE];
      new;
      RootTree(ram[..], root);
      ClearFrame(root);
      FrameCount(old(frames.Used()), root);
      BootTables();
      ghost var mem := ram[..];
      VgaUnderHuge(mem, tables, frames.total);
      MapPage(0xB_8000, 0xB_8000, FLAG_WRITABLE);
      StillBooted(mem, tables, ram[..], tables);
    }

    /** Adds the first table of each lower level but the last, and the huge pages. */
    method BootTables()
      requires Sound() && AllBlank(ram[..], tables) && tables.Keys == {Node(4, 0)}
               && |frames.Used()| + 2 <= frames.total
      modifies ram, frames`used, frames.bitmap, this`tables
      ensures Valid() && Booted(ram[..], tables) && tables.Keys == {Node(4, 0), Node(3, 0), Node(2, 0)}
      ensures frames.Used() == old(frames.Used()) + {tables[Node(3, 0)], tables[Node(2, 0)]}
      ensures tables[Node(3, 0)] !in old(frames.Used()) && tables[Node(2, 0)] !in old(frames.Used())
      ensures tables[Node(4, 0)] == root
    {
      hide Tree, Clear, Lookup, Grown, Blanked, AllBlank, Booted, Frames, Identity, Entry, WayOpen, Prefix;
      BlankEntry(ram[..], tables, 4);
      ghost var mem, t := ram[..], tables;
      var pdp := EnsureTable(root, 0, 0, Node(4, 0));
      FrameCount(old(frames.Used()), pdp);
      StillBlank(mem, t, ram[..], tables);
      assert LowClosed(ram[..], tables);
      BlankEntry(ram[..], tables, 3);
      mem, t := ram[..], tables;
      var pd := EnsureTable(pdp, 0, 0, Node(3, 0));
      GrownTrees(mem, t, ram[..], tables);
      StillBlank(mem, t, ram[..], tables);
      GrownClosed(mem, t, ram[..], tables);
      BlankTable(ram[..], tables);
      MapHuge(pd);
      BootedIdentity(ram[..], tables);
    }

    /** memset(frame, 0, 4096) */
    method ClearFrame(f: nat)
      requires ENTRIES * f + ENTRIES <= ram.Length
      modifies ram
      ensures ram[..] == Blanked(old(ram[..]), f)
    {
      hide Blanked;
      for i := 0 to ENTRIES
        invariant forall s :: 0 <= s < ram.Length ==>
                    ram[s] == if ENTRIES * f <= s < ENTRIES * f + i then NO_ENTRY else old(ram[s])
      {
        ram[ENTRIES * f + i] := NO_ENTRY;
      }
      forall s | 0 <= s < ram.Length
        ensures ram[s] == Blanked(old(ram[..]), f)[s]
      {
        BlankedAt(old(ram[..]), f, s);
      }
    }

    /** Hangs a new, empty table below entry i of the table in frame f. */
    method AddTable(f: nat, i: nat, flags: U64, ghost k: Node)
      requires Sound() && k in tables && tables[k] == f && 2 <= k.level && i < ENTRIES
      requires NodeOk(ram[..], tables, k) && !ram[ENTRIES * f + i].present
      requires |frames.Used()| < frames.total
      modifies ram, frames`used, frames.bitmap, this`tables
      ensures Sound() && Grown(old(ram[..]), old(tables), ram[..], tables)
      ensures Child(k, i) !in old(tables) && tables.Keys == old(tables.Keys) + {Child(k, i)}
      ensures frames.Used() == old(frames.Used()) + {tables[Child(k, i)]} && tables[Child(k, i)] !in old(frames.Used())
      ensures NodeOk(ram[..], tables, k) && ram[ENTRIES * f + i].frame == tables[Child(k, i)]
      ensures var e := Entry(ram[..], tables, k, i); e.present && e.user == HasFlag(flags, FLAG_USER)
      ensures forall x :: WayOpen(ram[..], tables, x) <==>
                old(WayOpen(ram[..], tables, x))
                && (HasFlag(flags, FLAG_USER) || TableOf(x, k.level - 1) != Child(k, i))
    {
      hide Tree, Clear, Lookup, Blanked, Granted, FirstRun, Grown, Frames, WayOpen, Prefix;
      ghost var mem, t, used := ram[..], tables, frames.Used();
      var user := HasFlag(flags, FLAG_USER);
      SomeFrame(frames.Used(), frames.total);
      var page := frames.AllocPage();
      var c: nat := page / PAGE;
      TablePlaced(mem, t, root, used, frames.total, k, i, c, user);
      ClearFrame(c);
      ram[ENTRIES * f + i] := ram[ENTRIES * f + i].(present := true, rw := true, user := user, frame := c);
      tables := tables[Child(k, i) := c];
      assert ram[..] == WithTable(mem, f, i, c, user);
      NewNodes(mem, t, k, i, c, user, k);
      forall x
        ensures WayOpen(ram[..], tables, x) <==> WayOpen(mem, t, x) && (user || TableOf(x, k.level - 1) != Child(k, i))
      {
        NewTableOpen(mem, t, k, i, c, user, x);
      }
    }

    /** Makes sure entry i of the table in frame f leads somewhere, and returns the frame it leads to. The huge-page
        bit is not looked at. */
    method EnsureTable(f: nat, i: nat, flags: U64, ghost k: Node) returns (child: nat)
      requires Sound() && k in tables && tables[k] == f && 2 <= k.level && i < ENTRIES
      requires NodeOk(ram[..], tables, k)
      requires ram[ENTRIES * f + i].present || |frames.Used()| < frames.total
      modifies ram, frames`used, frames.bitmap, this`tables
      ensures Sound()
      ensures old(ram[ENTRIES * f + i].present) ==>
                ram[..] == old(ram[..]) && tables == old(tables) && frames.Used() == old(frames.Used())
                && child == old(ram[ENTRIES * f + i].frame)
      ensures !old(ram[ENTRIES * f + i].huge) ==>
                && Grown(old(ram[..]), old(tables), ram[..], tables)
                && tables.Keys == old(tables.Keys) + {Child(k, i)} && child == tables[Child(k, i)]
                && frames.Used() == old(frames.Used()) + {child}
                && (Child(k, i) !in old(tables) ==> child !in old(frames.Used()))
                && (forall x :: WayOpen(ram[..], tables, x) <==>
                      old(WayOpen(ram[..], tables, x))
                      && (HasFlag(flags, FLAG_USER) || Child(k, i) in old(tables)
                          || TableOf(x, k.level - 1) != Child(k, i)))
      ensures !old(ram[ENTRIES * f + i].present) ==>
                var e := Entry(ram[..], tables, k, i); e.present && e.user == HasFlag(flags, FLAG_USER)
    {
      hide Tree, Clear, Lookup, Grown, Frames, WayOpen, Prefix;
      EntryLeads(ram[..], tables, k, i);
      GrownSame(ram[..], tables);
      if !ram[ENTRIES * f + i].present {
        AddTable(f, i, flags, k);
      }
      child := ram[ENTRIES * f + i].frame;
      assert Child(k, i) in tables ==> tables[Child(k, i)] in tables.Values;
    }

    /** Maps a page, making the tables it needs. A page under a huge page is not mapped: its entry is written into
        the first frame of the huge page, which does no harm as long as that frame holds no table. */
    method MapPage(virtual: U64, physical: U64, flags: U64)
      requires Valid()
      requires Clear(ram[..], tables, PageOf(virtual)) ==>
                 Fits(Needed(PageOf(virtual)), tables, frames.Used(), frames.total)
      requires !Clear(ram[..], tables, PageOf(virtual)) ==> StrayFrame(PageOf(virtual)) < frames.total
      modifies ram, frames`used, frames.bitmap, this`tables
      ensures old(Clear(ram[..], tables, PageOf(virtual))) ==>
                && Valid() && tables.Keys == old(tables.Keys) + Needed(PageOf(virtual))
                && TablesAdded(old(tables), old(frames.Used()), tables, frames.Used())
                && Remapped(old(ram[..]), old(tables), ram[..], tables, PageOf(virtual), Some(Leaf(physical, flags)))
                && KeptBut(old(ram[..]), old(tables), ram[..], tables, PageOf(virtual), 1)
      ensures old(Clear(ram[..], tables, PageOf(virtual))) ==>
                var x := PageOf(virtual);
                && (UserCan(ram[..], tables, x) <==> HasFlag(flags, FLAG_USER) && old(WayOpen(ram[..], tables, x)))
                && (WayOpen(ram[..], tables, x) <==>
                      old(WayOpen(ram[..], tables, x))
                      && (HasFlag(flags, FLAG_USER) || TableOf(x, 1) in old(tables)))
      ensures !old(Clear(ram[..], tables, PageOf(virtual))) ==>
                var x := PageOf(virtual);
                && tables == old(tables) && frames.Used() == old(frames.Used())
                && Strayed(old(ram[..]), tables, ram[..], x,
                           WithLeaf(StrayEntry(old(ram[..]), x), Leaf(physical, flags)))
                && (StrayFrame(x) !in tables.Values ==> Valid())
    {
      hide Tree, Clear, Lookup, Grown, Frames, Index, Prefix, IndexOf, Remapped, TablesAdded, Needed, Fits, Identity;
      hide KeptBut, Leaf, WithLeaf, WithEntry, Strayed, WayOpen, Translated;
      ghost var x, mem, t := PageOf(virtual), ram[..], tables;
      var pt := ReachTable(virtual, flags);
      ghost var mem1 := ram[..];
      SetLeaf(pt, virtual, physical, flags);
      if Clear(mem, t, x) {
        LeafRemapped(mem1, tables, x, WithLeaf(mem1[ENTRIES * pt + Index(x, 1)], Leaf(physical, flags)));
        LeafWay(mem1, tables, x, WithLeaf(mem1[ENTRIES * pt + Index(x, 1)], Leaf(physical, flags)), x);
        LeafPut(mem1[ENTRIES * pt + Index(x, 1)], Leaf(physical, flags));
        LeafUser(physical, flags);
        GrownRemapped(mem, t, mem1, tables, ram[..], tables, x, Some(Leaf(physical, flags)));
        RemappedTree(mem, t, ram[..], tables, x, Some(Leaf(physical, flags)));
        RemappedTranslates(mem, t, ram[..], tables, x, Some(Leaf(physical, flags)));
        IdentityRemapped(mem, t, ram[..], tables, x, Some(Leaf(physical, flags)));
      } else {
        Straying(mem, t, x, WithLeaf(StrayEntry(mem, x), Leaf(physical, flags)));
      }
    }

    /** Sets an entry of a table. */
    method SetLeaf(pt: nat, virtual: U64, physical: U64, flags: U64)
      requires ENTRIES * pt + ENTRIES <= ram.Length
      modifies ram
      ensures var i := Index(PageOf(virtual), 1);
              ram[..] == WithEntry(old(ram[..]), pt, i, WithLeaf(old(ram[..])[ENTRIES * pt + i], Leaf(physical, flags)))
    {
      hide Index;
      var i := IndexOf(virtual, 1);
      IndexOfIs(virtual, 1);
      ram[ENTRIES * pt + i] := ram[ENTRIES * pt + i].(present := true, rw := HasFlag(flags, FLAG_WRITABLE),
                                                      user := HasFlag(flags, FLAG_USER),
                                                      frame := physical / PAGE % 0x100_0000_0000);
    }

    /** Walks down to where the lowest table of a page should be, making the tables that are missing. */
    method ReachTable(virtual: U64, flags: U64) returns (pt: nat)
      requires Valid()
      requires Clear(ram[..], tables, PageOf(virtual)) ==>
                 Fits(Needed(PageOf(virtual)), tables, frames.Used(), frames.total)
      modifies ram, frames`used, frames.bitmap, this`tables
      ensures Sound()
      ensures old(Clear(ram[..], tables, PageOf(virtual))) ==>
                && tables.Keys == old(tables.Keys) + Needed(PageOf(virtual))
                && TableOf(PageOf(virtual), 1) in tables && pt == tables[TableOf(PageOf(virtual), 1)]
                && NodeOk(ram[..], tables, TableOf(PageOf(virtual), 1))
                && TablesAdded(old(tables), old(frames.Used()), tables, frames.Used())
                && Grown(old(ram[..]), old(tables), ram[..], tables)
                && (WayOpen(ram[..], tables, PageOf(virtual)) <==>
                      old(WayOpen(ram[..], tables, PageOf(virtual)))
                      && (HasFlag(flags, FLAG_USER) || TableOf(PageOf(virtual), 1) in old(tables)))
      ensures !old(Clear(ram[..], tables, PageOf(virtual))) ==>
                && ram[..] == old(ram[..]) && tables == old(tables) && frames.Used() == old(frames.Used())
                && pt == StrayFrame(PageOf(virtual))
    {
      hide Tree, Clear, Lookup, Grown, Frames, Index, Prefix, IndexOf, TablesAdded, Fits, Identity, WayOpen, HasFlag;
      ghost var x := PageOf(virtual);
      RootOf(x);
      ghost var mem, t, used := ram[..], tables, frames.Used();
      RootIn(mem, t);
      GrownSame(mem, t);
      NoneAdded(t, used);
      var pdp := EnsureNext(root, virtual, 4, flags, mem, t, used);
      var pd := EnsureNext(pdp, virtual, 3, flags, mem, t, used);
      pt := EnsureNext(pd, virtual, 2, flags, mem, t, used);
      if Clear(mem, t, x) {
        LowestTable(ram[..], tables, x);
        TablesAbove(mem, t, x);
      }
    }

    /** One level of the walk. */
    method EnsureNext(f: nat, virtual: U64, level: nat, flags: U64,
                      ghost mem: seq<Pte>, ghost t: Tables, ghost used: set<nat>) returns (child: nat)
      requires Sound() && 2 <= level <= 4 && TableOf(PageOf(virtual), level) in tables
      requires f == tables[TableOf(PageOf(virtual), level)]
      requires Identity(mem, t) && Tree(mem, t) && Grown(mem, t, ram[..], tables)
      requires TablesAdded(t, used, tables, frames.Used())
      requires if Clear(mem, t, PageOf(virtual)) then Fits(Needed(PageOf(virtual)), tables, frames.Used(), frames.total)
               else ram[..] == mem && tables == t && frames.Used() == used
      modifies ram, frames`used, frames.bitmap, this`tables
      ensures Sound() && Grown(mem, t, ram[..], tables) && TablesAdded(t, used, tables, frames.Used())
      ensures Clear(mem, t, PageOf(virtual)) ==>
                && tables.Keys == old(tables.Keys) + {TableOf(PageOf(virtual), level - 1)}
                && child == tables[TableOf(PageOf(virtual), level - 1)]
                && Fits(Needed(PageOf(virtual)), tables, frames.Used(), frames.total)
                && (WayOpen(ram[..], tables, PageOf(virtual)) <==>
                      old(WayOpen(ram[..], tables, PageOf(virtual)))
                      && (HasFlag(flags, FLAG_USER) || TableOf(PageOf(virtual), level - 1) in old(tables)))
      ensures !Clear(mem, t, PageOf(virtual)) ==>
                && ram[..] == mem && tables == t && frames.Used() == used
                && if level > 2 then TableOf(PageOf(virtual), level - 1) in t
                && child == t[TableOf(PageOf(virtual), level - 1)]
                   else child == StrayFrame(PageOf(virtual))
    {
      hide Tree, Clear, Lookup, Grown, Frames, Index, Prefix, IndexOf, TablesAdded, Needed, Fits, Identity, NodeOk,
           WayOpen, HasFlag;
      ghost var x, t1, mem1, used1 := PageOf(virtual), tables, ram[..], frames.Used();
      IndexOfIs(virtual, level);
      ChildOf(x, level);
      BeforeNext(mem, t, mem1, t1, used1, x, level, frames.total);
      child := EnsureTable(f, IndexOf(virtual, level), flags, TableOf(x, level));
      if Clear(mem, t, x) {
        AfterNext(mem, t, used, mem1, t1, used1, ram[..], tables, frames.Used(), x, level, child, frames.total);
      }
    }

    /** Removes the mapping of a page; its tables stay. A page under a huge page stays mapped. */
    method UnmapPage(virtual: U64)
      requires Valid()
      requires !Clear(ram[..], tables, PageOf(virtual)) ==> StrayFrame(PageOf(virtual)) < frames.total
      modifies ram
      ensures old(Clear(ram[..], tables, PageOf(virtual))) ==>
                && Valid() && Remapped(old(ram[..]), tables, ram[..], tables, PageOf(virtual), None)
                && KeptBut(old(ram[..]), tables, ram[..], tables, PageOf(virtual), 1)
                && (forall y :: WayOpen(ram[..], tables, y) <==> old(WayOpen(ram[..], tables, y)))
      ensures !old(Clear(ram[..], tables, PageOf(virtual))) ==>
                var x := PageOf(virtual);
                && Strayed(old(ram[..]), tables, ram[..], x, StrayEntry(old(ram[..]), x).(present := false))
                && (StrayFrame(x) !in tables.Values ==> Valid())
    {
      hide Tree, Clear, Lookup, Frames, Index, Prefix, IndexOf, Remapped, Identity, KeptBut, Strayed, WayOpen;
      ghost var x, mem := PageOf(virtual), ram[..];
      var pt := FindTable(virtual);
      if pt.None? {
        NotMapped(mem, tables, x);
        RemappedTranslates(mem, tables, mem, tables, x, None);
        return;
      }
      var i := IndexOf(virtual, 1);
      IndexOfIs(virtual, 1);
      if Clear(mem, tables, x) {
        LowestTable(mem, tables, x);
      }
      var e := ram[ENTRIES * pt.value + i].(present := false);
      ram[ENTRIES * pt.value + i] := e;
      if Clear(mem, tables, x) {
        LeafRemapped(mem, tables, x, e);
        forall y
          ensures WayOpen(ram[..], tables, y) <==> WayOpen(mem, tables, y)
        {
          LeafWay(mem, tables, x, e, y);
        }
        RemappedTree(mem, tables, ram[..], tables, x, None);
        RemappedTranslates(mem, tables, ram[..], tables, x, None);
        IdentityRemapped(mem, tables, ram[..], tables, x, None);
      } else {
        Straying(mem, tables, x, e);
      }
    }

    /** Walks down to where the lowest table of a page should be. */
    method FindTable(virtual: U64) returns (pt: Option<nat>)
      requires Valid()
      ensures var x, k := PageOf(virtual), TableOf(PageOf(virtual), 1);
              pt == if Clear(ram[..], tables, x) then (if k in tables then Some(tables[k]) else None)
                    else Some(StrayFrame(x))
    {
      hide Tree, Clear, Lookup, Frames, Index, Prefix, IndexOf, Identity;
      ghost var x := PageOf(virtual);
      RootOf(x);
      RootIn(ram[..], tables);
      var f := root;
      var level := 4;
      while level > 1
        invariant 1 <= level <= 4
        invariant if level > 1 || Clear(ram[..], tables, x)
                  then TableOf(x, level) in tables && f == tables[TableOf(x, level)]
                  else f == StrayFrame(x)
      {
        IndexOfIs(virtual, level);
        WayOn(ram[..], tables, x, level);
        var i := IndexOf(virtual, level);
        if !ram[ENTRIES * f + i].present {
          NoLowest(ram[..], tables, x, level - 1);
          return None;
        }
        f := ram[ENTRIES * f + i].frame;
        level := level - 1;
      }
      return Some(f);
    }

    /** The address a virtual address is mapped to; 0 if there is none. For a page under a huge page it is what the
        first frame of the huge page happens to hold. */
    method GetPhysicalAddress(virtual: U64) returns (address: nat)
      requires Valid()
      requires !Clear(ram[..], tables, PageOf(virtual)) ==> StrayFrame(PageOf(virtual)) < frames.total
      ensures Clear(ram[..], tables, PageOf(virtual)) ==>
                var m := Lookup(ram[..], tables, PageOf(virtual));
                address == if m.Some? then PAGE * m.value.frame + virtual % PAGE else 0
      ensures !Clear(ram[..], tables, PageOf(virtual)) ==>
                var e := StrayEntry(ram[..], PageOf(virtual));
                address == if e.present then PAGE * e.frame + virtual % PAGE else 0
    {
      hide Tree, Clear, Frames, Index, Prefix, IndexOf, Identity;
      var pt := FindTable(virtual);
      if pt.None? {
        return 0;
      }
      IndexOfIs(virtual, 1);
      if Clear(ram[..], tables, PageOf(virtual)) {
        LowestTable(ram[..], tables, PageOf(virtual));
      }
      var i := IndexOf(virtual, 1);
      if !ram[ENTRIES * pt.value + i].present {
        return 0;
      }
      return ram[ENTRIES * pt.value + i].frame * PAGE + virtual % PAGE;
    }

    /** Maps the first pages of 2 MB to themselves. */
    method MapHuge(pd: nat)
      requires Sound() && Node(2, 0) in tables && tables[Node(2, 0)] == pd
      requires BlankHuge(ram[..], tables, 0)
      modifies ram
      ensures Sound() && Booted(ram[..], tables)
    {
      hide Tree, BlankHuge, Booted;
      for i := 0 to HUGE_PAGES
        invariant Sound() && BlankHuge(ram[..], tables, i)
      {
        ghost var mem := ram[..];
        HugeSlot(mem, tables, i);
        ram[ENTRIES * pd + i] := ram[ENTRIES * pd + i].(present := true, rw := true, user := false, huge := true,
                                                        frame := i * 0x20_0000 / PAGE);
        HugeAdded(mem, tables, i, ram[ENTRIES * pd + i]);
      }
      AllHuge(ram[..], tables);
    }
  }

  // ----- the first 32 MB

  /** The root leads to a table for the first 512 GB that is closed to programs. */
  predicate LowClosed(mem: seq<Pte>, t: Tables)
  {
    var e := Entry(mem, t, Node(4, 0), 0); e.present && !e.user
  }

  /** The first 32 MB lie under huge pages that map them to themselves, nothing else lies under huge pages, and the
      first 512 GB are closed to programs. */
  ghost predicate Identity(mem: seq<Pte>, t: Tables)
  {
    && Tree(mem, t) && (forall i: nat :: i < HUGE_PAGES ==> EntryHuge(mem, t, i))
    && (forall x: nat :: HUGE_PAGES * ENTRIES <= x < PAGES ==> Clear(mem, t, x))
    && LowClosed(mem, t)
  }

  /** No program can use a page of the first 512 GB, whatever pages were mapped since boot and with what flags. The
      kernel's heap lies there. */
  lemma LowKernelOnly(mem: seq<Pte>, t: Tables, x: nat)
    requires Identity(mem, t) && x < 0x800_0000
    ensures !WayOpen(mem, t, x) && !UserCan(mem, t, x)
    ensures PAGE * x < 0x80_0000_0000
  {
    hide Tree, Translated;
    Prefixes(x);
    RootOf(x);
    assert Index(x, 4) == 0;
    assert !OnTheWay(mem, t, x, 4).user;
  }

  /** The frame that is taken for the lowest table of a page under a huge page: the first frame of the huge page. */
  function StrayFrame(x: nat): nat
  {
    ENTRIES * (x / ENTRIES)
  }

  /** The word of that frame that is taken for the entry of the page. */
  function StrayEntry(mem: seq<Pte>, x: nat): Pte
    requires ENTRIES * StrayFrame(x) + ENTRIES <= |mem|
  {
    mem[ENTRIES * StrayFrame(x) + Index(x, 1)]
  }

  /** An entry meant for page x was written into the first frame of the huge page above it. The page itself, and with
      no table in that frame every page, is translated as before. */
  ghost predicate Strayed(mem: seq<Pte>, t: Tables, mem': seq<Pte>, x: nat, e: Pte)
  {
    && ENTRIES * StrayFrame(x) + ENTRIES <= |mem| && mem' == WithEntry(mem, StrayFrame(x), Index(x, 1), e)
    && (StrayFrame(x) !in t.Values ==> Grown(mem, t, mem', t) && KeptBut(mem, t, mem', t, 0, 0))
  }

  /** The entry after a mapping was put in. */
  function WithLeaf(e: Pte, m: Mapping): Pte
    requires m.frame < 0x100_0000_0000
  {
    e.(present := true, rw := m.rw, user := m.user, frame := m.frame)
  }

  lemma LeafPut(e: Pte, m: Mapping)
    requires m.frame < 0x100_0000_0000
    ensures var e' := WithLeaf(e, m); e'.present && Mapping(e'.frame, e'.rw, e'.user) == m
  {
  }

  lemma LeafUser(physical: U64, flags: U64)
    ensures Leaf(physical, flags).user == HasFlag(flags, FLAG_USER)
  {
  }

  /** The way to a page of the first 32 MB leads through the first table of each level to its huge page. */
  lemma LowWay(mem: seq<Pte>, t: Tables, x: nat)
    requires Identity(mem, t) && x < HUGE_PAGES * ENTRIES
    ensures TableOf(x, 4) == Node(4, 0) && TableOf(x, 3) == Node(3, 0) && TableOf(x, 2) == Node(2, 0)
    ensures Node(4, 0) in t && Node(3, 0) in t && Node(2, 0) in t
    ensures var e := OnTheWay(mem, t, x, 2);
            e.present && e.huge && e.rw && !e.user && e.frame == StrayFrame(x)
    ensures !OnTheWay(mem, t, x, 3).huge && !OnTheWay(mem, t, x, 4).huge
  {
    hide Clear;
    Prefixes(x);
    RootOf(x);
    assert EntryHuge(mem, t, x / ENTRIES);
    NodesLead(mem, t);
    LeadsTo(mem, t, x, 3);
    LeadsTo(mem, t, x, 4);
  }

  /** Exactly the first 32 MB are not clear, and they are mapped to themselves. */
  lemma IdentityMapped(mem: seq<Pte>, t: Tables, x: nat)
    requires Identity(mem, t) && x < PAGES
    ensures Clear(mem, t, x) <==> HUGE_PAGES * ENTRIES <= x
    ensures x < HUGE_PAGES * ENTRIES ==> Translated(mem, t, x) == Some(Mapping(x, true, false))
  {
    if x < HUGE_PAGES * ENTRIES {
      LowWay(mem, t, x);
      HugeOnce(mem, t, x, 2);
      assert Served(2) == ENTRIES * Served(1) == ENTRIES;
    }
  }

  /** One step of the walk to page x. */
  lemma WayOn(mem: seq<Pte>, t: Tables, x: nat, level: nat)
    requires Identity(mem, t) && x < PAGES && 2 <= level <= 4 && TableOf(x, level) in t
    ensures NodeOk(mem, t, TableOf(x, level)) && ENTRIES * t[TableOf(x, level)] + Index(x, level) < |mem|
    ensures var e, n := mem[ENTRIES * t[TableOf(x, level)] + Index(x, level)], TableOf(x, level - 1);
            && (!Clear(mem, t, x) ==> e.present)
            && (Clear(mem, t, x) || level > 2 ==> !e.huge && (e.present <==> n in t) && (e.present ==> t[n] == e.frame))
            && (!Clear(mem, t, x) && level == 2 ==> e.frame == StrayFrame(x))
  {
    hide Prefix, Index;
    ChildOf(x, level);
    EntryLeads(mem, t, TableOf(x, level), Index(x, level));
    if Clear(mem, t, x) {
      ClearSelf(mem, t, x, level);
    } else {
      IdentityMapped(mem, t, x);
      LowWay(mem, t, x);
    }
  }

  /** Before one level of the walk. */
  lemma BeforeNext(mem: seq<Pte>, t: Tables, mem1: seq<Pte>, t1: Tables, used1: set<nat>, x: nat, level: nat,
                   total: nat)
    requires Identity(mem, t) && Tree(mem, t) && Grown(mem, t, mem1, t1) && x < PAGES
    requires 2 <= level <= 4 && TableOf(x, level) in t1
    requires if Clear(mem, t, x) then Fits(Needed(x), t1, used1, total) else mem1 == mem && t1 == t
    ensures var k, n := TableOf(x, level), TableOf(x, level - 1);
            && Tree(mem1, t1) && NodeOk(mem1, t1, k) && ENTRIES * t1[k] + Index(x, level) < |mem1|
            && var e := mem1[ENTRIES * t1[k] + Index(x, level)];
               && (e.present || |used1| < total)
               && (Clear(mem, t, x) ==> !e.huge)
               && (!Clear(mem, t, x) ==>
                     e.present && (if level > 2 then n in t && e.frame == t[n] else e.frame == StrayFrame(x)))
  {
    hide Tree, Clear, Lookup, Grown, Index, Prefix, Needed, Fits, Identity;
    GrownTrees(mem, t, mem1, t1);
    ChildOf(x, level);
    EntryLeads(mem1, t1, TableOf(x, level), Index(x, level));
    if Clear(mem, t, x) {
      ClearEntry(mem, t, mem1, t1, x, level);
      MoreRoom(x, level - 1, t1, used1, total);
    } else {
      WayOn(mem, t, x, level);
    }
  }

  /** And after it. */
  lemma AfterNext(mem: seq<Pte>, t: Tables, used: set<nat>, mem1: seq<Pte>, t1: Tables, used1: set<nat>,
                  mem2: seq<Pte>, t2: Tables, used2: set<nat>, x: nat, level: nat, child: nat, total: nat)
    requires Grown(mem, t, mem1, t1) && TablesAdded(t, used, t1, used1) && Grown(mem1, t1, mem2, t2)
    requires 2 <= level <= 4 && Fits(Needed(x), t1, used1, total) && t1.Values <= used1
    requires t2.Keys == t1.Keys + {TableOf(x, level - 1)} && child == t2[TableOf(x, level - 1)]
    requires used2 == used1 + {child} && (TableOf(x, level - 1) !in t1 ==> child !in used1)
    ensures Grown(mem, t, mem2, t2) && TablesAdded(t, used, t2, used2) && Fits(Needed(x), t2, used2, total)
  {
    hide Tree, Clear, Lookup, Grown, Index, Prefix, TablesAdded, Needed, Fits;
    var n := TableOf(x, level - 1);
    GrownTrees(mem1, t1, mem2, t2);
    GrownTransitive(mem, t, mem1, t1, mem2, t2);
    ValueIn(t1, n);
    OneMoreTable(t, used, t1, used1, t2, used2, n);
    LessMissing(x, level - 1, t1, used1, t2, child, total);
  }

  /** The huge pages stay when the tables grow or a page is remapped. */
  lemma IdentityKept(mem: seq<Pte>, t: Tables, mem': seq<Pte>, t': Tables)
    requires Identity(mem, t) && Tree(mem', t') && UpperKept(mem, t, mem', t')
    requires forall x :: Clear(mem, t, x) ==> Clear(mem', t', x)
    ensures Identity(mem', t')
  {
    hide Tree, Clear, LowClosed;
    KeptClosed(mem, t, mem', t');
    forall i: nat | i < HUGE_PAGES
      ensures EntryHuge(mem', t', i)
    {
      assert EntryHuge(mem, t, i);
      assert Entry(mem, t, Node(2, 0), i).huge;
      assert Entry(mem', t', Node(2, 0), i) == Entry(mem, t, Node(2, 0), i);
    }
  }

  lemma IdentityRemapped(mem: seq<Pte>, t: Tables, mem': seq<Pte>, t': Tables, v: nat, m: Option<Mapping>)
    requires Identity(mem, t) && Remapped(mem, t, mem', t', v, m)
    ensures Identity(mem', t')
  {
    hide Tree, Clear, Lookup, UpperKept, Identity;
    IdentityKept(mem, t, mem', t');
  }

  lemma IdentityGrown(mem: seq<Pte>, t: Tables, mem': seq<Pte>, t': Tables)
    requires Identity(mem, t) && Grown(mem, t, mem', t')
    ensures Identity(mem', t')
  {
    hide Tree, Clear, Lookup, UpperKept, Identity;
    IdentityKept(mem, t, mem', t');
  }

  /** Writing into a frame that holds no table changes nothing for the tables. */
  lemma Straying(mem: seq<Pte>, t: Tables, x: nat, e: Pte)
    requires Identity(mem, t) && ENTRIES * StrayFrame(x) + ENTRIES <= |mem|
    ensures var mem' := WithEntry(mem, StrayFrame(x), Index(x, 1), e);
            && Strayed(mem, t, mem', x, e)
            && (StrayFrame(x) !in t.Values ==> Tree(mem', t) && Identity(mem', t))
  {
    hide Tree, Clear, Lookup, UpperKept, WithEntry;
    var mem' := WithEntry(mem, StrayFrame(x), Index(x, 1), e);
    if StrayFrame(x) !in t.Values {
      StrayGrown(mem, t, StrayFrame(x), Index(x, 1), e);
      GrownTranslates(mem, t, mem', t);
      IdentityGrown(mem, t, mem', t);
    }
  }

  lemma StrayGrown(mem: seq<Pte>, t: Tables, f: nat, i: nat, e: Pte)
    requires Tree(mem, t) && f !in t.Values && ENTRIES * f + ENTRIES <= |mem| && i < ENTRIES
    ensures Grown(mem, t, WithEntry(mem, f, i, e), t)
  {
    hide Prefix, Index;
    var mem' := WithEntry(mem, f, i, e);
    forall k: Node, l: nat
      ensures Entry(mem', t, k, l) == Entry(mem, t, k, l)
      ensures k in t ==> NodeOk(mem, t, k)
    {
      if k in t {
        assert t[k] in t.Values && NodeOk(mem, t, k);
      }
    }
    forall k, l: nat | k in t && k.level > 1 && l < ENTRIES
      ensures EntryOk(mem', t, k, l)
    {
      assert Entry(mem', t, k, l) == Entry(mem, t, k, l) && EntryOk(mem, t, k, l);
    }
    forall x | Clear(mem, t, x)
      ensures Clear(mem', t, x) && Lookup(mem', t, x) == Lookup(mem, t, x)
    {
      ClearWay(mem, t, x);
      ClearWay(mem', t, x);
      assert Entry(mem', t, TableOf(x, 1), Index(x, 1)) == Entry(mem, t, TableOf(x, 1), Index(x, 1));
    }
  }

  /** What the invariant says of an entry without the huge-page bit. */
  lemma EntryLeads(mem: seq<Pte>, t: Tables, k: Node, i: nat)
    requires Tree(mem, t) && k in t && 2 <= k.level && i < ENTRIES
    ensures NodeOk(mem, t, k) && Node(4, 0) in t
    ensures var e := mem[ENTRIES * t[k] + i];
            && (!e.huge ==> (e.present <==> Child(k, i) in t) && (e.present ==> t[Child(k, i)] == e.frame))
            && (e.huge ==> e.present)
  {
    assert NodeOk(mem, t, k);
    assert EntryOk(mem, t, k, i);
  }

  lemma ClearSelf(mem: seq<Pte>, t: Tables, x: nat, level: nat)
    requires Tree(mem, t) && Clear(mem, t, x) && 2 <= level <= 4 && TableOf(x, level) in t
    ensures NodeOk(mem, t, TableOf(x, level)) && !mem[ENTRIES * t[TableOf(x, level)] + Index(x, level)].huge
  {
    assert NodeOk(mem, t, TableOf(x, level));
  }

  lemma ClearEntry(mem0: seq<Pte>, t0: Tables, mem: seq<Pte>, t: Tables, x: nat, level: nat)
    requires Grown(mem0, t0, mem, t) && Clear(mem0, t0, x) && 2 <= level <= 4 && TableOf(x, level) in t
    ensures NodeOk(mem, t, TableOf(x, level)) && !mem[ENTRIES * t[TableOf(x, level)] + Index(x, level)].huge
  {
    hide Tree, Clear, Lookup;
    ClearSelf(mem, t, x, level);
  }

  lemma LowestTable(mem: seq<Pte>, t: Tables, x: nat)
    requires Tree(mem, t) && TableOf(x, 1) in t
    ensures NodeOk(mem, t, TableOf(x, 1)) && ENTRIES * t[TableOf(x, 1)] + Index(x, 1) < |mem|
  {
    assert NodeOk(mem, t, TableOf(x, 1));
  }

  /** Below a missing table there are no tables. */
  lemma {:induction false} NoLowest(mem: seq<Pte>, t: Tables, x: nat, level: nat)
    requires Tree(mem, t) && 1 <= level <= 4 && TableOf(x, level) !in t
    ensures TableOf(x, 1) !in t
    decreases level
  {
    if level > 1 {
      ChildOf(x, level);
      NoOrphan(mem, t, TableOf(x, level), Index(x, level));
      NoLowest(mem, t, x, level - 1);
    }
  }

  lemma TablesAbove(mem: seq<Pte>, t: Tables, x: nat)
    requires Tree(mem, t)
    ensures TableOf(x, 1) in t ==> TableOf(x, 2) in t
    ensures TableOf(x, 2) in t ==> TableOf(x, 3) in t
  {
    if TableOf(x, 1) in t {
      LeadsTo(mem, t, x, 2);
    }
    if TableOf(x, 2) in t {
      LeadsTo(mem, t, x, 3);
    }
  }

  lemma NotMapped(mem: seq<Pte>, t: Tables, x: nat)
    requires Tree(mem, t) && TableOf(x, 1) !in t
    ensures Remapped(mem, t, mem, t, x, None)
  {
    hide Clear;
  }

  lemma RemappedTree(mem: seq<Pte>, t: Tables, mem': seq<Pte>, t': Tables, v: nat, m: Option<Mapping>)
    requires Remapped(mem, t, mem', t', v, m)
    ensures Tree(mem', t')
  {
  }

  lemma RootIn(mem: seq<Pte>, t: Tables)
    requires Tree(mem, t)
    ensures Node(4, 0) in t
  {
  }

  lemma ValueIn(t: Tables, n: Node)
    ensures n in t ==> t[n] in t.Values
  {
  }

  /** While tables are missing for which there is room, frames are left. */
  lemma MoreRoom(x: nat, level: nat, t: Tables, used: set<nat>, total: nat)
    requires 1 <= level <= 3 && Fits(Needed(x), t, used, total)
    ensures TableOf(x, level) in t || |used| < total
  {
    hide Prefix, Needed;
    var n := TableOf(x, level);
    NeededHas(x, level);
    if n !in t {
      assert n in Needed(x) - t.Keys;
    }
  }

  /** A table that was made is no longer missing. */
  lemma LessMissing(x: nat, level: nat, t: Tables, used: set<nat>, t': Tables, c: nat, total: nat)
    requires 1 <= level <= 3 && Fits(Needed(x), t, used, total) && (TableOf(x, level) in t ==> c in used)
    requires t'.Keys == t.Keys + {TableOf(x, level)}
    ensures Fits(Needed(x), t', used + {c}, total)
  {
    hide Prefix, Needed;
    NeededHas(x, level);
    LessSet(Needed(x), t.Keys, TableOf(x, level));
    OneMore(used, c);
  }

  lemma NeededHas(x: nat, level: nat)
    requires 1 <= level <= 3
    ensures TableOf(x, level) in Needed(x)
  {
    hide Prefix;
  }

  lemma LessSet(needed: set<Node>, have: set<Node>, n: Node)
    requires n in needed
    ensures |needed - (have + {n})| == |needed - have| - (if n in have then 0 else 1)
  {
    if n in have {
      assert have + {n} == have;
    } else {
      assert needed - have == (needed - (have + {n})) + {n};
    }
  }

  lemma OneMore(used: set<nat>, c: nat)
    ensures |used + {c}| == |used| + (if c in used then 0 else 1)
  {
    if c in used {
      assert used + {c} == used;
    }
  }

  /** Tables were added in frames that were free, and no other frames were taken. */
  ghost predicate TablesAdded(t: Tables, used: set<nat>, t': Tables, used': set<nat>)
  {
    && (forall k :: k in t ==> k in t' && t'[k] == t[k])
    && (forall k :: k in t' && k !in t ==> t'[k] !in used)
    && used' == used + t'.Values && t.Values <= used
  }

  lemma NoneAdded(t: Tables, used: set<nat>)
    requires t.Values <= used
    ensures TablesAdded(t, used, t, used)
  {
    assert used + t.Values == used;
  }

  lemma OneMoreTable(t: Tables, used: set<nat>, t1: Tables, used1: set<nat>, t2: Tables, used2: set<nat>, n: Node)
    requires TablesAdded(t, used, t1, used1)
    requires t2.Keys == t1.Keys + {n} && (forall k :: k in t1 ==> t2[k] == t1[k])
    requires used2 == used1 + {t2[n]} && (n !in t1 ==> t2[n] !in used1)
    ensures TablesAdded(t, used, t2, used2)
  {
    forall v | v in t2.Values ensures v in t1.Values + {t2[n]} {
      var k :| k in t2 && t2[k] == v;
      if k != n {
        assert t1[k] == v;
      }
    }
    forall v | v in t1.Values ensures v in t2.Values {
      var k :| k in t1 && t1[k] == v;
      assert t2[k] == v;
    }
    assert t2[n] in t2.Values;
  }

  /** A root without entries maps nothing. */
  lemma RootTree(mem: seq<Pte>, root: nat)
    requires ENTRIES * root + ENTRIES <= |mem|
    ensures var t := map[Node(4, 0) := root];
            Tree(Blanked(mem, root), t) && AllBlank(Blanked(mem, root), t) && NodeOk(Blanked(mem, root), t, Node(4, 0))
  {
    hide Blanked;
    var t, mem' := map[Node(4, 0) := root], Blanked(mem, root);
    forall s | ENTRIES * root <= s < ENTRIES * root + ENTRIES
      ensures mem'[s] == NO_ENTRY
    {
      BlankedAt(mem, root, s);
    }
  }

  predicate EntryBlank(mem: seq<Pte>, t: Tables, k: Node, i: nat)
    requires i < ENTRIES
  {
    k in t && ENTRIES * t[k] + ENTRIES <= |mem| && !mem[ENTRIES * t[k] + i].present
  }

  /** Entry i of the first table of level 2 maps 2 MB to themselves. */
  predicate EntryHuge(mem: seq<Pte>, t: Tables, i: nat)
    requires i < ENTRIES
  {
    && Node(2, 0) in t && ENTRIES * t[Node(2, 0)] + ENTRIES <= |mem|
    && var e := mem[ENTRIES * t[Node(2, 0)] + i];
       e.present && e.huge && e.rw && !e.user && e.frame == ENTRIES * i
  }

  /** Nothing is mapped but the first n huge pages, and they hide nothing else. */
  ghost predicate BlankHuge(mem: seq<Pte>, t: Tables, n: nat)
  {
    && Tree(mem, t) && Node(2, 0) in t
    && (forall i: nat :: n <= i < ENTRIES ==> EntryBlank(mem, t, Node(2, 0), i))
    && (forall i: nat :: i < n <= ENTRIES ==> EntryHuge(mem, t, i))
    && (forall x :: Lookup(mem, t, x) == None && (Clear(mem, t, x) <==> !UnderHuge(x, n)))
    && LowClosed(mem, t)
  }

  /** The first 32 MB are mapped to themselves by huge pages, and nothing else is mapped. */
  ghost predicate Booted(mem: seq<Pte>, t: Tables)
  {
    Identity(mem, t) && forall x: nat :: HUGE_PAGES * ENTRIES <= x < PAGES ==> Lookup(mem, t, x) == None
  }

  lemma BootedIdentity(mem: seq<Pte>, t: Tables)
    requires Booted(mem, t)
    ensures Identity(mem, t) && Tree(mem, t)
  {
    hide Clear, Lookup, Tree;
  }

  lemma StillBooted(mem: seq<Pte>, t: Tables, mem': seq<Pte>, t': Tables)
    requires Booted(mem, t) && Grown(mem, t, mem', t')
    ensures Booted(mem', t')
  {
    hide Clear, Lookup, Tree, UpperKept;
    IdentityGrown(mem, t, mem', t');
  }

  /** The page of the VGA buffer lies under the first huge page, whose first frame is frame 0. */
  lemma VgaUnderHuge(mem: seq<Pte>, t: Tables, total: nat)
    requires Booted(mem, t)
    ensures Tree(mem, t) && !Clear(mem, t, PageOf(0xB_8000)) && StrayFrame(PageOf(0xB_8000)) == 0
  {
    hide Clear, Lookup, Tree;
    IdentityMapped(mem, t, 0xB8);
  }

  lemma HugeSlot(mem: seq<Pte>, t: Tables, n: nat)
    requires BlankHuge(mem, t, n) && n < ENTRIES
    ensures Node(2, 0) in t && ENTRIES * t[Node(2, 0)] + ENTRIES <= |mem|
  {
    assert EntryBlank(mem, t, Node(2, 0), n);
  }

  lemma HugeAdded(mem: seq<Pte>, t: Tables, n: nat, e: Pte)
    requires BlankHuge(mem, t, n) && n < ENTRIES && e.present && e.huge && e.rw && !e.user && e.frame == ENTRIES * n
    requires Node(2, 0) in t && ENTRIES * t[Node(2, 0)] + ENTRIES <= |mem|
    ensures var mem' := WithEntry(mem, t[Node(2, 0)], n, e); Tree(mem', t) && BlankHuge(mem', t, n + 1)
  {
    hide Tree, Clear, Lookup, UnderHuge;
    var mem' := WithEntry(mem, t[Node(2, 0)], n, e);
    assert EntryBlank(mem, t, Node(2, 0), n);
    HugeTree(mem, t, Node(2, 0), n, e);
    StillClosed(mem, t, n, e);
    forall x
      ensures Lookup(mem', t, x) == None && (Clear(mem', t, x) <==> !UnderHuge(x, n + 1))
    {
      HugeEntry(mem, t, Node(2, 0), n, e, x);
      UnderOneMore(x, n);
    }
    forall i: nat | n + 1 <= i < ENTRIES
      ensures EntryBlank(mem', t, Node(2, 0), i)
    {
      assert EntryBlank(mem, t, Node(2, 0), i);
    }
    forall i: nat | i < n + 1
      ensures EntryHuge(mem', t, i)
    {
      assert i < n ==> EntryHuge(mem, t, i);
    }
  }

  lemma StillClosed(mem: seq<Pte>, t: Tables, i: nat, e: Pte)
    requires Tree(mem, t) && LowClosed(mem, t) && i < ENTRIES
    requires Node(2, 0) in t && ENTRIES * t[Node(2, 0)] + ENTRIES <= |mem|
    ensures LowClosed(WithEntry(mem, t[Node(2, 0)], i, e), t)
  {
    SlotsApart(mem, t, Node(4, 0), 0, Node(2, 0), i);
  }

  lemma KeptClosed(mem: seq<Pte>, t: Tables, mem': seq<Pte>, t': Tables)
    requires LowClosed(mem, t) && UpperKept(mem, t, mem', t')
    ensures LowClosed(mem', t')
  {
    hide Entry;
    assert Entry(mem', t', Node(4, 0), 0) == Entry(mem, t, Node(4, 0), 0);
  }

  lemma GrownClosed(mem: seq<Pte>, t: Tables, mem': seq<Pte>, t': Tables)
    requires LowClosed(mem, t) && Grown(mem, t, mem', t')
    ensures LowClosed(mem', t')
  {
    hide Entry, Tree, UpperKept, Clear, Lookup, LowClosed;
    KeptClosed(mem, t, mem', t');
  }

  lemma AllHuge(mem: seq<Pte>, t: Tables)
    requires BlankHuge(mem, t, HUGE_PAGES)
    ensures Booted(mem, t)
  {
    hide Tree, Clear, Lookup, UnderHuge;
    forall x: nat | HUGE_PAGES * ENTRIES <= x < PAGES
      ensures Lookup(mem, t, x) == None && Clear(mem, t, x)
    {
      BelowHuge(x, HUGE_PAGES);
    }
  }

  /** Page x is served by one of the first n entries of the first table of level 2. */
  predicate UnderHuge(x: nat, n: nat)
  {
    TableOf(x, 2) == Node(2, 0) && Index(x, 2) < n
  }

  lemma UnderOneMore(x: nat, i: nat)
    ensures UnderHuge(x, i + 1) <==> UnderHuge(x, i) || (TableOf(x, 2) == Node(2, 0) && Index(x, 2) == i)
  {
  }

  lemma BelowHuge(x: nat, n: nat)
    requires n <= ENTRIES
    ensures UnderHuge(x, n) <==> x < n * ENTRIES
  {
    Prefixes(x);
  }

  /** Nothing is mapped and no huge pages are in the way of anything. */
  ghost predicate AllBlank(mem: seq<Pte>, t: Tables)
  {
    Tree(mem, t) && forall x :: Clear(mem, t, x) && Lookup(mem, t, x) == None
  }

  lemma StillBlank(mem: seq<Pte>, t: Tables, mem': seq<Pte>, t': Tables)
    requires AllBlank(mem, t) && Grown(mem, t, mem', t')
    ensures AllBlank(mem', t')
  {
    hide Tree, Clear, Lookup;
  }

  lemma BlankEntry(mem: seq<Pte>, t: Tables, level: nat)
    requires AllBlank(mem, t) && 2 <= level <= 4 && Node(level, 0) in t
    ensures NodeOk(mem, t, Node(level, 0)) && !mem[ENTRIES * t[Node(level, 0)]].huge
  {
    hide Lookup;
    Prefixes(0);
    assert Prefix(0, 4) == 0;
    assert Clear(mem, t, 0);
    assert TableOf(0, level) == Node(level, 0) && Index(0, level) == 0;
  }

  /** After the first three tables were set up, no entry of the last one is in use. */
  lemma BlankTable(mem: seq<Pte>, t: Tables)
    requires AllBlank(mem, t) && t.Keys == {Node(4, 0), Node(3, 0), Node(2, 0)} && LowClosed(mem, t)
    ensures BlankHuge(mem, t, 0)
  {
    forall i: nat | i < ENTRIES
      ensures EntryBlank(mem, t, Node(2, 0), i)
    {
      EntryLeads(mem, t, Node(2, 0), i);
      var x := ENTRIES * i;
      Prefixes(x);
      assert TableOf(x, 2) == Node(2, 0) && Index(x, 2) == i && Clear(mem, t, x);
    }
  }

  /** A huge page takes the place of a table, and hides the pages below it. */
  lemma HugeTree(mem: seq<Pte>, t: Tables, k: Node, i: nat, e: Pte)
    requires Tree(mem, t) && k in t && k.level == 2 && i < ENTRIES && EntryBlank(mem, t, k, i) && e.present && e.huge
    ensures Tree(WithEntry(mem, t[k], i, e), t)
  {
    var mem' := WithEntry(mem, t[k], i, e);
    forall j, l: nat | j in t && j.level > 1 && l < ENTRIES
      ensures EntryOk(mem', t, j, l)
    {
      assert EntryOk(mem, t, j, l) && NodeOk(mem, t, j);
      SlotsApart(mem, t, j, l, k, i);
    }
    forall j | j in t ensures NodeOk(mem', t, j) {
      assert NodeOk(mem, t, j);
    }
  }

  lemma HugeEntry(mem: seq<Pte>, t: Tables, k: Node, i: nat, e: Pte, x: nat)
    requires Tree(mem, t) && k in t && k.level == 2 && i < ENTRIES && EntryBlank(mem, t, k, i) && e.present && e.huge
    requires Tree(WithEntry(mem, t[k], i, e), t)
    ensures var mem' := WithEntry(mem, t[k], i, e);
            && Lookup(mem', t, x) == Lookup(mem, t, x)
            && (Clear(mem', t, x) <==> Clear(mem, t, x) && !(TableOf(x, 2) == k && Index(x, 2) == i))
  {
    hide Prefix, Index;
    var mem' := WithEntry(mem, t[k], i, e);
    forall level | 1 <= level <= 4 && TableOf(x, level) in t && !(TableOf(x, level) == k && Index(x, level) == i)
      ensures NodeOk(mem, t, TableOf(x, level))
      ensures mem'[ENTRIES * t[TableOf(x, level)] + Index(x, level)]
              == mem[ENTRIES * t[TableOf(x, level)] + Index(x, level)]
    {
      assert NodeOk(mem, t, TableOf(x, level));
      SlotsApart(mem, t, TableOf(x, level), Index(x, level), k, i);
    }
  }

  /** The walk does not look at the huge-page bit. Down to the level of the lowest tables it meets the tree exactly if
      no huge page lies on the way; otherwise it takes the first frame of the huge page for a table. */
  lemma WalkInTreeIff(mem: seq<Pte>, t: Tables, x: nat)
    requires Identity(mem, t) && x < PAGES
    ensures var k, f := TableOf(x, 1), Walk(mem, t[Node(4, 0)], x, 1);
            && (f == (if k in t then Some(t[k]) else None) <==> Clear(mem, t, x))
            && (!Clear(mem, t, x) ==> k !in t && f == Some(StrayFrame(x)))
  {
    hide Clear, Lookup, Prefix, Index;
    if Clear(mem, t, x) {
      WalkInTree(mem, t, x, 1);
    } else {
      RootOf(x);
      IdentityMapped(mem, t, x);
      LowWay(mem, t, x);
      WayOn(mem, t, x, 4);
      WayOn(mem, t, x, 3);
      WayOn(mem, t, x, 2);
      if TableOf(x, 1) in t {
        LeadsTo(mem, t, x, 2);
      }
    }
  }

  /** Tables have entries in their parents. */
  lemma NodesLead(mem: seq<Pte>, t: Tables)
    requires Tree(mem, t) && Node(2, 0) in t
    ensures Node(3, 0) in t && Step(mem, t[Node(4, 0)], 0) == Some(t[Node(3, 0)])
    ensures Step(mem, t[Node(3, 0)], 0) == Some(t[Node(2, 0)])
  {
    assert NodeOk(mem, t, Node(2, 0)) && Parent(Node(2, 0)) == Node(3, 0);
    assert NodeOk(mem, t, Node(3, 0)) && NodeOk(mem, t, Node(4, 0));
    assert EntryOk(mem, t, Node(4, 0), 0) && Child(Node(4, 0), 0) == Node(3, 0);
    assert EntryOk(mem, t, Node(3, 0), 0) && Child(Node(3, 0), 0) == Node(2, 0);
  }

  /** The page of KERNEL_HEAP_START, 4 MB, lies under a huge page, at boot and ever after. */
  lemma HeapStartUnderHuge(mem: seq<Pte>, t: Tables)
    requires Identity(mem, t)
    ensures !Clear(mem, t, PageOf(0x40_0000)) && StrayFrame(PageOf(0x40_0000)) == 0x400
  {
    hide Clear, Tree;
    IdentityMapped(mem, t, 0x400);
  }
}
