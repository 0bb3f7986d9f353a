/** Page tables as they lie in physical memory, and the tree they form. */
module PageTree {
  import opened Bytes
  import opened PhysicalMemory

  const ENTRIES := 512

  /** Number of virtual pages: 36 bits of page number are translated. */
  const PAGES := 0x10_0000_0000

  /** A page table entry; `frame` is its 40-bit field. */
  datatype Pte = Pte(present: bool, rw: bool, user: bool, huge: bool, frame: Frame)

  type Frame = x: int | 0 <= x < 0x100_0000_0000

  const NO_ENTRY := Pte(false, false, false, false, 0)

  /** A table by its level, 4 for the root down to 1, and the leading part of the page numbers it serves. */
  datatype Node = Node(level: nat, prefix: nat)

  /** The frames that hold the tables. */
  type Tables = map<Node, nat>

  // ----- page numbers

  /** Page number x without its `level` lowest 9-bit digits. */
  function Prefix(x: nat, level: nat): nat
  {
    if level == 0 then x else Prefix(x, level - 1) / ENTRIES
  }

  /** The entry that serves page x in a table of the given level. */
  function Index(x: nat, level: nat): (i: nat)
    requires 1 <= level
    ensures i < ENTRIES
  {
    Prefix(x, level - 1) % ENTRIES
  }

  function TableOf(x: nat, level: nat): Node
  {
    Node(level, Prefix(x, level))
  }

  function Child(k: Node, i: nat): Node
    requires 1 <= k.level
  {
    Node(k.level - 1, ENTRIES * k.prefix + i)
  }

  function Parent(k: Node): Node
  {
    Node(k.level + 1, k.prefix / ENTRIES)
  }

  lemma ChildOf(x: nat, level: nat)
    requires 1 <= level
    ensures Child(TableOf(x, level), Index(x, level)) == TableOf(x, level - 1)
    ensures Parent(TableOf(x, level - 1)) == TableOf(x, level)
  {
  }

  lemma ChildInjective(j: Node, i: nat, k: Node, l: nat)
    requires 1 <= j.level && 1 <= k.level && i < ENTRIES && l < ENTRIES && Child(j, i) == Child(k, l)
    ensures j == k && i == l
  {
  }

  lemma ParentOfChild(k: Node, i: nat)
    requires 1 <= k.level && i < ENTRIES
    ensures Parent(Child(k, i)) == k
  {
  }

  /** A page is its table of the lowest level and its entry there. */
  lemma SamePage(x: nat, y: nat)
    requires TableOf(x, 1) == TableOf(y, 1) && Index(x, 1) == Index(y, 1)
    ensures x == y
  {
    assert Prefix(x, 0) == x && Prefix(y, 0) == y;
    assert Prefix(x, 1) == x / ENTRIES && Prefix(y, 1) == y / ENTRIES;
  }

  lemma RootOf(x: nat)
    requires x < PAGES
    ensures TableOf(x, 4) == Node(4, 0)
  {
    assert Prefix(x, 1) == x / ENTRIES;
    assert Prefix(x, 2) == Prefix(x, 1) / ENTRIES;
    assert Prefix(x, 3) == Prefix(x, 2) / ENTRIES;
  }

  // ----- the walk through memory

  /** The frame an entry of the table in frame f leads to; None if there is no such entry. */
  function Step(mem: seq<Pte>, f: nat, i: nat): Option<nat>
    requires i < ENTRIES
  {
    if ENTRIES * f + ENTRIES <= |mem| && mem[ENTRIES * f + i].present then Some(mem[ENTRIES * f + i].frame) else None
  }

  /** The frame that the walk for page x reaches at a level, 0 being the page itself. The walk does not look at
      the huge-page bit. */
  function Walk(mem: seq<Pte>, root: nat, x: nat, level: nat): Option<nat>
    requires level <= 4
    decreases 4 - level
  {
    if level == 4 then Some(root)
    else
      var f := Walk(mem, root, x, level + 1);
      if f.None? then None else Step(mem, f.value, Index(x, level + 1))
  }

  // ----- the tree

  /** Entry i of table k: it leads to the table of the next level, and permits writing below, exactly if it is present
      and not a huge page. */
  predicate EntryOk(mem: seq<Pte>, t: Tables, k: Node, i: nat)
    requires k in t && 1 <= k.level && i < ENTRIES && ENTRIES * t[k] + ENTRIES <= |mem|
  {
    var e, c := mem[ENTRIES * t[k] + i], Child(k, i);
    if e.present && !e.huge then c in t && t[c] == e.frame && e.rw
    else c !in t && (e.huge ==> e.present)
  }

  predicate NodeOk(mem: seq<Pte>, t: Tables, k: Node)
    requires k in t
  {
    && 1 <= k.level <= 4 && (k.level == 4 ==> k.prefix == 0) && (k.level < 4 ==> Parent(k) in t)
    && ENTRIES * t[k] + ENTRIES <= |mem|
  }

  /** The tables form a tree, and no two of them share a frame. */
  ghost predicate Tree(mem: seq<Pte>, t: Tables)
  {
    && Node(4, 0) in t
    && (forall k :: k in t ==> NodeOk(mem, t, k))
    && (forall k, i: nat :: k in t && k.level > 1 && i < ENTRIES ==> EntryOk(mem, t, k, i))
    && (forall j, k :: j in t && k in t && t[j] == t[k] ==> j == k)
  }

  /** No huge page lies on the way to page x. */
  ghost predicate Clear(mem: seq<Pte>, t: Tables, x: nat)
    requires Tree(mem, t)
  {
    forall level :: 2 <= level <= 4 && TableOf(x, level) in t ==>
      !mem[ENTRIES * t[TableOf(x, level)] + Index(x, level)].huge
  }

  /** What a page is mapped to. */
  datatype Mapping = Mapping(frame: nat, rw: bool, user: bool)

  /** The partial map that the tables stand for. */
  ghost function Lookup(mem: seq<Pte>, t: Tables, x: nat): Option<Mapping>
    requires Tree(mem, t)
  {
    var k := TableOf(x, 1);
    if k !in t then None
    else
      var e := mem[ENTRIES * t[k] + Index(x, 1)];
      if e.present then Some(Mapping(e.frame, e.rw, e.user)) else None
  }

  // ----- huge pages

  /** Entry i of table k; no entry if there is no such table. */
  function Entry(mem: seq<Pte>, t: Tables, k: Node, i: nat): Pte
  {
    if k in t && i < ENTRIES && ENTRIES * t[k] + ENTRIES <= |mem| then mem[ENTRIES * t[k] + i] else NO_ENTRY
  }

  /** The entry of a level on the way to page x. */
  function OnTheWay(mem: seq<Pte>, t: Tables, x: nat, level: nat): Pte
    requires 1 <= level
  {
    Entry(mem, t, TableOf(x, level), Index(x, level))
  }

  /** How many pages an entry of a level serves. */
  function Served(level: nat): (n: nat)
    ensures 0 < n
  {
    if level <= 1 then 1 else ENTRIES * Served(level - 1)
  }

  /** What a huge page of a level maps page x to: the low digits of the frame are those of the page. */
  function HugeLeaf(e: Pte, x: nat, level: nat): Mapping
  {
    Mapping(e.frame / Served(level) * Served(level) + x % Served(level), e.rw, e.user)
  }

  /** What the processor translates page x to, through a huge page or a lowest table. */
  ghost function Translated(mem: seq<Pte>, t: Tables, x: nat): Option<Mapping>
    requires Tree(mem, t)
  {
    if Clear(mem, t, x) then Lookup(mem, t, x)
    else if OnTheWay(mem, t, x, 4).huge then Some(HugeLeaf(OnTheWay(mem, t, x, 4), x, 4))
    else if OnTheWay(mem, t, x, 3).huge then Some(HugeLeaf(OnTheWay(mem, t, x, 3), x, 3))
    else Some(HugeLeaf(OnTheWay(mem, t, x, 2), x, 2))
  }

  /** Every entry in use above the lowest tables is still there, in the same place of the same table. */
  ghost predicate UpperKept(mem: seq<Pte>, t: Tables, mem': seq<Pte>, t': Tables)
  {
    forall k: Node, i: nat :: k.level > 1 && Entry(mem, t, k, i).present ==>
      Entry(mem', t', k, i) == Entry(mem, t, k, i)
  }

  /** No huge page lies above a table. */
  lemma LeadsTo(mem: seq<Pte>, t: Tables, x: nat, level: nat)
    requires Tree(mem, t) && 2 <= level <= 4 && TableOf(x, level - 1) in t
    ensures TableOf(x, level) in t && !OnTheWay(mem, t, x, level).huge
  {
    hide Prefix, Index;
    ChildOf(x, level);
    assert NodeOk(mem, t, TableOf(x, level - 1));
    assert EntryOk(mem, t, TableOf(x, level), Index(x, level));
  }

  /** A huge page is present. */
  lemma HugePresent(mem: seq<Pte>, t: Tables, x: nat, level: nat)
    requires Tree(mem, t) && 2 <= level <= 4 && OnTheWay(mem, t, x, level).huge
    ensures OnTheWay(mem, t, x, level).present
  {
    hide Prefix, Index;
    assert EntryOk(mem, t, TableOf(x, level), Index(x, level));
  }

  lemma ClearWay(mem: seq<Pte>, t: Tables, x: nat)
    requires Tree(mem, t)
    ensures Clear(mem, t, x) <==> forall level :: 2 <= level <= 4 ==> !OnTheWay(mem, t, x, level).huge
  {
    hide Prefix, Index;
    forall level | 2 <= level <= 4 && TableOf(x, level) in t
      ensures OnTheWay(mem, t, x, level) == mem[ENTRIES * t[TableOf(x, level)] + Index(x, level)]
    {
      assert NodeOk(mem, t, TableOf(x, level));
    }
  }

  /** A page has at most one huge page on its way. */
  lemma HugeOnce(mem: seq<Pte>, t: Tables, x: nat, level: nat)
    requires Tree(mem, t) && 2 <= level <= 4 && OnTheWay(mem, t, x, level).huge
    ensures !Clear(mem, t, x) && Translated(mem, t, x) == Some(HugeLeaf(OnTheWay(mem, t, x, level), x, level))
  {
    hide Prefix, Index, HugeLeaf;
    ClearWay(mem, t, x);
    if level < 4 {
      LeadsTo(mem, t, x, level + 1);
    }
    if level < 3 {
      LeadsTo(mem, t, x, 4);
    }
  }

  /** What lies under huge pages is translated as before as long as these are kept. */
  lemma TranslatedKept(mem: seq<Pte>, t: Tables, mem': seq<Pte>, t': Tables, x: nat)
    requires Tree(mem, t) && Tree(mem', t') && UpperKept(mem, t, mem', t') && !Clear(mem, t, x)
    ensures !Clear(mem', t', x) && Translated(mem', t', x) == Translated(mem, t, x)
  {
    hide Prefix, Index, HugeLeaf, Tree, Clear, Entry;
    ClearWay(mem, t, x);
    var level :| 2 <= level <= 4 && OnTheWay(mem, t, x, level).huge;
    HugePresent(mem, t, x, level);
    HugeOnce(mem, t, x, level);
    HugeOnce(mem', t', x, level);
  }

  // ----- rights

  /** Every table and huge page on the way to page x that is there is open to programs. */
  ghost predicate WayOpen(mem: seq<Pte>, t: Tables, x: nat)
  {
    forall level :: 2 <= level <= 4 && OnTheWay(mem, t, x, level).present ==> OnTheWay(mem, t, x, level).user
  }

  /** A program may use page x: the processor asks for the right to the page and to every table on the way. */
  ghost predicate UserCan(mem: seq<Pte>, t: Tables, x: nat)
    requires Tree(mem, t)
  {
    Translated(mem, t, x).Some? && Translated(mem, t, x).value.user && WayOpen(mem, t, x)
  }

  /** The kernel may write to page x. For this, too, the processor asks for the right at every level. */
  ghost predicate KernelCanWrite(mem: seq<Pte>, t: Tables, x: nat)
    requires Tree(mem, t)
  {
    && Translated(mem, t, x).Some? && Translated(mem, t, x).value.rw
    && forall level :: 2 <= level <= 4 && OnTheWay(mem, t, x, level).present ==> OnTheWay(mem, t, x, level).rw
  }

  /** Tables never stand in the way of writing: the entry of the page alone decides. */
  lemma PageDecidesWrite(mem: seq<Pte>, t: Tables, x: nat)
    requires Tree(mem, t)
    ensures KernelCanWrite(mem, t, x) <==> Translated(mem, t, x).Some? && Translated(mem, t, x).value.rw
  {
    hide Prefix, Index;
    forall level | 2 <= level <= 4 && OnTheWay(mem, t, x, level).present && Translated(mem, t, x).Some?
                   && Translated(mem, t, x).value.rw
      ensures OnTheWay(mem, t, x, level).rw
    {
      var k, i := TableOf(x, level), Index(x, level);
      assert EntryOk(mem, t, k, i) && NodeOk(mem, t, k);
      if OnTheWay(mem, t, x, level).huge {
        HugeOnce(mem, t, x, level);
      }
    }
  }

  /** Where a page is translated, every entry on the way is in use, down to a huge page or the page itself. */
  lemma WayPresent(mem: seq<Pte>, t: Tables, x: nat, level: nat)
    requires Tree(mem, t) && 2 <= level <= 4 && TableOf(x, level - 1) in t
    ensures TableOf(x, level) in t && OnTheWay(mem, t, x, level).present
  {
    hide Prefix, Index;
    ChildOf(x, level);
    assert NodeOk(mem, t, TableOf(x, level - 1)) && NodeOk(mem, t, TableOf(x, level));
    assert EntryOk(mem, t, TableOf(x, level), Index(x, level));
  }

  /** The way to a translated page stays as long as the entries in use are kept. */
  lemma {:induction false} WayKept(mem: seq<Pte>, t: Tables, mem': seq<Pte>, t': Tables, x: nat, level: nat)
    requires Tree(mem, t) && Tree(mem', t') && UpperKept(mem, t, mem', t') && Translated(mem, t, x).Some?
    requires 2 <= level <= 4
    ensures OnTheWay(mem', t', x, level) == OnTheWay(mem, t, x, level)
  {
    hide Prefix, Index, Tree, HugeLeaf, Clear, Entry;
    ClearWay(mem, t, x);
    if Clear(mem, t, x) {
      WayDown(mem, t, x, 1, level);
    } else {
      var h :| 2 <= h <= 4 && OnTheWay(mem, t, x, h).huge;
      HugePresent(mem, t, x, h);
      if h < level {
        HugeTable(mem, t, x, h);
        WayDown(mem, t, x, h, level);
      } else if level < h {
        NothingBelow(mem, t, x, h, level);
        NothingBelow(mem', t', x, h, level);
      }
    }
  }

  lemma HugeTable(mem: seq<Pte>, t: Tables, x: nat, level: nat)
    requires 1 <= level && OnTheWay(mem, t, x, level).huge
    ensures TableOf(x, level) in t
  {
  }

  lemma {:induction false} WayDown(mem: seq<Pte>, t: Tables, x: nat, low: nat, level: nat)
    requires Tree(mem, t) && 1 <= low < level <= 4 && TableOf(x, low) in t
    ensures OnTheWay(mem, t, x, level).present
    decreases level - low
  {
    hide Prefix, Index, Tree, Entry;
    WayPresent(mem, t, x, low + 1);
    if low + 1 < level {
      WayDown(mem, t, x, low + 1, level);
    }
  }

  /** No table lies below a huge page. */
  lemma {:induction false} NothingBelow(mem: seq<Pte>, t: Tables, x: nat, h: nat, level: nat)
    requires Tree(mem, t) && 1 <= level < h <= 4 && OnTheWay(mem, t, x, h).huge
    ensures TableOf(x, level) !in t && OnTheWay(mem, t, x, level) == NO_ENTRY
    decreases h - level
  {
    hide Prefix, Index, Tree;
    if TableOf(x, level) in t {
      LeadsTo(mem, t, x, level + 1);
      if level + 1 < h {
        NothingBelow(mem, t, x, h, level + 1);
      }
    }
  }

  /** So does the right of programs to a page whose translation stays. */
  lemma RightsKept(mem: seq<Pte>, t: Tables, mem': seq<Pte>, t': Tables, x: nat)
    requires Tree(mem, t) && Tree(mem', t') && UpperKept(mem, t, mem', t')
    requires Translated(mem', t', x) == Translated(mem, t, x)
    ensures UserCan(mem', t', x) <==> UserCan(mem, t, x)
  {
    hide Tree, Translated, UpperKept, OnTheWay;
    if Translated(mem, t, x).Some? {
      WayKept(mem, t, mem', t', x, 2);
      WayKept(mem, t, mem', t', x, 3);
      WayKept(mem, t, mem', t', x, 4);
      assert forall level :: 2 <= level <= 4 ==> OnTheWay(mem', t', x, level) == OnTheWay(mem, t, x, level);
    }
  }

  /** A walk meets exactly the tables of the tree. */
  lemma {:induction false} WalkInTree(mem: seq<Pte>, t: Tables, x: nat, level: nat)
    requires Tree(mem, t) && x < PAGES && Clear(mem, t, x) && 1 <= level <= 4
    ensures var k := TableOf(x, level);
            Walk(mem, t[Node(4, 0)], x, level) == if k in t then Some(t[k]) else None
    decreases 4 - level
  {
    hide Prefix, Index;
    if level == 4 {
      RootOf(x);
    } else {
      WalkInTree(mem, t, x, level + 1);
      ChildOf(x, level + 1);
      var k := TableOf(x, level + 1);
      if k in t {
        assert EntryOk(mem, t, k, Index(x, level + 1));
      }
    }
  }

  /** The walk computes the partial map. */
  lemma WalkIsLookup(mem: seq<Pte>, t: Tables, x: nat)
    requires Tree(mem, t) && x < PAGES && Clear(mem, t, x)
    ensures var r := Lookup(mem, t, x);
            Walk(mem, t[Node(4, 0)], x, 0) == if r.Some? then Some(r.value.frame as nat) else None
  {
    WalkInTree(mem, t, x, 1);
    var k := TableOf(x, 1);
    if k in t {
      assert NodeOk(mem, t, k);
    }
  }

  // ----- changing an entry of a lowest table

  lemma SlotsApart(mem: seq<Pte>, t: Tables, j: Node, i: nat, k: Node, l: nat)
    requires Tree(mem, t) && j in t && k in t && i < ENTRIES && l < ENTRIES
    ensures ENTRIES * t[j] + i == ENTRIES * t[k] + l <==> j == k && i == l
  {
  }

  /** The memory with one entry changed. */
  function WithEntry(mem: seq<Pte>, f: nat, i: nat, e: Pte): seq<Pte>
    requires ENTRIES * f + ENTRIES <= |mem| && i < ENTRIES
  {
    mem[ENTRIES * f + i := e]
  }

  lemma LeafTree(mem: seq<Pte>, t: Tables, k: Node, i: nat, e: Pte)
    requires Tree(mem, t) && k in t && k.level == 1 && i < ENTRIES
    ensures NodeOk(mem, t, k) && Tree(WithEntry(mem, t[k], i, e), t)
  {
    assert NodeOk(mem, t, k);
    var mem' := WithEntry(mem, t[k], i, e);
    forall j, l: nat | j in t && j.level > 1 && l < ENTRIES
      ensures EntryOk(mem', t, j, l)
    {
      assert EntryOk(mem, t, j, l);
      SlotsApart(mem, t, j, l, k, i);
    }
    forall j | j in t ensures NodeOk(mem', t, j) {
      assert NodeOk(mem, t, j);
    }
  }

  /** Changing a lowest table keeps all the others. */
  lemma LeafKeepsUpper(mem: seq<Pte>, t: Tables, k: Node, i: nat, e: Pte)
    requires Tree(mem, t) && k in t && k.level == 1 && i < ENTRIES && NodeOk(mem, t, k)
    ensures UpperKept(mem, t, WithEntry(mem, t[k], i, e), t)
  {
    hide EntryOk;
    var mem' := WithEntry(mem, t[k], i, e);
    forall j: Node, l: nat | j.level > 1 && Entry(mem, t, j, l).present
      ensures Entry(mem', t, j, l) == Entry(mem, t, j, l)
    {
      SlotsApart(mem, t, j, l, k, i);
    }
  }

  /** Changing the entry of page v changes the mapping of that page only. */
  lemma LeafLookup(mem: seq<Pte>, t: Tables, v: nat, e: Pte, x: nat)
    requires Tree(mem, t) && TableOf(v, 1) in t && Clear(mem, t, x)
    ensures NodeOk(mem, t, TableOf(v, 1))
    ensures var mem' := WithEntry(mem, t[TableOf(v, 1)], Index(v, 1), e);
            && Tree(mem', t) && Clear(mem', t, x)
            && Lookup(mem', t, x) ==
               if x == v then (if e.present then Some(Mapping(e.frame, e.rw, e.user)) else None) else Lookup(mem, t, x)
  {
    hide Tree;
    var k := TableOf(v, 1);
    LeafTree(mem, t, k, Index(v, 1), e);
    LeafElsewhere(mem, t, v, e, x);
  }

  /** The entries of lowest tables do not matter to the way. */
  lemma LeafWay(mem: seq<Pte>, t: Tables, v: nat, e: Pte, x: nat)
    requires Tree(mem, t) && TableOf(v, 1) in t && NodeOk(mem, t, TableOf(v, 1))
    ensures WayOpen(WithEntry(mem, t[TableOf(v, 1)], Index(v, 1), e), t, x) <==> WayOpen(mem, t, x)
  {
    hide Prefix, Index;
    var k, i := TableOf(v, 1), Index(v, 1);
    forall level | 2 <= level <= 4
      ensures OnTheWay(WithEntry(mem, t[k], i, e), t, x, level) == OnTheWay(mem, t, x, level)
    {
      if TableOf(x, level) in t {
        SlotsApart(mem, t, TableOf(x, level), Index(x, level), k, i);
      }
    }
  }

  lemma LeafElsewhere(mem: seq<Pte>, t: Tables, v: nat, e: Pte, x: nat)
    requires Tree(mem, t) && TableOf(v, 1) in t && NodeOk(mem, t, TableOf(v, 1)) && Clear(mem, t, x)
    requires Tree(WithEntry(mem, t[TableOf(v, 1)], Index(v, 1), e), t)
    ensures var mem' := WithEntry(mem, t[TableOf(v, 1)], Index(v, 1), e);
            && Clear(mem', t, x)
            && Lookup(mem', t, x) ==
               if x == v then (if e.present then Some(Mapping(e.frame, e.rw, e.user)) else None) else Lookup(mem, t, x)
  {
    hide Prefix, Index;
    var k, i := TableOf(v, 1), Index(v, 1);
    var mem' := WithEntry(mem, t[k], i, e);
    forall level | 2 <= level <= 4 && TableOf(x, level) in t
      ensures !mem'[ENTRIES * t[TableOf(x, level)] + Index(x, level)].huge
    {
      SlotsApart(mem, t, TableOf(x, level), Index(x, level), k, i);
    }
    if x != v && TableOf(x, 1) in t && ENTRIES * t[TableOf(x, 1)] + Index(x, 1) == ENTRIES * t[k] + i {
      SlotsApart(mem, t, TableOf(x, 1), Index(x, 1), k, i);
      SamePage(x, v);
    }
  }

  // ----- adding a table

  /** The memory with frame f cleared. */
  function Blanked(mem: seq<Pte>, f: nat): (r: seq<Pte>)
    requires ENTRIES * f + ENTRIES <= |mem|
    ensures |r| == |mem|
  {
    mem[..ENTRIES * f] + seq(ENTRIES, _ => NO_ENTRY) + mem[ENTRIES * f + ENTRIES..]
  }

  lemma BlankedAt(mem: seq<Pte>, f: nat, s: nat)
    requires ENTRIES * f + ENTRIES <= |mem| && s < |mem|
    ensures Blanked(mem, f)[s] == if ENTRIES * f <= s < ENTRIES * f + ENTRIES then NO_ENTRY else mem[s]
  {
  }

  /** The memory after a new table in frame c was hung below entry i of table k. */
  function WithTable(mem: seq<Pte>, f: nat, i: nat, c: Frame, user: bool): (r: seq<Pte>)
    requires ENTRIES * f + ENTRIES <= |mem| && ENTRIES * c + ENTRIES <= |mem| && i < ENTRIES
    ensures |r| == |mem|
  {
    var mem1 := Blanked(mem, c);
    var e := mem1[ENTRIES * f + i];
    WithEntry(mem1, f, i, e.(present := true, rw := true, user := user, frame := c))
  }

  /** Table k can get a new table in frame c below its entry i. */
  ghost predicate Hangs(mem: seq<Pte>, t: Tables, k: Node, i: nat, c: Frame)
  {
    && Tree(mem, t) && k in t && 2 <= k.level && i < ENTRIES && NodeOk(mem, t, k)
    && !mem[ENTRIES * t[k] + i].present && c !in t.Values && ENTRIES * c + ENTRIES <= |mem|
  }

  lemma NewEntries(mem: seq<Pte>, t: Tables, k: Node, i: nat, c: Frame, user: bool, j: Node, l: nat)
    requires Hangs(mem, t, k, i, c) && j in t && l < ENTRIES
    ensures NodeOk(mem, t, j) && t[j] != c
    ensures WithTable(mem, t[k], i, c, user)[ENTRIES * t[j] + l]
         == if j == k && l == i then mem[ENTRIES * t[j] + l].(present := true, rw := true, user := user, frame := c)
            else mem[ENTRIES * t[j] + l]
  {
    hide Blanked;
    assert NodeOk(mem, t, j) && t[j] in t.Values;
    BlankedAt(mem, c, ENTRIES * t[j] + l);
    SlotsApart(mem, t, j, l, k, i);
  }

  lemma NewNodes(mem: seq<Pte>, t: Tables, k: Node, i: nat, c: Frame, user: bool, j: Node)
    requires Hangs(mem, t, k, i, c) && j in t[Child(k, i) := c]
    ensures NodeOk(WithTable(mem, t[k], i, c, user), t[Child(k, i) := c], j)
  {
    ParentOfChild(k, i);
    if j != Child(k, i) {
      assert NodeOk(mem, t, j);
    }
  }

  /** A table that is not there has no tables below it. */
  lemma NoOrphan(mem: seq<Pte>, t: Tables, k: Node, i: nat)
    requires Tree(mem, t) && k !in t && 1 <= k.level <= 4 && i < ENTRIES
    ensures Child(k, i) !in t
  {
    ParentOfChild(k, i);
  }

  lemma NewEntryOk(mem: seq<Pte>, t: Tables, k: Node, i: nat, c: Frame, user: bool, j: Node, l: nat)
    requires Hangs(mem, t, k, i, c) && Child(k, i) !in t
    requires j in t[Child(k, i) := c] && j.level > 1 && l < ENTRIES
    ensures NodeOk(WithTable(mem, t[k], i, c, user), t[Child(k, i) := c], j)
    ensures EntryOk(WithTable(mem, t[k], i, c, user), t[Child(k, i) := c], j, l)
  {
    hide WithTable;
    var n := Child(k, i);
    NewNodes(mem, t, k, i, c, user, j);
    if j == n {
      NewTableBlank(mem, t, k, i, c, user, l);
      NoOrphan(mem, t, n, l);
    } else {
      NewEntries(mem, t, k, i, c, user, j, l);
      assert EntryOk(mem, t, j, l);
      if Child(j, l) == n {
        ChildInjective(j, l, k, i);
      }
    }
  }

  /** The tree has grown by one table. */
  lemma NewTree(mem: seq<Pte>, t: Tables, k: Node, i: nat, c: Frame, user: bool)
    requires Hangs(mem, t, k, i, c)
    ensures Child(k, i) !in t && Tree(WithTable(mem, t[k], i, c, user), t[Child(k, i) := c])
  {
    hide WithTable, EntryOk;
    var mem', n := WithTable(mem, t[k], i, c, user), Child(k, i);
    var t' := t[n := c];
    EntryAbsent(mem, t, k, i);
    forall j | j in t' ensures NodeOk(mem', t', j) {
      NewNodes(mem, t, k, i, c, user, j);
    }
    forall j, l: nat | j in t' && j.level > 1 && l < ENTRIES
      ensures EntryOk(mem', t', j, l)
    {
      NewEntryOk(mem, t, k, i, c, user, j, l);
    }
    forall j, l | j in t' && l in t' && t'[j] == t'[l] ensures j == l {
      if j in t {
        assert t[j] in t.Values;
      }
      if l in t {
        assert t[l] in t.Values;
      }
    }
  }

  lemma EntryAbsent(mem: seq<Pte>, t: Tables, k: Node, i: nat)
    requires Tree(mem, t) && k in t && 2 <= k.level && i < ENTRIES && NodeOk(mem, t, k)
    requires !mem[ENTRIES * t[k] + i].present
    ensures Child(k, i) !in t
  {
    assert EntryOk(mem, t, k, i);
  }

  lemma NewTableBlank(mem: seq<Pte>, t: Tables, k: Node, i: nat, c: Frame, user: bool, l: nat)
    requires Hangs(mem, t, k, i, c) && l < ENTRIES
    ensures WithTable(mem, t[k], i, c, user)[ENTRIES * c + l] == NO_ENTRY
  {
    hide Blanked;
    assert t[k] in t.Values;
    BlankedAt(mem, c, ENTRIES * c + l);
  }

  /** Every entry of every old table keeps its huge-page bit, and a new table has none. */
  lemma NewTableClear(mem: seq<Pte>, t: Tables, k: Node, i: nat, c: Frame, user: bool, x: nat)
    requires Hangs(mem, t, k, i, c) && Clear(mem, t, x)
    requires Tree(WithTable(mem, t[k], i, c, user), t[Child(k, i) := c])
    ensures Clear(WithTable(mem, t[k], i, c, user), t[Child(k, i) := c], x)
  {
    hide Prefix, Index, WithTable, EntryOk;
    var mem', n := WithTable(mem, t[k], i, c, user), Child(k, i);
    var t' := t[n := c];
    forall level | 2 <= level <= 4 && TableOf(x, level) in t'
      ensures NodeOk(mem', t', TableOf(x, level))
      ensures !mem'[ENTRIES * t'[TableOf(x, level)] + Index(x, level)].huge
    {
      NewNodes(mem, t, k, i, c, user, TableOf(x, level));
      if TableOf(x, level) == n {
        NewTableBlank(mem, t, k, i, c, user, Index(x, level));
      } else {
        NewEntries(mem, t, k, i, c, user, TableOf(x, level), Index(x, level));
      }
    }
  }

  /** A new table comes where nothing was present. */
  lemma NewTableKeepsUpper(mem: seq<Pte>, t: Tables, k: Node, i: nat, c: Frame, user: bool)
    requires Hangs(mem, t, k, i, c) && Child(k, i) !in t
    ensures UpperKept(mem, t, WithTable(mem, t[k], i, c, user), t[Child(k, i) := c])
  {
    hide WithTable;
    assert EntryOk(mem, t, k, i);
    forall j: Node, l: nat | j.level > 1 && Entry(mem, t, j, l).present
      ensures Entry(WithTable(mem, t[k], i, c, user), t[Child(k, i) := c], j, l) == Entry(mem, t, j, l)
    {
      NewEntries(mem, t, k, i, c, user, j, l);
    }
  }

  /** A new table is open to programs as asked for, and the ways that do not lead through it are as before. */
  lemma NewTableOpen(mem: seq<Pte>, t: Tables, k: Node, i: nat, c: Frame, user: bool, x: nat)
    requires Hangs(mem, t, k, i, c) && Child(k, i) !in t
    ensures WayOpen(WithTable(mem, t[k], i, c, user), t[Child(k, i) := c], x)
       <==> WayOpen(mem, t, x) && (user || TableOf(x, k.level - 1) != Child(k, i))
  {
    hide Prefix, Index, WithTable, EntryOk, Tree, OnTheWay, Child;
    NewOnTheWay(mem, t, k, i, c, user, x, 2);
    NewOnTheWay(mem, t, k, i, c, user, x, 3);
    NewOnTheWay(mem, t, k, i, c, user, x, 4);
    assert 2 <= k.level <= 4;
    WayOpenIs(mem, t, x);
    WayOpenIs(WithTable(mem, t[k], i, c, user), t[Child(k, i) := c], x);
  }

  lemma WayOpenIs(mem: seq<Pte>, t: Tables, x: nat)
    ensures WayOpen(mem, t, x)
       <==> && (OnTheWay(mem, t, x, 2).present ==> OnTheWay(mem, t, x, 2).user)
            && (OnTheWay(mem, t, x, 3).present ==> OnTheWay(mem, t, x, 3).user)
            && (OnTheWay(mem, t, x, 4).present ==> OnTheWay(mem, t, x, 4).user)
  {
    hide OnTheWay;
  }

  lemma NewOnTheWay(mem: seq<Pte>, t: Tables, k: Node, i: nat, c: Frame, user: bool, x: nat, level: nat)
    requires Hangs(mem, t, k, i, c) && Child(k, i) !in t && 2 <= level <= 4
    ensures var here, mem', t' := TableOf(x, level) == k && Index(x, level) == i, WithTable(mem, t[k], i, c, user),
                                  t[Child(k, i) := c];
            && (here <==> level == k.level && TableOf(x, k.level - 1) == Child(k, i))
            && (if here then !OnTheWay(mem, t, x, level).present && OnTheWay(mem', t', x, level).present
                             && OnTheWay(mem', t', x, level).user == user
                else OnTheWay(mem', t', x, level) == OnTheWay(mem, t, x, level))
  {
    hide Prefix, Index, WithTable, EntryOk, Tree;
    var n := TableOf(x, level);
    ChildOf(x, level);
    if level == k.level && TableOf(x, k.level - 1) == Child(k, i) {
      ChildInjective(n, Index(x, level), k, i);
    }
    if n == Child(k, i) {
      NewTableBlank(mem, t, k, i, c, user, Index(x, level));
    } else if n in t {
      NewEntries(mem, t, k, i, c, user, n, Index(x, level));
    }
  }

  /** Adding a table changes no mapping. */
  lemma NewTableKeeps(mem: seq<Pte>, t: Tables, k: Node, i: nat, c: Frame, user: bool, x: nat)
    requires Hangs(mem, t, k, i, c) && Clear(mem, t, x)
    requires Tree(WithTable(mem, t[k], i, c, user), t[Child(k, i) := c]) && Child(k, i) !in t
    ensures var mem', t' := WithTable(mem, t[k], i, c, user), t[Child(k, i) := c];
            Clear(mem', t', x) && Lookup(mem', t', x) == Lookup(mem, t, x)
  {
    hide Prefix, Index, WithTable, Clear, EntryOk;
    NewTableClear(mem, t, k, i, c, user, x);
    if TableOf(x, 1) == Child(k, i) {
      NewTableBlank(mem, t, k, i, c, user, Index(x, 1));
    } else if TableOf(x, 1) in t {
      NewEntries(mem, t, k, i, c, user, TableOf(x, 1), Index(x, 1));
    }
  }
}
