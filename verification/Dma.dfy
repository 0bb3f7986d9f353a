/** The pool of DMA buffers in low memory: a list of ranges that tile it. */
module Dma {
  import opened Bytes

  const DMA_START: U32 := 0x1_0000
  const DMA_END: U32 := 0xA_0000
  const ALIGN := 0x1000
  const NODE_SIZE := 24
  const LIMIT := 0x1_0000_0000

  /** A range of the pool. */
  datatype Range = Range(address: nat, size: nat, inUse: bool)

  predicate RangeOk(ranges: seq<Range>, i: nat)
    requires i < |ranges|
  {
    && 0 < ranges[i].size && ranges[i].size % ALIGN == 0
    && ranges[i].address + ranges[i].size == (if i + 1 < |ranges| then ranges[i + 1].address else DMA_END)
  }

  /** The ranges lie one after the other from the start of the pool to its end, in pages. */
  ghost predicate Tiles(ranges: seq<Range>)
  {
    0 < |ranges| && ranges[0].address == DMA_START && forall i :: 0 <= i < |ranges| ==> RangeOk(ranges, i)
  }

  lemma {:induction false} InOrder(ranges: seq<Range>, i: nat, j: nat)
    requires Tiles(ranges) && i < j < |ranges|
    ensures ranges[i].address + ranges[i].size <= ranges[j].address
    decreases j - i
  {
    assert RangeOk(ranges, j - 1);
    if i < j - 1 {
      InOrder(ranges, i, j - 1);
      assert RangeOk(ranges, j - 1);
    }
  }

  /** Ranges lie inside the pool, at page boundaries. */
  lemma {:induction false} Inside(ranges: seq<Range>, i: nat)
    requires Tiles(ranges) && i < |ranges|
    ensures DMA_START <= ranges[i].address && ranges[i].address % ALIGN == 0
    ensures ranges[i].address + ranges[i].size <= DMA_END
    decreases i
  {
    assert RangeOk(ranges, i);
    if i > 0 {
      Inside(ranges, i - 1);
      assert RangeOk(ranges, i - 1);
    }
    if i + 1 < |ranges| {
      var n := |ranges| - 1;
      InOrder(ranges, i, n);
      assert RangeOk(ranges, n);
    }
  }

  /** No two grants overlap. */
  lemma GrantsApart(ranges: seq<Range>, i: nat, j: nat)
    requires Tiles(ranges) && i < |ranges| && j < |ranges| && i != j
    ensures ranges[i].address + ranges[i].size <= ranges[j].address
            || ranges[j].address + ranges[j].size <= ranges[i].address
    ensures ranges[i].address != ranges[j].address
  {
    assert RangeOk(ranges, i) && RangeOk(ranges, j);
    if i < j {
      InOrder(ranges, i, j);
    } else {
      InOrder(ranges, j, i);
    }
  }

  /** The bytes in ranges that are in use. */
  function InUseTotal(ranges: seq<Range>): nat
  {
    if ranges == [] then 0
    else InUseTotal(ranges[..|ranges| - 1]) + Used(ranges[|ranges| - 1])
  }

  function Used(r: Range): nat
  {
    if r.inUse then r.size else 0
  }

  lemma {:induction false} TotalOf(a: seq<Range>, b: seq<Range>)
    ensures InUseTotal(a + b) == InUseTotal(a) + InUseTotal(b)
    decreases |b|
  {
    if b == [] {
      assert a + b == a;
    } else {
      var n := |b| - 1;
      TotalOf(a, b[..n]);
      assert (a + b)[..|a + b| - 1] == a + b[..n];
    }
  }

  lemma TotalOne(r: Range)
    ensures InUseTotal([r]) == Used(r)
  {
    assert [r][..0] == [];
  }

  /** Replacing one range by others changes the total by the difference. */
  lemma TotalReplaced(ranges: seq<Range>, k: nat, m: nat, middle: seq<Range>)
    requires k + m <= |ranges|
    ensures InUseTotal(ranges[..k] + middle + ranges[k + m..]) + InUseTotal(ranges[k..k + m])
         == InUseTotal(ranges) + InUseTotal(middle)
  {
    TotalOf(ranges[..k], middle);
    TotalOf(ranges[..k] + middle, ranges[k + m..]);
    TotalOf(ranges[..k], ranges[k..k + m]);
    TotalOf(ranges[..k] + ranges[k..k + m], ranges[k + m..]);
    assert ranges == ranges[..k] + ranges[k..k + m] + ranges[k + m..];
  }

  // ----- allocating

  /** A request rounded up to whole pages; the rounding wraps around near 2^32. */
  function Rounded(size: U32): (n: U32)
    ensures n % ALIGN == 0
  {
    (size + 0xFFF) % LIMIT / ALIGN * ALIGN
  }

  /** A request other than 0 is rounded to a positive number of pages, and to at least as much as it asks for,
      exactly if the rounding does not wrap around. */
  lemma RoundedUp(size: U32)
    requires 0 < size
    ensures 0 < Rounded(size) <==> size <= LIMIT - ALIGN
    ensures size <= Rounded(size) <==> size <= LIMIT - ALIGN
    ensures size <= LIMIT - ALIGN ==> Rounded(size) < size + 4096
  {
  }

  predicate Fit(r: Range, n: nat)
  {
    !r.inUse && r.size >= n
  }

  /** The first free range of at least n bytes. */
  function FirstFit(ranges: seq<Range>, n: nat): (r: Option<nat>)
    ensures r.Some? ==> r.value < |ranges| && Fit(ranges[r.value], n)
  {
    if ranges == [] then None
    else if Fit(ranges[0], n) then Some(0)
    else
      var r := FirstFit(ranges[1..], n);
      if r.None? then None else Some(r.value + 1)
  }

  lemma {:induction false} FirstFitIs(ranges: seq<Range>, n: nat, k: nat)
    requires k <= |ranges| && (forall i :: 0 <= i < k ==> !Fit(ranges[i], n)) && (k < |ranges| ==> Fit(ranges[k], n))
    ensures FirstFit(ranges, n) == if k < |ranges| then Some(k) else None
  {
    if k > 0 {
      FirstFitIs(ranges[1..], n, k - 1);
    }
  }

  /** A range is split if more is left than a node and a page. */
  predicate Splits(r: Range, n: nat)
  {
    r.size > n + NODE_SIZE + ALIGN
  }

  /** The ranges after n bytes were granted in range k; `node` says whether there was memory for a new node. */
  function Taken(ranges: seq<Range>, k: nat, n: nat, node: bool): seq<Range>
    requires k < |ranges|
  {
    var r := ranges[k];
    if Splits(r, n) && node then
      ranges[..k] + [Range(r.address, n, true), Range(r.address + n, r.size - n, false)] + ranges[k + 1..]
    else ranges[k := r.(inUse := true)]
  }

  lemma TakenIs(ranges: seq<Range>, k: nat, n: nat, node: bool, mid: seq<Range>)
    requires k < |ranges| && !ranges[k].inUse
    requires var r := ranges[k];
             mid == if Splits(r, n) && node
                    then ranges[..k] + [r.(size := n), Range(r.address + n, r.size - n, false)] + ranges[k + 1..]
                    else ranges
    ensures k < |mid| && mid[k := mid[k].(inUse := true)] == Taken(ranges, k, n, node)
  {
  }

  /** How much larger the granted range is than the rounded request. */
  function Slack(r: Range, n: nat, node: bool): nat
    requires n <= r.size
  {
    if Splits(r, n) && node then 0 else r.size - n
  }

  /** With memory for nodes, a granted range is as large as the rounded request or one page larger; the latter
      exactly if one page was left. */
  lemma SlackIs(r: Range, n: nat)
    requires r.size % ALIGN == 0 && n % ALIGN == 0 && n <= r.size
    ensures Slack(r, n, true) == if r.size == n + ALIGN then ALIGN else 0
  {
  }

  lemma TakenTiles(ranges: seq<Range>, k: nat, n: nat, node: bool)
    requires Tiles(ranges) && k < |ranges| && Fit(ranges[k], n) && 0 < n && n % ALIGN == 0
    ensures Tiles(Taken(ranges, k, n, node))
  {
    var ranges' := Taken(ranges, k, n, node);
    assert RangeOk(ranges, k);
    forall i | 0 <= i < |ranges'| ensures RangeOk(ranges', i) {
      assert RangeOk(ranges, if i <= k || !(Splits(ranges[k], n) && node) then i else i - 1);
    }
  }

  /** The ranges in use. */
  ghost function InUse(ranges: seq<Range>): set<Range>
  {
    set r | r in ranges && r.inUse
  }

  lemma {:induction false} Increasing(ranges: seq<Range>, i: nat, j: nat)
    requires Tiles(ranges) && i < j < |ranges|
    ensures ranges[i].address < ranges[j].address
    decreases j - i
  {
    assert RangeOk(ranges, i) && RangeOk(ranges, j - 1);
    if i + 1 < j {
      Increasing(ranges, i, j - 1);
    }
  }

  /** A grant adds one range, which starts where the free range did, and changes no other. */
  lemma TakenInUse(ranges: seq<Range>, k: nat, n: nat, node: bool)
    requires Tiles(ranges) && k < |ranges| && Fit(ranges[k], n)
    ensures var r := Range(ranges[k].address, n + Slack(ranges[k], n, node), true);
            r !in InUse(ranges) && InUse(Taken(ranges, k, n, node)) == InUse(ranges) + {r}
  {
    var r, ranges' := Range(ranges[k].address, n + Slack(ranges[k], n, node), true), Taken(ranges, k, n, node);
    var split := Splits(ranges[k], n) && node;
    forall i | 0 <= i < |ranges| && i != k
      ensures ranges[i].address != r.address && ranges'[if i < k || !split then i else i + 1] == ranges[i]
    {
      if i < k {
        Increasing(ranges, i, k);
      } else {
        Increasing(ranges, k, i);
      }
    }
    forall c | c in InUse(ranges')
      ensures c == r || c in InUse(ranges)
    {
      var i :| 0 <= i < |ranges'| && ranges'[i] == c;
      if i != k {
        assert c == ranges[if i < k || !split then i else i - 1];
      }
    }
    assert ranges'[k] == r;
    forall c | c in InUse(ranges)
      ensures c in InUse(ranges') && c != r
    {
      var i :| 0 <= i < |ranges| && ranges[i] == c;
      assert ranges'[if i < k || !split then i else i + 1] == c;
    }
  }

  lemma TakenTotal(ranges: seq<Range>, k: nat, n: nat, node: bool)
    requires k < |ranges| && Fit(ranges[k], n)
    ensures InUseTotal(Taken(ranges, k, n, node)) == InUseTotal(ranges) + n + Slack(ranges[k], n, node)
  {
    hide InUseTotal;
    var r := ranges[k];
    assert ranges[k..k + 1] == [r];
    TotalOne(r);
    if Splits(r, n) && node {
      var a, b := Range(r.address, n, true), Range(r.address + n, r.size - n, false);
      TotalReplaced(ranges, k, 1, [a, b]);
      TotalOf([a], [b]);
      assert [a] + [b] == [a, b];
      TotalOne(a);
      TotalOne(b);
    } else {
      TotalReplaced(ranges, k, 1, [r.(inUse := true)]);
      TotalOne(r.(inUse := true));
      assert ranges[..k] + [r.(inUse := true)] + ranges[k + 1..] == ranges[k := r.(inUse := true)];
    }
  }

  /** A request whose rounding wraps around asks for no bytes at all. It is granted an empty range, unless the first
      free range is a single page. */
  lemma WrappedRequest(ranges: seq<Range>, k: nat, size: U32)
    requires Tiles(ranges) && k < |ranges| && !ranges[k].inUse && size > LIMIT - ALIGN
    ensures Rounded(size) == 0 && (Tiles(Taken(ranges, k, 0, true)) <==> ranges[k].size == ALIGN)
  {
    var ranges' := Taken(ranges, k, 0, true);
    assert RangeOk(ranges, k);
    if ranges[k].size == ALIGN {
      forall i | 0 <= i < |ranges'| ensures RangeOk(ranges', i) {
        assert RangeOk(ranges, i);
      }
    } else {
      assert !RangeOk(ranges', k);
    }
  }

  // ----- freeing

  /** The range in use at an address. */
  function Find(ranges: seq<Range>, address: nat): (r: Option<nat>)
    ensures r.Some? ==> r.value < |ranges| && At(ranges[r.value], address)
  {
    if ranges == [] then None
    else if At(ranges[0], address) then Some(0)
    else
      var r := Find(ranges[1..], address);
      if r.None? then None else Some(r.value + 1)
  }

  predicate At(r: Range, address: nat)
  {
    r.address == address && r.inUse
  }

  lemma {:induction false} FindIs(ranges: seq<Range>, address: nat, k: nat)
    requires k <= |ranges| && (forall i :: 0 <= i < k ==> !At(ranges[i], address))
             && (k < |ranges| ==> At(ranges[k], address))
    ensures Find(ranges, address) == if k < |ranges| then Some(k) else None
  {
    if k > 0 {
      FindIs(ranges[1..], address, k - 1);
    }
  }

  /** The ranges after range k was freed: it is merged with the next one if that is free. */
  function Freed(ranges: seq<Range>, k: nat): seq<Range>
    requires k < |ranges|
  {
    if k + 1 < |ranges| && !ranges[k + 1].inUse then
      ranges[..k] + [Range(ranges[k].address, ranges[k].size + ranges[k + 1].size, false)] + ranges[k + 2..]
    else ranges[k := ranges[k].(inUse := false)]
  }

  lemma FreedIs(ranges: seq<Range>, k: nat, mid: seq<Range>, ranges': seq<Range>)
    requires k < |ranges| && mid == ranges[k := ranges[k].(inUse := false)]
    requires ranges' == if k + 1 < |mid| && !mid[k + 1].inUse
                        then mid[..k] + [mid[k].(size := mid[k].size + mid[k + 1].size)] + mid[k + 2..]
                        else mid
    ensures ranges' == Freed(ranges, k)
  {
  }

  lemma FreedTiles(ranges: seq<Range>, k: nat)
    requires Tiles(ranges) && k < |ranges|
    ensures Tiles(Freed(ranges, k))
  {
    var ranges' := Freed(ranges, k);
    assert RangeOk(ranges, k);
    if k + 1 < |ranges| {
      assert RangeOk(ranges, k + 1);
    }
    forall i | 0 <= i < |ranges'| ensures RangeOk(ranges', i) {
      assert RangeOk(ranges, if i <= k || !(k + 1 < |ranges| && !ranges[k + 1].inUse) then i else i + 1);
    }
  }

  /** A release takes away just that range, and what was free behind it can be granted together with it. */
  lemma FreedInUse(ranges: seq<Range>, k: nat)
    requires Tiles(ranges) && k < |ranges| && ranges[k].inUse
    ensures InUse(Freed(ranges, k)) == InUse(ranges) - {ranges[k]}
    ensures var r := Freed(ranges, k)[k];
            && !r.inUse && r.address == ranges[k].address
            && r.size == ranges[k].size + if k + 1 < |ranges| && !ranges[k + 1].inUse then ranges[k + 1].size else 0
  {
    var ranges' := Freed(ranges, k);
    var merged := k + 1 < |ranges| && !ranges[k + 1].inUse;
    forall i | 0 <= i < |ranges| && i != k
      ensures ranges[i] != ranges[k]
    {
      if i < k {
        Increasing(ranges, i, k);
      } else {
        Increasing(ranges, k, i);
      }
    }
    forall c | c in InUse(ranges')
      ensures c in InUse(ranges) && c != ranges[k]
    {
      var i :| 0 <= i < |ranges'| && ranges'[i] == c;
      assert c == ranges[if i < k || !merged then i else i + 1];
    }
    forall c | c in InUse(ranges) && c != ranges[k]
      ensures c in InUse(ranges')
    {
      var i :| 0 <= i < |ranges| && ranges[i] == c;
      assert ranges'[if i < k || !merged then i else i - 1] == c;
    }
  }

  lemma FreedTotal(ranges: seq<Range>, k: nat)
    requires k < |ranges| && ranges[k].inUse
    ensures InUseTotal(Freed(ranges, k)) + ranges[k].size == InUseTotal(ranges)
  {
    hide InUseTotal;
    var r := ranges[k];
    if k + 1 < |ranges| && !ranges[k + 1].inUse {
      MergedTotal(ranges, k);
    } else {
      TotalReplaced(ranges, k, 1, [r.(inUse := false)]);
      TotalOne(r);
      TotalOne(r.(inUse := false));
      assert ranges[k..k + 1] == [r];
      assert ranges[..k] + [r.(inUse := false)] + ranges[k + 1..] == ranges[k := r.(inUse := false)];
    }
  }

  lemma MergedTotal(ranges: seq<Range>, k: nat)
    requires k + 1 < |ranges| && ranges[k].inUse && !ranges[k + 1].inUse
    ensures InUseTotal(Freed(ranges, k)) + ranges[k].size == InUseTotal(ranges)
  {
    hide InUseTotal;
    var r, s := ranges[k], ranges[k + 1];
    var m := Range(r.address, r.size + s.size, false);
    assert ranges[k..k + 2] == [r] + [s];
    TotalReplaced(ranges, k, 2, [m]);
    TotalOf([r], [s]);
    TotalOne(m);
    TotalOne(r);
    TotalOne(s);
  }

  /** Adding to a wrapped count. */
  lemma Wraps(a: int, b: int)
    ensures (a % LIMIT + b) % LIMIT == (a + b) % LIMIT
  {
  }

  // ----- the list

  class Node {
    var address: U32
    var size: U32
    var inUse: bool
    var next: Node?

    constructor (address: U32, size: U32, next: Node?)
      ensures this.address == address && this.size == size && !inUse && this.next == next
    {
      this.address, this.size, inUse, this.next := address, size, false, next;
    }
  }

  class Pool {
    var head: Node?
    var used: U32
    ghost var nodes: seq<Node>
    /** By how much all ranges granted so far exceeded their rounded requests. */
    ghost var slack: nat

    ghost predicate Linked()
      reads this`head, this`nodes, nodes
    {
      && head == NodeAt(nodes, 0)
      && (forall i :: 0 <= i < |nodes| ==> LinkOk(nodes, i))
      && Distinct(nodes)
    }

    /** The ranges the list stands for. */
    ghost function Ranges(): (r: seq<Range>)
      reads this`nodes, nodes
      ensures |r| == |nodes|
    {
      var list := nodes;
      seq(|list|, i requires 0 <= i < |list| reads list => Range(list[i].address, list[i].size, list[i].inUse))
    }

    ghost predicate Valid()
      reads this, nodes
    {
      Linked() && Tiles(Ranges()) && used == (InUseTotal(Ranges()) - slack) % LIMIT
    }

    constructor ()
      ensures Valid() && fresh(nodes) && slack == 0
      ensures Ranges() == [Range(DMA_START, DMA_END - DMA_START, false)]
    {
      var first := new Node(DMA_START, DMA_END - DMA_START, null);
      head, used, nodes, slack := first, 0, [first], 0;
      new;
      assert Ranges() == [Range(DMA_START, DMA_END - DMA_START, false)];
      assert RangeOk(Ranges(), 0);
      TotalOne(Ranges()[0]);
    }

    /** Grants the first free range that is large enough; `node` says whether there is memory for a new node. */
    method Alloc(size: U32, node: bool) returns (address: U32)
      requires Valid() && size <= LIMIT - ALIGN
      modifies this, nodes
      ensures Valid() && (forall n :: n in nodes ==> n in old(nodes) || fresh(n))
      ensures var n, k := Rounded(size), FirstFit(old(Ranges()), Rounded(size));
              if size == 0 || k.None? then
                address == 0 && Ranges() == old(Ranges()) && used == old(used) && slack == old(slack)
              else
                && address == old(Ranges())[k.value].address && Ranges() == Taken(old(Ranges()), k.value, n, node)
                && slack == old(slack) + Slack(old(Ranges())[k.value], n, node)
    {
      hide Tiles, InUseTotal, FirstFit, Taken;
      if size == 0 {
        return 0;
      }
      RoundedUp(size);
      var n := Rounded(size);
      ghost var ranges, k := Ranges(), 0;
      var current := head;
      while current != null
        invariant k <= |nodes| && current == NodeAt(nodes, k)
        invariant forall i :: 0 <= i < k ==> !Fit(ranges[i], n)
        decreases |nodes| - k
      {
        assert LinkOk(nodes, k);
        if !current.inUse && current.size >= n {
          FirstFitIs(ranges, n, k);
          address := current.address;
          Grant(current, n, node, k);
          return;
        }
        current := current.next;
        k := k + 1;
      }
      FirstFitIs(ranges, n, k);
      return 0;
    }

    /** Cuts the node at k after n bytes and links a new node for the rest behind it. */
    method Split(current: Node, n: U32, ghost k: nat)
      requires Linked() && k < |nodes| && current == nodes[k] && n < current.size && current.address + n < LIMIT
      modifies this`nodes, current
      ensures Linked() && k < |nodes| && nodes[k] == current
      ensures forall m :: m in nodes ==> m in old(nodes) || fresh(m)
      ensures var ranges, r := old(Ranges()), old(Ranges())[k];
              Ranges() == ranges[..k] + [r.(size := n), Range(r.address + n, r.size - n, false)] + ranges[k + 1..]
    {
      hide Distinct;
      ghost var nodes0, ranges := nodes, Ranges();
      OtherNodes(nodes, k);
      assert LinkOk(nodes, k);
      var rest := new Node(current.address + n, current.size - n, current.next);
      ghost var expected :=
        ranges[..k] + [ranges[k].(size := n), Range(rest.address, rest.size, false)] + ranges[k + 1..];
      current.next := rest;
      current.size := n;
      InsertedDistinct(nodes0, k, rest);
      nodes := nodes0[..k + 1] + [rest] + nodes0[k + 1..];
      forall i | 0 <= i < |nodes|
        ensures LinkOk(nodes, i)
      {
        assert old(LinkOk(nodes0, if i <= k then i else if i == k + 1 then k else i - 1));
      }
      forall i | 0 <= i < |nodes|
        ensures Ranges()[i] == expected[i]
      {
        if i > k + 1 {
          assert nodes[i] == nodes0[i - 1];
        }
      }
      assert Ranges() == expected;
    }

    lemma NextNode(k: nat)
      requires Linked() && k < |nodes|
      ensures nodes[k].next == NodeAt(nodes, k + 1)
    {
      assert LinkOk(nodes, k);
    }

    /** Marks the node at k. */
    method Mark(current: Node, inUse: bool, ghost k: nat)
      requires Linked() && k < |nodes| && current == nodes[k]
      modifies current`inUse
      ensures Linked() && Ranges() == old(Ranges())[k := old(Ranges())[k].(inUse := inUse)]
    {
      OtherNodes(nodes, k);
      ghost var ranges := Ranges();
      current.inUse := inUse;
      forall i | 0 <= i < |nodes|
        ensures LinkOk(nodes, i)
      {
        assert old(LinkOk(nodes, i));
      }
      assert Ranges() == ranges[k := ranges[k].(inUse := inUse)];
    }

    /** Joins the node at k with the one behind it, which leaves the list. */
    method Merge(current: Node, ghost k: nat)
      requires Linked() && k + 1 < |nodes| && current == nodes[k] && current.size + nodes[k + 1].size < LIMIT
      modifies this`nodes, current
      ensures Linked() && |nodes| == old(|nodes|) - 1 && nodes[k] == current
              && (forall n :: n in nodes ==> n in old(nodes))
      ensures var ranges, r := old(Ranges()), old(Ranges())[k];
              Ranges() == ranges[..k] + [r.(size := r.size + ranges[k + 1].size)] + ranges[k + 2..]
    {
      hide Distinct;
      ghost var nodes0, ranges := nodes, Ranges();
      OtherNodes(nodes, k);
      assert LinkOk(nodes, k) && LinkOk(nodes, k + 1);
      ghost var expected := ranges[..k] + [ranges[k].(size := ranges[k].size + ranges[k + 1].size)] + ranges[k + 2..];
      var next: Node := current.next;
      current.size := current.size + next.size;
      current.next := next.next;
      RemovedDistinct(nodes0, k + 1);
      nodes := nodes0[..k + 1] + nodes0[k + 2..];
      forall i | 0 <= i < |nodes|
        ensures LinkOk(nodes, i)
      {
        assert old(LinkOk(nodes0, if i <= k then i else i + 1));
      }
      forall i | 0 <= i < |nodes|
        ensures Ranges()[i] == expected[i]
      {
        if i > k {
          assert nodes[i] == nodes0[i + 1];
        }
      }
      assert Ranges() == expected;
    }

    /** Splits a range if it is too large, and marks it. */
    method Grant(current: Node, n: U32, node: bool, ghost k: nat)
      requires Valid() && k < |nodes| && current == nodes[k] && Fit(Ranges()[k], n) && 0 < n && n % ALIGN == 0
      modifies this, nodes
      ensures Valid() && (forall m :: m in nodes ==> m in old(nodes) || fresh(m))
      ensures Ranges() == Taken(old(Ranges()), k, n, node)
      ensures slack == old(slack) + Slack(old(Ranges())[k], n, node)
    {
      hide Tiles, InUseTotal, Linked, Taken, Slack;
      ghost var ranges := Ranges();
      TakenTiles(ranges, k, n, node);
      TakenTotal(ranges, k, n, node);
      Inside(ranges, k);
      if current.size > n + NODE_SIZE + ALIGN {
        if node {
          Split(current, n, k);
        }
      }
      TakenIs(ranges, k, n, node, Ranges());
      Mark(current, true, k);
      Wraps(InUseTotal(ranges) - slack, n);
      slack := slack + Slack(ranges[k], n, node);
      used := (used + n) % LIMIT;
    }

    /** Frees the range in use at an address, if there is one. */
    method Free(pointer: U64)
      requires Valid()
      modifies this, nodes
      ensures Valid() && slack == old(slack) && (forall n :: n in nodes ==> n in old(nodes))
      ensures var address := pointer % LIMIT;
              var k := Find(old(Ranges()), address);
              Ranges() == if pointer != 0 && DMA_START <= address < DMA_END && k.Some?
                          then Freed(old(Ranges()), k.value)
                          else old(Ranges())
    {
      hide Tiles, InUseTotal, Find, Freed;
      if pointer == 0 {
        return;
      }
      var address := pointer % LIMIT;
      if address < DMA_START || address >= DMA_END {
        return;
      }
      ghost var ranges, k := Ranges(), 0;
      var current := head;
      while current != null
        invariant k <= |nodes| && current == NodeAt(nodes, k)
        invariant forall i :: 0 <= i < k ==> !At(ranges[i], address)
        decreases |nodes| - k
      {
        assert LinkOk(nodes, k);
        if current.address == address && current.inUse {
          FindIs(ranges, address, k);
          Release(current, k);
          return;
        }
        current := current.next;
        k := k + 1;
      }
      FindIs(ranges, address, k);
    }

    /** Marks a range as free and merges it with the next one if that is free. */
    method Release(current: Node, ghost k: nat)
      requires Valid() && k < |nodes| && current == nodes[k] && current.inUse
      modifies this, nodes
      ensures Valid() && slack == old(slack) && (forall n :: n in nodes ==> n in old(nodes))
      ensures Ranges() == Freed(old(Ranges()), k)
    {
      hide Tiles, InUseTotal, Linked, Freed;
      ghost var ranges := Ranges();
      FreedTiles(ranges, k);
      FreedTotal(ranges, k);
      MergedSize(ranges, k);
      NextNode(k);
      Mark(current, false, k);
      Wraps(InUseTotal(ranges) - slack, -(current.size as int));
      used := (used - current.size) % LIMIT;
      ghost var mid := Ranges();
      if current.next != null && !current.next.inUse {
        Merge(current, k);
      }
      FreedIs(ranges, k, mid, Ranges());
    }
  }

  /** Two neighbouring ranges together fit 32 bits. */
  lemma MergedSize(ranges: seq<Range>, k: nat)
    requires Tiles(ranges) && k < |ranges|
    ensures k + 1 < |ranges| ==> ranges[k].size + ranges[k + 1].size < LIMIT
  {
    Inside(ranges, k);
    if k + 1 < |ranges| {
      Inside(ranges, k + 1);
    }
  }

  predicate Distinct(nodes: seq<Node>)
  {
    forall i, j :: 0 <= i < j < |nodes| ==> nodes[i] != nodes[j]
  }

  lemma InsertedDistinct(nodes: seq<Node>, k: nat, n: Node)
    requires Distinct(nodes) && k < |nodes| && n !in nodes
    ensures Distinct(nodes[..k + 1] + [n] + nodes[k + 1..])
  {
  }

  lemma RemovedDistinct(nodes: seq<Node>, k: nat)
    requires Distinct(nodes) && k < |nodes|
    ensures Distinct(nodes[..k] + nodes[k + 1..])
  {
  }

  lemma OtherNodes(nodes: seq<Node>, k: nat)
    requires Distinct(nodes) && k < |nodes|
    ensures forall i :: 0 <= i < |nodes| && i != k ==> nodes[i] != nodes[k]
  {
  }

  ghost function NodeAt(nodes: seq<Node>, i: nat): Node?
  {
    if i < |nodes| then nodes[i] else null
  }

  ghost predicate LinkOk(nodes: seq<Node>, i: nat)
    requires i < |nodes|
    reads nodes
  {
    nodes[i].next == NodeAt(nodes, i + 1)
  }
}
