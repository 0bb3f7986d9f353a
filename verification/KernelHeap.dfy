/** The kernel heap in memory: headers of 24 bytes in front of the payloads, linked in both directions. */
module KernelHeap {
  import opened Bytes
  import opened Blocks

  const INITIAL_SIZE := 0x100_0000
  const PAGE_SIZE := 4096
  const LIMIT := 0x1_0000_0000

  // ----- headers in memory

  /** A header: uint32 size, uint32 is_free, and the addresses of the next and the previous header, 0 for none. */
  datatype Header = Header(size: nat, free: nat, next: nat, prev: nat)

  function HeaderAt(ram: seq<Byte>, a: nat): Header
    requires a + HEADER <= |ram|
  {
    Header(Get32(ram, a), Get32(ram, a + 4), Get64(ram, a + 8), Get64(ram, a + 16))
  }

  /** At most the 24 bytes from a on have changed. */
  predicate OnlyHeader(ram: seq<Byte>, ram': seq<Byte>, a: nat)
  {
    |ram'| == |ram| && forall x :: 0 <= x < |ram| && !(a <= x < a + HEADER) ==> ram'[x] == ram[x]
  }

  lemma HeaderKept(ram: seq<Byte>, ram': seq<Byte>, a: nat)
    requires a + HEADER <= |ram| == |ram'| && forall x :: a <= x < a + HEADER ==> ram'[x] == ram[x]
    ensures HeaderAt(ram', a) == HeaderAt(ram, a)
  {
    assert ram'[a..a + 4] == ram[a..a + 4] && ram'[a + 4..a + 8] == ram[a + 4..a + 8];
    assert ram'[a + 8..a + 16] == ram[a + 8..a + 16] && ram'[a + 16..a + 24] == ram[a + 16..a + 24];
  }

  lemma SizePut(ram: seq<Byte>, a: nat, v: U32)
    requires a + HEADER <= |ram|
    ensures var ram' := Splice(ram, a, LeBytes(v, 4));
            HeaderAt(ram', a) == HeaderAt(ram, a).(size := v) && OnlyHeader(ram, ram', a)
  {
    Get32AfterPut(ram, a, v);
    SpliceSlice(ram, a, LeBytes(v, 4), a + 4, a + 8);
    SpliceSlice(ram, a, LeBytes(v, 4), a + 8, a + 16);
    SpliceSlice(ram, a, LeBytes(v, 4), a + 16, a + 24);
  }

  lemma FreePut(ram: seq<Byte>, a: nat, v: U32)
    requires a + HEADER <= |ram|
    ensures var ram' := Splice(ram, a + 4, LeBytes(v, 4));
            HeaderAt(ram', a) == HeaderAt(ram, a).(free := v) && OnlyHeader(ram, ram', a)
  {
    Get32AfterPut(ram, a + 4, v);
    SpliceSlice(ram, a + 4, LeBytes(v, 4), a, a + 4);
    SpliceSlice(ram, a + 4, LeBytes(v, 4), a + 8, a + 16);
    SpliceSlice(ram, a + 4, LeBytes(v, 4), a + 16, a + 24);
  }

  lemma NextPut(ram: seq<Byte>, a: nat, v: U64)
    requires a + HEADER <= |ram|
    ensures var ram' := Splice(ram, a + 8, LeBytes(v, 8));
            HeaderAt(ram', a) == HeaderAt(ram, a).(next := v) && OnlyHeader(ram, ram', a)
  {
    Get64AfterPut(ram, a + 8, v);
    SpliceSlice(ram, a + 8, LeBytes(v, 8), a, a + 4);
    SpliceSlice(ram, a + 8, LeBytes(v, 8), a + 4, a + 8);
    SpliceSlice(ram, a + 8, LeBytes(v, 8), a + 16, a + 24);
  }

  lemma PrevPut(ram: seq<Byte>, a: nat, v: U64)
    requires a + HEADER <= |ram|
    ensures var ram' := Splice(ram, a + 16, LeBytes(v, 8));
            HeaderAt(ram', a) == HeaderAt(ram, a).(prev := v) && OnlyHeader(ram, ram', a)
  {
    Get64AfterPut(ram, a + 16, v);
    SpliceSlice(ram, a + 16, LeBytes(v, 8), a, a + 4);
    SpliceSlice(ram, a + 16, LeBytes(v, 8), a + 4, a + 8);
    SpliceSlice(ram, a + 16, LeBytes(v, 8), a + 8, a + 16);
  }

  // ----- the list in memory

  /** The address of block i; 0 past either end of the list. */
  function AddressOf(blocks: seq<Block>, i: int): nat
  {
    if 0 <= i < |blocks| then blocks[i].at else 0
  }

  /** The header that block i should have. */
  function HeaderOf(blocks: seq<Block>, i: nat): Header
    requires i < |blocks|
  {
    Header(blocks[i].size, if blocks[i].free then 1 else 0, AddressOf(blocks, i + 1), AddressOf(blocks, i - 1))
  }

  predicate HeaderOk(ram: seq<Byte>, blocks: seq<Block>, i: nat)
    requires i < |blocks|
  {
    End(blocks[i]) <= |ram| && HeaderAt(ram, blocks[i].at) == HeaderOf(blocks, i)
  }

  /** The blocks tile the arena, and memory holds their headers. */
  ghost predicate Written(ram: seq<Byte>, blocks: seq<Block>, first: nat, end: nat)
  {
    && 0 < first && end <= |ram| <= LIMIT && Tiles(blocks, first, end)
    && forall i :: 0 <= i < |blocks| ==> HeaderOk(ram, blocks, i)
  }

  /** The payloads of these blocks are as they were. */
  ghost predicate PayloadsKept(ram: seq<Byte>, ram': seq<Byte>, live: set<Block>)
  {
    |ram'| == |ram| && forall b, x :: b in live && Payload(b) <= x < End(b) && x < |ram| ==> ram'[x] == ram[x]
  }

  lemma KeptTransitive(ram: seq<Byte>, ram1: seq<Byte>, ram2: seq<Byte>, live: set<Block>)
    requires PayloadsKept(ram, ram1, live) && PayloadsKept(ram1, ram2, live)
    ensures PayloadsKept(ram, ram2, live)
  {
  }

  /** Bytes outside the arena are as they were. */
  ghost predicate OutsideKept(ram: seq<Byte>, ram': seq<Byte>, first: nat, end: nat)
  {
    |ram'| == |ram| && forall x :: 0 <= x < |ram| && !(first <= x < end) ==> ram'[x] == ram[x]
  }

  lemma OutsideTransitive(ram: seq<Byte>, ram1: seq<Byte>, ram2: seq<Byte>, first: nat, end1: nat, end2: nat)
    requires OutsideKept(ram, ram1, first, end1) && OutsideKept(ram1, ram2, first, end2) && end1 <= end2
    ensures OutsideKept(ram, ram2, first, end2)
  {
  }

  /** A change of one block header leaves the other headers and all payloads alone. */
  lemma OneHeader(ram: seq<Byte>, ram': seq<Byte>, blocks: seq<Block>, first: nat, end: nat, k: nat, i: nat)
    requires Written(ram, blocks, first, end) && k < |blocks| && i < |blocks| && i != k
    requires OnlyHeader(ram, ram', blocks[k].at)
    ensures HeaderOk(ram, blocks, i) && HeaderAt(ram', blocks[i].at) == HeaderAt(ram, blocks[i].at)
  {
    Separate(blocks, first, end, i, k);
    assert HeaderOk(ram, blocks, i);
    HeaderKept(ram, ram', blocks[i].at);
  }

  lemma HeaderSparesPayloads(ram: seq<Byte>, ram': seq<Byte>, blocks: seq<Block>, first: nat, end: nat, k: nat)
    requires Written(ram, blocks, first, end) && k < |blocks| && OnlyHeader(ram, ram', blocks[k].at)
    ensures PayloadsKept(ram, ram', Live(blocks)) && OutsideKept(ram, ram', first, end)
  {
    Inside(blocks, first, end, k);
    forall b, x | b in Live(blocks) && Payload(b) <= x < End(b) && x < |ram| ensures ram'[x] == ram[x] {
      var i :| 0 <= i < |blocks| && blocks[i] == b;
      if i != k {
        Separate(blocks, first, end, i, k);
      }
    }
  }

  /** Marking a block changes one field of one header. */
  lemma MarkWritten(ram: seq<Byte>, ram': seq<Byte>, blocks: seq<Block>, first: nat, end: nat, k: nat, free: bool)
    requires Written(ram, blocks, first, end) && k < |blocks| && OnlyHeader(ram, ram', blocks[k].at)
    requires End(blocks[k]) <= |ram|
             && HeaderAt(ram', blocks[k].at) == HeaderOf(blocks, k).(free := if free then 1 else 0)
    ensures Written(ram', Mark(blocks, k, free), first, end) && PayloadsKept(ram, ram', Live(blocks))
    ensures OutsideKept(ram, ram', first, end)
  {
    MarkTiles(blocks, first, end, k, free);
    HeaderSparesPayloads(ram, ram', blocks, first, end, k);
    var blocks' := Mark(blocks, k, free);
    forall i | 0 <= i < |blocks'| ensures HeaderOk(ram', blocks', i) {
      assert HeaderOk(ram, blocks, i);
      if i != k {
        OneHeader(ram, ram', blocks, first, end, k, i);
      }
    }
  }

  /** At most three headers have changed. */
  predicate ThreeHeaders(ram: seq<Byte>, ram': seq<Byte>, a: nat, b: nat, c: nat)
  {
    && |ram'| == |ram|
    && (forall x :: 0 <= x < |ram| && !(a <= x < a + HEADER) && !(b <= x < b + HEADER) && !(c <= x < c + HEADER) ==>
          ram'[x] == ram[x])
  }

  /** A block j lies outside block k and outside the header after it. */
  lemma Away(blocks: seq<Block>, first: nat, end: nat, k: nat, j: nat)
    requires Tiles(blocks, first, end) && k < |blocks| && j < |blocks| && j != k && j != k + 1
    ensures End(blocks[j]) <= blocks[k].at || End(blocks[k]) <= blocks[j].at
    ensures k + 1 < |blocks| ==> End(blocks[j]) <= blocks[k + 1].at || End(blocks[k + 1]) <= blocks[j].at
  {
    Separate(blocks, first, end, j, k);
    if k + 1 < |blocks| {
      Separate(blocks, first, end, j, k + 1);
    }
  }

  /** The headers in memory after block k was split. */
  ghost predicate SplitHeaders(ram: seq<Byte>, ram': seq<Byte>, blocks: seq<Block>, k: nat, n: nat)
    requires k < |blocks| && Splits(blocks[k], n)
  {
    var rest, next := Rest(blocks[k], n), AddressOf(blocks, k + 1);
    && End(rest) <= |ram| && (k + 1 < |blocks| ==> End(blocks[k + 1]) <= |ram|)
    && ThreeHeaders(ram, ram', blocks[k].at, rest.at, if next == 0 then rest.at else next)
    && HeaderAt(ram', blocks[k].at) == HeaderOf(blocks, k).(size := n, next := rest.at)
    && HeaderAt(ram', rest.at) == Header(rest.size, 1, next, blocks[k].at)
    && (k + 1 < |blocks| ==> HeaderAt(ram', next) == HeaderOf(blocks, k + 1).(prev := rest.at))
  }

  lemma SplitHeader(ram: seq<Byte>, ram': seq<Byte>, blocks: seq<Block>, first: nat, end: nat, k: nat, n: nat, i: nat)
    requires Written(ram, blocks, first, end) && k < |blocks| && blocks[k].free && Splits(blocks[k], n)
    requires SplitHeaders(ram, ram', blocks, k, n) && i < |Split(blocks, k, n)|
    ensures HeaderOk(ram', Split(blocks, k, n), i)
  {
    hide HeaderAt;
    var j := if i <= k then i else i - 1;
    assert HeaderOk(ram, blocks, j);
    NextAddress(blocks, first, end, k);
    if j != k && j != k + 1 {
      Away(blocks, first, end, k, j);
      HeaderKept(ram, ram', blocks[j].at);
    }
  }

  /** Only the last block has no next address. */
  lemma NextAddress(blocks: seq<Block>, first: nat, end: nat, k: nat)
    requires Tiles(blocks, first, end) && k < |blocks| && 0 < first
    ensures AddressOf(blocks, k + 1) == 0 <==> k + 1 == |blocks|
    ensures k + 1 < |blocks| ==> AddressOf(blocks, k + 1) == End(blocks[k])
    ensures AddressOf(blocks, k - 1) == 0 <==> k == 0
  {
    assert BlockOk(blocks, k);
    if k > 0 {
      Inside(blocks, first, end, k - 1);
    }
  }

  lemma SplitPayloads(ram: seq<Byte>, ram': seq<Byte>, blocks: seq<Block>, first: nat, end: nat, k: nat, n: nat)
    requires Written(ram, blocks, first, end) && k < |blocks| && blocks[k].free && Splits(blocks[k], n)
    requires SplitHeaders(ram, ram', blocks, k, n)
    ensures PayloadsKept(ram, ram', Live(blocks)) && OutsideKept(ram, ram', first, end)
  {
    hide HeaderAt;
    NextAddress(blocks, first, end, k);
    Inside(blocks, first, end, k);
    if k + 1 < |blocks| {
      Inside(blocks, first, end, k + 1);
    }
    forall b, x | b in Live(blocks) && Payload(b) <= x < End(b) && x < |ram| ensures ram'[x] == ram[x] {
      var i :| 0 <= i < |blocks| && blocks[i] == b;
      Separate(blocks, first, end, i, k);
      if k + 1 < |blocks| && i != k + 1 {
        Separate(blocks, first, end, i, k + 1);
      }
    }
  }

  /** Memory after a split. */
  lemma SplitWritten(ram: seq<Byte>, ram': seq<Byte>, blocks: seq<Block>, first: nat, end: nat, k: nat, n: nat)
    requires Written(ram, blocks, first, end) && k < |blocks| && blocks[k].free && Splits(blocks[k], n) && n % 8 == 0
    requires SplitHeaders(ram, ram', blocks, k, n)
    ensures Written(ram', Split(blocks, k, n), first, end) && PayloadsKept(ram, ram', Live(blocks))
    ensures OutsideKept(ram, ram', first, end)
  {
    hide HeaderAt, HeaderOk, Split, Tiles;
    SplitTiles(blocks, first, end, k, n);
    forall i | 0 <= i < |Split(blocks, k, n)| ensures HeaderOk(ram', Split(blocks, k, n), i) {
      SplitHeader(ram, ram', blocks, first, end, k, n, i);
    }
    SplitPayloads(ram, ram', blocks, first, end, k, n);
  }

  /** The headers in memory after blocks k and k + 1 were merged. */
  ghost predicate MergeHeaders(ram: seq<Byte>, ram': seq<Byte>, blocks: seq<Block>, k: nat)
    requires k + 1 < |blocks|
  {
    var a, next := blocks[k].at, AddressOf(blocks, k + 2);
    && a + HEADER <= |ram| && (k + 2 < |blocks| ==> End(blocks[k + 2]) <= |ram|)
    && ThreeHeaders(ram, ram', a, a, if next == 0 then a else next)
    && HeaderAt(ram', a) == HeaderOf(blocks, k).(size := blocks[k].size + HEADER + blocks[k + 1].size, next := next)
    && (k + 2 < |blocks| ==> HeaderAt(ram', next) == HeaderOf(blocks, k + 2).(prev := a))
  }

  lemma MergeHeader(ram: seq<Byte>, ram': seq<Byte>, blocks: seq<Block>, first: nat, end: nat, k: nat, i: nat)
    requires Written(ram, blocks, first, end) && k + 1 < |blocks| && MergeHeaders(ram, ram', blocks, k)
    requires i < |MergeAt(blocks, k)|
    ensures HeaderOk(ram', MergeAt(blocks, k), i)
  {
    hide HeaderAt;
    var j := if i <= k then i else i + 1;
    assert HeaderOk(ram, blocks, j) && BlockOk(blocks, k) && HeaderOk(ram, blocks, k + 1);
    NextAddress(blocks, first, end, k + 1);
    if j != k && j != k + 2 {
      Away(blocks, first, end, k + 1, j);
      Separate(blocks, first, end, j, k);
      HeaderKept(ram, ram', blocks[j].at);
    }
  }

  lemma MergePayloads(ram: seq<Byte>, ram': seq<Byte>, blocks: seq<Block>, first: nat, end: nat, k: nat)
    requires Written(ram, blocks, first, end) && k + 1 < |blocks| && MergeHeaders(ram, ram', blocks, k)
    ensures PayloadsKept(ram, ram', Live(blocks)) && OutsideKept(ram, ram', first, end)
  {
    hide HeaderAt;
    NextAddress(blocks, first, end, k + 1);
    Inside(blocks, first, end, k);
    if k + 2 < |blocks| {
      Inside(blocks, first, end, k + 2);
    }
    forall b, x | b in Live(blocks) && Payload(b) <= x < End(b) && x < |ram| ensures ram'[x] == ram[x] {
      var i :| 0 <= i < |blocks| && blocks[i] == b;
      if i != k {
        Separate(blocks, first, end, i, k);
      }
      if k + 2 < |blocks| && i != k + 2 {
        Separate(blocks, first, end, i, k + 2);
      }
    }
  }

  /** Memory after blocks k and k + 1 were merged. */
  lemma MergeWritten(ram: seq<Byte>, ram': seq<Byte>, blocks: seq<Block>, first: nat, end: nat, k: nat)
    requires Written(ram, blocks, first, end) && k + 1 < |blocks| && MergeHeaders(ram, ram', blocks, k)
    ensures Written(ram', MergeAt(blocks, k), first, end) && PayloadsKept(ram, ram', Live(blocks))
    ensures OutsideKept(ram, ram', first, end)
  {
    hide HeaderAt, HeaderOk, MergeAt, Tiles;
    MergeTiles(blocks, first, end, k);
    forall i | 0 <= i < |MergeAt(blocks, k)| ensures HeaderOk(ram', MergeAt(blocks, k), i) {
      MergeHeader(ram, ram', blocks, first, end, k, i);
    }
    MergePayloads(ram, ram', blocks, first, end, k);
  }

  /** Memory after a block of `bytes` bytes was linked behind the last one, which it follows in memory. */
  lemma ExtendWritten(ram: seq<Byte>, ram': seq<Byte>, blocks: seq<Block>, first: nat, end: nat, bytes: nat)
    requires Written(ram, blocks, first, end) && bytes % 8 == 0 && HEADER <= bytes && end + bytes <= |ram|
    requires var k := |blocks| - 1;
             && HeaderOk(ram, blocks, k) && ThreeHeaders(ram, ram', blocks[k].at, end, end)
             && HeaderAt(ram', blocks[k].at) == HeaderOf(blocks, k).(next := end)
             && HeaderAt(ram', end) == Header(bytes - HEADER, 1, 0, blocks[k].at)
    ensures Written(ram', blocks + [Block(end, bytes - HEADER, true)], first, end + bytes)
    ensures Live(blocks + [Block(end, bytes - HEADER, true)]) == Live(blocks)
    ensures PayloadsKept(ram, ram', Live(blocks)) && OutsideKept(ram, ram', first, end + bytes)
  {
    hide HeaderAt;
    var k, c := |blocks| - 1, Block(end, bytes - HEADER, true);
    var blocks' := blocks + [c];
    assert BlockOk(blocks, k);
    Inside(blocks, first, end, k);
    forall i | 0 <= i < |blocks'| ensures BlockOk(blocks', i) && HeaderOk(ram', blocks', i) {
      if i < k {
        assert BlockOk(blocks, i) && HeaderOk(ram, blocks, i);
        Separate(blocks, first, end, i, k);
        Inside(blocks, first, end, i);
        HeaderKept(ram, ram', blocks[i].at);
      }
    }
    forall b, x | b in Live(blocks) && Payload(b) <= x < End(b) && x < |ram| ensures ram'[x] == ram[x] {
      var i :| 0 <= i < |blocks| && blocks[i] == b;
      Inside(blocks, first, end, i);
      if i != k {
        Separate(blocks, first, end, i, k);
      }
    }
  }

  /** Three headers written one after the other. */
  lemma ThreeWrites(ram0: seq<Byte>, ram1: seq<Byte>, ram2: seq<Byte>, ram3: seq<Byte>, a: nat, b: nat, c: nat)
    requires a + HEADER <= |ram0| && b + HEADER <= |ram0| && c + HEADER <= |ram0|
    requires OnlyHeader(ram0, ram1, a) && OnlyHeader(ram1, ram2, b) && OnlyHeader(ram2, ram3, c)
    requires (a + HEADER <= b || b + HEADER <= a) && (a + HEADER <= c || c + HEADER <= a)
             && (b + HEADER <= c || c + HEADER <= b)
    ensures ThreeHeaders(ram0, ram3, c, a, b)
    ensures HeaderAt(ram3, a) == HeaderAt(ram1, a) && HeaderAt(ram3, b) == HeaderAt(ram2, b)
    ensures HeaderAt(ram1, b) == HeaderAt(ram0, b) && HeaderAt(ram2, c) == HeaderAt(ram0, c)
  {
    hide HeaderAt;
    HeaderKept(ram1, ram2, a);
    HeaderKept(ram2, ram3, a);
    HeaderKept(ram0, ram1, b);
    HeaderKept(ram2, ram3, b);
    HeaderKept(ram0, ram1, c);
    HeaderKept(ram1, ram2, c);
  }

  lemma TwoWrites(ram0: seq<Byte>, ram1: seq<Byte>, ram2: seq<Byte>, a: nat, b: nat)
    requires a + HEADER <= |ram0| && b + HEADER <= |ram0| && (a + HEADER <= b || b + HEADER <= a)
    requires OnlyHeader(ram0, ram1, a) && OnlyHeader(ram1, ram2, b)
    ensures ThreeHeaders(ram0, ram2, b, a, a) && ThreeHeaders(ram0, ram2, a, a, b)
    ensures HeaderAt(ram2, a) == HeaderAt(ram1, a) && HeaderAt(ram1, b) == HeaderAt(ram0, b)
  {
    hide HeaderAt;
    HeaderKept(ram1, ram2, a);
    HeaderKept(ram0, ram1, b);
  }

  lemma SameHeader(ram0: seq<Byte>, ram1: seq<Byte>, ram2: seq<Byte>, a: nat)
    requires OnlyHeader(ram0, ram1, a) && OnlyHeader(ram1, ram2, a)
    ensures OnlyHeader(ram0, ram2, a)
  {
  }

  // ----- requests

  /** A request rounded up to a multiple of 8; the rounding wraps around for sizes near 2^64. */
  function Rounded(size: U64): (n: U64)
    ensures n % 8 == 0
  {
    (size + 7) % 0x1_0000_0000_0000_0000 / 8 * 8
  }

  /** A request is served with at least as many bytes exactly if the rounding does not wrap around. */
  lemma RoundedUp(size: U64)
    ensures Rounded(size) >= size <==> size <= U64_MAX - 7
    ensures Promised(size) <= Rounded(size) < Promised(size) + 8
  {
  }

  /** How many bytes a request is sure to get: all, or none if the rounding wraps around. */
  function Promised(size: U64): nat
  {
    if size <= U64_MAX - 7 then size else 0
  }

  /** By how many bytes the heap asks to be expanded for a rounded request; page counts and sizes are cut to 32
      bits. */
  function ExpandBytes(n: U64): (bytes: U32)
    ensures bytes % PAGE_SIZE == 0
  {
    var additional := (n + HEADER + PAGE_SIZE) % 0x1_0000_0000_0000_0000;
    var pages := (additional + PAGE_SIZE - 1) % 0x1_0000_0000_0000_0000 / PAGE_SIZE % LIMIT;
    WholePages(pages);
    pages * PAGE_SIZE % LIMIT
  }

  /** The memory asked for has room for the request and a header, and less than two pages more, exactly if the number of
      bytes asked for is below 2^32. */
  lemma ExpandSuffices(n: U64)
    ensures n + 24 <= ExpandBytes(n) < n + 24 + 2 * 4096 <==> n + 8215 < 0x1_0000_0000
    ensures n + 24 <= ExpandBytes(n) <==> n + 8215 < 0x1_0000_0000
  {
    if n < 0x1_0000_0000 - 4119 {
      ExpandBelow(n);
    } else {
      assert ExpandBytes(n) <= 0x1_0000_0000 - PAGE_SIZE;
    }
  }

  lemma ExpandBelow(n: U64)
    requires n < 0x1_0000_0000 - 4119
    ensures n + 8215 < 0x1_0000_0000 ==> n + 24 <= ExpandBytes(n) < n + 24 + 2 * 4096
    ensures n + 8215 >= 0x1_0000_0000 ==> ExpandBytes(n) == 0
  {
    var pages := (n + 8215) / PAGE_SIZE;
    WholePages(pages);
    assert ExpandBytes(n) == pages * PAGE_SIZE % LIMIT;
  }

  /** Cutting a number of whole pages to 32 bits leaves whole pages. */
  lemma WholePages(pages: nat)
    ensures pages * PAGE_SIZE % LIMIT == pages % 0x10_0000 * PAGE_SIZE
    ensures pages * PAGE_SIZE % LIMIT % PAGE_SIZE == 0
  {
    var q, r := pages / 0x10_0000, pages % 0x10_0000;
    assert pages * PAGE_SIZE == LIMIT * q + PAGE_SIZE * r;
  }

  /** What the page allocator may answer: nothing, or memory that directly follows the arena. */
  ghost predicate Grantable(ram: seq<Byte>, end: nat, n: U64, grant: U64)
  {
    grant != 0 ==> grant == end && 0 < ExpandBytes(n) && end + ExpandBytes(n) <= |ram|
  }

  /** The list after the heap was expanded. */
  function Expanded(blocks: seq<Block>, end: nat, n: U64): seq<Block>
    requires 0 < ExpandBytes(n)
  {
    blocks + [Block(end, ExpandBytes(n) - HEADER, true)]
  }

  /** The list in which a rounded request is served: the old one, or the expanded one if that is needed and to be
      had. */
  function Searched(blocks: seq<Block>, end: nat, n: U64, grant: U64): seq<Block>
    requires grant != 0 ==> 0 < ExpandBytes(n)
  {
    if FirstFit(blocks, n).None? && grant != 0 then Expanded(blocks, end, n) else blocks
  }

  class Heap {
    const ram: array<Byte>
    var start: U64
    ghost var blocks: seq<Block>
    ghost var end: nat

    ghost predicate Valid()
      reads this, ram
    {
      Written(ram[..], blocks, start, end) && start % 8 == 0
    }

    /** Starts with one free block over 16 MB at an address that the frame allocator gave. */
    constructor (ram: array<Byte>, base: U64)
      requires 0 < base && base % PAGE_SIZE == 0 && base + INITIAL_SIZE <= ram.Length <= LIMIT
      modifies ram
      ensures Valid() && this.ram == ram && start == base && end == base + INITIAL_SIZE
      ensures blocks == [Block(base, INITIAL_SIZE - HEADER, true)]
    {
      hide HeaderAt, Written;
      this.ram, start := ram, base;
      blocks, end := [Block(base, INITIAL_SIZE - HEADER, true)], base + INITIAL_SIZE;
      new;
      PutHeader(base, INITIAL_SIZE - HEADER, 1, 0, 0);
      FirstWritten(ram[..], base);
    }

    method SetSize(a: nat, v: U32)
      requires a + HEADER <= ram.Length
      modifies ram
      ensures HeaderAt(ram[..], a) == HeaderAt(old(ram[..]), a).(size := v) && OnlyHeader(old(ram[..]), ram[..], a)
    {
      SizePut(ram[..], a, v);
      PutLe(ram, a, v, 4);
    }

    method SetFree(a: nat, v: U32)
      requires a + HEADER <= ram.Length
      modifies ram
      ensures HeaderAt(ram[..], a) == HeaderAt(old(ram[..]), a).(free := v) && OnlyHeader(old(ram[..]), ram[..], a)
    {
      FreePut(ram[..], a, v);
      PutLe(ram, a + 4, v, 4);
    }

    method SetNext(a: nat, v: U64)
      requires a + HEADER <= ram.Length
      modifies ram
      ensures HeaderAt(ram[..], a) == HeaderAt(old(ram[..]), a).(next := v) && OnlyHeader(old(ram[..]), ram[..], a)
    {
      NextPut(ram[..], a, v);
      PutLe(ram, a + 8, v, 8);
    }

    method SetPrev(a: nat, v: U64)
      requires a + HEADER <= ram.Length
      modifies ram
      ensures HeaderAt(ram[..], a) == HeaderAt(old(ram[..]), a).(prev := v) && OnlyHeader(old(ram[..]), ram[..], a)
    {
      PrevPut(ram[..], a, v);
      PutLe(ram, a + 16, v, 8);
    }

    /** Fills in a whole header. */
    method PutHeader(a: nat, size: U32, free: U32, next: U64, prev: U64)
      requires a + HEADER <= ram.Length
      modifies ram
      ensures HeaderAt(ram[..], a) == Header(size, free, next, prev) && OnlyHeader(old(ram[..]), ram[..], a)
    {
      hide HeaderAt;
      SetSize(a, size);
      SetFree(a, free);
      SetNext(a, next);
      SetPrev(a, prev);
    }

    /** The fields of a header. */
    method GetHeader(a: nat) returns (size: U32, free: U32, next: U64, prev: U64)
      requires a + HEADER <= ram.Length
      ensures HeaderAt(ram[..], a) == Header(size, free, next, prev)
    {
      PowValues();
      size := LoadLe(ram, a, 4);
      free := LoadLe(ram, a + 4, 4);
      next := LoadLe(ram, a + 8, 8);
      prev := LoadLe(ram, a + 16, 8);
      assert ram[..][a..a + 4] == ram[a..a + 4] && ram[..][a + 4..a + 8] == ram[a + 4..a + 8];
      assert ram[..][a + 8..a + 16] == ram[a + 8..a + 16] && ram[..][a + 16..a + 24] == ram[a + 16..a + 24];
    }

    /** The address of the first free block of at least n bytes; 0 if there is none. */
    method FindFree(n: U64) returns (block: U64)
      requires Valid()
      ensures var k := FirstFit(blocks, n); block == if k.Some? then blocks[k.value].at else 0
    {
      hide HeaderAt, FirstFit, Tiles;
      ghost var k := 0;
      block := start;
      StartIs(ram[..], blocks, start, end);
      while block != 0
        invariant k <= |blocks| && block == AddressOf(blocks, k) && (block == 0 ==> k == |blocks|)
        invariant forall i :: 0 <= i < k ==> !Fit(blocks[i], n)
        decreases |blocks| - k
      {
        assert HeaderOk(ram[..], blocks, k);
        NextAddress(blocks, start, end, k);
        var size, free, next, prev := GetHeader(block);
        if free != 0 && size >= n {
          FirstFitIs(blocks, n, k);
          return;
        }
        block := next;
        k := k + 1;
      }
      FirstFitIs(blocks, n, k);
    }

    /** Splits a block that is larger than n bytes by enough for another block. */
    method SplitBlock(block: U64, n: U64, ghost k: nat)
      requires Valid() && k < |blocks| && block == blocks[k].at && Fit(blocks[k], n) && n % 8 == 0
      modifies ram, this`blocks
      ensures Valid() && blocks == Split(old(blocks), k, n)
      ensures PayloadsKept(old(ram[..]), ram[..], Live(old(blocks)))
      ensures OutsideKept(old(ram[..]), ram[..], start, end)
    {
      hide HeaderAt, Tiles, Live, Split, OutsideKept;
      ghost var ram0 := ram[..];
      NothingKept(ram0, Live(blocks));
      assert HeaderOk(ram0, blocks, k);
      NextAddress(blocks, start, end, k);
      NotSplit(blocks, k, n);
      var size, free, next, prev := GetHeader(block);
      if size >= n + HEADER + MIN_BLOCK {
        var rest := block + HEADER + n;
        PutHeader(rest, size - n - HEADER, 1, next, block);
        ghost var ram1 := ram[..];
        if next != 0 {
          assert HeaderOk(ram0, blocks, k + 1);
          SetPrev(next, rest);
        }
        ghost var ram2 := ram[..];
        SetNext(block, rest);
        ghost var ram3 := ram[..];
        SetSize(block, n);
        SameHeader(ram2, ram3, ram[..], block);
        if next != 0 {
          ThreeWrites(ram0, ram1, ram2, ram[..], rest, next, block);
        } else {
          TwoWrites(ram0, ram1, ram[..], rest, block);
        }
        SplitWritten(ram0, ram[..], blocks, start, end, k, n);
        blocks := Split(blocks, k, n);
      }
    }

    /** Marks a block as used or free. */
    method MarkBlock(block: U64, free: bool, ghost k: nat)
      requires Valid() && k < |blocks| && block == blocks[k].at
      modifies ram, this`blocks
      ensures Valid() && blocks == Mark(old(blocks), k, free)
      ensures PayloadsKept(old(ram[..]), ram[..], Live(old(blocks)))
      ensures OutsideKept(old(ram[..]), ram[..], start, end)
    {
      hide HeaderAt, Tiles, Live, OutsideKept;
      ghost var ram0 := ram[..];
      assert HeaderOk(ram0, blocks, k);
      SetFree(block, if free then 1 else 0);
      MarkWritten(ram0, ram[..], blocks, start, end, k, free);
      blocks := Mark(blocks, k, free);
    }

    /** Merges a block with the one after it. */
    method Absorb(left: U64, right: U64, ghost k: nat)
      requires Valid() && k + 1 < |blocks| && left == blocks[k].at && right == blocks[k + 1].at
      modifies ram, this`blocks
      ensures Valid() && blocks == MergeAt(old(blocks), k)
      ensures PayloadsKept(old(ram[..]), ram[..], Live(old(blocks)))
      ensures OutsideKept(old(ram[..]), ram[..], start, end)
    {
      hide HeaderAt, Tiles, Live, MergeAt, OutsideKept;
      ghost var ram0 := ram[..];
      assert HeaderOk(ram0, blocks, k) && HeaderOk(ram0, blocks, k + 1);
      NextAddress(blocks, start, end, k);
      NextAddress(blocks, start, end, k + 1);
      Inside(blocks, start, end, k + 1);
      var size, free, next, prev := GetHeader(left);
      var size', free', next', prev' := GetHeader(right);
      SetSize(left, size + HEADER + size');
      ghost var ram1 := ram[..];
      SetNext(left, next');
      ghost var ram2 := ram[..];
      SameHeader(ram0, ram1, ram2, left);
      if next' != 0 {
        assert HeaderOk(ram0, blocks, k + 2);
        SetPrev(next', left);
        TwoWrites(ram0, ram2, ram[..], left, next');
      }
      MergeWritten(ram0, ram[..], blocks, start, end, k);
      blocks := MergeAt(blocks, k);
    }

    /** Merges a free block with its free neighbours. */
    method Coalesce(block: U64, ghost k: nat)
      requires Valid() && k < |blocks| && block == blocks[k].at && blocks[k].free
      modifies ram, this`blocks
      ensures Valid() && blocks == MergePrevious(MergeNext(old(blocks), k), k)
      ensures PayloadsKept(old(ram[..]), ram[..], Live(old(blocks)))
      ensures OutsideKept(old(ram[..]), ram[..], start, end)
    {
      hide HeaderAt, Tiles, Live, MergeAt, OutsideKept;
      assert HeaderOk(ram[..], blocks, k);
      NextAddress(blocks, start, end, k);
      NothingKept(ram[..], Live(blocks));
      var size, free, next, prev := GetHeader(block);
      if next != 0 {
        assert HeaderOk(ram[..], blocks, k + 1);
        var size', free', next', prev' := GetHeader(next);
        if free' != 0 {
          MergeLive(blocks, k);
          Absorb(block, next, k);
        }
      }
      ghost var ram1, blocks1 := ram[..], blocks;
      assert blocks1 == MergeNext(old(blocks), k);
      assert HeaderOk(ram1, blocks1, k);
      NextAddress(blocks1, start, end, k);
      NothingKept(ram1, Live(blocks1));
      size, free, next, prev := GetHeader(block);
      if prev != 0 {
        assert HeaderOk(ram1, blocks1, k - 1);
        var size', free', next', prev' := GetHeader(prev);
        if free' != 0 {
          MergeLive(blocks, k - 1);
          Absorb(prev, block, k - 1);
        }
      }
      KeptTransitive(old(ram[..]), ram1, ram[..], Live(old(blocks)));
      OutsideTransitive(old(ram[..]), ram1, ram[..], start, end, end);
    }

    /** Links new memory behind the last block. `grant` is what the page allocator answered. */
    method Expand(n: U64, grant: U64) returns (ok: bool)
      requires Valid() && Grantable(ram[..], end, n, grant)
      modifies ram, this`blocks, this`end
      ensures Valid() && ok == (grant != 0)
      ensures blocks == (if ok then Expanded(old(blocks), old(end), n) else old(blocks))
      ensures end == (if ok then old(end) + ExpandBytes(n) else old(end))
      ensures Live(blocks) == Live(old(blocks)) && PayloadsKept(old(ram[..]), ram[..], Live(old(blocks)))
      ensures OutsideKept(old(ram[..]), ram[..], start, end)
    {
      hide HeaderAt, Live, ExpandBytes, OnlyHeader, ThreeHeaders, PayloadsKept, OutsideKept, Written;
      ghost var ram0 := ram[..];
      NothingKept(ram0, Live(blocks));
      if grant == 0 {
        return false;
      }
      PutHeader(grant, ExpandBytes(n) - HEADER, 1, 0, 0);
      ghost var ram1 := ram[..];
      StillLinked(ram0, ram1, blocks, start, end);
      LastHeader(ram0, blocks, start, end);
      var last := LastBlock(ram1);
      SetNext(last, grant);
      ghost var ram2 := ram[..];
      SetPrev(grant, last);
      BothEnds(ram0, ram1, ram2, ram[..], grant, last);
      ExtendWritten(ram0, ram[..], blocks, start, end, ExpandBytes(n));
      blocks := Expanded(blocks, end, n);
      end := end + ExpandBytes(n);
      return true;
    }

    /** Walks to the last block. */
    method LastBlock(ghost ram1: seq<Byte>) returns (last: U64)
      requires ram[..] == ram1 && Written(ram1, blocks, start, end)
      ensures last == blocks[|blocks| - 1].at
    {
      hide HeaderAt, Tiles;
      ghost var k := 0;
      StartIs(ram1, blocks, start, end);
      assert HeaderOk(ram1, blocks, 0);
      NextAddress(blocks, start, end, 0);
      last := start;
      var size, free, next, prev := GetHeader(last);
      while next != 0
        invariant k < |blocks| && last == blocks[k].at && next == AddressOf(blocks, k + 1)
                  && (next == 0 <==> k + 1 == |blocks|)
        decreases |blocks| - k
      {
        last := next;
        k := k + 1;
        assert HeaderOk(ram1, blocks, k);
        NextAddress(blocks, start, end, k);
        size, free, next, prev := GetHeader(last);
      }
    }

    /** Allocates a block. */
    method Kmalloc(size: U64, grant: U64) returns (pointer: U64)
      requires Valid() && Grantable(ram[..], end, Rounded(size), grant)
      modifies ram, this`blocks, this`end
      ensures Valid() && start == old(start) && OutsideKept(old(ram[..]), ram[..], start, end)
      ensures Allocated(old(ram[..]), old(blocks), old(end), Rounded(size), size == 0, grant, ram[..], blocks, end,
                        pointer)
    {
      hide HeaderAt, Tiles, Live, Split, FirstFit, ExpandBytes, Rounded, PayloadsKept, OutsideKept;
      ghost var ram0, blocks0, end0 := ram[..], blocks, end;
      NothingKept(ram0, Live(blocks));
      if size == 0 {
        return 0;
      }
      var n := Rounded(size);
      var block := FindFree(n);
      NonzeroAddresses(ram[..], blocks, start, end);
      if block == 0 {
        var ok := Expand(n, grant);
        if !ok {
          return 0;
        }
        NonzeroAddresses(ram[..], blocks, start, end);
        block := FindFree(n);
        if block == 0 {
          return 0;
        }
      }
      ghost var ram1, blocks1 := ram[..], blocks;
      ghost var k := FirstFit(blocks1, n).value;
      SplitAt(blocks1, k, n);
      SplitLive(blocks1, k, n);
      SplitBlock(block, n, k);
      ghost var ram2 := ram[..];
      MarkBlock(block, false, k);
      KeptTransitive(ram0, ram1, ram2, Live(blocks0));
      KeptTransitive(ram0, ram2, ram[..], Live(blocks0));
      OutsideTransitive(ram0, ram1, ram2, start, end, end);
      OutsideTransitive(ram0, ram2, ram[..], start, end, end);
      TakenLive(blocks1, start, end, k, n);
      TakenSize(blocks1, k, n);
      assert HeaderOk(ram[..], blocks, k);
      Inside(blocks, start, end, k);
      Aligned(blocks, start, end, k);
      pointer := block + HEADER;
    }

    /** Frees a block and merges it with its free neighbours. */
    method Kfree(pointer: U64, ghost k: nat)
      requires Valid() && (pointer != 0 ==> k < |blocks| && !blocks[k].free && pointer == Payload(blocks[k]))
      modifies ram, this`blocks
      ensures Valid() && blocks == if pointer != 0 then Freed(old(blocks), k) else old(blocks)
      ensures pointer != 0 ==> Live(blocks) == Live(old(blocks)) - {old(blocks)[k]}
      ensures PayloadsKept(old(ram[..]), ram[..], Live(blocks)) && start == old(start) && end == old(end)
      ensures OutsideKept(old(ram[..]), ram[..], start, end)
      ensures Merged(old(blocks)) ==> Merged(blocks)
    {
      hide HeaderAt, Tiles, Live, MergeAt, Merged, OutsideKept;
      ghost var ram0, blocks0 := ram[..], blocks;
      NothingKept(ram0, Live(blocks));
      if pointer == 0 {
        return;
      }
      if Merged(blocks0) {
        FreedMerged(blocks0, k);
      }
      FreedLive(blocks0, start, end, k);
      MarkLive(blocks0, start, end, k);
      var block := pointer - HEADER;
      MarkBlock(block, true, k);
      ghost var ram1 := ram[..];
      Coalesce(block, k);
      KeptFewer(ram0, ram1, Live(blocks0), Live(blocks));
      KeptTransitive(ram0, ram1, ram[..], Live(blocks));
      OutsideTransitive(ram0, ram1, ram[..], start, end, end);
    }

    /** Adds up the blocks. */
    method GetStats() returns (stats: Stats)
      requires Valid()
      ensures stats == StatsOf(blocks) && stats.total == end - start
    {
      hide HeaderAt, Tiles;
      ghost var k := 0;
      StartIs(ram[..], blocks, start, end);
      assert blocks[..0] == [];
      stats := Stats(0, 0, 0, 0, 0);
      var current := start;
      while current != 0
        invariant k <= |blocks| && current == AddressOf(blocks, k) && (current == 0 ==> k == |blocks|)
        invariant stats == StatsOf(blocks[..k])
        decreases |blocks| - k
      {
        assert HeaderOk(ram[..], blocks, k);
        NextAddress(blocks, start, end, k);
        assert blocks[..k + 1][..k] == blocks[..k];
        var size, free, next, prev := GetHeader(current);
        stats := stats.(blocks := stats.blocks + 1, total := stats.total + size + HEADER);
        if free != 0 {
          stats := stats.(freeBlocks := stats.freeBlocks + 1, free := stats.free + size);
        } else {
          stats := stats.(used := stats.used + size);
        }
        current := next;
        k := k + 1;
      }
      assert blocks[..k] == blocks;
      StatsTotal(blocks, start, end);
    }

    /** Copies n bytes between ranges that do not overlap. */
    method Copy(target: nat, source: nat, n: nat)
      requires target + n <= ram.Length && source + n <= ram.Length && (source + n <= target || target + n <= source)
      modifies ram
      ensures ram[..] == Splice(old(ram[..]), target, old(ram[source..source + n]))
    {
      for i := 0 to n
        invariant forall x :: 0 <= x < ram.Length ==>
                    ram[x] == if target <= x < target + i then old(ram[source + (x - target)]) else old(ram[x])
      {
        ram[target + i] := ram[source + i];
      }
    }

    /** Copies the payload of block i into that of block j, which is large enough. */
    method CopyPayload(target: nat, source: nat, n: nat, ghost i: nat, ghost j: nat)
      requires Valid() && i < |blocks| && j < |blocks| && i != j
      requires source == Payload(blocks[i]) && n == blocks[i].size <= blocks[j].size && target == Payload(blocks[j])
      modifies ram
      ensures Valid() && End(blocks[i]) <= ram.Length && target + n <= ram.Length
      ensures ram[..] == Splice(old(ram[..]), target, old(ram[..])[source..End(blocks[i])])
      ensures PayloadsKept(old(ram[..]), ram[..], Live(blocks) - {blocks[j]})
      ensures OutsideKept(old(ram[..]), ram[..], start, end)
    {
      hide HeaderAt, Tiles, Live, PayloadsKept, OutsideKept, Written, HeaderOk;
      ghost var ram1 := ram[..];
      TwoPayloads(ram1, blocks, start, end, i, j);
      Copy(target, source, n);
      assert ram1[source..source + n] == old(ram[source..source + n]);
      CopyWritten(ram1, ram[..], blocks, start, end, i, j, target);
    }

    /** Changes the size of a block: in place if it is large enough, and otherwise by moving its contents to a new
        block. If there is none the old block stays as it is. */
    method Krealloc(pointer: U64, newSize: U64, grant: U64, ghost k: nat) returns (r: U64)
      requires Valid() && Grantable(ram[..], end, Rounded(newSize), grant)
      requires pointer != 0 ==>
                 && k < |blocks| && !blocks[k].free && pointer == Payload(blocks[k])
                 && MoveFits(blocks, end, newSize, grant, blocks[k].size)
      modifies ram, this`blocks, this`end
      ensures Valid() && start == old(start) && OutsideKept(old(ram[..]), ram[..], start, end)
      ensures pointer == 0 ==>
                Allocated(old(ram[..]), old(blocks), old(end), Rounded(newSize), newSize == 0, grant, ram[..], blocks,
                          end, r)
      ensures pointer != 0 && newSize == 0 ==>
                r == 0 && blocks == Freed(old(blocks), k) && Live(blocks) == Live(old(blocks)) - {old(blocks)[k]}
                && PayloadsKept(old(ram[..]), ram[..], Live(blocks))
      ensures pointer != 0 && 0 < newSize <= old(blocks)[k].size ==>
                r == pointer && blocks == old(blocks) && ram[..] == old(ram[..])
      ensures pointer != 0 && newSize > old(blocks)[k].size ==>
                Moved(old(ram[..]), old(blocks), ram[..], blocks, old(blocks)[k], Promised(newSize), r)
                && (r == 0 ==> FirstFit(old(blocks), Rounded(newSize)).None?)
      ensures grant == 0 && Merged(old(blocks)) ==> Merged(blocks) && end == old(end)
    {
      hide HeaderAt, Tiles, Live, Freed, Allocated, Rounded, Moved, Merged, OutsideKept, MoveFits;
      ghost var ram0, blocks0 := ram[..], blocks;
      NothingKept(ram0, Live(blocks));
      if pointer == 0 {
        r := Kmalloc(newSize, grant);
        if grant == 0 && Merged(blocks0) {
          AllocatedMerged(ram0, blocks0, old(end), Rounded(newSize), newSize == 0, ram[..], blocks, end, r);
        }
        return;
      }
      if newSize == 0 {
        Kfree(pointer, k);
        return 0;
      }
      assert HeaderOk(ram[..], blocks, k);
      var size, free, next, prev := GetHeader(pointer - HEADER);
      if size >= newSize {
        return pointer;
      }
      r := Move(pointer, size, newSize, grant, k);
    }

    /** Moves the contents of a block to a larger one. */
    method Move(pointer: U64, size: U32, newSize: U64, grant: U64, ghost k: nat) returns (r: U64)
      requires Valid() && Grantable(ram[..], end, Rounded(newSize), grant)
      requires k < |blocks| && !blocks[k].free && pointer == Payload(blocks[k])
               && blocks[k].size == size < newSize && MoveFits(blocks, end, newSize, grant, size)
      modifies ram, this`blocks, this`end
      ensures Valid() && start == old(start) && OutsideKept(old(ram[..]), ram[..], start, end)
      ensures Moved(old(ram[..]), old(blocks), ram[..], blocks, old(blocks)[k], Promised(newSize), r)
      ensures r == 0 ==> FirstFit(old(blocks), Rounded(newSize)).None?
      ensures grant == 0 && Merged(old(blocks)) ==> Merged(blocks) && end == old(end)
    {
      hide HeaderAt, Tiles, Live, Freed, Rounded, Taken, Allocated, Moved, Merged, PayloadsKept, HeaderOk, OutsideKept,
           Written, NewLive, FirstFit, ExpandBytes, MoveFits, Promised, Searched;
      ghost var ram0, blocks0, b, n := ram[..], blocks, blocks[k], Rounded(newSize);
      LiveAt(blocks0, k);
      r := Kmalloc(newSize, grant);
      if grant == 0 && Merged(blocks0) {
        AllocatedMerged(ram0, blocks0, old(end), n, false, ram[..], blocks, end, r);
      }
      AllocatedLive(ram0, blocks0, old(end), n, grant, ram[..], blocks, end, r);
      if r == 0 {
        AllocatedMiss(ram0, blocks0, old(end), n, grant, ram[..], blocks, end, r);
        NotMoved(ram0, blocks0, ram[..], blocks, b, Promised(newSize));
        return 0;
      }
      ghost var ram1, blocks1 := ram[..], blocks;
      ghost var j := AllocatedSize(ram0, blocks0, old(end), newSize, grant, ram1, blocks1, end, r, size);
      ghost var i := LiveIndex(blocks0, blocks1, start, end, k, j, n, r);
      CopyPayload(r, pointer, size, i, j);
      ghost var ram2 := ram[..];
      OutsideTransitive(ram0, ram1, ram2, start, end, end);
      Kfree(pointer, i);
      OutsideTransitive(ram0, ram2, ram[..], start, end, end);
      MovedOver(ram0, blocks0, ram1, blocks1, ram2, ram[..], blocks, b, j, n, Promised(newSize), r);
    }
  }

  /** What moving block b did: its contents are at the start of a new block and all other contents are where they
      were; or, if there is no new block, nothing has changed for the blocks in use. */
  ghost predicate Moved(ram: seq<Byte>, blocks: seq<Block>, ram': seq<Byte>, blocks': seq<Block>, b: Block,
                        newSize: nat, r: nat)
  {
    if r == 0 then Live(blocks') == Live(blocks) && PayloadsKept(ram, ram', Live(blocks))
    else
      && PayloadsKept(ram, ram', Live(blocks) - {b})
      && exists c :: MovedTo(ram, blocks, ram', blocks', b, c) && r == Payload(c) &&
                  newSize <= c.size < newSize + 64
  }

  ghost predicate MovedTo(ram: seq<Byte>, blocks: seq<Block>, ram': seq<Byte>, blocks': seq<Block>, b: Block, c: Block)
  {
    && c !in Live(blocks) && Live(blocks') == Live(blocks) - {b} + {c}
    && |ram'| == |ram| && End(b) <= |ram| && Payload(c) + b.size <= |ram|
    && ram'[Payload(c)..Payload(c) + b.size] == ram[Payload(b)..End(b)]
  }

  lemma AllocatedLive(ram: seq<Byte>, blocks: seq<Block>, end: nat, n: U64, grant: U64,
                      ram': seq<Byte>, blocks': seq<Block>, end': nat, pointer: U64)
    requires grant != 0 ==> 0 < ExpandBytes(n)
    requires Allocated(ram, blocks, end, n, false, grant, ram', blocks', end', pointer)
    ensures PayloadsKept(ram, ram', Live(blocks))
    ensures pointer == 0 ==> Live(blocks') == Live(blocks)
    ensures pointer != 0 ==> exists j :: NewLive(blocks, blocks', j, n, pointer)
  {
    hide Live, Taken, FirstFit, ExpandBytes;
  }

  /** With memory to expand the heap every request is served whose expansion is large enough, and no other that did not
      fit before. */
  lemma GrantedServes(ram: seq<Byte>, blocks: seq<Block>, end: nat, n: U64, grant: U64,
                      ram': seq<Byte>, blocks': seq<Block>, end': nat, pointer: U64)
    requires grant != 0 && 0 < ExpandBytes(n)
    requires Allocated(ram, blocks, end, n, false, grant, ram', blocks', end', pointer)
    ensures pointer != 0 <==> FirstFit(blocks, n).Some? || n + 8215 < 0x1_0000_0000
  {
    hide Live, Taken, PayloadsKept, ExpandBytes;
    ExpandSuffices(n);
    var searched := Searched(blocks, end, n, grant);
    if FirstFit(blocks, n).None? {
      var last := |blocks|;
      forall i | 0 <= i < last
        ensures !Fit(searched[i], n)
      {
        FirstFitMisses(blocks, n, i);
      }
      FirstFitIs(searched, n, if Fit(searched[last], n) then last else last + 1);
    }
  }

  /** An allocation fails only if no block fits. */
  lemma AllocatedMiss(ram: seq<Byte>, blocks: seq<Block>, end: nat, n: U64, grant: U64,
                      ram': seq<Byte>, blocks': seq<Block>, end': nat, pointer: U64)
    requires grant != 0 ==> 0 < ExpandBytes(n)
    requires Allocated(ram, blocks, end, n, false, grant, ram', blocks', end', pointer) && pointer == 0
    ensures FirstFit(blocks, n).None?
  {
    hide Live, Taken, FirstFit, ExpandBytes, PayloadsKept;
  }

  /** The size of the payload when n bytes are taken from block b. */
  function PayloadSize(b: Block, n: nat): nat
  {
    if Splits(b, n) then n else b.size
  }

  /** The contents of a block of `size` bytes fit the block that a request for newSize bytes is served with. */
  ghost predicate MoveFits(blocks: seq<Block>, end: nat, newSize: U64, grant: U64, size: nat)
    requires grant != 0 ==> 0 < ExpandBytes(Rounded(newSize))
  {
    var n := Rounded(newSize);
    var searched := Searched(blocks, end, n, grant);
    var k := FirstFit(searched, n);
    newSize < size || k.None? || size <= PayloadSize(searched[k.value], n)
  }

  /** They fit as long as the rounding does not wrap around. If it does, a block of no bytes is asked for, and they fit
      exactly if the first free block is too small to be split and large enough for them. */
  lemma WrappedResize(blocks: seq<Block>, end: nat, newSize: U64, grant: U64, size: nat)
    requires grant != 0 ==> 0 < ExpandBytes(Rounded(newSize))
    ensures newSize <= U64_MAX - 7 ==> MoveFits(blocks, end, newSize, grant, size)
    ensures size <= U64_MAX - 7 < newSize ==>
              && Rounded(newSize) == 0
              && var searched := Searched(blocks, end, 0, grant);
                 (MoveFits(blocks, end, newSize, grant, size) <==>
                    var k := FirstFit(searched, 0);
                    k.None? || size == 0 || (size <= searched[k.value].size < HEADER + MIN_BLOCK))
  {
    hide ExpandBytes, FirstFit;
    RoundedUp(newSize);
  }

  /** Which block an allocation was served with, and that the contents of a block of `size` bytes fit it exactly if it
      was said so beforehand: otherwise copying them overruns the new block. */
  lemma AllocatedSize(ram: seq<Byte>, blocks: seq<Block>, end: nat, newSize: U64, grant: U64,
                      ram': seq<Byte>, blocks': seq<Block>, end': nat, pointer: U64, size: nat) returns (j: nat)
    requires grant != 0 ==> 0 < ExpandBytes(Rounded(newSize))
    requires Allocated(ram, blocks, end, Rounded(newSize), false, grant, ram', blocks', end', pointer) && pointer != 0
    requires size < newSize
    ensures NewLive(blocks, blocks', j, Rounded(newSize), pointer) && j < |blocks'| && pointer == Payload(blocks'[j])
    ensures MoveFits(blocks, end, newSize, grant, size) <==> pointer + size <= End(blocks'[j])
    ensures Promised(newSize) <= Rounded(newSize) < Promised(newSize) + 8
  {
    hide Live, FirstFit, ExpandBytes, PayloadsKept;
    RoundedUp(newSize);
    var n := Rounded(newSize);
    var searched := Searched(blocks, end, n, grant);
    j := FirstFit(searched, n).value;
  }

  lemma NotMoved(ram: seq<Byte>, blocks: seq<Block>, ram': seq<Byte>, blocks': seq<Block>, b: Block, newSize: nat)
    requires Live(blocks') == Live(blocks) && PayloadsKept(ram, ram', Live(blocks))
    ensures Moved(ram, blocks, ram', blocks', b, newSize, 0)
  {
    hide Live;
  }

  /** A block in use before the allocation is in use after it, at an index of its own. */
  lemma LiveIndex(blocks: seq<Block>, blocks': seq<Block>, first: nat, end: nat, k: nat, j: nat, n: nat, r: nat)
      returns (i: nat)
    requires k < |blocks| && !blocks[k].free && NewLive(blocks, blocks', j, n, r)
    ensures i < |blocks'| && blocks'[i] == blocks[k] && i != j && j < |blocks'| && r == Payload(blocks'[j])
            && n <= blocks'[j].size
  {
    assert blocks[k] in Live(blocks);
    assert blocks[k] in Live(blocks');
    i :| 0 <= i < |blocks'| && blocks'[i] == blocks[k];
  }

  lemma TwoPayloads(ram: seq<Byte>, blocks: seq<Block>, first: nat, end: nat, i: nat, j: nat)
    requires Written(ram, blocks, first, end) && i < |blocks| && j < |blocks| && i != j
    ensures End(blocks[i]) <= |ram| && End(blocks[j]) <= |ram|
    ensures End(blocks[i]) <= Payload(blocks[j]) || End(blocks[j]) <= Payload(blocks[i])
  {
    hide Tiles, HeaderAt;
    Separate(blocks, first, end, i, j);
    assert HeaderOk(ram, blocks, i) && HeaderOk(ram, blocks, j);
  }

  /** Storing bytes inside the payload of block j leaves the headers and the other payloads alone. */
  lemma StoreWritten(ram: seq<Byte>, ram': seq<Byte>, blocks: seq<Block>, first: nat, end: nat, j: nat, at: nat,
                     data: seq<Byte>)
    requires Written(ram, blocks, first, end) && j < |blocks| && at + |data| <= blocks[j].size
    requires Payload(blocks[j]) + at + |data| <= |ram| && ram' == Splice(ram, Payload(blocks[j]) + at, data)
    ensures Written(ram', blocks, first, end) && PayloadsKept(ram, ram', Live(blocks) - {blocks[j]})
    ensures OutsideKept(ram, ram', first, end)
  {
    hide HeaderAt;
    Inside(blocks, first, end, j);
    forall l | 0 <= l < |blocks| ensures HeaderOk(ram', blocks, l) {
      assert HeaderOk(ram, blocks, l);
      if l != j {
        Separate(blocks, first, end, l, j);
      }
      HeaderKept(ram, ram', blocks[l].at);
    }
    forall b, x | b in Live(blocks) - {blocks[j]} && Payload(b) <= x < End(b) && x < |ram| ensures ram'[x] == ram[x] {
      var l :| 0 <= l < |blocks| && blocks[l] == b;
      Separate(blocks, first, end, l, j);
    }
  }

  /** Copying the payload of block i into that of block j, which starts at r. */
  lemma CopyWritten(ram: seq<Byte>, ram': seq<Byte>, blocks: seq<Block>, first: nat, end: nat, i: nat, j: nat, r: nat)
    requires Written(ram, blocks, first, end) && i < |blocks| && j < |blocks| && i != j && r == Payload(blocks[j])
    requires End(blocks[i]) <= |ram| && r + blocks[i].size <= |ram| && blocks[i].size <= blocks[j].size
    requires ram' == Splice(ram, r, ram[Payload(blocks[i])..End(blocks[i])])
    ensures Written(ram', blocks, first, end) && PayloadsKept(ram, ram', Live(blocks) - {blocks[j]})
    ensures OutsideKept(ram, ram', first, end)
  {
    hide Written, PayloadsKept, OutsideKept, Live;
    StoreWritten(ram, ram', blocks, first, end, j, 0, ram[Payload(blocks[i])..End(blocks[i])]);
  }

  lemma MovedOver(ram0: seq<Byte>, blocks0: seq<Block>, ram1: seq<Byte>, blocks1: seq<Block>, ram2: seq<Byte>,
                  ram3: seq<Byte>, blocks3: seq<Block>, b: Block, j: nat, n: nat, newSize: nat, r: nat)
    requires NewLive(blocks0, blocks1, j, n, r) && newSize <= n < newSize + 8 && b in Live(blocks0) && r != 0
    requires b.size <= blocks1[j].size
    requires PayloadsKept(ram0, ram1, Live(blocks0)) && PayloadsKept(ram1, ram2, Live(blocks1) - {blocks1[j]})
    requires Live(blocks3) == Live(blocks1) - {b} && PayloadsKept(ram2, ram3, Live(blocks3))
    requires End(b) <= |ram1| && r + b.size <= |ram1| && ram2 == Splice(ram1, r, ram1[Payload(b)..End(b)])
    ensures Moved(ram0, blocks0, ram3, blocks3, b, newSize, r)
  {
    hide Live;
    var c := blocks1[j];
    assert Live(blocks3) == Live(blocks0) - {b} + {c};
    var x, y := ram3[Payload(c)..Payload(c) + b.size], ram0[Payload(b)..End(b)];
    forall i | 0 <= i < b.size ensures x[i] == y[i] {
      assert c in Live(blocks3) && b in Live(blocks0);
      assert ram3[Payload(c) + i] == ram2[Payload(c) + i];
      assert ram1[Payload(b) + i] == ram0[Payload(b) + i];
    }
    assert MovedTo(ram0, blocks0, ram3, blocks3, b, c);
    forall d, x | d in Live(blocks0) - {b} && Payload(d) <= x < End(d) && x < |ram0| ensures ram3[x] == ram0[x] {
      assert d in Live(blocks3) && d in Live(blocks1) - {c};
    }
  }

  lemma Aligned(blocks: seq<Block>, first: nat, end: nat, k: nat)
    requires Tiles(blocks, first, end) && k < |blocks|
    ensures Payload(blocks[k]) % 8 == 0
  {
    assert BlockOk(blocks, k);
  }

  datatype Stats = Stats(total: nat, used: nat, free: nat, blocks: nat, freeBlocks: nat)

  function StatsOf(blocks: seq<Block>): Stats
  {
    if blocks == [] then Stats(0, 0, 0, 0, 0)
    else
      var s, b := StatsOf(blocks[..|blocks| - 1]), blocks[|blocks| - 1];
      Stats(s.total + b.size + HEADER, if b.free then s.used else s.used + b.size,
            if b.free then s.free + b.size else s.free,
            s.blocks + 1, if b.free then s.freeBlocks + 1 else s.freeBlocks)
  }

  /** The totals add up to the arena. */
  lemma {:induction false} StatsTotal(blocks: seq<Block>, first: nat, end: nat)
    requires Tiles(blocks, first, end)
    ensures var s := StatsOf(blocks);
            s.total == end - first == s.used + s.free + HEADER * s.blocks && s.blocks == |blocks|
  {
    var n := |blocks| - 1;
    assert BlockOk(blocks, n);
    if n == 0 {
      assert blocks[..0] == [];
    } else {
      assert BlockOk(blocks, n - 1);
      var rest := blocks[..n];
      forall i | 0 <= i < n ensures BlockOk(rest, i) {
        assert BlockOk(blocks, i);
      }
      StatsTotal(rest, first, blocks[n].at);
    }
  }

  function Plus(s: Stats, t: Stats): Stats
  {
    Stats(s.total + t.total, s.used + t.used, s.free + t.free, s.blocks + t.blocks, s.freeBlocks + t.freeBlocks)
  }

  lemma {:induction false} StatsAppend(a: seq<Block>, b: seq<Block>)
    ensures StatsOf(a + b) == Plus(StatsOf(a), StatsOf(b))
    decreases |b|
  {
    if b == [] {
      assert a + b == a;
    } else {
      var n := |b| - 1;
      var ab := a + b;
      assert ab[..|ab| - 1] == a + b[..n] && ab[|ab| - 1] == b[n];
      StatsAppend(a, b[..n]);
    }
  }

  lemma StatsOne(b: Block)
    ensures StatsOf([b]) == Stats(b.size + HEADER, if b.free then 0 else b.size, if b.free then b.size else 0, 1,
                                  if b.free then 1 else 0)
  {
    assert [b][..0] == [];
  }

  /** Replacing one stretch of the list changes the totals by the difference. */
  lemma StatsReplaced(blocks: seq<Block>, i: nat, j: nat, r: seq<Block>, blocks': seq<Block>)
    requires i <= j <= |blocks| && blocks' == blocks[..i] + r + blocks[j..]
    ensures Plus(StatsOf(blocks'), StatsOf(blocks[i..j])) == Plus(StatsOf(blocks), StatsOf(r))
  {
    hide StatsOf;
    StatsAppend(blocks[..i], blocks[i..j]);
    StatsAppend(blocks[..i] + blocks[i..j], blocks[j..]);
    assert blocks[..i] + blocks[i..j] + blocks[j..] == blocks;
    StatsAppend(blocks[..i], r);
    StatsAppend(blocks[..i] + r, blocks[j..]);
  }

  lemma StatsTwo(b: Block, c: Block)
    ensures StatsOf([b, c]) == Plus(StatsOf([b]), StatsOf([c]))
  {
    assert [b, c] == [b] + [c];
    StatsAppend([b], [c]);
  }

  /** Allocating moves the block taken from the free bytes to those in use. */
  lemma StatsTaken(blocks: seq<Block>, k: nat, n: nat)
    requires k < |blocks| && Fit(blocks[k], n)
    ensures var s, s', b := StatsOf(blocks), StatsOf(Taken(blocks, k, n)), Taken(blocks, k, n)[k];
            && s'.used == s.used + b.size && s'.total == s.total
            && s'.blocks + s.freeBlocks == s.blocks + s'.freeBlocks + 1
            && s.free == s'.free + b.size + (if s'.freeBlocks == s.freeBlocks then 24 else 0)
  {
    hide StatsOf, Taken;
    TakenSize(blocks, k, n);
    var b, taken := blocks[k], Taken(blocks, k, n);
    assert blocks[k..k + 1] == [b];
    StatsOne(b);
    if b.size < n + 56 {
      StatsOne(Block(b.at, b.size, false));
      StatsReplaced(blocks, k, k + 1, [Block(b.at, b.size, false)], taken);
    } else {
      var c, d := Block(b.at, n, false), Block(b.at + 24 + n, b.size - n - 24, true);
      StatsOne(c);
      StatsOne(d);
      StatsTwo(c, d);
      StatsReplaced(blocks, k, k + 1, [c, d], taken);
    }
  }

  /** Merging adds a header to the free bytes. */
  lemma StatsMerged(blocks: seq<Block>, i: nat)
    requires i + 1 < |blocks| && blocks[i].free && blocks[i + 1].free
    ensures var s, s' := StatsOf(blocks), StatsOf(MergeAt(blocks, i));
            && s'.total == s.total && s'.used == s.used && s'.free == s.free + 24
            && s'.blocks + 1 == s.blocks && s'.freeBlocks + 1 == s.freeBlocks
  {
    hide StatsOf;
    var b := blocks[i].(size := blocks[i].size + HEADER + blocks[i + 1].size);
    assert blocks[i..i + 2] == [blocks[i], blocks[i + 1]];
    StatsOne(blocks[i]);
    StatsOne(blocks[i + 1]);
    StatsTwo(blocks[i], blocks[i + 1]);
    StatsOne(b);
    StatsReplaced(blocks, i, i + 2, [b], MergeAt(blocks, i));
  }

  lemma StatsMarked(blocks: seq<Block>, k: nat)
    requires k < |blocks| && !blocks[k].free
    ensures var s, s' := StatsOf(blocks), StatsOf(Mark(blocks, k, true));
            && s'.total == s.total && s'.used + blocks[k].size == s.used && s'.free == s.free + blocks[k].size
            && s'.blocks == s.blocks && s'.freeBlocks == s.freeBlocks + 1
  {
    hide StatsOf;
    var b := blocks[k].(free := true);
    assert blocks[k..k + 1] == [blocks[k]];
    StatsOne(blocks[k]);
    StatsOne(b);
    StatsReplaced(blocks, k, k + 1, [b], Mark(blocks, k, true));
  }

  /** Freeing takes the block from the bytes in use; merging does not count as use. */
  lemma StatsFreed(blocks: seq<Block>, k: nat)
    requires k < |blocks| && !blocks[k].free
    ensures var s, s' := StatsOf(blocks), StatsOf(Freed(blocks, k));
            && s'.used + blocks[k].size == s.used && s'.total == s.total
            && s'.blocks + s.freeBlocks + 1 == s.blocks + s'.freeBlocks
  {
    hide StatsOf, MergeAt;
    var marked := Mark(blocks, k, true);
    StatsMarked(blocks, k);
    if k + 1 < |marked| && marked[k + 1].free {
      StatsMerged(marked, k);
    }
    var next := MergeNext(marked, k);
    if k > 0 && next[k - 1].free {
      StatsMerged(next, k - 1);
    }
  }

  lemma KeptFewer(ram: seq<Byte>, ram': seq<Byte>, live: set<Block>, fewer: set<Block>)
    requires PayloadsKept(ram, ram', live) && fewer <= live
    ensures PayloadsKept(ram, ram', fewer)
  {
  }

  /** What an allocation of n bytes did. */
  ghost predicate Allocated(ram: seq<Byte>, blocks: seq<Block>, end: nat, n: U64, nothing: bool, grant: U64,
                            ram': seq<Byte>, blocks': seq<Block>, end': nat, pointer: U64)
    requires grant != 0 ==> 0 < ExpandBytes(n)
  {
    var searched := Searched(blocks, end, n, grant);
    var k := FirstFit(searched, n);
    && PayloadsKept(ram, ram', Live(blocks))
    && (if nothing || k.None?
        then pointer == 0 && blocks' == (if nothing then blocks else searched) && Live(blocks') == Live(blocks)
        else blocks' == Taken(searched, k.value, n) && NewLive(blocks, blocks', k.value, n, pointer))
    && end' == (if !nothing && FirstFit(blocks, n).None? && grant != 0 then end + ExpandBytes(n) else end)
  }

  /** Block k is the only new block in use; it has n bytes or few more, from the pointer on, a multiple of 8. */
  ghost predicate NewLive(blocks: seq<Block>, blocks': seq<Block>, k: nat, n: nat, pointer: nat)
  {
    && k < |blocks'| && pointer == Payload(blocks'[k]) && pointer % 8 == 0 && !blocks'[k].free
    && n <= blocks'[k].size < n + 56 && blocks'[k] !in Live(blocks) && Live(blocks') == Live(blocks) + {blocks'[k]}
  }

  /** Without expansion an allocation leaves no two free blocks next to each other. */
  lemma AllocatedMerged(ram: seq<Byte>, blocks: seq<Block>, end: nat, n: U64, nothing: bool,
                        ram': seq<Byte>, blocks': seq<Block>, end': nat, pointer: U64)
    requires Allocated(ram, blocks, end, n, nothing, 0, ram', blocks', end', pointer) && Merged(blocks)
    ensures Merged(blocks') && end' == end
  {
    hide Merged, Taken, Live;
    var k := FirstFit(blocks, n);
    if k.Some? {
      TakenMerged(blocks, k.value, n);
    }
  }

  /** A new header behind the arena disturbs nothing in it. */
  lemma StillLinked(ram: seq<Byte>, ram': seq<Byte>, blocks: seq<Block>, first: nat, end: nat)
    requires Written(ram, blocks, first, end) && OnlyHeader(ram, ram', end)
    ensures Written(ram', blocks, first, end)
  {
    hide HeaderAt, Tiles;
    forall i | 0 <= i < |blocks| ensures HeaderOk(ram', blocks, i) {
      assert HeaderOk(ram, blocks, i);
      Inside(blocks, first, end, i);
      HeaderKept(ram, ram', blocks[i].at);
    }
  }

  lemma BothEnds(ram0: seq<Byte>, ram1: seq<Byte>, ram2: seq<Byte>, ram3: seq<Byte>, a: nat, b: nat)
    requires a + HEADER <= |ram0| && b + HEADER <= a
    requires OnlyHeader(ram0, ram1, a) && OnlyHeader(ram1, ram2, b) && OnlyHeader(ram2, ram3, a)
    ensures ThreeHeaders(ram0, ram3, b, a, a)
    ensures HeaderAt(ram1, b) == HeaderAt(ram0, b) && HeaderAt(ram3, b) == HeaderAt(ram2, b)
    ensures HeaderAt(ram2, a) == HeaderAt(ram1, a)
  {
    hide HeaderAt;
    HeaderKept(ram0, ram1, b);
    HeaderKept(ram2, ram3, b);
    HeaderKept(ram1, ram2, a);
  }

  lemma NonzeroAddresses(ram: seq<Byte>, blocks: seq<Block>, first: nat, end: nat)
    requires Written(ram, blocks, first, end)
    ensures forall i :: 0 <= i < |blocks| ==> 0 < blocks[i].at
  {
    hide Tiles, HeaderAt;
    forall i | 0 <= i < |blocks| ensures 0 < blocks[i].at {
      Inside(blocks, first, end, i);
    }
  }

  lemma NothingKept(ram: seq<Byte>, live: set<Block>)
    ensures PayloadsKept(ram, ram, live)
    ensures forall first, end :: OutsideKept(ram, ram, first, end)
  {
  }

  lemma FirstWritten(ram: seq<Byte>, base: nat)
    requires 0 < base && base % PAGE_SIZE == 0 && base + INITIAL_SIZE <= |ram| <= LIMIT
    requires HeaderAt(ram, base) == Header(INITIAL_SIZE - HEADER, 1, 0, 0)
    ensures Written(ram, [Block(base, INITIAL_SIZE - HEADER, true)], base, base + INITIAL_SIZE) && base % 8 == 0
  {
    hide HeaderAt;
    PageAligned(base);
    var blocks := [Block(base, INITIAL_SIZE - HEADER, true)];
    assert BlockOk(blocks, 0) && HeaderOk(ram, blocks, 0);
  }

  lemma EightTimes(n: nat)
    ensures 8 * n % 8 == 0
  {
  }

  lemma PageAligned(a: nat)
    requires a % PAGE_SIZE == 0
    ensures a % 8 == 0
  {
    EightTimes(512 * (a / PAGE_SIZE));
    assert a == PAGE_SIZE * (a / PAGE_SIZE);
  }

  lemma LastHeader(ram: seq<Byte>, blocks: seq<Block>, first: nat, end: nat)
    requires Written(ram, blocks, first, end)
    ensures 0 < |blocks| && HeaderOk(ram, blocks, |blocks| - 1) && End(blocks[|blocks| - 1]) == end <= |ram|
  {
    hide HeaderAt;
  }

  lemma StartIs(ram: seq<Byte>, blocks: seq<Block>, first: nat, end: nat)
    requires Written(ram, blocks, first, end)
    ensures AddressOf(blocks, 0) == first && 0 < |blocks|
  {
  }

  lemma NotSplit(blocks: seq<Block>, k: nat, n: nat)
    requires k < |blocks|
    ensures !Splits(blocks[k], n) ==> Split(blocks, k, n) == blocks
  {
  }
}
