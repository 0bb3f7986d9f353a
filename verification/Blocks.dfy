/** The kernel heap as a list of blocks that tile one arena. */
module Blocks {
  import opened Bytes

  const HEADER := 24
  const MIN_BLOCK := 32

  /** A block: the address of its header, the size of its payload, and whether it is free. */
  datatype Block = Block(at: nat, size: nat, free: bool)

  /** Where the payload starts. */
  function Payload(b: Block): nat
  {
    b.at + HEADER
  }

  /** The address after the block. */
  function End(b: Block): nat
  {
    b.at + HEADER + b.size
  }

  /** The blocks lie one after the other from `first` to `end`, in units of 8 bytes. */
  ghost predicate Tiles(blocks: seq<Block>, first: nat, end: nat)
  {
    && 0 < |blocks| && blocks[0].at == first && End(blocks[|blocks| - 1]) == end
    && (forall i :: 0 <= i < |blocks| ==> BlockOk(blocks, i))
  }

  predicate BlockOk(blocks: seq<Block>, i: nat)
    requires i < |blocks|
  {
    blocks[i].at % 8 == 0 && blocks[i].size % 8 == 0 && (i + 1 < |blocks| ==> blocks[i + 1].at == End(blocks[i]))
  }

  lemma {:induction false} InOrder(blocks: seq<Block>, first: nat, end: nat, i: nat, j: nat)
    requires Tiles(blocks, first, end) && i < j < |blocks|
    ensures End(blocks[i]) <= blocks[j].at
    decreases j - i
  {
    assert BlockOk(blocks, j - 1);
    if i < j - 1 {
      InOrder(blocks, first, end, i, j - 1);
    }
  }

  /** Every block lies inside the arena. */
  lemma Inside(blocks: seq<Block>, first: nat, end: nat, i: nat)
    requires Tiles(blocks, first, end) && i < |blocks|
    ensures first <= blocks[i].at && End(blocks[i]) <= end
  {
    if i > 0 {
      InOrder(blocks, first, end, 0, i);
    }
    if i < |blocks| - 1 {
      InOrder(blocks, first, end, i, |blocks| - 1);
    }
  }

  /** Different blocks do not overlap, so they have different addresses. */
  lemma Separate(blocks: seq<Block>, first: nat, end: nat, i: nat, j: nat)
    requires Tiles(blocks, first, end) && i < |blocks| && j < |blocks| && i != j
    ensures End(blocks[i]) <= blocks[j].at || End(blocks[j]) <= blocks[i].at
    ensures blocks[i].at != blocks[j].at
  {
    if i < j {
      InOrder(blocks, first, end, i, j);
    } else {
      InOrder(blocks, first, end, j, i);
    }
  }

  /** No two neighbouring blocks are both free. */
  ghost predicate Merged(blocks: seq<Block>)
  {
    forall i, j :: 0 <= i < |blocks| && j == i + 1 && j < |blocks| ==> !(blocks[i].free && blocks[j].free)
  }

  /** The blocks in use. */
  ghost function Live(blocks: seq<Block>): set<Block>
  {
    set b | b in blocks && !b.free
  }

  // ----- allocating

  /** The first free block with at least n bytes. */
  function FirstFit(blocks: seq<Block>, n: nat): (r: Option<nat>)
    ensures r.Some? ==> r.value < |blocks| && Fit(blocks[r.value], n)
  {
    if blocks == [] then None
    else if Fit(blocks[0], n) then Some(0)
    else
      var r := FirstFit(blocks[1..], n);
      if r.None? then None else Some(r.value + 1)
  }

  predicate Fit(b: Block, n: nat)
  {
    b.free && b.size >= n
  }

  lemma {:induction false} FirstFitIs(blocks: seq<Block>, n: nat, k: nat)
    requires k <= |blocks| && (forall i :: 0 <= i < k ==> !Fit(blocks[i], n)) && (k < |blocks| ==> Fit(blocks[k], n))
    ensures FirstFit(blocks, n) == if k < |blocks| then Some(k) else None
  {
    if k > 0 {
      FirstFitIs(blocks[1..], n, k - 1);
    }
  }

  lemma {:induction false} FirstFitMisses(blocks: seq<Block>, n: nat, i: nat)
    requires i < |blocks| && FirstFit(blocks, n).None?
    ensures !Fit(blocks[i], n)
  {
    if i > 0 {
      FirstFitMisses(blocks[1..], n, i - 1);
    }
  }

  /** Block b cut down to n bytes, the rest being large enough for a block of its own. */
  predicate Splits(b: Block, n: nat)
  {
    b.size >= n + HEADER + MIN_BLOCK
  }

  /** The free block that is left of block b. */
  function Rest(b: Block, n: nat): Block
    requires Splits(b, n)
  {
    Block(b.at + HEADER + n, b.size - n - HEADER, true)
  }

  /** The list after block k was split. */
  function Split(blocks: seq<Block>, k: nat, n: nat): seq<Block>
    requires k < |blocks|
  {
    if Splits(blocks[k], n) then blocks[..k] + [blocks[k].(size := n), Rest(blocks[k], n)] + blocks[k + 1..]
    else blocks
  }

  /** The list after a block was marked. */
  function Mark(blocks: seq<Block>, k: nat, free: bool): seq<Block>
    requires k < |blocks|
  {
    blocks[k := blocks[k].(free := free)]
  }

  /** The list after n bytes were allocated in block k. */
  function Taken(blocks: seq<Block>, k: nat, n: nat): seq<Block>
    requires k < |blocks|
  {
    Mark(Split(blocks, k, n), k, false)
  }

  /** A block is cut to size exactly if that leaves a free block of at least 32 bytes behind a header of 24; otherwise
      it is taken as a whole. */
  lemma TakenSize(blocks: seq<Block>, k: nat, n: nat)
    requires k < |blocks| && Fit(blocks[k], n)
    ensures var b, taken := blocks[k], Taken(blocks, k, n);
            if b.size < n + 56 then taken == blocks[k := Block(b.at, b.size, false)]
            else taken == blocks[..k] + [Block(b.at, n, false), Block(b.at + 24 + n, b.size - n - 24, true)]
                          + blocks[k + 1..]
    ensures n <= Taken(blocks, k, n)[k].size < n + 56
  {
  }

  lemma MarkTiles(blocks: seq<Block>, first: nat, end: nat, k: nat, free: bool)
    requires Tiles(blocks, first, end) && k < |blocks|
    ensures Tiles(Mark(blocks, k, free), first, end)
  {
    var blocks' := Mark(blocks, k, free);
    forall i | 0 <= i < |blocks'| ensures BlockOk(blocks', i) {
      assert BlockOk(blocks, i);
    }
  }

  lemma SplitTiles(blocks: seq<Block>, first: nat, end: nat, k: nat, n: nat)
    requires Tiles(blocks, first, end) && k < |blocks| && n % 8 == 0
    ensures Tiles(Split(blocks, k, n), first, end)
  {
    var blocks' := Split(blocks, k, n);
    if Splits(blocks[k], n) {
      forall i | 0 <= i < |blocks'| ensures BlockOk(blocks', i) {
        SplitOk(blocks, k, n, i);
      }
    }
  }

  lemma SplitOk(blocks: seq<Block>, k: nat, n: nat, i: nat)
    requires k < |blocks| && n % 8 == 0 && Splits(blocks[k], n) && i < |Split(blocks, k, n)|
    requires BlockOk(blocks, k) && BlockOk(blocks, if i <= k then i else i - 1)
    ensures BlockOk(Split(blocks, k, n), i)
  {
  }

  lemma SplitAt(blocks: seq<Block>, k: nat, n: nat)
    requires k < |blocks|
    ensures k < |Split(blocks, k, n)| && Split(blocks, k, n)[k].at == blocks[k].at
            && Split(blocks, k, n)[k].free == blocks[k].free
  {
  }

  /** Splitting a free block changes nothing for the blocks in use. */
  lemma SplitLive(blocks: seq<Block>, k: nat, n: nat)
    requires k < |blocks| && blocks[k].free
    ensures Live(Split(blocks, k, n)) == Live(blocks)
  {
    var blocks' := Split(blocks, k, n);
    if Splits(blocks[k], n) {
      forall c | c in Live(blocks) ensures c in blocks' {
        var i :| 0 <= i < |blocks| && blocks[i] == c;
        assert blocks'[if i < k then i else i + 1] == c;
      }
      forall c | c in Live(blocks') ensures c in blocks {
        var i :| 0 <= i < |blocks'| && blocks'[i] == c;
        assert blocks[if i < k then i else i - 1] == c;
      }
    }
  }

  /** Allocating adds one block in use, of at least n bytes, and changes no other. */
  lemma TakenLive(blocks: seq<Block>, first: nat, end: nat, k: nat, n: nat)
    requires Tiles(blocks, first, end) && k < |blocks| && Fit(blocks[k], n) && n % 8 == 0
    ensures Tiles(Taken(blocks, k, n), first, end)
    ensures var b := Taken(blocks, k, n)[k];
            && b.at == blocks[k].at && n <= b.size && !b.free && b !in Live(blocks)
            && Live(Taken(blocks, k, n)) == Live(blocks) + {b}
  {
    SplitTiles(blocks, first, end, k, n);
    MarkTiles(Split(blocks, k, n), first, end, k, false);
    var blocks' := Taken(blocks, k, n);
    var b := blocks'[k];
    forall c | c in Live(blocks) ensures c in blocks' && c != b {
      var i :| 0 <= i < |blocks| && blocks[i] == c;
      assert i != k;
      Separate(blocks, first, end, i, k);
      assert blocks'[if i < k || !Splits(blocks[k], n) then i else i + 1] == c;
    }
    forall c | c in Live(blocks') && c != b ensures c in blocks {
      var i :| 0 <= i < |blocks'| && blocks'[i] == c;
      assert c == blocks[if i < k || !Splits(blocks[k], n) then i else i - 1];
    }
  }

  /** Allocating leaves no two free blocks next to each other. */
  lemma TakenMerged(blocks: seq<Block>, k: nat, n: nat)
    requires Merged(blocks) && k < |blocks| && blocks[k].free
    ensures Merged(Taken(blocks, k, n))
  {
    var blocks' := Taken(blocks, k, n);
    forall i, j | 0 <= i < |blocks'| && j == i + 1 && j < |blocks'|
      ensures !(blocks'[i].free && blocks'[j].free)
    {
      if Splits(blocks[k], n) {
        if i > k {
          assert blocks'[j] == blocks[j - 1] && (i > k + 1 ==> blocks'[i] == blocks[i - 1]);
          if i == k + 1 {
            assert !(blocks[k].free && blocks[k + 1].free);
          } else {
            assert !(blocks[i - 1].free && blocks[i].free);
          }
        } else if j < k {
          assert !(blocks[i].free && blocks[j].free);
        }
      } else if i != k && j != k {
        assert !(blocks[i].free && blocks[j].free);
      }
    }
  }

  // ----- freeing

  /** The list with blocks i and i + 1 merged into one. */
  function MergeAt(blocks: seq<Block>, i: nat): seq<Block>
    requires i + 1 < |blocks|
  {
    blocks[..i] + [blocks[i].(size := blocks[i].size + HEADER + blocks[i + 1].size)] + blocks[i + 2..]
  }

  /** The list after block k was merged with the next block, if that is free. */
  function MergeNext(blocks: seq<Block>, k: nat): (r: seq<Block>)
    requires k < |blocks|
    ensures k < |r| && r[k].at == blocks[k].at && r[k].free == blocks[k].free
  {
    if k + 1 < |blocks| && blocks[k + 1].free then MergeAt(blocks, k) else blocks
  }

  /** The list after block k was merged into the previous block, if that is free. */
  function MergePrevious(blocks: seq<Block>, k: nat): seq<Block>
    requires k < |blocks|
  {
    if k > 0 && blocks[k - 1].free then MergeAt(blocks, k - 1) else blocks
  }

  /** The list after block k was freed. */
  function Freed(blocks: seq<Block>, k: nat): seq<Block>
    requires k < |blocks|
  {
    MergePrevious(MergeNext(Mark(blocks, k, true), k), k)
  }

  lemma MergeTiles(blocks: seq<Block>, first: nat, end: nat, k: nat)
    requires Tiles(blocks, first, end) && k + 1 < |blocks|
    ensures Tiles(MergeAt(blocks, k), first, end)
  {
    var blocks' := MergeAt(blocks, k);
    assert BlockOk(blocks, k) && BlockOk(blocks, k + 1);
    forall i | 0 <= i < |blocks'| ensures BlockOk(blocks', i) {
      assert BlockOk(blocks, if i <= k then i else i + 1);
    }
  }

  /** Merging two free blocks changes nothing for the blocks in use. */
  lemma MergeLive(blocks: seq<Block>, k: nat)
    requires k + 1 < |blocks| && blocks[k].free && blocks[k + 1].free
    ensures Live(MergeAt(blocks, k)) == Live(blocks)
  {
    var blocks' := MergeAt(blocks, k);
    forall c | c in Live(blocks) ensures c in blocks' {
      var i :| 0 <= i < |blocks| && blocks[i] == c;
      assert blocks'[if i < k then i else i - 1] == c;
    }
    forall c | c in Live(blocks') ensures c in blocks {
      var i :| 0 <= i < |blocks'| && blocks'[i] == c;
      assert blocks[if i < k then i else i + 1] == c;
    }
  }

  lemma MarkLive(blocks: seq<Block>, first: nat, end: nat, k: nat)
    requires Tiles(blocks, first, end) && k < |blocks|
    ensures Live(Mark(blocks, k, true)) == Live(blocks) - {blocks[k]}
  {
    var blocks' := Mark(blocks, k, true);
    forall c | c in Live(blocks) - {blocks[k]} ensures c in blocks' {
      var i :| 0 <= i < |blocks| && blocks[i] == c;
      assert blocks'[i] == c;
    }
    forall c | c in Live(blocks') ensures c in blocks && c != blocks[k] {
      var i :| 0 <= i < |blocks'| && blocks'[i] == c;
      assert i != k && blocks[i] == c;
      Separate(blocks, first, end, i, k);
    }
  }

  /** Freeing removes one block in use and changes no other. */
  lemma FreedLive(blocks: seq<Block>, first: nat, end: nat, k: nat)
    requires Tiles(blocks, first, end) && k < |blocks|
    ensures Tiles(Freed(blocks, k), first, end)
    ensures Live(Freed(blocks, k)) == Live(blocks) - {blocks[k]}
  {
    hide Live, MergeAt;
    MarkTiles(blocks, first, end, k, true);
    MarkLive(blocks, first, end, k);
    var marked := Mark(blocks, k, true);
    if k + 1 < |marked| && marked[k + 1].free {
      MergeTiles(marked, first, end, k);
      MergeLive(marked, k);
    }
    var next := MergeNext(marked, k);
    if k > 0 && next[k - 1].free {
      MergeTiles(next, first, end, k - 1);
      MergeLive(next, k - 1);
    }
  }

  /** No two neighbours are both free, except perhaps block k with its neighbours. */
  ghost predicate MergedBut(blocks: seq<Block>, k: nat)
  {
    forall i, j :: 0 <= i < |blocks| && j == i + 1 && j < |blocks| && i != k && j != k
        ==> !(blocks[i].free && blocks[j].free)
  }

  lemma MergeNextMerged(blocks: seq<Block>, k: nat)
    requires k < |blocks| && MergedBut(blocks, k) && blocks[k].free
    ensures MergedBut(MergeNext(blocks, k), k)
    ensures var r := MergeNext(blocks, k); k + 1 < |r| ==> !r[k + 1].free
  {
    var r := MergeNext(blocks, k);
    if k + 1 < |blocks| && blocks[k + 1].free {
      forall i, j | 0 <= i < |r| && j == i + 1 && j < |r| && i != k && j != k
        ensures !(r[i].free && r[j].free)
      {
        if i < k {
          assert r[i] == blocks[i] && r[j] == blocks[j];
        } else {
          assert r[i] == blocks[i + 1] && r[j] == blocks[j + 1];
        }
      }
      assert k + 2 < |blocks| ==> !(blocks[k + 1].free && blocks[k + 2].free);
    }
  }

  lemma OtherNeighbours(blocks: seq<Block>, k: nat, i: nat)
    requires MergedBut(blocks, k) && i + 1 < |blocks| && i != k && i + 1 != k
    ensures !(blocks[i].free && blocks[i + 1].free)
  {
  }

  lemma MergePreviousMerged(blocks: seq<Block>, k: nat)
    requires k < |blocks| && MergedBut(blocks, k) && blocks[k].free && (k + 1 < |blocks| ==> !blocks[k + 1].free)
    ensures Merged(MergePrevious(blocks, k))
  {
    var r := MergePrevious(blocks, k);
    if k > 0 && blocks[k - 1].free {
      forall i, j | 0 <= i < |r| && j == i + 1 && j < |r|
        ensures !(r[i].free && r[j].free)
      {
        if j < k - 1 {
          assert r[i] == blocks[i] && r[j] == blocks[j];
        } else if j == k - 1 {
          OtherNeighbours(blocks, k, i);
        } else {
          assert r[j] == blocks[j + 1];
          assert i > k - 1 ==> r[i] == blocks[i + 1];
        }
      }
    }
  }

  /** Freeing leaves no two free blocks next to each other. */
  lemma FreedMerged(blocks: seq<Block>, k: nat)
    requires Merged(blocks) && k < |blocks|
    ensures Merged(Freed(blocks, k))
  {
    var marked := Mark(blocks, k, true);
    assert MergedBut(marked, k);
    MergeNextMerged(marked, k);
    MergePreviousMerged(MergeNext(marked, k), k);
  }

  // ----- what follows for every heap that was never expanded

  lemma LiveAt(blocks: seq<Block>, i: nat)
    requires i < |blocks|
    ensures blocks[i].free || blocks[i] in Live(blocks)
  {
  }

  lemma NotBothFree(blocks: seq<Block>, i: nat)
    requires Merged(blocks) && i + 1 < |blocks|
    ensures !(blocks[i].free && blocks[i + 1].free)
  {
  }

  /** One of the first two blocks is in use. */
  lemma FirstTwo(blocks: seq<Block>)
    requires Merged(blocks)
    ensures |blocks| > 1 ==> blocks[0] in Live(blocks) || blocks[1] in Live(blocks)
  {
    if |blocks| > 1 {
      NotBothFree(blocks, 0);
    }
  }

  /** When everything has been freed, in whatever order, one free block is left. */
  lemma AllFreed(blocks: seq<Block>, first: nat, end: nat)
    requires Tiles(blocks, first, end) && Merged(blocks) && Live(blocks) == {}
    ensures |blocks| == 1 && blocks[0].free && blocks[0].at == first && End(blocks[0]) == end
  {
    LiveAt(blocks, 0);
    FirstTwo(blocks);
  }

  /** An address range that touches no block in use lies inside one free block. */
  lemma FreeExtent(blocks: seq<Block>, first: nat, end: nat, a: nat, n: nat)
    requires Tiles(blocks, first, end) && Merged(blocks) && first <= a && a + n <= end && 0 < n
    requires forall b :: b in Live(blocks) ==> a + n <= b.at || End(b) <= a
    ensures exists i :: 0 <= i < |blocks| && blocks[i].free && blocks[i].at <= a && a + n <= End(blocks[i])
  {
    var i := BlockAt(blocks, first, end, a);
    LiveAt(blocks, i);
    var j := i + 1;
    if j < |blocks| {
      assert BlockOk(blocks, i);
      NotBothFree(blocks, i);
      LiveAt(blocks, j);
    }
  }

  /** The block that an address lies in. */
  lemma BlockAt(blocks: seq<Block>, first: nat, end: nat, a: nat) returns (i: nat)
    requires Tiles(blocks, first, end) && first <= a < end
    ensures i < |blocks| && blocks[i].at <= a < End(blocks[i])
  {
    i := 0;
    while End(blocks[i]) <= a
      invariant i < |blocks| && blocks[i].at <= a
      decreases |blocks| - i
    {
      assert BlockOk(blocks, i);
      i := i + 1;
    }
  }

  /** If no block fits n bytes, no n bytes and a header are free anywhere in the arena. */
  lemma MissMeansFull(blocks: seq<Block>, first: nat, end: nat, n: nat, a: nat)
    requires Tiles(blocks, first, end) && Merged(blocks) && FirstFit(blocks, n).None?
    requires first <= a && a + HEADER + n <= end
    ensures exists b :: b in Live(blocks) && !(a + HEADER + n <= b.at || End(b) <= a)
  {
    if forall b :: b in Live(blocks) ==> a + (HEADER + n) <= b.at || End(b) <= a {
      FreeExtent(blocks, first, end, a, HEADER + n);
      var i :| 0 <= i < |blocks| && blocks[i].free && blocks[i].at <= a && a + (HEADER + n) <= End(blocks[i]);
      FirstFitMisses(blocks, n, i);
    }
  }

  predicate Covers(b: Block, x: nat)
  {
    b.at <= x < End(b)
  }

  /** Merging takes for granted that the next block in the list is the next one in memory: the merged block covers
      exactly the two blocks if and only if they are neighbours in memory. */
  lemma MergeCovers(b: Block, c: Block)
    ensures var m := b.(size := b.size + HEADER + c.size);
            (forall x: nat :: Covers(m, x) <==> Covers(b, x) || Covers(c, x)) <==> c.at == End(b)
  {
    var m := b.(size := b.size + HEADER + c.size);
    if c.at < End(b) {
      assert Covers(m, End(m) - 1) && !Covers(b, End(m) - 1) && !Covers(c, End(m) - 1);
    } else if c.at > End(b) {
      assert Covers(m, End(b)) && !Covers(b, End(b)) && !Covers(c, End(b));
    }
  }
}
