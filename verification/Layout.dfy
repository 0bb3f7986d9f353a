/** The exFAT volume layout, and the view of the raw disk as a file allocation
    table plus a heap of 4 KB clusters. */
module Layout {
  import opened Bytes
  import opened DiskIo

  const FREE: U32 := 0
  const END_OF_CHAIN: U32 := 0xFFFF_FFFF
  const FIRST_END_MARK: U32 := 0xFFFF_FFF8

  const CLUSTER := 4096
  const ROOT := 2

  /** The fields of the mounted volume that the code computes with. */
  datatype Geometry = Geometry(
    bytesPerSector: U32, sectorsPerCluster: U32, bytesPerCluster: U32,
    fatStart: U32, heapStart: U32, clusterCount: U32, rootCluster: U32)

  /** The table has room for clusterCount + 2 entries between the boot area and the heap,
      and the heap lies inside a disk of the given length in bytes. */
  predicate Fits(g: Geometry, length: nat)
  {
    && g.bytesPerSector == SECTOR && g.sectorsPerCluster == 8 && g.bytesPerCluster == CLUSTER
    && g.rootCluster == ROOT && 1 <= g.clusterCount < 0x1000_0000
    && 1 <= g.fatStart
    && SECTOR * g.fatStart + 4 * (g.clusterCount + 2) <= SECTOR * g.heapStart
    && SECTOR * g.heapStart + CLUSTER * g.clusterCount <= length
    && length <= 0x1_0000_0000
  }

  function FatByte(g: Geometry, c: nat): nat
  {
    SECTOR * g.fatStart + 4 * c
  }

  function ClusterByte(g: Geometry, c: nat): nat
    requires 2 <= c
  {
    SECTOR * g.heapStart + CLUSTER * (c - 2)
  }

  predicate IsCluster(g: Geometry, c: int)
  {
    2 <= c < g.clusterCount + 2
  }

  /** The first sector of a cluster. */
  function FirstSector(g: Geometry, length: nat, c: nat): (s: U32)
    requires Fits(g, length) && IsCluster(g, c)
    ensures SECTOR * s == ClusterByte(g, c) && SECTOR * s + CLUSTER <= length
  {
    SectorProduct(g, length, c - 2);
    g.heapStart + (c - 2) * g.sectorsPerCluster
  }

  lemma SectorProduct(g: Geometry, length: nat, n: nat)
    requires Fits(g, length)
    ensures n * g.sectorsPerCluster == 8 * n && n * g.bytesPerSector == SECTOR * n
  {
  }

  lemma ClusterInside(g: Geometry, length: nat, c: nat)
    requires Fits(g, length) && IsCluster(g, c)
    ensures ClusterByte(g, c) + CLUSTER <= length
    ensures FatByte(g, c) + 4 <= SECTOR * g.heapStart <= ClusterByte(g, c)
  {
  }

  /** What the rest of the file system sees of the disk bytes: fat[c] is the table entry of
      cluster c and heap[c] its contents. Clusters 0 and 1 have an entry but no contents. */
  datatype Image = Image(fat: seq<U32>, heap: seq<seq<Byte>>)

  function ClusterAt(d: seq<Byte>, g: Geometry, c: nat): seq<Byte>
    requires Fits(g, |d|) && c < g.clusterCount + 2
  {
    if c < 2 then [] else ClusterInside(g, |d|, c); d[ClusterByte(g, c)..ClusterByte(g, c) + CLUSTER]
  }

  function ImageOf(d: seq<Byte>, g: Geometry): (img: Image)
    requires Fits(g, |d|)
    ensures |img.fat| == |img.heap| == g.clusterCount + 2
  {
    Image(seq(g.clusterCount + 2, c requires 0 <= c < g.clusterCount + 2 => Get32(d, FatByte(g, c))),
          seq(g.clusterCount + 2, c requires 0 <= c < g.clusterCount + 2 => ClusterAt(d, g, c)))
  }

  /** Which bytes of the disk are an entry of the table, and which are a cluster. */
  lemma ImageBytes(d: seq<Byte>, g: Geometry, c: nat)
    requires Fits(g, |d|) && c < g.clusterCount + 2
    ensures 512 * g.fatStart + 4 * c + 4 <= |d| && ImageOf(d, g).fat[c] == Get32(d, 512 * g.fatStart + 4 * c)
    ensures 2 <= c ==> 512 * g.heapStart + 4096 * (c - 1) <= |d|
    ensures 2 <= c ==>
              ImageOf(d, g).heap[c] == d[512 * g.heapStart + 4096 * (c - 2)..512 * g.heapStart + 4096 * (c - 1)]
  {
    if 2 <= c {
      ClusterInside(g, |d|, c);
    }
  }

  lemma OneFatEntry(d: seq<Byte>, g: Geometry, c: nat, v: U32, k: nat)
    requires Fits(g, |d|) && c < g.clusterCount + 2 && k < g.clusterCount + 2
    ensures var d' := Splice(d, FatByte(g, c), LeBytes(v, 4));
            Get32(d', FatByte(g, k)) == (if k == c then v else Get32(d, FatByte(g, k)))
                && ClusterAt(d', g, k) == ClusterAt(d, g, k)
  {
    if k == c {
      Get32AfterPut(d, FatByte(g, c), v);
    } else {
      SpliceSlice(d, FatByte(g, c), LeBytes(v, 4), FatByte(g, k), FatByte(g, k) + 4);
    }
    if 2 <= k {
      ClusterInside(g, |d|, k);
      SpliceSlice(d, FatByte(g, c), LeBytes(v, 4), ClusterByte(g, k), ClusterByte(g, k) + CLUSTER);
    }
  }

  /** Writing one table entry through the disk changes that entry and nothing else. */
  lemma WriteFatEntryImage(d: seq<Byte>, g: Geometry, c: nat, v: U32)
    requires Fits(g, |d|) && c < g.clusterCount + 2
    ensures var d' := Splice(d, FatByte(g, c), LeBytes(v, 4));
            ImageOf(d', g) == ImageOf(d, g).(fat := ImageOf(d, g).fat[c := v])
  {
    hide Splice, ClusterAt, Get32;
    var d' := Splice(d, FatByte(g, c), LeBytes(v, 4));
    var a, b := ImageOf(d, g), ImageOf(d', g);
    forall k | 0 <= k < g.clusterCount + 2
      ensures b.fat[k] == a.fat[c := v][k] && b.heap[k] == a.heap[k]
    {
      OneFatEntry(d, g, c, v, k);
    }
    assert b.fat == a.fat[c := v];
    assert b.heap == a.heap;
  }

  /** Writing one cluster through the disk changes that cluster and nothing else. */
  lemma WriteClusterImage(d: seq<Byte>, g: Geometry, c: nat, t: seq<Byte>)
    requires Fits(g, |d|) && IsCluster(g, c) && |t| == CLUSTER
    ensures ClusterByte(g, c) + CLUSTER <= |d|
    ensures var d' := Splice(d, ClusterByte(g, c), t);
            ImageOf(d', g) == ImageOf(d, g).(heap := ImageOf(d, g).heap[c := t])
  {
    ClusterInside(g, |d|, c);
    var d' := Splice(d, ClusterByte(g, c), t);
    var a, b := ImageOf(d, g), ImageOf(d', g);
    forall k | 0 <= k < g.clusterCount + 2
      ensures b.fat[k] == a.fat[k] && b.heap[k] == a.heap[c := t][k]
    {
      SpliceSlice(d, ClusterByte(g, c), t, FatByte(g, k), FatByte(g, k) + 4);
      if k == c {
        SpliceOwn(d, ClusterByte(g, c), t);
      } else if 2 <= k {
        ClusterInside(g, |d|, k);
        SpliceSlice(d, ClusterByte(g, c), t, ClusterByte(g, k), ClusterByte(g, k) + CLUSTER);
      }
    }
    assert b.fat == a.fat;
    assert b.heap == a.heap[c := t];
  }
}
