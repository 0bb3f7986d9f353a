/** A mounted volume: cluster transfer, table access and cluster allocation. */
module Volumes {
  import opened Bytes
  import opened Layout
  import opened DiskIo

  class Volume {
    const disk: Disk
    var geo: Geometry

    ghost predicate Mounted()
      reads this`geo
    {
      disk.Valid() && Fits(geo, disk.data.Length)
    }

    ghost function Img(): Image
      requires Mounted()
      reads this`geo, disk.data
    {
      ImageOf(disk.data[..], geo)
    }

    constructor (disk: Disk, geo: Geometry)
      ensures this.disk == disk && this.geo == geo
    {
      this.disk := disk;
      this.geo := geo;
    }

    method ReadCluster(cluster: U32, buffer: array<Byte>) returns (ok: bool)
      requires Mounted() && buffer != disk.data && buffer.Length == CLUSTER
      modifies buffer
      ensures ok == IsCluster(geo, cluster)
      ensures ok ==> buffer[..] == Img().heap[cluster]
    {
      hide Splice, ImageOf;
      if cluster < 2 || cluster >= geo.clusterCount + 2 {
        return false;
      }
      ClusterIs(disk.data[..], geo, cluster);
      var firstSector := FirstSector(geo, disk.data.Length, cluster);
      ghost var at := ClusterByte(geo, cluster);
      ghost var d := disk.data[..];
      for i := 0 to geo.sectorsPerCluster
        invariant buffer[..SECTOR * i] == d[at..at + SECTOR * i]
      {
        ghost var before := buffer[..];
        SectorProduct(geo, disk.data.Length, i);
        var read := disk.ReadSector(firstSector + i, buffer, i * geo.bytesPerSector);
        if !read {
          return false;
        }
        assert SECTOR * (firstSector + i) == at + SECTOR * i;
        ReadStep(before, d, at, SECTOR * i, SECTOR);
      }
      assert buffer[..] == buffer[..SECTOR * 8];
      return true;
    }

    method WriteCluster(cluster: U32, buffer: array<Byte>) returns (ok: bool)
      requires Mounted() && buffer != disk.data && buffer.Length == CLUSTER
      modifies disk.data
      ensures ok == IsCluster(geo, cluster)
      ensures Img() == if ok then old(Img()).(heap := old(Img()).heap[cluster := buffer[..]]) else old(Img())
    {
      hide ImageOf;
      if cluster < 2 || cluster >= geo.clusterCount + 2 {
        return false;
      }
      ghost var d := disk.data[..];
      WriteClusterImage(d, geo, cluster, buffer[..]);
      var firstSector := FirstSector(geo, disk.data.Length, cluster);
      ghost var at := ClusterByte(geo, cluster);
      for i := 0 to geo.sectorsPerCluster
        invariant disk.data[..] == Splice(d, at, buffer[..SECTOR * i])
      {
        ghost var before := disk.data[..];
        SectorProduct(geo, disk.data.Length, i);
        var written := disk.WriteSector(firstSector + i, buffer, i * geo.bytesPerSector);
        if !written {
          return false;
        }
        assert SECTOR * (firstSector + i) == at + SECTOR * i;
        WriteStep(d, at, buffer[..], SECTOR * i, SECTOR);
      }
      assert buffer[..] == buffer[..SECTOR * 8];
      return true;
    }

    /** The table entry of a cluster; an end mark when the number is not a cluster. */
    method GetNextCluster(cluster: U32) returns (next: U32)
      requires Mounted()
      ensures next == if IsCluster(geo, cluster) then Img().fat[cluster] else END_OF_CHAIN
    {
      if cluster < 2 || cluster >= geo.clusterCount + 2 {
        return END_OF_CHAIN;
      }
      next := ReadFatEntry(cluster);
    }

    /** The sector holding a table entry, and the entry's offset in it. */
    lemma FatSector(c: nat)
      requires Mounted() && c < geo.clusterCount + 2
      ensures var s := geo.fatStart + (c * 4) / geo.bytesPerSector;
              var o := (c * 4) % geo.bytesPerSector;
              && 0 <= s < disk.sectors && SECTOR * s + SECTOR <= disk.data.Length
              && o + 4 <= SECTOR && SECTOR * s + o == FatByte(geo, c)
    {
    }

    method ReadFatEntry(cluster: U32) returns (entry: U32)
      requires Mounted() && cluster < geo.clusterCount + 2
      ensures entry == Img().fat[cluster]
    {
      FatSector(cluster);
      var fatOffset := cluster * 4;
      var sector := geo.fatStart + fatOffset / geo.bytesPerSector;
      var offset := fatOffset % geo.bytesPerSector;
      var fatSector := new Byte[SECTOR];
      var read := disk.ReadSector(sector, fatSector, 0);
      if !read {
        return END_OF_CHAIN;
      }
      assert fatSector[..] == disk.data[SECTOR * sector..SECTOR * sector + SECTOR];
      FatEntryInSector(disk.data[..], geo, cluster, sector, offset, fatSector[..]);
      assert fatSector[..][offset..offset + 4] == fatSector[offset..offset + 4];
      PowValues();
      entry := LoadLe(fatSector, offset, 4);
    }

    method WriteFatEntry(cluster: U32, value: U32) returns (ok: bool)
      requires Mounted() && cluster < geo.clusterCount + 2
      modifies disk.data
      ensures ok && Img() == old(Img()).(fat := old(Img()).fat[cluster := value])
    {
      FatSector(cluster);
      var fatOffset := cluster * 4;
      var sector := geo.fatStart + fatOffset / geo.bytesPerSector;
      var offset := fatOffset % geo.bytesPerSector;
      var fatSector := new Byte[SECTOR];
      ghost var d := disk.data[..];
      var read := disk.ReadSector(sector, fatSector, 0);
      if !read {
        return false;
      }
      assert fatSector[..] == d[SECTOR * sector..SECTOR * sector + SECTOR];
      PutLe(fatSector, offset, value, 4);
      RewriteFatSector(d, geo, cluster, sector, offset, value, fatSector[..]);
      assert fatSector[0..0 + SECTOR] == fatSector[..];
      ok := disk.WriteSector(sector, fatSector, 0);
    }

    /** Takes the lowest-numbered free cluster and marks it as the end of a chain;
        0 when no cluster is free. */
    method AllocCluster() returns (cluster: U32)
      requires Mounted()
      modifies disk.data
      ensures cluster == 0 ==> Img() == old(Img())
      ensures cluster == 0 ==> forall c :: 2 <= c < geo.clusterCount + 2 ==> Img().fat[c] != FREE
      ensures cluster != 0 ==> IsCluster(geo, cluster) && old(Img()).fat[cluster] == FREE
      ensures cluster != 0 ==> forall c :: 2 <= c < cluster ==> old(Img()).fat[c] != FREE
      ensures cluster != 0 ==> Img() == old(Img()).(fat := old(Img()).fat[cluster := END_OF_CHAIN])
    {
      var fatEntries := geo.clusterCount + 2;
      for c := 2 to fatEntries
        invariant disk.data[..] == old(disk.data[..])
        invariant forall k :: 2 <= k < c ==> Img().fat[k] != FREE
      {
        var entry := ReadFatEntry(c);
        if entry == FREE {
          var _ := WriteFatEntry(c, END_OF_CHAIN);
          return c;
        }
      }
      return 0;
    }
  }

  lemma ClusterIs(d: seq<Byte>, g: Geometry, c: nat)
    requires Fits(g, |d|) && IsCluster(g, c)
    ensures ClusterByte(g, c) + CLUSTER <= |d|
    ensures ImageOf(d, g).heap[c] == d[ClusterByte(g, c)..ClusterByte(g, c) + CLUSTER]
  {
    ClusterInside(g, |d|, c);
  }

  lemma ReadStep(b: seq<Byte>, d: seq<Byte>, at: nat, done: nat, n: nat)
    requires done + n <= |b| && at + done + n <= |d| && b[..done] == d[at..at + done]
    ensures Splice(b, done, d[at + done..at + done + n])[..done + n] == d[at..at + (done + n)]
  {
    var r := Splice(b, done, d[at + done..at + done + n])[..done + n];
    assert r == b[..done] + d[at + done..at + done + n];
  }

  lemma WriteStep(d: seq<Byte>, at: nat, b: seq<Byte>, done: nat, n: nat)
    requires done + n <= |b| && at + done + n <= |d|
    ensures Splice(Splice(d, at, b[..done]), at + done, b[done..done + n]) == Splice(d, at, b[..done + n])
  {
    assert b[..done] + b[done..done + n] == b[..done + n];
    SpliceAppend(d, at, b[..done], b[done..done + n]);
  }

  lemma SliceOfSlice(s: seq<Byte>, at: nat, len: nat, off: nat, n: nat)
    requires at + len <= |s| && off + n <= len
    ensures s[at..at + len][off..off + n] == s[at + off..at + off + n]
  {
    var a, b := s[at..at + len][off..off + n], s[at + off..at + off + n];
    assert forall i :: 0 <= i < n ==> a[i] == b[i];
  }

  lemma SpliceAppend(s: seq<Byte>, at: nat, t: seq<Byte>, u: seq<Byte>)
    requires at + |t| + |u| <= |s|
    ensures Splice(Splice(s, at, t), at + |t|, u) == Splice(s, at, t + u)
  {
  }

  lemma FatEntryInSector(d: seq<Byte>, g: Geometry, c: nat, sector: nat, offset: nat, t: seq<Byte>)
    requires Fits(g, |d|) && c < g.clusterCount + 2
    requires SECTOR * sector + SECTOR <= |d| && offset + 4 <= SECTOR && SECTOR * sector + offset == FatByte(g, c)
    requires t == d[SECTOR * sector..SECTOR * sector + SECTOR]
    ensures Get32(t, offset) == ImageOf(d, g).fat[c]
  {
    SliceOfSlice(d, SECTOR * sector, SECTOR, offset, 4);
  }

  /** Reading a sector, storing one table entry in it and writing it back is a write of that entry. */
  lemma RewriteFatSector(d: seq<Byte>, g: Geometry, c: nat, sector: nat, offset: nat, v: U32, t: seq<Byte>)
    requires Fits(g, |d|) && c < g.clusterCount + 2
    requires SECTOR * sector + SECTOR <= |d| && offset + 4 <= SECTOR && SECTOR * sector + offset == FatByte(g, c)
    requires t == Splice(d[SECTOR * sector..SECTOR * sector + SECTOR], offset, LeBytes(v, 4))
    ensures ImageOf(Splice(d, SECTOR * sector, t), g) == ImageOf(d, g).(fat := ImageOf(d, g).fat[c := v])
  {
    SpliceNested(d, SECTOR * sector, SECTOR, offset, LeBytes(v, 4));
    WriteFatEntryImage(d, g, c, v);
  }
}
