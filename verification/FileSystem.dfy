/** File operations on a mounted volume: create, open, read, write, seek and close. */
module FileSystem {
  import opened Bytes
  import opened DiskIo
  import opened Layout
  import opened Volumes
  import opened Directory
  import opened Chains
  import opened Contents
  import opened FileMap
  import opened EntrySet

  /** An open file. */
  class File {
    var firstCluster: U32
    var fileSize: U64
    var position: U64
    var attributes: U16
    var isOpen: bool
    var isDirectory: bool
    var name: CString

    constructor ()
      ensures !isOpen
    {
      firstCluster, fileSize, position, attributes := 0, 0, 0, 0;
      isOpen, isDirectory, name := false, false, [];
    }
  }

  /** A byte count returned through C's signed 32-bit int. */
  function AsInt(n: int): int
  {
    if n < 0x8000_0000 then n else n - 0x1_0000_0000
  }

  /** In C the count is kept modulo 2^32. */
  lemma AsIntIs(n: nat)
    requires n < 0x1_0000_0000
    ensures -0x8000_0000 <= AsInt(n) < 0x8000_0000 && (n - AsInt(n)) % 0x1_0000_0000 == 0
  {
  }

  /** A name that fits the directory: no slash, at most 255 bytes, and room for its entry set. */
  predicate Creatable(filename: CString, used: nat)
  {
    SLASH !in filename && |filename| <= 255 && used + 2 + NameSlots(|filename|) <= SLOTS
  }

  /** How many bytes a read of `size` bytes at `position` yields in a file of the given length. */
  function Available(length: nat, position: nat, size: nat): nat
  {
    if position >= length then 0 else if position + size > length then length - position else size
  }

  /** A read stays inside the file, and yields less than asked only where the file ends. */
  lemma AvailableIs(length: nat, position: nat, size: nat)
    ensures var n := Available(length, position, size);
            && n <= size && (0 < n ==> position + n <= length) && (n < size ==> length <= position + n)
  {
  }

  /** The file name in a path: one leading slash is skipped. */
  function StripSlash(path: CString): CString
  {
    if |path| > 0 && path[0] == SLASH then path[1..] else path
  }

  const SLASH: Byte := 0x2F

  /** A slash in front of a name makes no difference, and without one a path is a name. */
  lemma StripSlashIs(name: CString)
    ensures StripSlash([SLASH] + name) == name
    ensures name == [] || name[0] != SLASH ==> StripSlash(name) == name
  {
  }

  /** A name fits the directory exactly if it has no slash, at most 255 characters, and not more than the slots left
      beside the file and the stream entry can hold. */
  lemma CreatableIff(name: CString, used: nat)
    ensures Creatable(name, used) <==> SLASH !in name && |name| <= 255 && used <= 126 && |name| <= 15 * (126 - used)
  {
    NameSlotsIs(|name|);
  }

  /** A character of a C string; the terminator is read as NUL. */
  function CharAt(s: CString, i: nat): Byte
    requires i <= |s|
  {
    if i < |s| then s[i] else 0
  }

  class FileSystem {
    const vol: Volume
    ghost var chains: map<nat, Chain>
    ghost var owner: map<nat, (nat, nat)>
    ghost var used: nat

    ghost predicate Valid()
      reads this, vol`geo, vol.disk.data
    {
      && vol.Mounted()
      && Wf(vol.Img(), chains, owner, used)
    }

    ghost function Root(): seq<Byte>
      reads this, vol`geo, vol.disk.data
      requires Valid()
    {
      vol.Img().heap[ROOT]
    }

    /** The file system as a map from name to contents. */
    ghost function Files(): map<seq<Byte>, seq<Byte>>
      reads this, vol`geo, vol.disk.data
      requires Valid()
    {
      Chains.Files(vol.Img(), chains)
    }

    /** An open file carries the first cluster and the size of the file its name finds. */
    ghost predicate Agrees(f: File)
      reads this, vol`geo, vol.disk.data, f
      requires Valid()
    {
      f.isOpen ==>
        var r := Lookup(Root(), f.name);
        r.Some? && f.firstCluster == r.value.first && f.fileSize == r.value.size
    }

    /** An open file carries the first cluster of the file its name finds. Its size may be out of date, but fits the
        chain: another handle on the file may have written meanwhile. */
    ghost predicate Attached(f: File)
      reads this, vol`geo, vol.disk.data, f
      requires Valid()
    {
      f.isOpen ==>
        var r := Lookup(Root(), f.name);
        && r.Some? && f.firstCluster == r.value.first
        && r.value.slot in chains && f.fileSize <= CLUSTER * |chains[r.value.slot]|
    }

    lemma AgreesAttached(f: File)
      requires Valid() && Agrees(f)
      ensures Attached(f)
    {
      hide Wf, ImageOf, Lookup, DirOk, SetAt;
      if f.isOpen {
        FoundChain(vol.Img(), chains, owner, used, f.name);
      }
    }

    constructor (vol: Volume, ghost used: nat)
      requires vol.Mounted() && Wf(vol.Img(), map[], map[], used)
      ensures Valid() && this.vol == vol && chains == map[]
    {
      this.vol := vol;
      this.chains, this.owner, this.used := map[], map[], used;
    }

    // ----- walking and extending a chain

    /** Moves from the k-th cluster of a chain to the next one, appending a cluster when the chain
        ends; 0 when the volume is full. */
    method NextOrAppend(cluster: U32, ghost s: nat, ghost k: nat) returns (next: U32)
      requires Valid() && s in chains && k < |chains[s]| && chains[s][k] == cluster
      modifies this, vol.disk.data
      ensures Valid() && used == old(used)
      ensures vol.Img().heap == old(vol.Img()).heap
      ensures Extended(old(chains), chains, s)
      ensures |FreeSet(vol.Img().fat)| + |chains[s]| == |FreeSet(old(vol.Img()).fat)| + |old(chains)[s]|
      ensures next == 0 ==> FreeSet(vol.Img().fat) == {} && chains == old(chains)
      ensures next != 0 ==> k + 1 < |chains[s]| && next == chains[s][k + 1]
      ensures next != 0 ==> |chains[s]| == Longer(|old(chains)[s]|, k + 2)
      ensures next == 0 ==> |chains[s]| == k + 1
    {
      hide Wf, FatAfterGrow, ImageOf;
      ghost var img := vol.Img();
      WfChain(img, chains, owner, used, s, k);
      next := vol.GetNextCluster(cluster);
      if next >= FIRST_END_MARK {
        next := vol.AllocCluster();
        if next == 0 {
          assert FreeSet(vol.Img().fat) == {};
          return;
        }
        AppendCluster(img, chains, owner, used, s, next);
        var _ := vol.WriteFatEntry(cluster, next);
        owner := owner[next := (s, |chains[s]|)];
        chains := chains[s := chains[s] + [next as nat]];
      }
    }

    // ----- writing

    /** Copies data[from..from + n] over part of one cluster, by way of a buffer for the whole cluster. */
    method WriteChunk(cluster: U32, offset: nat, data: seq<Byte>, from: nat, n: nat)
      requires vol.Mounted() && IsCluster(vol.geo, cluster)
      requires from + n <= |data| && offset + n <= CLUSTER
      requires |vol.Img().heap[cluster]| == CLUSTER
      modifies vol.disk.data
      ensures vol.Img() == old(vol.Img()).(heap :=
        old(vol.Img()).heap[cluster := Splice(old(vol.Img()).heap[cluster], offset, data[from..from + n])])
    {
      hide ImageOf;
      ghost var img := vol.Img();
      var buffer := new Byte[CLUSTER](_ => 0);
      var read := vol.ReadCluster(cluster, buffer);
      ghost var before := buffer[..];
      assert before == img.heap[cluster];
      for i := 0 to n
        invariant vol.Img() == img
        invariant buffer[..] == Splice(before, offset, data[from..from + i])
      {
        buffer[offset + i] := data[from + i];
        assert data[from..from + (i + 1)] == data[from..from + i] + [data[from + i]];
      }
      assert buffer[..] == Splice(img.heap[cluster], offset, data[from..from + n]);
      var _ := vol.WriteCluster(cluster, buffer);
    }

    /** Finds the cluster that holds byte `position`, extending the chain as far as needed;
        0 when the volume fills up on the way. */
    method Navigate(first: U32, position: U32, ghost s: nat) returns (cluster: U32)
      requires Valid() && s in chains && chains[s] != [] && chains[s][0] == first
      modifies this, vol.disk.data
      ensures Valid() && used == old(used)
      ensures vol.Img().heap == old(vol.Img()).heap
      ensures Extended(old(chains), chains, s)
      ensures |FreeSet(vol.Img().fat)| + |chains[s]| == |FreeSet(old(vol.Img()).fat)| + |old(chains)[s]|
      ensures cluster == 0 ==> FreeSet(vol.Img().fat) == {} && CLUSTER * |chains[s]| <= position
      ensures cluster != 0 ==> position / CLUSTER < |chains[s]| && cluster == chains[s][position / CLUSTER]
      ensures cluster != 0 ==> |chains[s]| == Longer(|old(chains)[s]|, position / CLUSTER + 1)
    {
      hide Wf, ImageOf, FreeSet;
      cluster := first;
      var skip := position / vol.geo.bytesPerCluster;
      WfChain(vol.Img(), chains, owner, used, s, 0);
      for i := 0 to skip
        invariant Valid() && used == old(used)
        invariant vol.Img().heap == old(vol.Img()).heap
        invariant Extended(old(chains), chains, s)
        invariant |FreeSet(vol.Img().fat)| + |chains[s]| == |FreeSet(old(vol.Img()).fat)| + |old(chains)[s]|
        invariant i < |chains[s]| && cluster == chains[s][i] && cluster != 0
        invariant |chains[s]| == Longer(|old(chains)[s]|, i + 1)
      {
        ghost var before := chains;
        cluster := NextOrAppend(cluster, s, i);
        ExtendedTransitive(old(chains), before, chains, s);
        if cluster == 0 {
          return;
        }
      }
    }

    /** The invariant holds, and since the state (img0, chains0) only the file at slot s was written:
        the bytes d at position p. */
    ghost predicate Progress(img0: Image, chains0: map<nat, Chain>, used0: nat, s: nat, p: nat, d: seq<Byte>)
      reads this, vol`geo, vol.disk.data
    {
      Valid() && used == used0 && Advanced(img0, chains0, vol.Img(), chains, s, p, d)
    }

    /** Navigation is progress with nothing written yet. */
    lemma NavigationProgress(img0: Image, chains0: map<nat, Chain>, owner0: map<nat, (nat, nat)>, s: nat, p: nat)
      requires Valid() && Wf(img0, chains0, owner0, used) && s in chains0
      requires vol.Img().heap == img0.heap && Extended(chains0, chains, s)
      requires |FreeSet(vol.Img().fat)| + |chains[s]| == |FreeSet(img0.fat)| + |chains0[s]|
      ensures Progress(img0, chains0, used, s, p, [])
    {
      hide BytesWritten, ByteAt, Stored, OutsideKept, ChainOk, ImageOf;
      StoredInWf(img0, chains0, owner0, used, s);
      StoredInWf(vol.Img(), chains, owner, used, s);
      NothingWritten(img0, chains0[s], p);
      WrittenExtend(img0, chains0[s], img0, chains0[s], vol.Img(), chains[s], p, []);
      SameHeapKept(img0, vol.Img(), chains[s]);
    }

    /** One turn of the write loop: stores data[from..from + n] in the k-th cluster of the chain of s. */
    method StoreChunk(cluster: U32, ghost s: nat, ghost k: nat, offset: nat, data: seq<Byte>, from: nat, n: nat,
                      ghost img0: Image, ghost chains0: map<nat, Chain>, ghost p: nat)
      requires from + n <= |data| && offset + n <= CLUSTER
      requires Progress(img0, chains0, used, s, p, data[..from])
      requires k < |chains[s]| && cluster == chains[s][k] && p + from == CLUSTER * k + offset
      modifies vol.disk.data
      ensures Progress(img0, chains0, used, s, p, data[..from + n])
      ensures vol.Img().fat == old(vol.Img()).fat
    {
      hide Wf, ImageOf, BytesWritten, ByteAt, Splice, Stored, OutsideKept, Extended, FreeSet;
      WfChain(vol.Img(), chains, owner, used, s, k);
      ChunkStored(img0, chains0[s], vol.Img(), chains, owner, used, s, k, p, data, from, n, offset);
      WriteChunk(cluster, offset, data, from, n);
    }

    /** The other half of a turn: moves on to the next cluster, appending one at the end of the chain. */
    method MoveOn(cluster: U32, ghost s: nat, ghost k: nat,
                  ghost img0: Image, ghost chains0: map<nat, Chain>, ghost p: nat, ghost d: seq<Byte>)
      returns (next: U32)
      requires Progress(img0, chains0, used, s, p, d)
      requires k < |chains[s]| && cluster == chains[s][k]
      modifies this, vol.disk.data
      ensures used == old(used) && Progress(img0, chains0, used, s, p, d)
      ensures next == 0 ==> FreeSet(vol.Img().fat) == {} && |chains[s]| == k + 1
      ensures next != 0 ==> k + 1 < |chains[s]| && next == chains[s][k + 1]
      ensures next != 0 ==> |chains[s]| == Longer(|old(chains)[s]|, k + 2)
    {
      hide Wf, ImageOf, BytesWritten, ByteAt, Stored, OutsideKept, ChainOk;
      ghost var img, before := vol.Img(), chains;
      next := NextOrAppend(cluster, s, k);
      StoredInWf(vol.Img(), chains, owner, used, s);
      WrittenExtend(img0, chains0[s], img, before[s], vol.Img(), chains[s], p, d);
      KeptAfterExtend(img0, img, vol.Img(), before, chains, s);
      ExtendedTransitive(chains0, before, chains, s);
    }

    /** One turn of the write loop: stores as much as fits in the k-th cluster and, if data is left,
        moves on to the next cluster; `next` is 0 when the loop stops. */
    method WriteTurn(cluster: U32, ghost s: nat, ghost k: nat, offset: nat, data: seq<Byte>, written: nat, size: nat,
                     ghost img0: Image, ghost chains0: map<nat, Chain>, ghost p: nat)
      returns (n: nat, next: U32)
      requires written < size <= |data| && offset < CLUSTER
      requires Progress(img0, chains0, used, s, p, data[..written])
      requires k < |chains[s]| && cluster == chains[s][k] && p + written == CLUSTER * k + offset
      modifies this, vol.disk.data
      ensures 0 < n && written + n <= size && used == old(used) && s in chains
      ensures Progress(img0, chains0, used, s, p, data[..written + n])
      ensures p + written + n <= CLUSTER * (k + 1) <= CLUSTER * |chains[s]|
      ensures written + n < size && next == 0 ==> FreeSet(vol.Img().fat) == {} && |chains[s]| == k + 1
      ensures next != 0 ==> written + n < size && k + 1 < |chains[s]| && next == chains[s][k + 1]
      ensures next != 0 ==> |chains[s]| == Longer(|old(chains)[s]|, k + 2)
      ensures written + n == size ==> chains == old(chains)
      ensures written + n < size ==> p + written + n == CLUSTER * (k + 1)
    {
      hide Progress, Valid, Wf, ImageOf, FreeSet, OutsideKept;
      ProgressValid(img0, chains0, s, p, data[..written]);
      n := if CLUSTER - offset > size - written then size - written else CLUSTER - offset;
      StoreChunk(cluster, s, k, offset, data, written, n, img0, chains0, p);
      ProgressValid(img0, chains0, s, p, data[..written + n]);
      next := 0;
      if written + n < size {
        next := MoveOn(cluster, s, k, img0, chains0, p, data[..written + n]);
        ProgressValid(img0, chains0, s, p, data[..written + n]);
      }
    }

    /** The write loop: stores the data cluster by cluster, starting at the cluster of position p. */
    method StoreClusters(first: U32, offset0: nat, data: seq<Byte>, size: U32,
                         ghost s: nat, ghost k0: nat, ghost img0: Image, ghost chains0: map<nat, Chain>,
                         ghost p: nat)
      returns (written: nat)
      requires size <= |data|
      requires Progress(img0, chains0, used, s, p, data[..0])
      requires k0 < |chains[s]| && first == chains[s][k0] && p == CLUSTER * k0 + offset0 && offset0 < CLUSTER
      modifies this, vol.disk.data
      ensures written <= size && s in chains && used == old(used)
      ensures Progress(img0, chains0, used, s, p, data[..written])
      ensures p + written <= CLUSTER * |chains[s]| && p < CLUSTER * |chains[s]|
      ensures written < size ==> FreeSet(vol.Img().fat) == {} && p + written == CLUSTER * |chains[s]|
      ensures written == size ==> |chains[s]| == Longer(|old(chains)[s]|, Needed(p, size))
    {
      hide Wf, ImageOf, ChainOk, Progress, Extended, FreeSet, Valid, SetAt, BytesWritten, OutsideKept;
      ProgressValid(img0, chains0, s, p, data[..0]);
      var cluster, offset: nat := first, offset0;
      ghost var k: nat := k0;
      written := 0;
      while written < size
        invariant written <= size
        invariant Progress(img0, chains0, used, s, p, data[..written]) && used == old(used) && s in chains && Valid()
        invariant k < |chains[s]| && cluster == chains[s][k]
        invariant written < size ==> offset < CLUSTER && p + written == CLUSTER * k + offset
        invariant p + written <= CLUSTER * (k + 1) && p < CLUSTER * (k + 1)
        invariant (written < size || size == 0) && |chains[s]| == Longer(|old(chains)[s]|, k + 1)
        invariant size == 0 ==> k == k0
      {
        var n, next := WriteTurn(cluster, s, k, offset, data, written, size, img0, chains0, p);
        ProgressValid(img0, chains0, s, p, data[..written + n]);
        written := written + n;
        offset := 0;
        if next == 0 {
          EndIn(p + written, k);
          break;
        }
        cluster := next;
        k := k + 1;
      }
    }

    /** Both loops of a write: reaches the cluster of the position, then stores the data. The
        directory is not touched. */
    method WriteClusters(first: U32, position: U32, data: seq<Byte>, size: U32, ghost s: nat)
      returns (reached: bool, written: nat)
      requires Valid() && s in chains && chains[s] != [] && chains[s][0] == first
      requires size <= |data|
      modifies this, vol.disk.data
      ensures written <= size && used == old(used)
      ensures Progress(old(vol.Img()), old(chains), used, s, position, data[..written])
      ensures reached ==> position + written <= CLUSTER * |chains[s]| && position < CLUSTER * |chains[s]|
      ensures !reached ==> written == 0 && FreeSet(vol.Img().fat) == {} && CLUSTER * |chains[s]| <= position
      ensures reached && written < size ==> FreeSet(vol.Img().fat) == {} && position + written == CLUSTER * |chains[s]|
      ensures |chains[s]| == Covering(|old(chains)[s]|, |FreeSet(old(vol.Img()).fat)|, position, size)
    {
      hide Wf, ImageOf, ChainOk, Extended, FreeSet, SetAt, BytesWritten;
      ghost var img0, chains0, owner0 := vol.Img(), chains, owner;
      var cluster := Navigate(first, position, s);
      NavigationProgress(img0, chains0, owner0, s, position);
      assert data[..0] == [];
      ghost var len, free := |chains[s]|, |FreeSet(img0.fat)|;
      if cluster == 0 {
        Covers(|chains0[s]|, free, len, 0, position, size, false, 0);
        return false, 0;
      }
      written := StoreClusters(cluster, position % vol.geo.bytesPerCluster, data, size, s, position / CLUSTER, img0,
                               chains0, position);
      Covers(|chains0[s]|, free, |chains[s]|, |FreeSet(vol.Img().fat)|, position, size, true, written);
      return true, written;
    }

    lemma ProgressValid(img0: Image, chains0: map<nat, Chain>, s: nat, p: nat, d: seq<Byte>)
      requires Progress(img0, chains0, used, s, p, d)
      ensures Valid() && s in chains
    {
    }

    // ----- looking names up

    /** Reads the name of the entry set at slot i, character by character from its name entries. */
    method ReadName(entries: array<Byte>, i: nat) returns (found: array<Byte>)
      requires entries.Length == ROOT_BYTES && SetAt(entries[..], i)
      ensures fresh(found) && found.Length == 256
      ensures found[..NameLengthAt(entries[..], i)] == NameAt(entries[..], i)
    {
      hide SetAt, NameAt;
      found := new Byte[256](_ => 0);
      ghost var name := NameAt(entries[..], i);
      NameShape(entries[..], i);
      var length := entries[SLOT * (i + 1) + 3];
      var nameEntries: nat := entries[SLOT * i + 1] - 1;
      var read: nat, j: nat := 0, 0;
      while j < nameEntries && read < length
        invariant j <= nameEntries && read <= length
        invariant read == if NAME_CHARS * j < length then NAME_CHARS * j else length
        invariant forall q :: 0 <= q < read ==> found[q] == name[q]
      {
        var k := 0;
        while k < NAME_CHARS && read < length
          invariant 0 <= k <= NAME_CHARS && read <= length && read == NAME_CHARS * j + k
          invariant forall q :: 0 <= q < read ==> found[q] == name[q]
        {
          NameByte(entries[..], i, j, k);
          found[read] := entries[SLOT * (i + 2 + j) + 2 + 2 * k];
          read, k := read + 1, k + 1;
        }
        j := j + 1;
      }
      assert read == length;
      assert found[..length] == name;
    }

    /** Whether the entry set at slot i has the given name. */
    method NameMatches(entries: array<Byte>, i: nat, filename: CString) returns (matches: bool)
      requires entries.Length == ROOT_BYTES && SetAt(entries[..], i)
      ensures matches == (NameAt(entries[..], i) == filename)
    {
      var found := ReadName(entries, i);
      var length := entries[SLOT * (i + 1) + 3];
      ghost var name := NameAt(entries[..], i);
      for j := 0 to length
        invariant j <= |filename| && name[..j] == filename[..j]
      {
        assert found[j] == found[..length][j] == name[j];
        if found[j] != CharAt(filename, j) {
          return false;
        }
      }
      assert name[..length] == name;
      return CharAt(filename, length) == 0;
    }

    /** The first slot of the root directory holding a file of the given name. */
    method FindEntry(entries: array<Byte>, filename: CString, ghost used: nat) returns (r: Option<nat>)
      requires entries.Length == ROOT_BYTES && DirOk(entries[..], used)
      ensures r == FindSlot(entries[..], filename, 0)
    {
      for i := 0 to SLOTS
        invariant forall k :: 0 <= k < i ==> !Named(entries[..], k, filename)
      {
        if entries[SLOT * i] == TYPE_FILE {
          assert TypeAt(entries[..], i) == TYPE_FILE && i < used;
          var matches := NameMatches(entries, i, filename);
          if matches {
            FindSlotFirst(entries[..], filename, 0);
            assert Named(entries[..], i, filename);
            return Some(i);
          }
        }
      }
      FindSlotFirst(entries[..], filename, 0);
      return None;
    }

    /** Records a new size in the first entry with the given name, whether or not its chain is long enough. */
    method UpdateFileSize(filename: CString, size: U64) returns (ok: bool)
      requires Valid()
      modifies vol.disk.data
      ensures vol.Mounted() && ok == FindSlot(old(Root()), filename, 0).Some?
      ensures ok ==> var s := FindSlot(old(Root()), filename, 0).value;
                     s in chains && (Valid() <==> size <= CLUSTER * |chains[s]|)
      ensures vol.Img() == if ok then var s := FindSlot(old(Root()), filename, 0).value;
                                 old(vol.Img()).(heap := old(vol.Img()).heap[ROOT := SetSize(old(Root()), s, size)])
                           else old(vol.Img())
    {
      hide Wf, ImageOf, DirOk, FindSlot, LeBytes;
      ghost var img := vol.Img();
      WfRoot(img, chains, owner, used);
      var entries := new Byte[CLUSTER](_ => 0);
      var read := vol.ReadCluster(vol.geo.rootCluster, entries);
      var s := FindEntry(entries, filename, used);
      if s.None? {
        return false;
      }
      FoundInChains(img, chains, owner, used, filename);
      ResizeIff(img, chains, owner, used, s.value, size);
      PutLe(entries, SLOT * (s.value + 1) + 24, size, 8);
      PutLe(entries, SLOT * (s.value + 1) + 8, size, 8);
      assert entries[..] == SetSize(img.heap[ROOT], s.value, size);
      ok := vol.WriteCluster(vol.geo.rootCluster, entries);
    }

    // ----- the file operations

    /** The fields of the entry set at slot s. */
    method ReadEntry(entries: array<Byte>, s: nat) returns (first: U32, size: U64, attributes: U16)
      requires entries.Length == ROOT_BYTES && s + 1 < SLOTS
      ensures first == FirstClusterAt(entries[..], s) && size == SizeAt(entries[..], s)
      ensures attributes == AttributesAt(entries[..], s)
    {
      PowValues();
      assert entries[..][SLOT * (s + 1) + 20..SLOT * (s + 1) + 24] == entries[SLOT * (s + 1) + 20..SLOT * (s + 1) + 24];
      first := LoadLe(entries, SLOT * (s + 1) + 20, 4);
      assert entries[..][SLOT * (s + 1) + 24..SLOT * (s + 1) + 32] == entries[SLOT * (s + 1) + 24..SLOT * (s + 1) + 32];
      size := LoadLe(entries, SLOT * (s + 1) + 24, 8);
      assert entries[..][SLOT * s + 4..SLOT * s + 6] == entries[SLOT * s + 4..SLOT * s + 6];
      attributes := LoadLe(entries, SLOT * s + 4, 2);
    }

    /** Opens the first file of the given name. */
    method Open(path: CString, f: File) returns (r: int)
      requires Valid()
      modifies f
      ensures r == if StripSlash(path) in Files() then 0 else -1
      ensures r == 0 ==> f.isOpen && f.name == StripSlash(path) && f.position == 0 && Agrees(f)
      ensures r == 0 ==> f.fileSize == |Files()[f.name]| && (f.isDirectory <==> f.attributes / 0x10 % 2 == 1)
      ensures r == 0 ==> Lookup(Root(), f.name).Some?
                         && Marked(Root(), Lookup(Root(), f.name).value.slot, f.attributes)
      ensures r != 0 ==> unchanged(f)
    {
      hide Wf, ImageOf, FindSlot, DirOk, SetAt, FirstClusterAt, SizeAt, Chains.Files, FilesOk;
      var filename := StripSlash(path);
      WfRoot(vol.Img(), chains, owner, used);
      WfFiles(vol.Img(), chains, owner, used, filename);
      var entries := new Byte[CLUSTER](_ => 0);
      var read := vol.ReadCluster(vol.geo.rootCluster, entries);
      var s := FindEntry(entries, filename, used);
      if s.None? {
        return -1;
      }
      FoundSetBound(entries[..], filename);
      var first, size, attributes := ReadEntry(entries, s.value);
      f.firstCluster, f.fileSize, f.position := first, size, 0;
      f.attributes, f.isOpen := attributes, true;
      f.isDirectory := (attributes / ATTR_DIRECTORY) % 2 == 1;
      f.name := filename;
      return 0;
    }

    /** Copies part of one cluster into the caller's buffer. */
    method ReadChunk(cluster: U32, offset: nat, n: nat, buffer: array<Byte>, at: nat)
      requires vol.Mounted() && IsCluster(vol.geo, cluster) && |vol.Img().heap[cluster]| == CLUSTER
      requires buffer != vol.disk.data && at + n <= buffer.Length && offset + n <= CLUSTER
      modifies buffer
      ensures buffer[..] == Splice(old(buffer[..]), at, vol.Img().heap[cluster][offset..offset + n])
    {
      hide ImageOf;
      var clusterBuffer := new Byte[CLUSTER](_ => 0);
      var _ := vol.ReadCluster(cluster, clusterBuffer);
      ghost var c := vol.Img().heap[cluster];
      assert clusterBuffer[..] == c;
      for i := 0 to n
        invariant clusterBuffer[..] == c
        invariant buffer[..] == Splice(old(buffer[..]), at, c[offset..offset + i])
      {
        buffer[at + i] := clusterBuffer[offset + i];
        assert clusterBuffer[offset + i] == clusterBuffer[..][offset + i];
        assert c[offset..offset + (i + 1)] == c[offset..offset + i] + [c[offset + i]];
      }
    }

    /** The k-th cluster of a chain, found by following the table. */
    method Follow(first: U32, k: nat, ghost s: nat) returns (cluster: U32)
      requires Valid() && s in chains && k < |chains[s]| && chains[s][0] == first
      ensures cluster == chains[s][k]
    {
      hide Wf, ImageOf;
      cluster := first;
      for i := 0 to k
        invariant cluster == chains[s][i]
      {
        WfChain(vol.Img(), chains, owner, used, s, i);
        cluster := vol.GetNextCluster(cluster);
        if cluster >= FIRST_END_MARK {
          return;
        }
      }
    }

    /** The read loops: fills buffer[..size] with the bytes of the chain from `position` on. */
    method ReadClusters(first: U32, position: nat, size: nat, buffer: array<Byte>, ghost s: nat) returns (done: nat)
      requires Valid() && s in chains && chains[s] != [] && chains[s][0] == first
      requires buffer != vol.disk.data && size <= buffer.Length
      requires position + size <= CLUSTER * |chains[s]| && 0 < size
      modifies buffer
      ensures done == size && ChainRead(vol.Img(), chains[s], position, size, old(buffer[..]), buffer[..])
    {
      hide Wf, ImageOf, FileAt, Content, Stored, ByteAt, Splice, FilesOk, SizeAt, Lookup, ChainBytes;
      FileShape(vol.Img(), chains, owner, used, s);
      ghost var c := ChainBytes(vol.Img(), chains[s]);
      ghost var k: nat := position / CLUSTER;
      var cluster := Follow(first, position / vol.geo.bytesPerCluster, s);
      var offset: nat := position % vol.geo.bytesPerCluster;
      done := 0;
      while done < size
        invariant done <= size
        invariant done < size ==> k < |chains[s]| && cluster == chains[s][k]
        invariant done < size ==> offset < CLUSTER && position + done == CLUSTER * k + offset
        invariant buffer[..] == Splice(old(buffer[..]), 0, c[position..position + done])
      {
        var n := if CLUSTER - offset > size - done then size - done else CLUSTER - offset;
        ChainSlice(vol.Img(), chains[s], k, offset, n);
        ghost var before := buffer[..];
        ReadChunk(cluster, offset, n, buffer, done);
        ReadTurn(old(buffer[..]), before, buffer[..], c, position, done, n);
        done := done + n;
        offset := 0;
        if done < size {
          WfChain(vol.Img(), chains, owner, used, s, k);
          cluster := vol.GetNextCluster(cluster);
          k := k + 1;
          if cluster >= FIRST_END_MARK {
            break;
          }
        }
      }
    }

    /** The effect of a read on the buffer. */
    method ReadNamed(name: CString, first: U32, cached: U64, position: U64, size: U32, buffer: array<Byte>)
      returns (n: nat)
      requires Valid() && buffer != vol.disk.data && size <= buffer.Length
      requires Lookup(Root(), name).Some? && first == Lookup(Root(), name).value.first
      requires Lookup(Root(), name).value.slot in chains
               && cached <= CLUSTER * |chains[Lookup(Root(), name).value.slot]|
      modifies buffer
      ensures n < 0x1_0000_0000
      ensures ReadThrough(vol.Img(), chains, name, cached, position, position + n, size, old(buffer[..]), buffer[..])
    {
      hide Wf, ImageOf, Lookup, FindSlot, SetAt, FilesOk, FileAt, SizeAt, Content, Chains.Files, DirOk, Splice,
           ReadThrough;
      hide ChainBytes, Stored;
      ghost var img, b := vol.Img(), buffer[..];
      WfRoot(img, chains, owner, used);
      FoundFile(img, chains, owner, used, name);
      ghost var s := Lookup(Root(), name).value.slot;
      FileShape(img, chains, owner, used, s);
      ChainFits(img, chains, owner, used, s);
      n := 0;
      if position < cached {
        n := if position + size > cached then cached - position else size;
        if n != 0 {
          var start := position % 0x1_0000_0000;
          n := ReadClusters(first, start, n, buffer, s);
        }
      }
      NamedRead(img, chains, owner, used, name, cached, position, n, size, b, buffer[..]);
    }

    /** Reads up to `size` bytes at the file's position; fewer only where the handle takes the file to end. */
    method Read(f: File, buffer: array<Byte>, size: U32) returns (r: int)
      requires Valid() && Attached(f) && buffer != vol.disk.data && size <= buffer.Length
      modifies f`position, buffer
      ensures !f.isOpen ==> r == -1 && buffer[..] == old(buffer[..]) && f.position == old(f.position)
      ensures f.isOpen ==> r == AsInt(f.position - old(f.position))
      ensures f.isOpen ==>
        ReadThrough(vol.Img(), chains, f.name, f.fileSize, old(f.position), f.position, size, old(buffer[..]),
                    buffer[..])
      ensures f.isOpen && Agrees(f) ==>
        ReadResult(vol.Img(), chains, f.name, old(f.position), f.position, size, old(buffer[..]), buffer[..])
    {
      hide Wf, ImageOf, Lookup, FindSlot, Available, FilesOk, Chains.Files, Splice, ReadResult, ReadThrough;
      if !f.isOpen {
        return -1;
      }
      ghost var b, start := buffer[..], f.position;
      var n := ReadNamed(f.name, f.firstCluster, f.fileSize, f.position, size, buffer);
      ReadInside(vol.Img(), chains, f.name, f.fileSize, f.position, f.position + n, size, b, buffer[..]);
      f.position := f.position + n;
      if Agrees(f) {
        WfRoot(vol.Img(), chains, owner, used);
        ReadRight(vol.Img(), chains, owner, used, f.name, start, f.position, size, b, buffer[..]);
      }
      return AsInt(n);
    }

    /** The effect of a write on the file system: the chain and the size of one file change. */
    method WriteNamed(name: CString, first: U32, cached: U64, position: U64, data: seq<Byte>)
      returns (written: nat, cached': U64)
      requires Valid() && |data| < 0x1_0000_0000
      requires Lookup(Root(), name).Some? && first == Lookup(Root(), name).value.first
      requires Lookup(Root(), name).value.slot in chains
               && cached <= CLUSTER * |chains[Lookup(Root(), name).value.slot]|
      modifies this, vol.disk.data
      ensures vol.Mounted() && used == old(used) && written <= |data|
      ensures position < 0x1_0000_0000 || Room(old(vol.Img()), old(chains), name) <= position % 0x1_0000_0000 ==>
                Valid() && WriteCarried(old(vol.Img()), old(chains), vol.Img(), chains, name, position % 0x1_0000_0000,
                                        data, written, cached, cached')
      ensures 0x1_0000_0000 <= position ==>
                && WriteFar(old(vol.Img()), old(chains), vol.Img(), chains, name, position, data, written, cached,
                            cached')
                && (Valid() <==> FarFits(old(vol.Img()), chains, name, cached'))
    {
      hide Wf, ImageOf, Lookup, FindSlot, Advanced, Files, OnlyChanged, WriteCarried, OthersFound, SetAt, FreeSet;
      hide WriteFar, Chains.Files, FilesOk, DirOk, Fits, SetSize, Room, Overlaid, Covering, Extended, Storable,
           OutsideKept;
      ghost var img, chains0, owner0 := vol.Img(), chains, owner;
      WfRoot(img, chains, owner, used);
      ghost var s := Lookup(Root(), name).value.slot;
      FoundChain(img, chains, owner, used, name);
      var reached: bool;
      reached, written := WriteClusters(first, position % 0x1_0000_0000, data, |data|, s);
      ghost var mid := vol.Img();
      AdvancedRoot(img, chains0, mid, chains, s, position % 0x1_0000_0000, data[..written]);
      var end := (position + written) % 0x1_0000_0000_0000_0000;
      cached' := cached;
      FoundSame(img, mid, chains, owner, used, name);
      if reached && end > cached {
        cached' := end;
        var _ := UpdateFileSize(name, cached');
      }
      ReachedIff(img, chains0, mid, chains, name, s, position % 0x1_0000_0000, data[..written], reached);
      if position < 0x1_0000_0000 || !reached {
        WriteDone(img, chains0, owner0, used, mid, vol.Img(), chains, owner, name, s, position % 0x1_0000_0000, data,
                  written, reached, cached, cached');
      }
      if 0x1_0000_0000 <= position {
        FarDone(img, chains0, mid, vol.Img(), chains, name, s, position, data, written, reached, cached, cached');
      }
    }

    /** A write here keeps the invariant: the position is below 2^32, or cannot be reached modulo 2^32. */
    ghost predicate WriteNear(f: File)
      reads this, vol`geo, vol.disk.data, f
      requires Valid()
    {
      f.position < 0x1_0000_0000 || Room(vol.Img(), chains, f.name) <= f.position % 0x1_0000_0000
    }

    /** Writes data at the file's position. The result counts the bytes written, and the position advances by as
        much; fewer bytes than asked are written only when the volume fills up. The handle goes by the size it
        carries, which may be out of date. From 2^32 on the data goes to the position modulo 2^32, and the size that
        is recorded is more than the file has clusters for. */
    method Write(f: File, data: seq<Byte>) returns (r: int)
      requires Valid() && Attached(f) && |data| < 0x1_0000_0000
      modifies this, f`position, f`fileSize, vol.disk.data
      ensures vol.Mounted() && used == old(used)
      ensures !f.isOpen ==>
                Valid() && r == -1 && vol.Img() == old(vol.Img()) && chains == old(chains) && unchanged(f)
      ensures f.isOpen && old(WriteNear(f)) ==>
                && Valid() && Attached(f) && (old(Agrees(f)) ==> Agrees(f))
                && 0 <= f.position - old(f.position) <= |data| && r == AsInt(f.position - old(f.position))
                && WriteCarried(old(vol.Img()), old(chains), vol.Img(), chains, f.name, old(f.position) % 0x1_0000_0000,
                                data, f.position - old(f.position), old(f.fileSize), f.fileSize)
                && (old(Agrees(f)) ==>
                      WriteResult(old(vol.Img()), old(chains), vol.Img(), chains, f.name,
                                  old(f.position) % 0x1_0000_0000, data, f.position - old(f.position), f.fileSize))
      ensures f.isOpen && 0x1_0000_0000 <= old(f.position) ==>
                && (Valid() <==> FarFits(old(vol.Img()), chains, f.name, f.fileSize))
                && (Valid() <==> old(WriteNear(f)))
                && FarResult(old(vol.Img()), old(chains), vol.Img(), chains, f.name, old(f.position), f.position, data,
                             r, old(f.fileSize), f.fileSize)
    {
      hide Wf, ImageOf, Lookup, FindSlot, Files, OnlyChanged, WriteEffect, OthersFound, Room, FilesOk, WriteCarried,
           WriteResult, WriteFar, FarFits, FarResult, Chains.Files, FreeSet, FilesOk, DirOk, SetAt, Advanced, Fits;
      if !f.isOpen {
        return -1;
      }
      ghost var img, chains0, owner0, right, near := vol.Img(), chains, owner, Agrees(f), WriteNear(f);
      ghost var start, cached := f.position, f.fileSize;
      WfFiles(img, chains0, owner, used, f.name);
      var written, cached' := WriteNamed(f.name, f.firstCluster, f.fileSize, f.position, data);
      ghost var low: nat := start % 0x1_0000_0000;
      if near {
        CarriedAttached(img, chains0, vol.Img(), chains, f.name, low, data, written, cached, cached');
        if right {
          SameRootShape(img, chains0, owner0, used);
          CarriedRight(img, chains0, vol.Img(), chains, f.name, low, data, written, cached');
        }
      }
      if 0x1_0000_0000 <= start {
        FarIs(img, chains0, vol.Img(), chains, f.name, start, data, written, cached, cached');
        ClusterBound(img);
        FarBreaksIff(img, chains0, owner0, used, vol.Img(), chains, f.name, start, data, written, cached, cached');
      }
      f.position := (f.position + written) % 0x1_0000_0000_0000_0000;
      f.fileSize := cached';
      return AsInt(written);
    }

    lemma ClusterBound(img: Image)
      requires vol.Mounted() && |img.fat| == |vol.Img().fat|
      ensures CLUSTER * (|img.fat| - 3) < 0x1_0000_0000
    {
    }

    // ----- creating

    /** The first run of `needed` free slots, in a directory whose free slots are all at its end. */
    method FindFreeEntry(entries: array<Byte>, needed: nat, ghost used: nat) returns (r: Option<nat>)
      requires entries.Length == ROOT_BYTES && DirOk(entries[..], used) && 0 < needed
      ensures r == if used + needed <= SLOTS then Some(used) else None
    {
      var free, start := 0, 0;
      for i := 0 to SLOTS
        invariant free == if i <= used then 0 else i - used
        invariant i > used ==> start == used
        invariant free < needed
      {
        assert entries[SLOT * i] == TypeAt(entries[..], i);
        if entries[SLOT * i] == TYPE_END {
          if free == 0 {
            start := i;
          }
          free := free + 1;
          if free >= needed {
            return Some(start);
          }
        } else {
          free := 0;
        }
      }
      return None;
    }

    /** Adds an empty file: its entry set goes to the first free slots of the root directory and its
        chain is one newly allocated cluster; 0 when there is no room for either. */
    method AddEntry(name: CString, attributes: U16) returns (c: U32)
      requires Valid() && |name| <= 255
      modifies this, vol.disk.data
      ensures Valid()
      ensures c == 0 <==> old(used) + 2 + NameSlots(|name|) > SLOTS || old(FreeSet(vol.Img().fat)) == {}
      ensures c == 0 ==> vol.Img() == old(vol.Img()) && chains == old(chains) && used == old(used)
      ensures c != 0 ==> Created(old(vol.Img()), old(chains), old(used), vol.Img(), chains, used, name, c)
      ensures c != 0 ==> Marked(Root(), old(used), attributes)
    {
      hide Marked;
      hide Wf, ImageOf, DirOk, Appended, Created, SetAt, Chains.Files, Lookup, FilesOk, Sealed;
      ghost var img := vol.Img();
      WfRoot(img, chains, owner, used);
      var needed := 2 + NameSlots(|name|);
      var entries := new Byte[CLUSTER](_ => 0);
      var read := vol.ReadCluster(vol.geo.rootCluster, entries);
      var slot := FindFreeEntry(entries, needed, used);
      if slot.None? {
        return 0;
      }
      c := vol.AllocCluster();
      if c == 0 {
        assert FreeSet(img.fat) == {};
        return;
      }
      assert c in FreeSet(img.fat);
      FillEntrySet(entries, slot.value, name, attributes, c);
      EntryAdded(img, chains, owner, used, c, entries[..], name, attributes);
      var written := vol.WriteCluster(vol.geo.rootCluster, entries);
      chains, owner, used := chains[used := [c as nat]], owner[c := (used, 0)], used + 2 + NameSlots(|name|);
    }

    /** Creates an empty file. An existing file of that name is not looked for: the new entry is
        shadowed by it. */
    method Create(path: CString) returns (r: int)
      requires Valid()
      modifies this, vol.disk.data
      ensures Valid()
      ensures r == 0 <==> Creatable(StripSlash(path), old(used)) && old(FreeSet(vol.Img().fat)) != {}
      ensures r != 0 ==> r == -1 && vol.Img() == old(vol.Img()) && chains == old(chains) && used == old(used)
      ensures r == 0 ==> exists c :: Created(old(vol.Img()), old(chains), old(used), vol.Img(), chains, used,
                                             StripSlash(path), c)
      ensures r == 0 ==> Marked(Root(), old(used), 0x20)
    {
      hide Wf, ImageOf, Created, Marked;
      var filename := StripSlash(path);
      if SLASH in filename {
        return -1;
      }
      if |filename| > 255 {
        return -1;
      }
      var c := AddEntry(filename, ATTR_ARCHIVE);
      if c == 0 {
        return -1;
      }
      assert Created(old(vol.Img()), old(chains), old(used), vol.Img(), chains, used, filename, c);
      return 0;
    }

    /** Creates an empty directory entry and clears its cluster. Slashes in the name are not looked for. */
    method Mkdir(path: CString) returns (r: int)
      requires Valid()
      modifies this, vol.disk.data
      ensures Valid()
      ensures r == 0 <==> |StripSlash(path)| <= 255 && old(used) + 2 + NameSlots(|StripSlash(path)|) <= SLOTS
                          && old(FreeSet(vol.Img().fat)) != {}
      ensures r != 0 ==> r == -1 && vol.Img() == old(vol.Img()) && chains == old(chains) && used == old(used)
      ensures r == 0 ==> exists c :: Created(old(vol.Img()), old(chains), old(used), vol.Img(), chains, used,
                                             StripSlash(path), c)
      ensures r == 0 ==> vol.Img().heap[chains[old(used)][0]] == seq(CLUSTER, _ => 0)
      ensures r == 0 ==> Marked(Root(), old(used), 0x10)
    {
      hide Wf, ImageOf, Created, Marked;
      var dirname := StripSlash(path);
      if |dirname| > 255 {
        return -1;
      }
      var c := AddEntry(dirname, ATTR_DIRECTORY);
      if c == 0 {
        return -1;
      }
      var empty := new Byte[CLUSTER](_ => 0);
      assert empty[..] == seq(CLUSTER, _ => 0);
      CreatedRewrite(old(vol.Img()), old(chains), old(used), vol.Img(), chains, owner, used, dirname, c, empty[..]);
      var _ := vol.WriteCluster(c, empty);
      return 0;
    }

    /** Moves the position of an open file, to anywhere. */
    method Seek(f: File, offset: U64) returns (r: int)
      modifies f`position
      ensures r == if f.isOpen then 0 else -1
      ensures f.position == if f.isOpen then offset else old(f.position)
    {
      if !f.isOpen {
        return -1;
      }
      f.position := offset;
      return 0;
    }

    method Close(f: File) returns (r: int)
      modifies f`isOpen
      ensures r == if old(f.isOpen) then 0 else -1
      ensures !f.isOpen
    {
      if !f.isOpen {
        return -1;
      }
      f.isOpen := false;
      return 0;
    }
  }

  /** What the invariant says of the k-th cluster of a chain. */
  lemma WfChain(img: Image, chains: map<nat, Chain>, owner: map<nat, (nat, nat)>, used: nat, s: nat, k: nat)
    requires Wf(img, chains, owner, used) && s in chains && k < |chains[s]|
    ensures |img.fat| == |img.heap| && ROOT < chains[s][k] < |img.fat| && |img.fat| < 0x1000_0002
    ensures img.fat[chains[s][k]] != FREE && img.fat[ROOT] != FREE
    ensures k + 1 < |chains[s]| ==> img.fat[chains[s][k]] == chains[s][k + 1] && ROOT < chains[s][k + 1] < |img.fat|
    ensures k + 1 == |chains[s]| ==> img.fat[chains[s][k]] >= FIRST_END_MARK
  {
    assert ChainOk(img.fat, chains[s]);
    ChainClusterInUse(img.fat, chains[s], k);
  }

  lemma EndIn(end: nat, k: nat)
    ensures CLUSTER * k < end <= CLUSTER * (k + 1) ==> (end - 1) / CLUSTER == k
  {
  }

  /** How many clusters the data of a write ends in, counted from the start of the file. */
  function Needed(p: nat, n: nat): nat
  {
    if n == 0 then p / CLUSTER + 1 else (p + n - 1) / CLUSTER + 1
  }

  function Longer(len: nat, k: nat): nat
  {
    if len < k then k else len
  }

  /** How many clusters a chain of `len` has after a write, with `free` clusters to be had. */
  function Covering(len: nat, free: nat, p: nat, n: nat): nat
  {
    if Needed(p, n) <= len + free then Longer(len, Needed(p, n)) else len + free
  }

  /** The last cluster needed holds the last byte of the data, or the position if there is no data. */
  lemma NeededIs(p: nat, n: nat)
    ensures 4096 * Needed(p, n) - 4096 <= (if n == 0 then p else p + n - 1) < 4096 * Needed(p, n)
  {
  }

  /** A chain never gets shorter nor takes more than there is; it holds all of the data or has taken all there is, and
      if it has grown its last cluster is needed. */
  lemma CoveringIs(len: nat, free: nat, p: nat, n: nat)
    ensures var k := Covering(len, free, p, n);
            && len <= k <= len + free && (k < len + free ==> p < 4096 * k && p + n <= 4096 * k)
            && (len < k ==> 4096 * (k - 1) <= p || 4096 * (k - 1) < p + n)
  {
    NeededIs(p, n);
  }

  /** Both loops of a write together take just the clusters that the data needs, or all there are. */
  lemma Covers(len: nat, free: nat, len': nat, free': nat, p: nat, n: nat, reached: bool, written: nat)
    requires len' + free' == len + free && written <= n
    requires !reached ==> free' == 0 && CLUSTER * len' <= p
    requires reached && written < n ==> free' == 0 && p + written == CLUSTER * len'
    requires reached && written == n ==> len' == Longer(Longer(len, p / CLUSTER + 1), Needed(p, n))
    ensures len' == Covering(len, free, p, n)
  {
  }

  /** What a write of `data` at position p to the file called `name` did, having stored `written` bytes. */
  ghost predicate WriteResult(img: Image, chains: map<nat, Chain>, img': Image, chains': map<nat, Chain>,
                              name: seq<Byte>, p: nat, data: seq<Byte>, written: nat, size': U64)
  {
    && ImageShape(img) && FilesOk(img, chains) && chains.Keys == FileSlots(img.heap[ROOT])
    && ImageShape(img') && FilesOk(img', chains') && chains'.Keys == FileSlots(img'.heap[ROOT])
    && written <= |data|
    && OnlyChanged(Files(img, chains), Files(img', chains'), name) && name in Files(img, chains)
    && WriteEffect(Files(img, chains)[name], Files(img', chains')[name], p, data[..written])
    && |Files(img', chains')[name]| == size'
    && (size' < p + written ==> FreeSet(img'.fat) == {})
    && (written < |data| ==> FreeSet(img'.fat) == {})
    && written == Storable(Room(img, chains, name), p, |data|)
    && size' <= Room(img', chains', name) == Room(img, chains, name)
    && OthersFound(img.heap[ROOT], img'.heap[ROOT], name)
    && Lookup(img.heap[ROOT], name).Some?
    && Lookup(img'.heap[ROOT], name) == Some(Lookup(img.heap[ROOT], name).value.(size := size'))
  }

  /** The chain at slot s took just the clusters that n bytes from position p on need, as far as there were any, and
      no other chain changed. */
  ghost predicate ClustersTaken(img: Image, chains: map<nat, Chain>, img': Image, chains': map<nat, Chain>,
                                s: nat, p: nat, n: nat)
  {
    && s in chains && s in chains' && Extended(chains, chains', s)
    && |chains'[s]| == Covering(|chains[s]|, |FreeSet(img.fat)|, p, n)
    && |FreeSet(img'.fat)| + |chains'[s]| == |FreeSet(img.fat)| + |chains[s]|
  }

  /** What a write through a handle that takes the file to have `cached` bytes did; afterwards it takes the file to
      have cached' bytes. */
  ghost predicate WriteCarried(img: Image, chains: map<nat, Chain>, img': Image, chains': map<nat, Chain>,
                               name: seq<Byte>, p: nat, data: seq<Byte>, written: nat, cached: nat, cached': nat)
  {
    && ImageShape(img) && FilesOk(img, chains) && chains.Keys == FileSlots(img.heap[ROOT])
    && ImageShape(img') && FilesOk(img', chains') && chains'.Keys == FileSlots(img'.heap[ROOT])
    && written <= |data| && written == Storable(Room(img, chains, name), p, |data|)
    && OnlyChanged(Files(img, chains), Files(img', chains'), name) && name in Files(img, chains)
    && WrittenThrough(Files(img, chains)[name], Files(img', chains')[name], Room(img, chains, name), cached, cached', p,
                      data[..written])
    && (cached' < p + written ==> FreeSet(img'.fat) == {})
    && (written < |data| ==> FreeSet(img'.fat) == {})
    && |Files(img, chains)[name]| <= Room(img, chains, name)
    && |Files(img', chains')[name]| <= Room(img', chains', name) == Room(img, chains, name)
    && OthersFound(img.heap[ROOT], img'.heap[ROOT], name)
    && var r, r' := Lookup(img.heap[ROOT], name), Lookup(img'.heap[ROOT], name);
       && r.Some? && r'.Some? && r'.value.slot == r.value.slot && r'.value.first == r.value.first
       && r'.value.size == |Files(img', chains')[name]|
       && ClustersTaken(img, chains, img', chains', r.value.slot, p, |data|)
       && cached' <= CLUSTER * |chains'[r.value.slot]|
  }

  /** What a write at a position p from 2^32 on did: the data went to the position modulo 2^32 of the chain, as far as
      there was room, and if that was reached at all and the write counts as ending beyond the size the handle
      remembers, that end was recorded as the size. */
  ghost predicate WriteFar(img: Image, chains: map<nat, Chain>, img': Image, chains': map<nat, Chain>,
                           name: seq<Byte>, p: nat, data: seq<Byte>, written: nat, cached: nat, cached': nat)
  {
    var low, end := p % 0x1_0000_0000, (p + written) % 0x1_0000_0000_0000_0000;
    && ROOT < |img.heap| && |img.heap[ROOT]| == ROOT_BYTES && Lookup(img.heap[ROOT], name).Some?
    && written == Storable(Room(img, chains, name), low, |data|)
    && cached' == (if low < Room(img, chains, name) && cached < end then end else cached)
    && var s := Lookup(img.heap[ROOT], name).value.slot;
       && s in chains && cached <= CLUSTER * |chains[s]| && s + 1 < SLOTS
       && exists mid :: Advanced(img, chains, mid, chains', s, low, data[..written])
                     && img' == (if cached' == cached then mid else Resized(mid, s, cached'))
  }

  /** Such a write with the value it returns and the position it leaves the handle at. */
  ghost predicate FarResult(img: Image, chains: map<nat, Chain>, img': Image, chains': map<nat, Chain>,
                            name: seq<Byte>, p: nat, p': nat, data: seq<Byte>, r: int, cached: nat, cached': nat)
  {
    exists n: nat :: && r == AsInt(n) && p' == (p + n) % 0x1_0000_0000_0000_0000
                && WriteFar(img, chains, img', chains', name, p, data, n, cached, cached')
  }

  lemma FarIs(img: Image, chains: map<nat, Chain>, img': Image, chains': map<nat, Chain>,
              name: seq<Byte>, p: nat, data: seq<Byte>, n: nat, cached: nat, cached': nat)
    requires WriteFar(img, chains, img', chains', name, p, data, n, cached, cached')
    ensures FarResult(img, chains, img', chains', name, p, (p + n) % 0x1_0000_0000_0000_0000, data, AsInt(n), cached,
                      cached')
  {
    hide WriteFar;
  }

  /** The clusters of the file hold the size that the handle has now. */
  ghost predicate FarFits(img: Image, chains': map<nat, Chain>, name: seq<Byte>, cached': nat)
    requires ROOT < |img.heap| && |img.heap[ROOT]| == ROOT_BYTES
  {
    var r := Lookup(img.heap[ROOT], name);
    r.Some? && r.value.slot in chains' && cached' <= CLUSTER * |chains'[r.value.slot]|
  }

  /** A chain and the free clusters together are no more than the volume has. */
  lemma RoomBound(img: Image, chains: map<nat, Chain>, owner: map<nat, (nat, nat)>, used: nat, s: nat)
    requires Wf(img, chains, owner, used) && s in chains
    ensures |chains[s]| + |FreeSet(img.fat)| <= |img.fat| - 3
  {
    var ch, free, all := chains[s], FreeSet(img.fat), Range(3, |img.fat|);
    assert ChainOk(img.fat, ch);
    forall k, l | 0 <= k < l < |ch|
      ensures ch[k] != ch[l]
    {
      assert owner[ch[k]] == (s, k) && owner[ch[l]] == (s, l);
    }
    assert free <= all;
    DistinctBound(ch, all - free);
  }

  /** From 2^32 on the invariant is kept exactly if the position modulo 2^32 cannot be reached; and then nothing is
      stored. */
  lemma FarBreaksIff(img: Image, chains: map<nat, Chain>, owner: map<nat, (nat, nat)>, used: nat,
                     img': Image, chains': map<nat, Chain>, name: seq<Byte>, p: nat, data: seq<Byte>, written: nat,
                     cached: nat, cached': nat)
    requires Wf(img, chains, owner, used) && CLUSTER * (|img.fat| - 3) < 0x1_0000_0000
    requires WriteFar(img, chains, img', chains', name, p, data, written, cached, cached')
    requires 0x1_0000_0000 <= p <= U64_MAX
    ensures FarFits(img, chains', name, cached') <==> Room(img, chains, name) <= p % 0x1_0000_0000
    ensures FarFits(img, chains', name, cached') ==> written == 0 && cached' == cached
  {
    hide Wf, Lookup, FindSlot, FreeSet, OutsideKept, Stored, BytesWritten, SetSize, Storable;
    var s := Lookup(img.heap[ROOT], name).value.slot;
    RoomBound(img, chains, owner, used, s);
    var low := p % 0x1_0000_0000;
    var mid :| Advanced(img, chains, mid, chains', s, low, data[..written])
            && img' == (if cached' == cached then mid else Resized(mid, s, cached'));
    FarNumbers(|chains[s]| + |FreeSet(img.fat)|, |chains'[s]|, |FreeSet(mid.fat)|, |chains[s]|, p, |data|, cached);
  }

  lemma FarNumbers(all: nat, len': nat, free': nat, len: nat, p: nat, n: nat, cached: nat)
    requires all == len' + free' && CLUSTER * all < 0x1_0000_0000 <= p <= U64_MAX
    requires cached <= CLUSTER * len && len <= len'
    ensures var low, room := p % 0x1_0000_0000, CLUSTER * all;
            var written := Storable(room, low, n);
            && (p + written) % 0x1_0000_0000_0000_0000 == p + written > CLUSTER * len' >= cached
            && (room <= low ==> written == 0)
  {
    assert p + Storable(CLUSTER * all, p % 0x1_0000_0000, n) < 0x1_0000_0000_0000_0000;
  }

  /** Every file has at least the clusters it had. */
  ghost predicate ChainsGrown(chains: map<nat, Chain>, chains': map<nat, Chain>)
  {
    forall s :: s in chains ==> s in chains' && |chains[s]| <= |chains'[s]|
  }

  /** With the right size in the handle, this is the plain result of a write. */
  lemma CarriedRight(img: Image, chains: map<nat, Chain>, img': Image, chains': map<nat, Chain>,
                     name: seq<Byte>, p: nat, data: seq<Byte>, written: nat, cached': U64)
    requires ImageShape(img) && FilesOk(img, chains) && chains.Keys == FileSlots(img.heap[ROOT])
             && name in Files(img, chains)
    requires WriteCarried(img, chains, img', chains', name, p, data, written, |Files(img, chains)[name]|, cached')
    ensures WriteResult(img, chains, img', chains', name, p, data, written, cached')
    ensures Lookup(img'.heap[ROOT], name).Some? && Lookup(img'.heap[ROOT], name).value.size == cached'
  {
    hide Files, FilesOk, OthersFound, Lookup, WriteEffect, Overlaid, Room, FreeSet;
    ThroughRight(Files(img, chains)[name], Files(img', chains')[name], Room(img, chains, name), cached', p,
                 data[..written]);
  }

  lemma CarriedAttached(img: Image, chains: map<nat, Chain>, img': Image, chains': map<nat, Chain>,
                        name: seq<Byte>, p: nat, data: seq<Byte>, written: nat, cached: nat, cached': nat)
    requires WriteCarried(img, chains, img', chains', name, p, data, written, cached, cached')
    ensures ROOT < |img.heap| && |img.heap[ROOT]| == ROOT_BYTES && ROOT < |img'.heap| && |img'.heap[ROOT]| == ROOT_BYTES
    ensures Lookup(img.heap[ROOT], name).Some? && Lookup(img'.heap[ROOT], name).Some?
    ensures var r, r' := Lookup(img.heap[ROOT], name).value, Lookup(img'.heap[ROOT], name).value;
            r'.first == r.first && r'.slot == r.slot && r.slot in chains' && cached' <= CLUSTER * |chains'[r.slot]|
    ensures OthersFound(img.heap[ROOT], img'.heap[ROOT], name) && ChainsGrown(chains, chains')
  {
    hide Files, FilesOk, OnlyChanged, OthersFound, Lookup, WrittenThrough, Room, FreeSet;
  }

  /** All bytes of a chain, in order. */
  function ChainBytes(img: Image, ch: Chain): (c: seq<Byte>)
    requires Stored(img, ch)
    ensures |c| == CLUSTER * |ch|
  {
    Content(img, ch, CLUSTER * |ch|)
  }

  /** Bytes of a chain, from a position on, were copied to the start of the buffer b, which became b'. */
  ghost predicate ChainRead(img: Image, chain: Chain, position: nat, size: nat, b: seq<Byte>, b': seq<Byte>)
  {
    && Stored(img, chain) && position + size <= |ChainBytes(img, chain)| && size <= |b|
    && b' == Splice(b, 0, ChainBytes(img, chain)[position..position + size])
  }

  /** What a read of `size` bytes from position p did through a handle that takes the file to have `cached` bytes. */
  ghost predicate ReadThrough(img: Image, chains: map<nat, Chain>, name: seq<Byte>, cached: nat, p: nat, p': nat,
                              size: nat,
                              b: seq<Byte>, b': seq<Byte>)
  {
    && ImageShape(img) && FilesOk(img, chains) && chains.Keys == FileSlots(img.heap[ROOT])
    && name in Files(img, chains) && Lookup(img.heap[ROOT], name).Some?
    && var s := Lookup(img.heap[ROOT], name).value.slot;
       && s in chains && Stored(img, chains[s]) && Files(img, chains)[name] <= ChainBytes(img, chains[s])
       && |ChainBytes(img, chains[s])| <= 0x1_0000_0000
       && p' == p + Available(cached, p, size) && p' - p <= |b|
       && (if p' == p then b' == b
           else p' <= |ChainBytes(img, chains[s])| && b' == Splice(b, 0, ChainBytes(img, chains[s])[p..p']))
  }

  /** What a read of `size` bytes from position p did, having moved to position p': the buffer b became b'. */
  ghost predicate ReadResult(img: Image, chains: map<nat, Chain>, name: seq<Byte>, p: nat, p': nat, size: nat,
                             b: seq<Byte>, b': seq<Byte>)
  {
    && ImageShape(img) && FilesOk(img, chains) && chains.Keys == FileSlots(img.heap[ROOT])
    && name in Files(img, chains)
    && var c := Files(img, chains)[name];
       p' == p + Available(|c|, p, size) && p' - p <= |b| && b' == if p' == p then b else Splice(b, 0, c[p..p'])
  }

  /** How long the file could get: the bytes in its own clusters and in all free ones. */
  ghost function Room(img: Image, chains: map<nat, Chain>, name: seq<Byte>): nat
    requires ROOT < |img.heap| && |img.heap[ROOT]| == ROOT_BYTES
  {
    var r := Lookup(img.heap[ROOT], name);
    if r.Some? && r.value.slot in chains then CLUSTER * (|chains[r.value.slot]| + |FreeSet(img.fat)|) else 0
  }

  /** The same root finds the same files. */
  lemma FoundSame(img: Image, mid: Image, chains: map<nat, Chain>, owner: map<nat, (nat, nat)>, used: nat,
                  name: seq<Byte>)
    requires Wf(mid, chains, owner, used) && ROOT < |img.heap| && img.heap[ROOT] == mid.heap[ROOT]
    requires |img.heap[ROOT]| == ROOT_BYTES && Lookup(img.heap[ROOT], name).Some?
    ensures FindSlot(mid.heap[ROOT], name, 0) == Some(Lookup(img.heap[ROOT], name).value.slot)
  {
  }

  /** The name entries of a set hold the whole name, and lie inside the directory. */
  lemma NameShape(rb: seq<Byte>, i: nat)
    requires |rb| == ROOT_BYTES && SetAt(rb, i)
    ensures i + 1 < SLOTS && 1 <= rb[SLOT * i + 1] && NameLengthAt(rb, i) == rb[SLOT * (i + 1) + 3]
    ensures rb[SLOT * (i + 1) + 3] <= NAME_CHARS * (rb[SLOT * i + 1] - 1)
  {
  }

  /** Character k of name entry j. */
  lemma NameByte(rb: seq<Byte>, i: nat, j: nat, k: nat)
    requires |rb| == ROOT_BYTES && SetAt(rb, i) && k < NAME_CHARS && NAME_CHARS * j + k < NameLengthAt(rb, i)
    ensures SLOT * (i + 2 + j) + 2 + 2 * k < ROOT_BYTES
    ensures NameAt(rb, i)[NAME_CHARS * j + k] == rb[SLOT * (i + 2 + j) + 2 + 2 * k]
  {
    assert NameByteIndex(i, NAME_CHARS * j + k) == SLOT * (i + 2 + j) + 2 + 2 * k;
  }

  /** Bytes of the chain of the found file in the buffer are a read of the named file. */
  lemma NamedRead(img: Image, chains: map<nat, Chain>, owner: map<nat, (nat, nat)>, used: nat, name: seq<Byte>,
                  cached: nat, p: nat, n: nat, size: nat, b: seq<Byte>, b': seq<Byte>)
    requires Wf(img, chains, owner, used) && ImageShape(img) && FilesOk(img, chains)
    requires CLUSTER * (|img.fat| - 3) <= 0x1_0000_0000
    requires Lookup(img.heap[ROOT], name).Some? && Lookup(img.heap[ROOT], name).value.slot in chains
    requires Stored(img, chains[Lookup(img.heap[ROOT], name).value.slot])
    requires var c := ChainBytes(img, chains[Lookup(img.heap[ROOT], name).value.slot]);
             && n == Available(cached, p, size) && n <= |b| && cached <= |c|
             && (n == 0 ==> b' == b)
             && (n != 0 ==> (p + n <= |c| && b' == Splice(b, 0, c[p..p + n])))
    ensures ReadThrough(img, chains, name, cached, p, p + n, size, b, b')
  {
    hide Wf, Lookup, FilesOk, FileAt, Chains.Files, DirOk, Splice, Available, ChainBytes, Stored;
    FoundFile(img, chains, owner, used, name);
    SameRootShape(img, chains, owner, used);
    var s := Lookup(img.heap[ROOT], name).value.slot;
    FilePrefix(img, chains, owner, used, s);
    ChainFits(img, chains, owner, used, s);
  }

  /** The contents of a file are the first bytes of its chain. */
  lemma FilePrefix(img: Image, chains: map<nat, Chain>, owner: map<nat, (nat, nat)>, used: nat, s: nat)
    requires Wf(img, chains, owner, used) && s in chains
    ensures ImageShape(img) && FilesOk(img, chains) && Stored(img, chains[s])
    ensures FileAt(img, chains, s) <= ChainBytes(img, chains[s])
  {
    FileShape(img, chains, owner, used, s);
  }

  /** No chain has more than 4 GB. */
  lemma ChainFits(img: Image, chains: map<nat, Chain>, owner: map<nat, (nat, nat)>, used: nat, s: nat)
    requires Wf(img, chains, owner, used) && s in chains && CLUSTER * (|img.fat| - 3) <= 0x1_0000_0000
    ensures CLUSTER * |chains[s]| <= 0x1_0000_0000
  {
    ChainLength(img, chains, owner, used, s);
  }

  lemma ReadInside(img: Image, chains: map<nat, Chain>, name: seq<Byte>,
                   cached: nat, p: U64, p': nat, size: nat, b: seq<Byte>, b': seq<Byte>)
    requires ReadThrough(img, chains, name, cached, p, p', size, b, b')
    ensures p <= p' <= U64_MAX
  {
    hide Lookup, FindSlot, Chains.Files, SetAt, Splice, FilesOk, ChainBytes, Stored;
  }

  /** With the right size in the handle, this is the plain result of a read. */
  lemma ReadRight(img: Image, chains: map<nat, Chain>, owner: map<nat, (nat, nat)>, used: nat, name: seq<Byte>,
                  p: nat, p': nat, size: nat, b: seq<Byte>, b': seq<Byte>)
    requires Wf(img, chains, owner, used) && ROOT < |img.heap| && |img.heap[ROOT]| == ROOT_BYTES
    requires Lookup(img.heap[ROOT], name).Some?
    requires ReadThrough(img, chains, name, Lookup(img.heap[ROOT], name).value.size, p, p', size, b, b')
    ensures ReadResult(img, chains, name, p, p', size, b, b')
  {
    hide Wf, Lookup, FilesOk, Chains.Files, DirOk, Splice, ChainBytes, Stored, SetAt;
    WfFiles(img, chains, owner, used, name);
    var c := ChainBytes(img, chains[Lookup(img.heap[ROOT], name).value.slot]);
    var f := Chains.Files(img, chains)[name];
    assert p' > p ==> c[p..p'] == f[p..p'] by {
      assert f == c[..|f|];
    }
  }

  /** What a read left in the first bytes of the buffer. */
  lemma ReadPrefix(img: Image, chains: map<nat, Chain>, name: seq<Byte>, cached: nat, p: nat, p': nat, size: nat,
                   b: seq<Byte>, b': seq<Byte>)
    requires ReadThrough(img, chains, name, cached, p, p', size, b, b') && |b| == size
    ensures ImageShape(img) && FilesOk(img, chains) && chains.Keys == FileSlots(img.heap[ROOT])
    ensures p <= p' <= p + size && |b'| == size && name in Files(img, chains)
    ensures p' == p + Available(cached, p, size)
    ensures ReadOut(Files(img, chains)[name], p, b'[..p' - p])
  {
    hide Files, FilesOk, FileSlots, ImageShape, ChainBytes, Stored, Lookup;
  }

  /** The bytes read are those of the file, as far as it goes. */
  predicate ReadOut(c: seq<Byte>, p: nat, out: seq<Byte>)
  {
    forall j :: 0 <= j < |out| && p + j < |c| ==> out[j] == c[p + j]
  }

  /** Reads up to `size` bytes at the position and moves past them: what is there, or nothing from a closed file. */
  method Fetch(fs: FileSystem, f: File, size: U32) returns (out: seq<Byte>)
    requires fs.Valid() && fs.Attached(f)
    modifies f`position
    ensures fs.Valid() && fs.Attached(f)
    ensures !f.isOpen ==> out == [] && f.position == old(f.position)
    ensures f.isOpen ==> f.position == old(f.position) + |out| && |out| == Available(f.fileSize, old(f.position), size)
    ensures f.isOpen ==> f.name in fs.Files() && ReadOut(fs.Files()[f.name], old(f.position), out)
  {
    hide Wf, ImageOf, Lookup, Files, FilesOk, Available, Splice, ReadThrough, ReadResult, ReadOut;
    var start := f.position;
    var buffer := new Byte[size](_ => 0);
    ghost var b := buffer[..];
    var _ := fs.Read(f, buffer, size);
    if !f.isOpen {
      return [];
    }
    ReadPrefix(fs.vol.Img(), fs.chains, f.name, f.fileSize, start, f.position, size, b, buffer[..]);
    out := buffer[..f.position - start];
  }

  /** Reads through a handle that has the size right: the bytes of the file from the position on. */
  method FetchRight(fs: FileSystem, f: File, size: U32) returns (out: seq<Byte>)
    requires fs.Valid() && fs.Agrees(f) && f.isOpen
    modifies f`position
    ensures fs.Valid() && fs.Agrees(f) && f.name in fs.Files()
    ensures |out| == Available(|fs.Files()[f.name]|, old(f.position), size) && f.position == old(f.position) + |out|
    ensures out != [] ==> f.position <= |fs.Files()[f.name]| && out == fs.Files()[f.name][old(f.position)..f.position]
  {
    hide Wf, ImageOf, Lookup, Files, FilesOk;
    fs.AgreesAttached(f);
    WfFiles(fs.vol.Img(), fs.chains, fs.owner, fs.used, f.name);
    out := Fetch(fs, f, size);
  }

  /** Filling the next n bytes of a buffer that holds c[p..p + done]. */
  lemma ReadTurn(b0: seq<Byte>, b: seq<Byte>, b': seq<Byte>, c: seq<Byte>, p: nat, done: nat, n: nat)
    requires done + n <= |b0| && p + done + n <= |c|
    requires b == Splice(b0, 0, c[p..p + done]) && b' == Splice(b, done, c[p + done..p + done + n])
    ensures b' == Splice(b0, 0, c[p..p + (done + n)])
  {
    SpliceAppend(b0, 0, c[p..p + done], c[p + done..p + done + n]);
    assert c[p..p + done] + c[p + done..p + done + n] == c[p..p + (done + n)];
  }

  /** A found set starts below the last slot. */
  lemma FoundSetBound(rb: seq<Byte>, name: seq<Byte>)
    requires |rb| == ROOT_BYTES && FindSlot(rb, name, 0).Some?
    ensures FindSlot(rb, name, 0).value + 1 < SLOTS
  {
  }

  /** A file's bytes fit its chain, and its chain fits the volume. */
  lemma FileShape(img: Image, chains: map<nat, Chain>, owner: map<nat, (nat, nat)>, used: nat, s: nat)
    requires Wf(img, chains, owner, used) && s in chains
    ensures ImageShape(img) && FilesOk(img, chains) && Stored(img, chains[s])
    ensures |FileAt(img, chains, s)| == SizeAt(img.heap[ROOT], s) <= CLUSTER * |chains[s]| <= CLUSTER * (|img.fat| - 3)
  {
    ChainLength(img, chains, owner, used, s);
  }

  /** A found file, its chain and its contents. */
  lemma FoundFile(img: Image, chains: map<nat, Chain>, owner: map<nat, (nat, nat)>, used: nat, name: seq<Byte>)
    requires Wf(img, chains, owner, used) && Lookup(img.heap[ROOT], name).Some?
    ensures ImageShape(img) && FilesOk(img, chains) && name in Files(img, chains)
    ensures var r := Lookup(img.heap[ROOT], name).value;
            && r.slot in chains && chains[r.slot] != [] && chains[r.slot][0] == r.first
            && Files(img, chains)[name] == FileAt(img, chains, r.slot)
            && |FileAt(img, chains, r.slot)| == r.size <= CLUSTER * (|img.fat| - 3)
  {
    FilesLookup(img, chains, name);
    FoundChain(img, chains, owner, used, name);
    FileShape(img, chains, owner, used, Lookup(img.heap[ROOT], name).value.slot);
  }

  /** Part of one cluster is part of the bytes of the chain. */
  lemma ChainSlice(img: Image, ch: Chain, k: nat, off: nat, n: nat)
    requires Stored(img, ch) && k < |ch| && off + n <= CLUSTER
    ensures ROOT < ch[k] < |img.heap| && |img.heap[ch[k]]| == CLUSTER
    ensures ChainBytes(img, ch)[CLUSTER * k + off..CLUSTER * k + off + n] == img.heap[ch[k]][off..off + n]
  {
    ContentSlice(img, ch, CLUSTER * |ch|, k, off, n);
  }

  lemma AdvancedRoot(img: Image, chains: map<nat, Chain>, mid: Image, chains': map<nat, Chain>,
                     s: nat, p: nat, d: seq<Byte>)
    requires Advanced(img, chains, mid, chains', s, p, d)
    ensures s in chains && s in chains' && ROOT < |img.heap| == |mid.heap| && mid.heap[ROOT] == img.heap[ROOT]
    ensures |FreeSet(mid.fat)| + |chains'[s]| == |FreeSet(img.fat)| + |chains[s]|
    ensures |chains[s]| <= |chains'[s]| && Extended(chains, chains', s)
  {
  }

  /** What a write means once its size update, if any, is on disk. */
  lemma WriteDone(img: Image, chains: map<nat, Chain>, owner: map<nat, (nat, nat)>, used: nat,
                  mid: Image, img': Image, chains': map<nat, Chain>, owner': map<nat, (nat, nat)>,
                  name: seq<Byte>, s: nat, p: nat, data: seq<Byte>, written: nat, reached: bool, cached: U64,
                  cached': U64)
    requires Wf(img, chains, owner, used) && Wf(mid, chains', owner', used) && Wf(img', chains', owner', used)
    requires written <= |data| && Advanced(img, chains, mid, chains', s, p, data[..written])
    requires Lookup(img.heap[ROOT], name).Some? && Lookup(img.heap[ROOT], name).value.slot == s
    requires reached ==> p + written <= CLUSTER * |chains'[s]|
    requires !reached ==> written == 0 && FreeSet(mid.fat) == {} && CLUSTER * |chains'[s]| <= p
    requires reached && written < |data| ==> FreeSet(mid.fat) == {} && p + written == CLUSTER * |chains'[s]|
    requires reached ==> p < CLUSTER * |chains'[s]|
    requires |chains'[s]| == Covering(|chains[s]|, |FreeSet(img.fat)|, p, |data|)
    requires cached <= CLUSTER * |chains[s]|
             && cached' == (if reached && cached < p + written then p + written else cached)
    requires img' == (if cached' == cached then mid else Resized(mid, s, cached'))
    ensures WriteCarried(img, chains, img', chains', name, p, data, written, cached, cached')
  {
    hide Wf, Advanced, Lookup, FindSlot, SetSize, OnlyChanged, Overlaid, OthersFound, Chains.Files, DirOk, FreeSet;
    hide SetAt, LeVal, ChainOk, Covering, Extended, ImageShape, FilesOk, FileSlots;
    FoundChain(img, chains, owner, used, name);
    AdvancedRoot(img, chains, mid, chains', s, p, data[..written]);
    if cached' != cached {
      ResizeFile(mid, chains', owner', used, s, cached');
    }
    WfFiles(img, chains, owner, used, name);
    SameRootShape(img, chains, owner, used);
    SameRootShape(img', chains', owner', used);
    assert Written(img, chains, owner, used, mid, img', chains', owner', s, p, data[..written]);
    WrittenFiles(img, chains, owner, used, mid, img', chains', owner', name, s, p, data[..written]);
    WfFiles(img', chains', owner', used, name);
  }

  /** A position is reached exactly if it is within the room of the file. */
  lemma ReachedIff(img: Image, chains: map<nat, Chain>, mid: Image, chains': map<nat, Chain>, name: seq<Byte>, s: nat,
                   p: nat, d: seq<Byte>, reached: bool)
    requires ROOT < |img.heap| && |img.heap[ROOT]| == ROOT_BYTES && Advanced(img, chains, mid, chains', s, p, d)
    requires Lookup(img.heap[ROOT], name).Some? && Lookup(img.heap[ROOT], name).value.slot == s
    requires if reached then p < CLUSTER * |chains'[s]| else FreeSet(mid.fat) == {} && CLUSTER * |chains'[s]| <= p
    ensures reached <==> p < Room(img, chains, name)
  {
    hide Lookup, FreeSet, OutsideKept, Stored, BytesWritten;
  }

  lemma FarDone(img: Image, chains: map<nat, Chain>, mid: Image, img': Image, chains': map<nat, Chain>,
                name: seq<Byte>, s: nat, p: nat, data: seq<Byte>, written: nat, reached: bool, cached: U64,
                cached': U64)
    requires var low, end := p % 0x1_0000_0000, (p + written) % 0x1_0000_0000_0000_0000;
             && written <= |data| && Advanced(img, chains, mid, chains', s, low, data[..written])
             && (reached ==> low + written <= CLUSTER * |chains'[s]|)
             && (!reached ==> written == 0 && FreeSet(mid.fat) == {} && CLUSTER * |chains'[s]| <= low)
             && (reached && written < |data| ==> FreeSet(mid.fat) == {} && low + written == CLUSTER * |chains'[s]|)
             && cached' == (if reached && cached < end then end else cached)
    requires ROOT < |img.heap| && |img.heap[ROOT]| == ROOT_BYTES && s + 1 < SLOTS
    requires Lookup(img.heap[ROOT], name).Some? && Lookup(img.heap[ROOT], name).value.slot == s
    requires s in chains && cached <= CLUSTER * |chains[s]|
    requires reached ==> p % 0x1_0000_0000 < CLUSTER * |chains'[s]|
    requires img' == (if cached' == cached then mid else Resized(mid, s, cached'))
    ensures WriteFar(img, chains, img', chains', name, p, data, written, cached, cached')
  {
    hide Lookup, FindSlot, SetSize, FreeSet, OutsideKept, Stored, BytesWritten;
    assert |FreeSet(mid.fat)| + |chains'[s]| == |FreeSet(img.fat)| + |chains[s]|;
  }

  /** A name that is looked up is in the name map. */
  lemma WfFiles(img: Image, chains: map<nat, Chain>, owner: map<nat, (nat, nat)>, used: nat, name: seq<Byte>)
    requires Wf(img, chains, owner, used)
    ensures name in Chains.Files(img, chains) <==> Lookup(img.heap[ROOT], name).Some?
    ensures name in Chains.Files(img, chains)
            ==> |Chains.Files(img, chains)[name]| == Lookup(img.heap[ROOT], name).value.size
    ensures FindSlot(img.heap[ROOT], name, 0).Some? ==> SetAt(img.heap[ROOT], FindSlot(img.heap[ROOT], name, 0).value)
  {
    FilesLookup(img, chains, name);
  }

  /** A found name has a chain starting at the cluster found. */
  lemma FoundChain(img: Image, chains: map<nat, Chain>, owner: map<nat, (nat, nat)>, used: nat, name: seq<Byte>)
    requires Wf(img, chains, owner, used) && Lookup(img.heap[ROOT], name).Some?
    ensures var r := Lookup(img.heap[ROOT], name).value;
            && r.slot in chains && chains[r.slot] != [] && chains[r.slot][0] == r.first
            && r.size <= CLUSTER * |chains[r.slot]| && SetAt(img.heap[ROOT], r.slot)
            && r.first == FirstClusterAt(img.heap[ROOT], r.slot) && r.size == SizeAt(img.heap[ROOT], r.slot)
            && FindSlot(img.heap[ROOT], name, 0) == Some(r.slot)
  {
    FoundInChains(img, chains, owner, used, name);
  }

  /** Storing data[from..from + n] in the k-th cluster of the chain of s, right after data[..from]. */
  lemma ChunkStored(img0: Image, ch0: Chain, img: Image, chains: map<nat, Chain>, owner: map<nat, (nat, nat)>,
                    used: nat, s: nat, k: nat, p: nat, data: seq<Byte>, from: nat, n: nat, offset: nat)
    requires Wf(img, chains, owner, used) && s in chains && k < |chains[s]|
    requires Stored(img0, ch0) && Stored(img, chains[s]) && |img0.heap| == |img.heap|
    requires from + n <= |data| && offset + n <= CLUSTER && p + from == CLUSTER * k + offset
    requires BytesWritten(img0, ch0, img, chains[s], p, data[..from]) && OutsideKept(img0, img, chains[s])
    ensures ROOT < chains[s][k] < |img.heap| && |img.heap[chains[s][k]]| == CLUSTER
    ensures var c := chains[s][k];
            var img' := img.(heap := img.heap[c := Splice(img.heap[c], offset, data[from..from + n])]);
            && Wf(img', chains, owner, used) && Stored(img', chains[s])
            && BytesWritten(img0, ch0, img', chains[s], p, data[..from + n]) && OutsideKept(img0, img', chains[s])
            && img'.heap[ROOT] == img.heap[ROOT]
  {
    hide Wf, BytesWritten, ByteAt;
    ChunkShape(img, chains, owner, used, s, k);
    var t := data[from..from + n];
    ClusterOnceWf(img, chains, owner, used, s, k);
    WrittenChunk(img0, ch0, img, chains[s], p, data[..from], k, offset, t);
    RewriteCluster(img, chains, owner, used, s, k, Splice(img.heap[chains[s][k]], offset, t));
    assert data[..from + n] == data[..from] + t;
  }

  lemma ChunkShape(img: Image, chains: map<nat, Chain>, owner: map<nat, (nat, nat)>, used: nat, s: nat, k: nat)
    requires Wf(img, chains, owner, used) && s in chains && k < |chains[s]|
    ensures ROOT < chains[s][k] < |img.heap| && |img.heap[chains[s][k]]| == CLUSTER
  {
    assert ChainOk(img.fat, chains[s]);
  }

  lemma ClusterOnceWf(img: Image, chains: map<nat, Chain>, owner: map<nat, (nat, nat)>, used: nat, s: nat, k: nat)
    requires Wf(img, chains, owner, used) && s in chains && k < |chains[s]|
    ensures Once(chains[s], k)
  {
    ClusterOnce(chains, owner, s, k);
  }

  /** The entry set at slot s has these attributes. */
  predicate Marked(rb: seq<Byte>, s: nat, attributes: U16)
  {
    |rb| == ROOT_BYTES && s < SLOTS && AttributesAt(rb, s) == attributes
  }

  lemma AppendedMarked(rb: seq<Byte>, rb': seq<Byte>, used: nat, name: CString, attributes: U16, c: U32)
    requires Appended(rb, rb', used, name, attributes, c)
    ensures Marked(rb', used, attributes)
  {
    hide SetAt, Get16;
  }

  /** A new entry set whose chain is the lowest free cluster. */
  lemma EntryAdded(img: Image, chains: map<nat, Chain>, owner: map<nat, (nat, nat)>, used: nat,
                   c: U32, rb': seq<Byte>, name: CString, attributes: U16)
    requires Wf(img, chains, owner, used) && Appended(img.heap[ROOT], rb', used, name, attributes, c)
    requires ROOT < c < |img.fat| && img.fat[c] == FREE && forall k :: ROOT <= k < c ==> img.fat[k] != FREE
    ensures var img', used' := Image(img.fat[c := END_OF_CHAIN], img.heap[ROOT := rb']), used + 2 + NameSlots(|name|);
            && Wf(img', chains[used := [c as nat]], owner[c := (used, 0)], used')
            && Created(img, chains, used, img', chains[used := [c as nat]], used', name, c)
            && Marked(rb', used, attributes)
  {
    hide Wf, DirOk, Appended, Created, SetAt;
    WfRoot(img, chains, owner, used);
    AppendedMarked(img.heap[ROOT], rb', used, name, attributes, c);
    AddFile(img, chains, owner, used, c, rb', name, attributes);
    var img' := Image(img.fat[c := END_OF_CHAIN], img.heap[ROOT := rb']);
    AddedFiles(img, chains, owner, used, img', owner[c := (used, 0)], used + 2 + NameSlots(|name|), name, attributes,
               c);
  }

  /** What the invariant says of the root directory. */
  lemma WfRoot(img: Image, chains: map<nat, Chain>, owner: map<nat, (nat, nat)>, used: nat)
    requires Wf(img, chains, owner, used)
    ensures ROOT < |img.heap| == |img.fat| < 0x1000_0002 && |img.heap[ROOT]| == ROOT_BYTES
            && DirOk(img.heap[ROOT], used)
    ensures img.fat[ROOT] != FREE
  {
  }

  /** A name that is found belongs to a file with a chain. */
  lemma FoundInChains(img: Image, chains: map<nat, Chain>, owner: map<nat, (nat, nat)>, used: nat, name: seq<Byte>)
    requires Wf(img, chains, owner, used) && FindSlot(img.heap[ROOT], name, 0).Some?
    ensures var s := FindSlot(img.heap[ROOT], name, 0).value;
            s in chains && SetAt(img.heap[ROOT], s) && NameAt(img.heap[ROOT], s) == name
  {
  }

  /** Allocating cluster c and linking it after the last cluster of the chain of s. */
  lemma AppendCluster(img: Image, chains: map<nat, Chain>, owner: map<nat, (nat, nat)>, used: nat, s: nat, c: nat)
    requires Wf(img, chains, owner, used) && s in chains && |chains[s]| > 0
    requires |img.fat| < 0x1000_0002 && ROOT < c < |img.fat| && img.fat[c] == FREE
    requires chains[s][|chains[s]| - 1] < |img.fat|
    ensures var ch := chains[s];
            var fat' := img.fat[c := END_OF_CHAIN][ch[|ch| - 1] := c];
            && Wf(img.(fat := fat'), chains[s := ch + [c]], owner[c := (s, |ch|)], used)
            && |FreeSet(fat')| + 1 == |FreeSet(img.fat)|
  {
    WfChain(img, chains, owner, used, s, |chains[s]| - 1);
    GrowChain(img, chains, owner, used, s, c);
    FreeSetAfterGrow(img.fat, c, chains[s][|chains[s]| - 1]);
  }

  lemma ExtendedTransitive(a: map<nat, Chain>, b: map<nat, Chain>, c: map<nat, Chain>, s: nat)
    requires s in a && Extended(a, b, s) && Extended(b, c, s)
    ensures Extended(a, c, s)
  {
    assert c[s][..|a[s]|] == c[s][..|b[s]|][..|a[s]|];
  }

  lemma NothingWritten(img: Image, ch: Chain, p: nat)
    requires Stored(img, ch)
    ensures BytesWritten(img, ch, img, ch, p, [])
  {
  }

  lemma SameHeapKept(img: Image, img': Image, ch: Chain)
    requires img'.heap == img.heap
    ensures OutsideKept(img, img', ch)
  {
  }

  lemma KeptAfterExtend(img0: Image, img: Image, img': Image, chains: map<nat, Chain>, chains': map<nat, Chain>, s: nat)
    requires |img0.heap| == |img.heap| && s in chains && Extended(chains, chains', s)
    requires OutsideKept(img0, img, chains[s]) && img'.heap == img.heap
    ensures OutsideKept(img0, img', chains'[s])
  {
    forall c | 0 <= c < |img0.heap| && c !in chains'[s]
      ensures c !in chains[s]
    {
      assert forall k :: 0 <= k < |chains[s]| ==> chains[s][k] == chains'[s][..|chains[s]|][k];
    }
  }

  lemma FreeSetAfterGrow(fat: seq<U32>, c: nat, last: nat)
    requires ROOT < c < |fat| < 0x1000_0002 && fat[c] == FREE && last < |fat| && last != c && fat[last] != FREE
    ensures FreeSet(fat[c := END_OF_CHAIN][last := c]) == FreeSet(fat) - {c}
    ensures |FreeSet(fat[c := END_OF_CHAIN][last := c])| + 1 == |FreeSet(fat)|
  {
    assert FreeSet(fat[c := END_OF_CHAIN][last := c]) == FreeSet(fat) - {c};
    assert c in FreeSet(fat);
  }
}
