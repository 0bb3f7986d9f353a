/** Formatting and mounting a volume, and when the computed layout is sound. */
module Format {
  import opened Bytes
  import opened DiskIo
  import opened Layout
  import opened Directory
  import opened Chains
  import opened FileMap
  import opened Volumes
  import FileSystem

  const FAT_OFFSET := 24

  /** Unsigned 32-bit subtraction. */
  function Sub32(a: U32, b: U32): U32
  {
    (a - b) % 0x1_0000_0000
  }

  function MaxClusters(total: U32): U32
  {
    Sub32(total, FAT_OFFSET) / 8
  }

  function FatLength(total: U32): U32
  {
    (MaxClusters(total) * 4 + 511) / 512
  }

  function HeapOffset(total: U32): (r: U32)
    ensures FAT_OFFSET <= r
  {
    FAT_OFFSET + FatLength(total)
  }

  function ClusterCount(total: U32): U32
  {
    Sub32(total, HeapOffset(total)) / 8
  }

  /** The geometry a mount finds on a volume formatted with `total` sectors. */
  function FormatGeometry(total: U32): Geometry
  {
    Geometry(512, 8, 4096, FAT_OFFSET, HeapOffset(total), ClusterCount(total), 2)
  }

  /** The table computed for `total` sectors has an entry for every cluster, including the two
      reserved ones, so that boot area, table and heap are disjoint. */
  predicate TableFits(total: U32)
  {
    ClusterCount(total) + 2 <= 128 * FatLength(total)
  }

  /** From 15392 sectors on the layout is always sound. */
  lemma LayoutSound(total: U32)
    requires total >= 15392
    ensures TableFits(total)
    ensures SECTOR * FAT_OFFSET + 4 * (ClusterCount(total) + 2) <= SECTOR * HeapOffset(total)
    ensures 1 <= ClusterCount(total) && HeapOffset(total) + 8 * ClusterCount(total) <= total
    ensures Fits(FormatGeometry(total), SECTOR * total) || SECTOR * total > 0x1_0000_0000
  {
    hide ClusterCount, FatLength, MaxClusters;
    assert TableFits(total) by { LayoutSoundIff(total); EstimateBound(total); }
    HeapInside(total);
  }

  lemma EstimateBound(total: U32)
    requires total >= 15392
    ensures 15 < FatLength(total) <= total - FAT_OFFSET - 8
  {
  }

  /** The clusters counted end inside the volume, and there is one. */
  lemma HeapInside(total: U32)
    requires total >= 15392
    ensures HeapOffset(total) + 8 * ClusterCount(total) <= total && 1 <= ClusterCount(total)
  {
    hide FatLength;
    EstimateBound(total);
  }

  /** For smaller volumes it depends on how full the last table sector is: with 128 entries a sector
      and m clusters estimated, the table falls short exactly if the last sector is full, or full
      but for one entry, and the table is too short to have made room. */
  lemma LayoutSoundIff(total: U32)
    requires FAT_OFFSET <= total
    ensures TableFits(total) <==>
      var m, spare, f := MaxClusters(total), (total - FAT_OFFSET) % 8, FatLength(total);
      !(m % 128 == 0 && f <= spare + 8) && !(m % 128 == 127 && f <= spare)
  {
    hide MaxClusters, FatLength, ClusterCount;
    var m, spare, f := MaxClusters(total), (total - FAT_OFFSET) % 8, FatLength(total);
    LayoutShape(total);
    CeilDiv(m, f);
    CountAgainst(m, spare, f, 128 * f - m);
  }

  lemma LayoutShape(total: U32)
    requires FAT_OFFSET <= total
    ensures var m, spare, f := MaxClusters(total), (total - FAT_OFFSET) % 8, FatLength(total);
            && total - FAT_OFFSET == 8 * m + spare && f == (m * 4 + 511) / 512
            && f <= 8 * m + spare && ClusterCount(total) == (8 * m + spare - f) / 8
  {
  }

  /** A table with room for d entries more than estimated clusters. */
  lemma CountAgainst(m: nat, spare: nat, f: nat, d: nat)
    requires spare < 8
    ensures (8 * m + spare - f) / 8 + 2 <= m + d <==> spare - f < 8 * d - 8
  {
  }

  lemma CeilDiv(m: nat, f: nat)
    requires f == (m * 4 + 511) / 512
    ensures 128 * f == if m % 128 == 0 then m else m + 128 - m % 128
  {
  }

  /** A volume of 1049 sectors is one that falls short: the table entry of cluster 128 is stored
      over the first bytes of the root directory. */
  lemma ShortTable()
    ensures !TableFits(1049)
    ensures var g := FormatGeometry(1049);
            IsCluster(g, 128) && FatByte(g, 128) == ClusterByte(g, ROOT)
  {
  }

  // ----- the sectors a format writes

  const NAME: seq<Byte> := [0x45, 0x58, 0x46, 0x41, 0x54, 0x20, 0x20, 0x20]
  const SIGNATURE: U16 := 0xAA55

  /** The boot fields a mount looks at. */
  predicate BootOk(boot: seq<Byte>, total: U32)
  {
    && |boot| == SECTOR
    && boot[3..11] == NAME && Get16(boot, 0x1FE) == SIGNATURE
    && Get32(boot, 0x50) == FAT_OFFSET && Get32(boot, 0x58) == HeapOffset(total)
    && Get32(boot, 0x5C) == ClusterCount(total) && Get32(boot, 0x60) == ROOT
    && boot[0x6C] == 9 && boot[0x6D] == 3
  }

  /** Writes the file system name. */
  method PutName(boot: array<Byte>)
    requires boot.Length == SECTOR
    modifies boot
    ensures boot[..] == Splice(old(boot[..]), 3, NAME)
  {
    for i := 0 to 8
      invariant boot[..] == Splice(old(boot[..]), 3, NAME[..i])
    {
      boot[3 + i] := NAME[i];
    }
  }

  /** The name, the shifts and the fields no mount looks at. */
  method FillBootHead(total: U32) returns (boot: array<Byte>)
    ensures fresh(boot) && boot.Length == SECTOR
    ensures boot[3..11] == NAME && boot[0x6C] == 9 && boot[0x6D] == 3
  {
    hide HeapOffset, ClusterCount, FatLength, LeBytes;
    boot := new Byte[SECTOR](_ => 0);
    PutLe(boot, 0x48, total, 8);
    PutLe(boot, 0x54, FatLength(total), 4);
    PutLe(boot, 0x64, 0x1234_5678, 4);
    PutLe(boot, 0x68, 0x0100, 2);
    boot[0x6C], boot[0x6D], boot[0x6E], boot[0x6F] := 9, 3, 1, 0x80;
    boot[0], boot[1], boot[2] := 0xEB, 0x76, 0x90;
    PutName(boot);
  }

  method FillBoot(total: U32) returns (boot: array<Byte>)
    ensures fresh(boot) && boot.Length == SECTOR && BootOk(boot[..], total)
  {
    hide HeapOffset, ClusterCount, FatLength, BootOk;
    boot := FillBootHead(total);
    ghost var b := boot[..];
    assert b[3..11] == boot[3..11];
    PutLe(boot, 0x50, FAT_OFFSET, 4);
    PutLe(boot, 0x58, HeapOffset(total), 4);
    PutLe(boot, 0x5C, ClusterCount(total), 4);
    PutLe(boot, 0x60, ROOT, 4);
    PutLe(boot, 0x1FE, SIGNATURE, 2);
    BootFields(b, total);
  }

  /** Writing one boot field keeps the fields before it. */
  lemma FieldsKept(s: seq<Byte>, at: nat, t: seq<Byte>)
    requires at + |t| <= |s|
    ensures at >= 0x54 ==> Get32(Splice(s, at, t), 0x50) == Get32(s, 0x50)
    ensures at >= 0x5C ==> Get32(Splice(s, at, t), 0x58) == Get32(s, 0x58)
    ensures at >= 0x60 ==> Get32(Splice(s, at, t), 0x5C) == Get32(s, 0x5C)
    ensures at >= 0x64 ==> Get32(Splice(s, at, t), 0x60) == Get32(s, 0x60)
  {
    hide LeVal;
    if at >= 0x54 { SpliceSlice(s, at, t, 0x50, 0x54); }
    if at >= 0x5C { SpliceSlice(s, at, t, 0x58, 0x5C); }
    if at >= 0x60 { SpliceSlice(s, at, t, 0x5C, 0x60); }
    if at >= 0x64 { SpliceSlice(s, at, t, 0x60, 0x64); }
  }

  lemma BootFields(b: seq<Byte>, total: U32)
    requires |b| == SECTOR && b[3..11] == NAME && b[0x6C] == 9 && b[0x6D] == 3
    ensures var b1 := Splice(b, 0x50, LeBytes(FAT_OFFSET, 4));
            var b2 := Splice(b1, 0x58, LeBytes(HeapOffset(total), 4));
            var b3 := Splice(b2, 0x5C, LeBytes(ClusterCount(total), 4));
            var b4 := Splice(b3, 0x60, LeBytes(ROOT, 4));
            var b5 := Splice(b4, 0x1FE, LeBytes(SIGNATURE, 2));
            BootOk(b5, total)
  {
    hide HeapOffset, ClusterCount, Splice, LeBytes, Get32, Get16;
    var b1 := Splice(b, 0x50, LeBytes(FAT_OFFSET, 4));
    var b2 := Splice(b1, 0x58, LeBytes(HeapOffset(total), 4));
    var b3 := Splice(b2, 0x5C, LeBytes(ClusterCount(total), 4));
    var b4 := Splice(b3, 0x60, LeBytes(ROOT, 4));
    var b5 := Splice(b4, 0x1FE, LeBytes(SIGNATURE, 2));
    Get32AfterPut(b, 0x50, FAT_OFFSET);
    Get32AfterPut(b1, 0x58, HeapOffset(total));
    Get32AfterPut(b2, 0x5C, ClusterCount(total));
    Get32AfterPut(b3, 0x60, ROOT);
    Get16AfterPut(b4, 0x1FE, SIGNATURE);
    FieldsKept(b1, 0x58, LeBytes(HeapOffset(total), 4));
    FieldsKept(b2, 0x5C, LeBytes(ClusterCount(total), 4));
    FieldsKept(b3, 0x60, LeBytes(ROOT, 4));
    FieldsKept(b4, 0x1FE, LeBytes(SIGNATURE, 2));
    assert b5[3..11] == b[3..11];
  }

  /** The first table sector: entries 0 and 1 are reserved, entry 2 ends the chain of the root. */
  predicate FatSectorOk(t: seq<Byte>)
  {
    && |t| == SECTOR
    && Get32(t, 0) == 0xFFFF_FFF8 && Get32(t, 4) == END_OF_CHAIN && Get32(t, 8) == END_OF_CHAIN
    && forall c :: 3 <= c < 128 ==> Get32(t, 4 * c) == FREE
  }

  method FillFatSector() returns (fat: array<Byte>)
    ensures fresh(fat) && fat.Length == SECTOR && FatSectorOk(fat[..])
  {
    fat := new Byte[SECTOR](_ => 0);
    ghost var b0 := fat[..];
    PutLe(fat, 0, 0xFFFF_FFF8, 4);
    ghost var b1 := fat[..];
    PutLe(fat, 4, END_OF_CHAIN, 4);
    ghost var b2 := fat[..];
    PutLe(fat, 8, END_OF_CHAIN, 4);
    Get32AfterPut(b0, 0, 0xFFFF_FFF8);
    Get32AfterPut(b1, 4, END_OF_CHAIN);
    Get32AfterPut(b2, 8, END_OF_CHAIN);
    assert fat[..][0..4] == b1[0..4] && fat[..][4..8] == b2[4..8];
    forall c | 3 <= c < 128
      ensures Get32(fat[..], 4 * c) == FREE
    {
      ZeroField(fat[..], 4 * c);
    }
  }

  lemma ZeroField(b: seq<Byte>, at: nat)
    requires at + 4 <= |b| && forall k :: at <= k < at + 4 ==> b[k] == 0
    ensures Get32(b, at) == 0
  {
    var f := b[at..at + 4];
    assert f[1..][1..] == f[2..] && f[2..][1..] == f[3..] && f[3..][1..] == [];
    assert f[0] == f[1] == f[2] == f[3] == 0;
    assert LeVal(f[3..]) == 0;
    assert LeVal(f[2..]) == 0;
    assert LeVal(f[1..]) == 0;
  }

  /** The first sector of the root directory: a volume label and the bitmap entry, then nothing. */
  predicate RootSectorOk(t: seq<Byte>)
  {
    && |t| == SECTOR && t[0] == 0x83 && t[SLOT] == 0x81
    && forall i :: 2 <= i < 16 ==> t[SLOT * i] == TYPE_END
  }

  method FillRootSector(total: U32) returns (root: array<Byte>)
    ensures fresh(root) && root.Length == SECTOR && RootSectorOk(root[..])
  {
    root := new Byte[SECTOR](_ => 0);
    root[0], root[1] := 0x83, 6;
    root[2], root[4], root[6], root[8], root[10], root[12] := 0x45, 0x58, 0x46, 0x41, 0x54, 0x20;
    root[SLOT] := 0x81;
    PutLe(root, SLOT + 20, 3, 4);
    PutLe(root, SLOT + 24, (ClusterCount(total) + 7) / 8, 8);
  }

  /** What is on the disk after the three sectors of a volume of `total` sectors were written to it. */
  predicate FormattedBy(d: seq<Byte>, d': seq<Byte>, total: U32, boot: seq<Byte>, fat: seq<Byte>, root: seq<Byte>)
  {
    && BootOk(boot, total) && FatSectorOk(fat) && RootSectorOk(root)
    && SECTOR * (HeapOffset(total) + 1) <= |d|
    && d' == Splice(Splice(Splice(d, 0, boot), SECTOR * FAT_OFFSET, fat), SECTOR * HeapOffset(total), root)
  }

  /** The disk holds a freshly formatted volume of `total` sectors. */
  ghost predicate Formatted(d: seq<Byte>, d': seq<Byte>, total: U32)
  {
    exists boot: seq<Byte>, fat: seq<Byte>, root: seq<Byte> :: FormattedBy(d, d', total, boot, fat, root)
  }

  /** Writes one sector, if it is on the disk. */
  method PutSector(disk: Disk, sector: U32, buffer: array<Byte>)
    requires disk.Valid() && buffer != disk.data && buffer.Length == SECTOR
    modifies disk.data
    ensures sector < disk.sectors ==> disk.data[..] == Splice(old(disk.data[..]), SECTOR * sector, buffer[..])
  {
    var written := disk.WriteSector(sector, buffer, 0);
    assert buffer[0..0 + SECTOR] == buffer[..];
  }

  method FormatVolume(disk: Disk, total: U32)
    requires disk.Valid()
    modifies disk.data
    ensures HeapOffset(total) < disk.sectors ==> Formatted(old(disk.data[..]), disk.data[..], total)
  {
    hide HeapOffset, ClusterCount, FatLength, BootOk, FatSectorOk, RootSectorOk, Splice;
    ghost var d := disk.data[..];
    var boot := FillBoot(total);
    PutSector(disk, 0, boot);
    var fat := FillFatSector();
    PutSector(disk, FAT_OFFSET, fat);
    var root := FillRootSector(total);
    var rootSector := HeapOffset(total) + (ROOT - 2) * 8;
    PutSector(disk, rootSector, root);
    assert rootSector < disk.sectors ==> FormattedBy(d, disk.data[..], total, boot[..], fat[..], root[..]);
  }

  /** Unsigned 32-bit multiplication. */
  function Mul32(a: U32, b: U32): U32
  {
    var product: int := a as int * b as int;
    product % 0x1_0000_0000
  }

  /** 2 to the power n, for the shift counts kept in the boot sector (taken modulo 32, as the processor does). */
  function Shift(n: Byte): (r: U32)
  {
    PowerOfTwoBound(n % 32);
    PowerOfTwo(n % 32)
  }

  function PowerOfTwo(n: nat): nat
  {
    if n == 0 then 1 else 2 * PowerOfTwo(n - 1)
  }

  lemma PowerOfTwoBound(n: nat)
    requires n < 32
    ensures PowerOfTwo(n) < 0x1_0000_0000
  {
    PowerValues();
    PowerGrows(n, 31);
  }

  lemma {:induction false} PowerGrows(m: nat, n: nat)
    requires m <= n
    ensures PowerOfTwo(m) <= PowerOfTwo(n)
  {
    if m < n {
      PowerGrows(m, n - 1);
    }
  }

  /** The geometry recorded in a boot sector; None when it is not the boot sector of such a volume. */
  method ReadBoot(boot: array<Byte>) returns (r: Option<Geometry>)
    requires boot.Length == SECTOR
    ensures r == BootGeometry(boot[..])
  {
    ghost var b := boot[..];
    PowValues();
    assert b[3..11] == boot[3..11] && b[0x1FE..0x200] == boot[0x1FE..0x200];
    var signature := LoadLe(boot, 0x1FE, 2);
    if signature != SIGNATURE || boot[3..11] != NAME {
      return None;
    }
    var bytesPerSector, sectorsPerCluster := Shift(boot[0x6C]), Shift(boot[0x6D]);
    assert b[0x50..0x54] == boot[0x50..0x54] && b[0x58..0x5C] == boot[0x58..0x5C];
    assert b[0x5C..0x60] == boot[0x5C..0x60] && b[0x60..0x64] == boot[0x60..0x64];
    var fat := LoadLe(boot, 0x50, 4);
    var heap := LoadLe(boot, 0x58, 4);
    var count := LoadLe(boot, 0x5C, 4);
    var root := LoadLe(boot, 0x60, 4);
    return Some(Geometry(bytesPerSector, sectorsPerCluster, Mul32(bytesPerSector, sectorsPerCluster), fat, heap, count,
                         root));
  }

  function BootGeometry(b: seq<Byte>): Option<Geometry>
    requires |b| == SECTOR
  {
    if Get16(b, 0x1FE) != SIGNATURE || b[3..11] != NAME then None
    else
      var bytesPerSector, sectorsPerCluster := Shift(b[0x6C]), Shift(b[0x6D]);
      Some(Geometry(bytesPerSector, sectorsPerCluster, Mul32(bytesPerSector, sectorsPerCluster),
                    Get32(b, 0x50), Get32(b, 0x58), Get32(b, 0x5C), Get32(b, 0x60)))
  }

  /** Mounting recovers the geometry the format computed. */
  lemma MountRecoversFormat(b: seq<Byte>, total: U32)
    requires |b| == SECTOR && BootOk(b, total)
    ensures BootGeometry(b) == Some(FormatGeometry(total))
  {
    hide HeapOffset, ClusterCount;
    PowerValues();
  }

  /** Reads the boot sector and works out the geometry. */
  method Mount(disk: Disk) returns (r: Option<Geometry>)
    requires disk.Valid()
    ensures r == if disk.sectors == 0 then None else BootGeometry(disk.data[..SECTOR])
  {
    hide BootGeometry;
    var sector := new Byte[SECTOR](_ => 0);
    var ok := disk.ReadSector(0, sector, 0);
    if !ok {
      return None;
    }
    assert sector[..] == disk.data[..SECTOR];
    r := ReadBoot(sector);
  }

  lemma PowerValues()
    ensures PowerOfTwo(3) == 8 && PowerOfTwo(9) == 512 && PowerOfTwo(31) == 0x8000_0000
  {
    assert PowerOfTwo(3) == 8;
    assert PowerOfTwo(6) == 64;
    assert PowerOfTwo(9) == 512;
    assert PowerOfTwo(12) == 0x1000;
    assert PowerOfTwo(15) == 0x8000;
    assert PowerOfTwo(18) == 0x4_0000;
    assert PowerOfTwo(21) == 0x20_0000;
    assert PowerOfTwo(24) == 0x100_0000;
    assert PowerOfTwo(27) == 0x800_0000;
    assert PowerOfTwo(30) == 0x4000_0000;
  }

  // ----- the freshly formatted volume

  /** The layout is sound and the volume, of at least one cluster, lies on the disk. */
  predicate Formattable(total: U32, sectors: nat)
  {
    total <= sectors <= 0x80_0000 && FAT_OFFSET < total && TableFits(total) && 1 <= ClusterCount(total)
  }

  lemma FormatFits(total: U32, sectors: nat)
    requires Formattable(total, sectors)
    ensures Fits(FormatGeometry(total), SECTOR * sectors) && HeapOffset(total) + 8 <= sectors
  {
  }

  /** The bytes of a formatted volume, given the three sectors written on a zeroed disk. */
  ghost predicate FreshBytes(d: seq<Byte>, total: U32, boot: seq<Byte>, fat: seq<Byte>, root: seq<Byte>)
  {
    && |boot| == |fat| == |root| == SECTOR
    && 0 < HeapOffset(total) && SECTOR * (HeapOffset(total) + 1) <= |d|
    && (forall k :: 0 <= k < SECTOR ==> d[k] == boot[k])
    && (forall k :: SECTOR * 24 <= k < SECTOR * 25 && k < SECTOR * HeapOffset(total) ==> d[k] == fat[k - SECTOR * 24])
    && (forall k :: SECTOR * 25 <= k < SECTOR * HeapOffset(total) ==> d[k] == 0)
    && (forall k :: SECTOR * HeapOffset(total) <= k < SECTOR * (HeapOffset(total) + 1) ==>
          d[k] == root[k - SECTOR * HeapOffset(total)])
    && (forall k :: SECTOR * (HeapOffset(total) + 1) <= k < |d| ==> d[k] == 0)
  }

  lemma FreshFat(d: seq<Byte>, total: U32, boot: seq<Byte>, fat: seq<Byte>, root: seq<Byte>, c: nat)
    requires FreshBytes(d, total, boot, fat, root) && FatSectorOk(fat)
    requires Fits(FormatGeometry(total), |d|) && c < ClusterCount(total) + 2
    ensures Get32(d, FatByte(FormatGeometry(total), c))
         == if c == 0 then 0xFFFF_FFF8 else if c <= 2 then END_OF_CHAIN else FREE
  {
    hide ClusterCount, HeapOffset;
    var at := FatByte(FormatGeometry(total), c);
    if c < 128 {
      assert at == SECTOR * 24 + 4 * c && at + 4 <= SECTOR * HeapOffset(total);
      assert d[at..at + 4] == fat[4 * c..4 * c + 4];
      assert Get32(d, at) == Get32(fat, 4 * c);
      assert c == 1 ==> Get32(fat, 4 * c) == Get32(fat, 4);
      assert c == 2 ==> Get32(fat, 4 * c) == Get32(fat, 8);
    } else {
      ZeroField(d, at);
    }
  }

  lemma FreshRoot(d: seq<Byte>, total: U32, boot: seq<Byte>, fat: seq<Byte>, root: seq<Byte>)
    requires FreshBytes(d, total, boot, fat, root) && RootSectorOk(root)
    requires Fits(FormatGeometry(total), |d|)
    ensures var rb := ClusterAt(d, FormatGeometry(total), ROOT);
            DirOk(rb, 2) && FileSlots(rb) == {}
  {
    hide ClusterCount, HeapOffset;
    var g := FormatGeometry(total);
    ClusterInside(g, |d|, ROOT);
    var rb := ClusterAt(d, g, ROOT);
    forall i | 0 <= i < SLOTS
      ensures TypeAt(rb, i) == if i == 0 then 0x83 else if i == 1 then 0x81 else TYPE_END
    {
      assert rb[SLOT * i] == d[SECTOR * HeapOffset(total) + SLOT * i];
      if i < 16 {
        assert rb[SLOT * i] == root[SLOT * i];
      }
    }
  }

  lemma FreshSpliced(d: seq<Byte>, total: U32, boot: seq<Byte>, fat: seq<Byte>, root: seq<Byte>)
    requires forall k :: 0 <= k < |d| ==> d[k] == 0
    requires |boot| == |fat| == |root| == SECTOR
    requires FAT_OFFSET < HeapOffset(total) && SECTOR * (HeapOffset(total) + 1) <= |d|
    ensures var d' := Splice(Splice(Splice(d, 0, boot), SECTOR * FAT_OFFSET, fat), SECTOR * HeapOffset(total), root);
            FreshBytes(d', total, boot, fat, root) && d'[..SECTOR] == boot
  {
  }

  /** A fresh volume satisfies the invariant of the file system: it holds no file, and every
      cluster but the root is free. */
  lemma FreshVolume(d: seq<Byte>, d': seq<Byte>, total: U32)
    requires forall k :: 0 <= k < |d| ==> d[k] == 0
    requires |d| % SECTOR == 0 && Formattable(total, |d| / SECTOR) && Formatted(d, d', total)
    ensures |d'| == |d| && Fits(FormatGeometry(total), |d'|) && BootOk(d'[..SECTOR], total)
    ensures var img := ImageOf(d', FormatGeometry(total));
            && Wf(img, map[], map[], 2) && Files(img, map[]) == map[]
            && FreeSet(img.fat) == Range(3, ClusterCount(total) + 2)
  {
    FormatFits(total, |d| / SECTOR);
    var boot: seq<Byte>, fat: seq<Byte>, root: seq<Byte> :| FormattedBy(d, d', total, boot, fat, root);
    FreshSpliced(d, total, boot, fat, root);
    FreshImage(d', total, boot, fat, root);
  }

  lemma FreshImage(d: seq<Byte>, total: U32, boot: seq<Byte>, fat: seq<Byte>, root: seq<Byte>)
    requires FreshBytes(d, total, boot, fat, root) && FatSectorOk(fat) && RootSectorOk(root)
    requires Fits(FormatGeometry(total), |d|)
    ensures var img := ImageOf(d, FormatGeometry(total));
            && Wf(img, map[], map[], 2) && Files(img, map[]) == map[]
            && FreeSet(img.fat) == Range(3, ClusterCount(total) + 2)
  {
    hide ClusterCount, HeapOffset, FatLength, FreshBytes, FatSectorOk, RootSectorOk, DirOk, FileSlots, SetAt;
    var g := FormatGeometry(total);
    var img := ImageOf(d, g);
    FreshRoot(d, total, boot, fat, root);
    forall c | 0 <= c < |img.fat|
      ensures img.fat[c] == if c == 0 then 0xFFFF_FFF8 else if c <= 2 then END_OF_CHAIN else FREE
    {
      FreshFat(d, total, boot, fat, root, c);
    }
    assert img.heap[ROOT] == ClusterAt(d, g, ROOT);
    assert FreeSet(img.fat) == Range(3, |img.fat|);
    EmptyVolume(img);
  }

  lemma EmptyVolume(img: Image)
    requires ImageShape(img) && DirOk(img.heap[ROOT], 2) && FileSlots(img.heap[ROOT]) == {}
    requires img.fat[ROOT] >= FIRST_END_MARK
    ensures Wf(img, map[], map[], 2) && Files(img, map[]) == map[]
  {
    hide DirOk, SetAt;
    NoNames(img.heap[ROOT]);
  }

  lemma NoNames(rb: seq<Byte>)
    requires |rb| == ROOT_BYTES && FileSlots(rb) == {}
    ensures Names(rb) == {}
  {
    forall i: nat | i < SLOTS
      ensures !SetAt(rb, i)
    {
      assert i !in FileSlots(rb);
    }
  }

  /** First boot: formats a zeroed disk, mounts it and yields an empty file system. */
  method FirstBoot(disk: Disk, total: U32) returns (fs: FileSystem.FileSystem)
    requires disk.Valid() && Formattable(total, disk.sectors)
    requires forall k :: 0 <= k < disk.data.Length ==> disk.data[k] == 0
    modifies disk.data
    ensures fresh(fs) && fs.vol.disk == disk && fs.Valid() && fs.Files() == map[]
    ensures |FreeSet(fs.vol.Img().fat)| == ClusterCount(total) - 1
  {
    hide HeapOffset, ClusterCount, BootGeometry, BootOk, Formatted, Wf, Files, FreeSet, ImageOf;
    ghost var d := disk.data[..];
    FormatFits(total, disk.sectors);
    FormatVolume(disk, total);
    FreshVolume(d, disk.data[..], total);
    MountRecoversFormat(disk.data[..SECTOR], total);
    var r := Mount(disk);
    assert disk.data[..][..SECTOR] == disk.data[..SECTOR];
    var vol := new Volume(disk, r.value);
    fs := new FileSystem.FileSystem(vol, 2);
  }
}
