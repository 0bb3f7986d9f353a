/** The file operations as the object layer uses them: whole small files, written from the start. */
module MetaFiles {
  import opened Bytes
  import opened DiskIo
  import opened Layout
  import opened Directory
  import opened Chains
  import opened Contents
  import opened FileMap
  import opened FileSystem

  type NameMap = map<seq<Byte>, seq<Byte>>

  /** How long a file can get before the volume is full. */
  ghost function RoomFor(fs: FileSystem, name: seq<Byte>): nat
    requires fs.Valid()
    reads fs, fs.vol`geo, fs.vol.disk.data
  {
    Room(fs.vol.Img(), fs.chains, name)
  }

  ghost function FreeClusters(fs: FileSystem): nat
    requires fs.Valid()
    reads fs, fs.vol`geo, fs.vol.disk.data
  {
    |FreeSet(fs.vol.Img().fat)|
  }

  /** A file of this name could be created now. */
  ghost predicate CanCreate(fs: FileSystem, name: CString)
    requires fs.Valid()
    reads fs, fs.vol`geo, fs.vol.disk.data
  {
    Creatable(name, fs.used) && 0 < FreeClusters(fs)
  }

  /** The files after `name` was created: a file of that name that exists already hides the new one. */
  function WithFile(files: NameMap, name: seq<Byte>): NameMap
  {
    if name in files then files else files[name := []]
  }

  /** The old contents with d stored over its first bytes. */
  function Overwritten(c: seq<Byte>, d: seq<Byte>): seq<Byte>
  {
    if |d| <= |c| then d + c[|d|..] else d
  }

  lemma CreatedRoom(img: Image, chains: map<nat, Chain>, used: nat,
                    img': Image, chains': map<nat, Chain>, used': nat, name: seq<Byte>, c: U32)
    requires Created(img, chains, used, img', chains', used', name, c)
    ensures |FreeSet(img'.fat)| == |FreeSet(img.fat)| - 1
    ensures Lookup(img'.heap[ROOT], name).Some?
    ensures Lookup(img.heap[ROOT], name).Some? ==> Room(img', chains', name) + CLUSTER == Room(img, chains, name)
    ensures Lookup(img.heap[ROOT], name).None? ==> Room(img', chains', name) == CLUSTER * |FreeSet(img.fat)|
    ensures CLUSTER <= Room(img', chains', name)
  {
    hide Chains.Files, Lookup;
    assert FreeSet(img'.fat) == FreeSet(img.fat) - {c as nat};
    assert c as nat in FreeSet(img.fat);
    assert Lookup(img'.heap[ROOT], name) == LookupCreated(img.heap[ROOT], used, name, c, name);
    FilesLookup(img, chains, name);
    FilesLookup(img', chains', name);
    var s := Lookup(img'.heap[ROOT], name).value.slot;
    assert ChainOk(img'.fat, chains'[s]);
  }

  /** Creates a file. */
  method CreateFile(fs: FileSystem, name: CString) returns (ok: bool)
    requires fs.Valid() && StripSlash(name) == name
    modifies fs, fs.vol.disk.data
    ensures fs.Valid() && ok == old(CanCreate(fs, name))
    ensures !ok ==>
              fs.Files() == old(fs.Files()) && fs.used == old(fs.used) && FreeClusters(fs) == old(FreeClusters(fs))
    ensures ok ==> fs.Files() == WithFile(old(fs.Files()), name) && CLUSTER <= RoomFor(fs, name)
    ensures ok ==> fs.used == old(fs.used) + 2 + NameSlots(|name|) && FreeClusters(fs) == old(FreeClusters(fs)) - 1
    ensures ok ==> RoomFor(fs, name) == if name in old(fs.Files()) then old(RoomFor(fs, name)) - CLUSTER
                                        else CLUSTER * old(FreeClusters(fs))
  {
    hide Wf, ImageOf, Lookup, Chains.Files, FilesOk, FreeSet, Room;
    ghost var img, chains, used, owner := fs.vol.Img(), fs.chains, fs.used, fs.owner;
    WfFiles(img, chains, owner, used, name);
    var created := fs.Create(name);
    if created != 0 {
      return false;
    }
    ghost var c :| Created(img, chains, used, fs.vol.Img(), fs.chains, fs.used, name, c);
    CreatedRoom(img, chains, used, fs.vol.Img(), fs.chains, fs.used, name, c);
    return true;
  }

  /** Creates a file and opens the first file of that name. */
  method CreateAndOpen(fs: FileSystem, name: CString) returns (r: Option<File>)
    requires fs.Valid() && StripSlash(name) == name
    modifies fs, fs.vol.disk.data
    ensures fs.Valid() && (r.Some? <==> old(CanCreate(fs, name)))
    ensures r.None? ==>
              fs.Files() == old(fs.Files()) && fs.used == old(fs.used) && FreeClusters(fs) == old(FreeClusters(fs))
    ensures r.Some? ==>
              fresh(r.value) && r.value.isOpen && r.value.name == name && r.value.position == 0 && fs.Agrees(r.value)
    ensures r.Some? ==> fs.Files() == WithFile(old(fs.Files()), name) && CLUSTER <= RoomFor(fs, name)
    ensures r.Some? ==> fs.used == old(fs.used) + 2 + NameSlots(|name|) && FreeClusters(fs) == old(FreeClusters(fs)) - 1
    ensures r.Some? ==> RoomFor(fs, name) == if name in old(fs.Files()) then old(RoomFor(fs, name)) - CLUSTER
                                             else CLUSTER * old(FreeClusters(fs))
  {
    hide Wf, ImageOf, Lookup, Chains.Files, FilesOk, FreeSet, Room;
    var created := CreateFile(fs, name);
    if !created {
      return None;
    }
    var f := new File();
    var _ := fs.Open(name, f);
    return Some(f);
  }

  /** Writes at the position of an open file; everything is stored if there is room, and otherwise a part. */
  method Store(fs: FileSystem, f: File, data: seq<Byte>) returns (r: int)
    requires fs.Valid() && fs.Agrees(f) && f.isOpen
    requires f.position < 0x1_0000_0000 && |data| < 0x1_0000_0000
    modifies fs, f, fs.vol.disk.data
    ensures fs.Valid() && fs.Agrees(f) && f.isOpen && f.name == old(f.name) && fs.used == old(fs.used)
    ensures f.name in old(fs.Files()) && f.name in fs.Files() && OnlyChanged(old(fs.Files()), fs.Files(), f.name)
    ensures RoomFor(fs, f.name) == old(RoomFor(fs, f.name))
    ensures old(f.position) <= f.position <= old(f.position) + |data| && r == AsInt(f.position - old(f.position))
    ensures f.position == old(f.position) + Storable(RoomFor(fs, f.name), old(f.position), |data|)
    ensures WriteEffect(old(fs.Files())[f.name], fs.Files()[f.name], old(f.position),
                        data[..f.position - old(f.position)])
  {
    hide Wf, ImageOf, Lookup, Chains.Files, FilesOk, FreeSet, Room, WriteCarried, WriteFar, FarResult, FarFits,
         Storable;
    fs.AgreesAttached(f);
    r := fs.Write(f, data);
  }

  /** Opens a file, reads up to `size` bytes from its start and closes it. */
  method FetchFirst(fs: FileSystem, name: CString, size: U32) returns (r: Option<seq<Byte>>)
    requires fs.Valid() && StripSlash(name) == name
    ensures r.Some? <==> name in fs.Files()
    ensures r.Some? ==> |r.value| == Available(|fs.Files()[name]|, 0, size) && r.value == fs.Files()[name][..|r.value|]
  {
    hide Wf, ImageOf, Lookup, Chains.Files, FilesOk, FreeSet, DirOk, Room;
    var f := new File();
    var found := fs.Open(name, f);
    if found < 0 {
      return None;
    }
    var out := FetchRight(fs, f, size);
    var closed := fs.Close(f);
    return Some(out);
  }

  /** A file lies in its own clusters, so its bytes and the free clusters are within its room. */
  lemma FileWithinRoom(fs: FileSystem, name: seq<Byte>)
    requires fs.Valid() && name in fs.Files()
    ensures |fs.Files()[name]| + CLUSTER * FreeClusters(fs) <= RoomFor(fs, name)
  {
    hide Wf, ImageOf, Lookup, Chains.Files, FilesOk, FreeSet, DirOk, SetAt;
    WfRoot(fs.vol.Img(), fs.chains, fs.owner, fs.used);
    WfFiles(fs.vol.Img(), fs.chains, fs.owner, fs.used, name);
    FoundChain(fs.vol.Img(), fs.chains, fs.owner, fs.used, name);
  }
}
