/** Runs of file operations through a set of open files, against a map from name to contents. */
module Session {
  import opened Bytes
  import opened DiskIo
  import opened Layout
  import opened Directory
  import opened Chains
  import opened Contents
  import opened FileMap
  import opened FileSystem

  // ----- what a user of the file system sees

  /** An open file: its name, the position, and the size the handle takes the file to have. */
  datatype Handle = Handle(name: seq<Byte>, position: nat, size: nat)

  /** The files and how many clusters each has, the open files, how many slots of the root directory are used and how
      many clusters are free. */
  datatype State = State(files: map<seq<Byte>, seq<Byte>>, clusters: map<seq<Byte>, nat>, handles: seq<Option<Handle>>,
                         used: nat, free: nat)

  datatype Op =
    | Create(path: CString)
    | Mkdir(path: CString)
    | Open(h: nat, path: CString)
    | Close(h: nat)
    | Seek(h: nat, offset: U64)
    | Read(h: nat, size: U32)
    | Write(h: nat, data: seq<Byte>)

  /** An operation with the bytes it returned, if it is a read. */
  datatype Event = Event(op: Op, out: seq<Byte>)

  /** How long a file could get. */
  function RoomOf(a: State, name: seq<Byte>): nat
  {
    if name in a.clusters then CLUSTER * (a.clusters[name] + a.free) else 0
  }

  /** Handles exist, and the number of bytes to write fits 32 bits. */
  predicate Known(a: State, op: Op)
  {
    match op
    case Create(_) => true
    case Mkdir(_) => true
    case Open(h, _) => h < |a.handles|
    case Close(h) => h < |a.handles|
    case Seek(h, _) => h < |a.handles|
    case Read(h, _) => h < |a.handles|
    case Write(h, data) => h < |a.handles| && |data| < 0x1_0000_0000
  }

  /** A write goes to the position modulo 2^32. From 2^32 on it keeps the file system intact exactly if that cannot be
      reached. */
  predicate Near(a: State, w: Handle)
  {
    w.position < 0x1_0000_0000 || RoomOf(a, w.name) <= w.position % 0x1_0000_0000
  }

  /** A write at a position from 2^32 on. */
  predicate Far(a: State, op: Op)
    requires Known(a, op)
  {
    op.Write? && a.handles[op.h].Some? && 0x1_0000_0000 <= a.handles[op.h].value.position
  }

  /** The rules of use: handles exist, and writes keep the file system intact. A file may be open through any number of
      handles, and a handle may be opened again. */
  ghost predicate Allowed(a: State, op: Op)
  {
    Known(a, op) && (op.Write? && a.handles[op.h].Some? ==> Near(a, a.handles[op.h].value))
  }

  /** The state after an empty file was added; an older one of that name stays the one that is found. */
  function Added(a: State, name: seq<Byte>): State
    requires 0 < a.free
  {
    a.(files := if name in a.files then a.files else a.files[name := []],
       clusters := if name in a.files then a.clusters else a.clusters[name := 1],
       used := a.used + 2 + NameSlots(|name|), free := a.free - 1)
  }

  /** A name for which the root directory has room, slashes in it or not. */
  predicate FitsRoot(name: seq<Byte>, used: nat)
  {
    |name| <= 255 && used + 2 + NameSlots(|name|) <= SLOTS
  }

  /** What one operation may do to the state. */
  ghost predicate Step(a: State, e: Event, a': State)
    requires Allowed(a, e.op)
  {
    match e.op
    case Create(path) =>
      e.out == [] && a' == if Creatable(StripSlash(path), a.used) && 0 < a.free then Added(a, StripSlash(path)) else a
    case Mkdir(path) =>
      e.out == [] && a' == if FitsRoot(StripSlash(path), a.used) && 0 < a.free then Added(a, StripSlash(path)) else a
    case Open(h, path) =>
      var name := StripSlash(path);
      e.out == [] && a' == if name in a.files
                           then a.(handles := a.handles[h := Some(Handle(name, 0, |a.files[name]|))]) else a
    case Close(h) => e.out == [] && a' == a.(handles := a.handles[h := None])
    case Seek(h, offset) =>
      e.out == [] && a' == if a.handles[h].None? then a
                           else a.(handles := a.handles[h := Some(a.handles[h].value.(position := offset))])
    case Read(h, size) => ReadStep(a, h, size, e.out, a')
    case Write(h, data) => e.out == [] && WriteStep(a, h, data, a')
  }

  /** A read returns bytes from the position on, as many as asked or as the handle takes to be there, and moves past
      them. They are the bytes of the file, as far as it goes. */
  ghost predicate ReadStep(a: State, h: nat, size: nat, out: seq<Byte>, a': State)
    requires h < |a.handles|
  {
    match a.handles[h]
    case None => out == [] && a' == a
    case Some(Handle(name, p, cached)) =>
      && name in a.files && |out| == Available(cached, p, size) && ReadOut(a.files[name], p, out)
      && a' == a.(handles := a.handles[h := Some(Handle(name, p + |out|, cached))])
  }

  /** A write stores as much of the data as there is room for, takes the clusters that this needs, and moves past what
      it stored. Only the bytes between the old end of a file and a position beyond it are not determined. */
  ghost predicate WriteStep(a: State, h: nat, data: seq<Byte>, a': State)
    requires h < |a.handles|
  {
    match a.handles[h]
    case None => a' == a
    case Some(Handle(name, position, cached)) =>
      && name in a.files && name in a.clusters && |a.files[name]| <= RoomOf(a, name)
      && var p, room := position % 0x1_0000_0000, RoomOf(a, name);
         var n, k := Storable(room, p, |data|), Covering(a.clusters[name], a.free, p, |data|);
         && |a'.handles| == |a.handles| && a'.handles[h].Some?
         && a'.handles == a.handles[h := Some(Handle(name, position + n, a'.handles[h].value.size))]
         && a'.clusters == a.clusters[name := k] && a'.free + k == a.free + a.clusters[name] && a'.used == a.used
         && OnlyChanged(a.files, a'.files, name)
         && WrittenThrough(a.files[name], a'.files[name], room, cached, a'.handles[h].value.size, p, data[..n])
  }

  /** states[i + 1] follows from states[i] by events[i]. */
  ghost predicate Run(states: seq<State>, events: seq<Event>)
  {
    && |states| == |events| + 1
    && forall i {:trigger events[i]} :: 0 <= i < |events| ==>
         Allowed(states[i], events[i].op) && Step(states[i], events[i], states[i + 1])
  }

  lemma RunExtend(states: seq<State>, events: seq<Event>, e: Event, a: State)
    requires Run(states, events) && Allowed(states[|events|], e.op) && Step(states[|events|], e, a)
    ensures Run(states + [a], events + [e])
  {
    var ss, es := states + [a], events + [e];
    forall i | 0 <= i < |es|
      ensures Allowed(ss[i], es[i].op) && Step(ss[i], es[i], ss[i + 1])
    {
      if i < |events| {
        assert es[i] == events[i];
      }
    }
  }

  /** A slash in front of the name makes no difference to an operation. */
  lemma SlashOptional(a: State, a': State, name: CString, h: nat, out: seq<Byte>)
    requires name == [] || name[0] != SLASH
    ensures Step(a, Event(Op.Create([SLASH] + name), out), a') <==> Step(a, Event(Op.Create(name), out), a')
    ensures Step(a, Event(Op.Mkdir([SLASH] + name), out), a') <==> Step(a, Event(Op.Mkdir(name), out), a')
    ensures h < |a.handles| ==>
              (Step(a, Event(Op.Open(h, [SLASH] + name), out), a') <==> Step(a, Event(Op.Open(h, name), out), a'))
  {
    hide StripSlash, Creatable, FitsRoot;
    StripSlashIs(name);
  }

  /** A name is there after an attempt to create it exactly if it was there, or is a name that fits and a cluster was
      free. */
  lemma CreateIff(a: State, a': State, name: CString)
    requires (name == [] || name[0] != SLASH) && Step(a, Event(Op.Create(name), []), a')
    ensures name in a'.files <==>
            name in a.files
            || (SLASH !in name && |name| <= 255 && a.used <= 126 && |name| <= 15 * (126 - a.used) && 0 < a.free)
    ensures name in a'.files && name !in a.files ==> a'.files[name] == []
  {
    hide StripSlash, Creatable;
    StripSlashIs(name);
    CreatableIff(name, a.used);
  }

  // ----- what holds of every run

  /** The operation does not write byte j of the named file, nor cuts the file off before it. */
  ghost predicate Spares(a: State, op: Op, name: seq<Byte>, j: nat)
    requires Allowed(a, op)
  {
    op.Write? && a.handles[op.h].Some? && a.handles[op.h].value.name == name ==>
      var p, cached := a.handles[op.h].value.position % 0x1_0000_0000, a.handles[op.h].value.size;
      !(p <= j < p + |op.data|) && !(cached < p + |op.data| <= j)
  }

  lemma StepSpares(a: State, e: Event, a': State, name: seq<Byte>, j: nat)
    requires Allowed(a, e.op) && Step(a, e, a') && Spares(a, e.op, name, j)
    requires name in a.files && j < |a.files[name]|
    ensures name in a'.files && j < |a'.files[name]| && a'.files[name][j] == a.files[name][j]
  {
    hide Covering;
  }

  /** A byte keeps its value over any run in which nobody writes it or cuts the file off before it. */
  lemma {:induction false} ByteKept(states: seq<State>, events: seq<Event>, i: nat, k: nat, name: seq<Byte>, j: nat)
    requires Run(states, events) && i <= k <= |events|
    requires name in states[i].files && j < |states[i].files[name]|
    requires forall l :: i <= l < k ==> Spares(states[l], events[l].op, name, j)
    ensures name in states[k].files && j < |states[k].files[name]|
    ensures states[k].files[name][j] == states[i].files[name][j]
    decreases k
  {
    hide Step, Spares, Allowed;
    if i < k {
      ByteKept(states, events, i, k - 1, name, j);
      assert Spares(states[k - 1], events[k - 1].op, name, j) && Step(states[k - 1], events[k - 1], states[k - 1 + 1]);
      StepSpares(states[k - 1], events[k - 1], states[k], name, j);
    }
  }

  lemma StoredByte(a: State, e: Event, a': State, j: nat)
    requires Allowed(a, e.op) && Step(a, e, a') && e.op.Write? && a.handles[e.op.h].Some?
    requires var w := a.handles[e.op.h].value;
             && w.position % 0x1_0000_0000 <= j < w.position % 0x1_0000_0000 + |e.op.data|
             && w.name in a'.files && j < |a'.files[w.name]|
    ensures var w := a.handles[e.op.h].value; a'.files[w.name][j] == e.op.data[j - w.position % 0x1_0000_0000]
  {
    hide Covering;
  }

  lemma ReadByte(a: State, e: Event, a': State, j: nat)
    requires Allowed(a, e.op) && Step(a, e, a') && e.op.Read? && a.handles[e.op.h].Some?
    requires var r := a.handles[e.op.h].value;
             r.name in a.files && j < |a.files[r.name]| && r.position <= j < r.position + |e.out|
    ensures var r := a.handles[e.op.h].value; e.out[j - r.position] == a.files[r.name][j]
  {
    hide Available;
  }

  /** The bytes a write stored in the file are the bytes a later read returns, as long as nobody else wrote them or
      cut the file off before them in between: whatever handles are used, and whatever else was created, read or
      written meanwhile. */
  lemma ReadReturnsWritten(states: seq<State>, events: seq<Event>, i: nat, k: nat, j: nat)
    requires Run(states, events) && i < k < |events|
    requires events[i].op.Write? && events[k].op.Read?
    requires states[i].handles[events[i].op.h].Some? && states[k].handles[events[k].op.h].Some?
    requires var w, r := states[i].handles[events[i].op.h].value, states[k].handles[events[k].op.h].value;
             && w.name == r.name
             && w.position % 0x1_0000_0000 <= j < w.position % 0x1_0000_0000 + |events[i].op.data|
             && w.name in states[i + 1].files && j < |states[i + 1].files[w.name]|
             && r.position <= j < r.position + |events[k].out|
             && forall l :: i < l < k ==> Spares(states[l], events[l].op, w.name, j)
    ensures events[k].out[j - states[k].handles[events[k].op.h].value.position]
         == events[i].op.data[j - states[i].handles[events[i].op.h].value.position % 0x1_0000_0000]
  {
    hide Spares, Step, Covering;
    var w, r := states[i].handles[events[i].op.h].value, states[k].handles[events[k].op.h].value;
    assert Step(states[i], events[i], states[i + 1]) && Step(states[k], events[k], states[k + 1]);
    StoredByte(states[i], events[i], states[i + 1], j);
    ByteKept(states, events, i + 1, k, w.name, j);
    ReadByte(states[k], events[k], states[k + 1], j);
  }

  /** A write through a handle on the named file that takes it to end before the data would, although it ends later. */
  ghost predicate Cuts(a: State, op: Op, name: seq<Byte>)
    requires Allowed(a, op)
  {
    && op.Write? && a.handles[op.h].Some? && a.handles[op.h].value.name == name && name in a.files
    && var p, cached := a.handles[op.h].value.position % 0x1_0000_0000, a.handles[op.h].value.size;
       cached < p + |op.data| < |a.files[name]|
  }

  /** A file gets shorter exactly by such a write, and then it ends where the data ends. */
  lemma ShorterIff(a: State, e: Event, a': State, name: seq<Byte>)
    requires Allowed(a, e.op) && Step(a, e, a') && name in a.files
    ensures name in a'.files && (|a'.files[name]| < |a.files[name]| <==> Cuts(a, e.op, name))
    ensures Cuts(a, e.op, name) ==>
              |a'.files[name]| == a.handles[e.op.h].value.position % 0x1_0000_0000 + |e.op.data|
  {
    hide Covering, Overlaid;
    match e.op {
      case Write(h, data) =>
        if a.handles[h].Some? && a.handles[h].value.name == name {
          var w, room := a.handles[h].value, RoomOf(a, name);
          CutIff(a.files[name], a'.files[name], room, w.size, a'.handles[h].value.size, w.position % 0x1_0000_0000,
                 data);
        }
      case _ =>
    }
  }

  /** No operation removes a file, and none shortens one except by such a write. */
  lemma {:induction false} FilesStay(states: seq<State>, events: seq<Event>, i: nat, k: nat, name: seq<Byte>)
    requires Run(states, events) && i <= k <= |events| && name in states[i].files
    ensures name in states[k].files
    ensures (forall l :: i <= l < k ==> !Cuts(states[l], events[l].op, name)) ==>
              |states[i].files[name]| <= |states[k].files[name]|
    decreases k
  {
    hide Step, Cuts, Allowed;
    if i < k {
      FilesStay(states, events, i, k - 1, name);
      assert Step(states[k - 1], events[k - 1], states[k - 1 + 1]);
      ShorterIff(states[k - 1], events[k - 1], states[k - 1 + 1], name);
    }
  }

  /** Slots of the directory and clusters are never given back. */
  lemma {:induction false} SpaceShrinks(states: seq<State>, events: seq<Event>, i: nat, k: nat)
    requires Run(states, events) && i <= k <= |events|
    ensures states[i].used <= states[k].used && states[k].free <= states[i].free
    decreases k
  {
    hide OnlyChanged, WrittenThrough, ReadOut, Available, Needed;
    if i < k {
      SpaceShrinks(states, events, i, k - 1);
      assert Step(states[k - 1], events[k - 1], states[k - 1 + 1]);
    }
  }

  /** So if a cluster is free after a run, every write in it stored all its data. */
  lemma AllStored(states: seq<State>, events: seq<Event>, i: nat, k: nat)
    requires Run(states, events) && i < k <= |events| && 0 < states[k].free
    requires events[i].op.Write? && states[i].handles[events[i].op.h].Some?
    ensures events[i].op.h < |states[i + 1].handles| && states[i + 1].handles[events[i].op.h].Some?
    ensures states[i + 1].handles[events[i].op.h].value.position
         == states[i].handles[events[i].op.h].value.position + |events[i].op.data|
  {
    hide OnlyChanged, WrittenThrough, Step;
    SpaceShrinks(states, events, i + 1, k);
    assert Step(states[i], events[i], states[i + 1]);
    ShortIsFull(states[i], events[i], states[i + 1]);
  }

  /** A write that stores less than all of the data leaves no cluster free. */
  lemma ShortIsFull(a: State, e: Event, a': State)
    requires Allowed(a, e.op) && Step(a, e, a') && e.op.Write? && a.handles[e.op.h].Some? && 0 < a'.free
    ensures e.op.h < |a'.handles| && a'.handles[e.op.h].Some?
    ensures a'.handles[e.op.h].value.position == a.handles[e.op.h].value.position + |e.op.data|
  {
    hide OnlyChanged, WrittenThrough;
  }

  /** Every handle has the size of its file right. */
  ghost predicate Right(a: State)
  {
    forall h :: 0 <= h < |a.handles| && a.handles[h].Some? ==>
      a.handles[h].value.name in a.files && a.handles[h].value.size == |a.files[a.handles[h].value.name]|
  }

  /** No file is open through two handles. */
  ghost predicate OneEach(a: State)
  {
    forall h, g :: 0 <= h < g < |a.handles| && a.handles[h].Some? && a.handles[g].Some? ==>
      a.handles[h].value.name != a.handles[g].value.name
  }

  ghost predicate NoCut(a: State, op: Op)
    requires Allowed(a, op)
  {
    forall name :: !Cuts(a, op, name)
  }

  lemma StepRight(a: State, e: Event, a': State)
    requires Allowed(a, e.op) && Step(a, e, a') && Right(a) && OneEach(a)
    ensures Right(a') && NoCut(a, e.op)
  {
    hide Overlaid, Covering, ReadOut, Available;
  }

  /** As long as no file is open through two handles, every handle has the size right, and no file gets shorter. */
  lemma {:induction false} NeverCut(states: seq<State>, events: seq<Event>, k: nat)
    requires Run(states, events) && k <= |events| && Right(states[0])
    requires forall l :: 0 <= l < k ==> OneEach(states[l])
    ensures Right(states[k])
    ensures forall l {:trigger events[l]} :: 0 <= l < k ==> NoCut(states[l], events[l].op)
    decreases k
  {
    hide Right, OneEach, Step, NoCut, Allowed;
    if k > 0 {
      NeverCut(states, events, k - 1);
      assert OneEach(states[k - 1]) && Step(states[k - 1], events[k - 1], states[k - 1 + 1]);
      StepRight(states[k - 1], events[k - 1], states[k - 1 + 1]);
    }
  }

  /** Two handles on one new file: what is written through the first is cut off by a shorter write through the
      second. */
  lemma TwoHandles(states: seq<State>, events: seq<Event>, path: CString, d: seq<Byte>, e: seq<Byte>)
    requires Run(states, events) && 0 < |e| < |d| <= CLUSTER && 2 <= |states[0].handles|
    requires var name := StripSlash(path);
             name !in states[0].files && Creatable(name, states[0].used) && 0 < states[0].free
    requires |events| == 5 && events[0].op == Op.Create(path) && events[1].op == Op.Open(0, path)
    requires events[2].op == Op.Open(1, path) && events[3].op == Op.Write(0, d) && events[4].op == Op.Write(1, e)
    ensures StripSlash(path) in states[4].files && states[4].files[StripSlash(path)] == d
    ensures StripSlash(path) in states[5].files && states[5].files[StripSlash(path)] == e
  {
    hide StripSlash, Creatable, WriteStep;
    var name := StripSlash(path);
    assert Step(states[0], events[0], states[1]) && Step(states[1], events[1], states[2]);
    assert Step(states[2], events[2], states[3]);
    assert states[3].handles[0] == Some(Handle(name, 0, 0)) && states[3].handles[1] == Some(Handle(name, 0, 0));
    assert Step(states[3], events[3], states[4]);
    WriteAtStart(states[3], 0, name, d, states[4]);
    assert Step(states[4], events[4], states[5]);
    WriteAtStart(states[4], 1, name, e, states[5]);
  }

  /** Through a handle that takes the file to be empty, data of at most a cluster becomes all there is in the file. */
  lemma WriteAtStart(a: State, h: nat, name: seq<Byte>, d: seq<Byte>, a': State)
    requires h < |a.handles| && a.handles[h] == Some(Handle(name, 0, 0)) && WriteStep(a, h, d, a')
    requires 0 < |d| <= CLUSTER && name in a.clusters && a.clusters[name] == 1
    ensures name in a'.files && a'.files[name] == d && name in a'.clusters && a'.clusters[name] == 1
    ensures |a'.handles| == |a.handles|
    ensures forall g :: 0 <= g < |a.handles| && g != h ==> a'.handles[g] == a.handles[g]
  {
    assert d[..|d|] == d;
  }

  // ----- the file system keeps to it

  /** How many clusters the file of each name has. */
  ghost function Lengths(img: Image, chains: map<nat, Chain>): map<seq<Byte>, nat>
    requires ImageShape(img) && FilesOk(img, chains) && chains.Keys == FileSlots(img.heap[ROOT])
  {
    map name | name in Chains.Files(img, chains) :: LengthOf(img, chains, name)
  }

  ghost function LengthOf(img: Image, chains: map<nat, Chain>, name: seq<Byte>): nat
    requires ROOT < |img.heap| && |img.heap[ROOT]| == ROOT_BYTES
  {
    var r := Lookup(img.heap[ROOT], name);
    if r.Some? && r.value.slot in chains then |chains[r.value.slot]| else 0
  }

  /** A handle with this name, first cluster and size fits the volume. */
  ghost predicate AttachedTo(img: Image, chains: map<nat, Chain>, name: seq<Byte>, first: nat, size: nat)
  {
    && ROOT < |img.heap| && |img.heap[ROOT]| == ROOT_BYTES
    && var r := Lookup(img.heap[ROOT], name);
       r.Some? && first == r.value.first && r.value.slot in chains && size <= CLUSTER * |chains[r.value.slot]|
  }

  /** What a write says about the files alone. */
  lemma CarriedStep(img: Image, chains: map<nat, Chain>, img': Image, chains': map<nat, Chain>,
                    name: seq<Byte>, p: nat, data: seq<Byte>, written: nat, cached: nat, cached': nat)
    requires WriteCarried(img, chains, img', chains', name, p, data, written, cached, cached')
    ensures ImageShape(img) && FilesOk(img, chains) && chains.Keys == FileSlots(img.heap[ROOT])
    ensures ImageShape(img') && FilesOk(img', chains') && chains'.Keys == FileSlots(img'.heap[ROOT])
    ensures written <= |data| && name in Chains.Files(img, chains) && name in Chains.Files(img', chains')
    ensures OnlyChanged(Chains.Files(img, chains), Chains.Files(img', chains'), name)
    ensures var room := Room(img, chains, name);
            && written == Storable(room, p, |data|) && |Chains.Files(img, chains)[name]| <= room
            && WrittenThrough(Chains.Files(img, chains)[name], Chains.Files(img', chains')[name], room, cached, cached',
                              p, data[..written])
  {
    hide Chains.Files, FilesOk, FileSlots, WrittenThrough, OthersFound, Lookup, FreeSet, Room, ClustersTaken;
  }

  /** Different names have different slots. */
  lemma SlotsDiffer(img: Image, chains: map<nat, Chain>, owner: map<nat, (nat, nat)>, used: nat,
                    n: seq<Byte>, m: seq<Byte>)
    requires Wf(img, chains, owner, used) && n != m
    requires ROOT < |img.heap| && |img.heap[ROOT]| == ROOT_BYTES
    requires Lookup(img.heap[ROOT], n).Some? && Lookup(img.heap[ROOT], m).Some?
    ensures Lookup(img.heap[ROOT], n).value.slot != Lookup(img.heap[ROOT], m).value.slot
  {
    hide Wf, NameAt;
    FoundChain(img, chains, owner, used, n);
    FoundChain(img, chains, owner, used, m);
    FoundInChains(img, chains, owner, used, n);
    FoundInChains(img, chains, owner, used, m);
  }

  /** What a write says about the clusters. */
  lemma CarriedLengths(img: Image, chains: map<nat, Chain>, owner: map<nat, (nat, nat)>, used: nat,
                       img': Image, chains': map<nat, Chain>,
                       name: seq<Byte>, p: nat, data: seq<Byte>, written: nat, cached: nat, cached': nat)
    requires Wf(img, chains, owner, used)
    requires WriteCarried(img, chains, img', chains', name, p, data, written, cached, cached')
    ensures ImageShape(img) && FilesOk(img, chains) && chains.Keys == FileSlots(img.heap[ROOT])
    ensures ImageShape(img') && FilesOk(img', chains') && chains'.Keys == FileSlots(img'.heap[ROOT])
    ensures var len, free := LengthOf(img, chains, name), |FreeSet(img.fat)|;
            var k := Covering(len, free, p, |data|);
            && name in Lengths(img, chains) && Lengths(img, chains)[name] == len
            && Lengths(img', chains') == Lengths(img, chains)[name := k] && |FreeSet(img'.fat)| + k == free + len
  {
    hide Wf, Chains.Files, FilesOk, FileSlots, WrittenThrough, Lookup, FreeSet, Room, Covering;
    var files, files' := Chains.Files(img, chains), Chains.Files(img', chains');
    assert files'.Keys == files.Keys;
    forall n | n in files
      ensures n != name ==> LengthOf(img', chains', n) == LengthOf(img, chains, n)
    {
      FilesLookup(img, chains, n);
      if n != name {
        SlotsDiffer(img, chains, owner, used, n, name);
      }
    }
    assert Lengths(img', chains').Keys == Lengths(img, chains).Keys;
  }

  /** Creating a file uses up one cluster. */
  lemma OneUsed(img: Image, chains: map<nat, Chain>, used: nat, img': Image, chains': map<nat, Chain>, used': nat,
                name: seq<Byte>, c: U32)
    requires Created(img, chains, used, img', chains', used', name, c)
    ensures 0 < |FreeSet(img.fat)| && |FreeSet(img'.fat)| == |FreeSet(img.fat)| - 1
  {
    hide Chains.Files, Lookup, FilesOk, SetAt;
    assert c as nat in FreeSet(img.fat);
    assert FreeSet(img'.fat) == FreeSet(img.fat) - {c as nat};
  }

  /** What creating a file says about the clusters. */
  lemma CreatedLengths(img: Image, chains: map<nat, Chain>, used: nat, img': Image, chains': map<nat, Chain>,
                       used': nat, name: seq<Byte>, c: U32)
    requires Created(img, chains, used, img', chains', used', name, c)
    ensures Lengths(img', chains')
         == if name in Chains.Files(img, chains) then Lengths(img, chains) else Lengths(img, chains)[name := 1]
  {
    hide Chains.Files, FilesOk, FileSlots, Lookup, FreeSet, SetAt, SizeAt;
    var files, files' := Chains.Files(img, chains), Chains.Files(img', chains');
    forall n | n in files'
      ensures LengthOf(img', chains', n) == if n in files then LengthOf(img, chains, n) else 1
    {
      FilesLookup(img, chains, n);
      FilesLookup(img', chains', n);
      assert Lookup(img'.heap[ROOT], n) == LookupCreated(img.heap[ROOT], used, name, c, n);
    }
    assert Lengths(img', chains').Keys == files'.Keys && Lengths(img, chains).Keys == files.Keys;
  }

  class Session {
    const fs: FileSystem
    const files: seq<File>

    ghost predicate Valid()
      reads this, fs, fs.vol`geo, fs.vol.disk.data, files
    {
      && fs.Valid()
      && (forall i, j :: 0 <= i < j < |files| ==> files[i] != files[j])
      && (forall i :: 0 <= i < |files| ==> fs.Attached(files[i]))
    }

    ghost function Handles(): (r: seq<Option<Handle>>)
      reads this, files
      ensures |r| == |files|
    {
      seq(|files|, i requires 0 <= i < |files| reads files =>
        if files[i].isOpen then Some(Handle(files[i].name, files[i].position, files[i].fileSize)) else None)
    }

    ghost function Abs(): State
      reads this, fs, fs.vol`geo, fs.vol.disk.data, files
      requires Valid()
    {
      State(fs.Files(), Lengths(fs.vol.Img(), fs.chains), Handles(), fs.used, |FreeSet(fs.vol.Img().fat)|)
    }

    constructor (fs: FileSystem, n: nat)
      requires fs.Valid()
      ensures Valid() && this.fs == fs
      ensures Abs() == State(fs.Files(), Lengths(fs.vol.Img(), fs.chains), seq(n, _ => None), fs.used,
                             |FreeSet(fs.vol.Img().fat)|)
      ensures fresh(files)
    {
      var closed: seq<File> := [];
      while |closed| < n
        invariant |closed| <= n
        invariant forall i :: 0 <= i < |closed| ==> fresh(closed[i]) && !closed[i].isOpen
        invariant forall i, j :: 0 <= i < j < |closed| ==> closed[i] != closed[j]
      {
        var f := new File();
        closed := closed + [f];
      }
      this.fs := fs;
      this.files := closed;
    }

    method Write(h: nat, data: seq<Byte>)
      requires Valid() && Allowed(Abs(), Op.Write(h, data))
      modifies fs, files[h], fs.vol.disk.data
      ensures Valid() && Step(old(Abs()), Event(Op.Write(h, data), []), Abs())
    {
      hide Wf, ImageOf, Lookup, Chains.Files, OnlyChanged, WrittenThrough, FilesOk, Room, FreeSet, WriteCarried,
           WriteResult, WriteFar, FarResult, FarFits, Covering, ClustersTaken, Lengths, Storable, FileSlots, RoomOf;
      ghost var a, img, chains, owner, used := Abs(), fs.vol.Img(), fs.chains, fs.owner, fs.used;
      ghost var p, cached := files[h].position, files[h].fileSize;
      AllAttached();
      RoomIs(files[h].name);
      var _ := fs.Write(files[h], data);
      if files[h].isOpen {
        ghost var low: nat := p % 0x1_0000_0000;
        StillAttached(a, img, chains, low, data, files[h].position - p, cached, h);
        assert Handles() == a.handles[h := Some(Handle(files[h].name, files[h].position, files[h].fileSize))];
        CarriedStep(img, chains, fs.vol.Img(), fs.chains, files[h].name, low, data, files[h].position - p, cached,
                    files[h].fileSize);
        CarriedLengths(img, chains, owner, used, fs.vol.Img(), fs.chains, files[h].name, low, data,
                       files[h].position - p, cached, files[h].fileSize);
      } else {
        assert Handles() == a.handles;
      }
    }

    lemma RoomIs(name: seq<Byte>)
      requires Valid()
      ensures RoomOf(Abs(), name) == Room(fs.vol.Img(), fs.chains, name)
    {
      hide Wf, ImageOf, Lookup, Chains.Files, FreeSet;
      WfShape();
      FilesLookup(fs.vol.Img(), fs.chains, name);
    }

    lemma WfShape()
      requires fs.Valid()
      ensures var img, chains := fs.vol.Img(), fs.chains;
              ImageShape(img) && FilesOk(img, chains) && chains.Keys == FileSlots(img.heap[ROOT])
    {
    }

    /** The other handles stay attached after a write through handle h. */
    lemma StillAttached(a: State, img: Image, chains: map<nat, Chain>, p: nat, data: seq<Byte>, n: nat, cached: nat,
                        h: nat)
      requires fs.Valid() && h < |files| && files[h].isOpen
      requires WriteCarried(img, chains, fs.vol.Img(), fs.chains, files[h].name, p, data, n, cached, files[h].fileSize)
      requires fs.Attached(files[h])
      requires forall i :: 0 <= i < |files| && i != h && files[i].isOpen ==>
                 AttachedTo(img, chains, files[i].name, files[i].firstCluster, files[i].fileSize)
      ensures forall i :: 0 <= i < |files| ==> fs.Attached(files[i])
    {
      hide Wf, ImageOf, Lookup, WriteCarried;
      CarriedAttached(img, chains, fs.vol.Img(), fs.chains, files[h].name, p, data, n, cached, files[h].fileSize);
      forall i | 0 <= i < |files|
        ensures fs.Attached(files[i])
      {
        if i != h && files[i].isOpen {
          assert AttachedTo(img, chains, files[i].name, files[i].firstCluster, files[i].fileSize);
        }
      }
    }

    method Read(h: nat, size: U32) returns (out: seq<Byte>)
      requires Valid() && Allowed(Abs(), Op.Read(h, size))
      modifies files[h]
      ensures Valid() && Step(old(Abs()), Event(Op.Read(h, size), out), Abs())
    {
      hide Wf, ImageOf, Lookup, Chains.Files, FilesOk, Available, Room, FreeSet, ReadOut;
      ghost var a := Abs();
      out := Fetch(fs, files[h], size);
      assert Handles() == if a.handles[h].None? then a.handles
                          else a.handles[h := Some(Handle(files[h].name, files[h].position, files[h].fileSize))];
    }

    method Open(h: nat, path: CString)
      requires Valid() && Allowed(Abs(), Op.Open(h, path))
      modifies files[h]
      ensures Valid() && Step(old(Abs()), Event(Op.Open(h, path), []), Abs())
    {
      hide Wf, ImageOf, Lookup, Chains.Files, FilesOk, FreeSet;
      ghost var a := Abs();
      var r := fs.Open(path, files[h]);
      if r == 0 {
        fs.AgreesAttached(files[h]);
      }
      assert r != 0 ==> Handles() == a.handles;
      assert r == 0 ==> Handles() == a.handles[h := Some(Handle(StripSlash(path), 0, files[h].fileSize))];
    }

    method Close(h: nat)
      requires Valid() && Allowed(Abs(), Op.Close(h))
      modifies files[h]
      ensures Valid() && Step(old(Abs()), Event(Op.Close(h), []), Abs())
    {
      hide Wf, ImageOf, Lookup, Chains.Files, FilesOk, FreeSet;
      ghost var a := Abs();
      var _ := fs.Close(files[h]);
      assert Handles() == a.handles[h := None];
    }

    method Seek(h: nat, offset: U64)
      requires Valid() && Allowed(Abs(), Op.Seek(h, offset))
      modifies files[h]
      ensures Valid() && Step(old(Abs()), Event(Op.Seek(h, offset), []), Abs())
    {
      hide Wf, ImageOf, Lookup, Chains.Files, FilesOk, FreeSet;
      ghost var a := Abs();
      var _ := fs.Seek(files[h], offset);
      assert Handles() == if a.handles[h].None? then a.handles
                          else a.handles[h := Some(a.handles[h].value.(position := offset))];
    }

    /** What creating a file or a directory entry does to the session. */
    lemma AfterCreate(a: State, img: Image, chains: map<nat, Chain>, used: nat, name: seq<Byte>, c: U32)
      requires fs.Valid()
      requires Created(img, chains, used, fs.vol.Img(), fs.chains, fs.used, name, c)
      requires a == State(Chains.Files(img, chains), Lengths(img, chains), Handles(), used, |FreeSet(img.fat)|)
      requires forall i, j :: 0 <= i < j < |files| ==> files[i] != files[j]
      requires forall i :: 0 <= i < |files| && files[i].isOpen ==>
                 AttachedTo(img, chains, files[i].name, files[i].firstCluster, files[i].fileSize)
      ensures Valid() && 0 < a.free && Abs() == Added(a, name)
    {
      hide Wf, ImageOf, Lookup, Chains.Files, FilesOk;
      OneUsed(img, chains, used, fs.vol.Img(), fs.chains, fs.used, name, c);
      CreatedLengths(img, chains, used, fs.vol.Img(), fs.chains, fs.used, name, c);
      forall i | 0 <= i < |files|
        ensures fs.Attached(files[i])
      {
        if files[i].isOpen {
          assert AttachedTo(img, chains, files[i].name, files[i].firstCluster, files[i].fileSize);
          assert Lookup(fs.Root(), files[i].name) == LookupCreated(img.heap[ROOT], used, name, c, files[i].name);
        }
      }
    }

    method Create(path: CString)
      requires Valid()
      modifies fs, fs.vol.disk.data
      ensures Valid() && Step(old(Abs()), Event(Op.Create(path), []), Abs())
    {
      hide Wf, ImageOf, Lookup, Chains.Files, FilesOk, Created, FreeSet;
      ghost var a, img, chains, used := Abs(), fs.vol.Img(), fs.chains, fs.used;
      AllAttached();
      var r := fs.Create(path);
      if r == 0 {
        ghost var c :| Created(img, chains, used, fs.vol.Img(), fs.chains, fs.used, StripSlash(path), c);
        AfterCreate(a, img, chains, used, StripSlash(path), c);
      }
    }

    method Mkdir(path: CString)
      requires Valid()
      modifies fs, fs.vol.disk.data
      ensures Valid() && Step(old(Abs()), Event(Op.Mkdir(path), []), Abs())
    {
      hide Wf, ImageOf, Lookup, Chains.Files, FilesOk, Created, FreeSet;
      ghost var a, img, chains, used := Abs(), fs.vol.Img(), fs.chains, fs.used;
      AllAttached();
      var r := fs.Mkdir(path);
      if r == 0 {
        ghost var c :| Created(img, chains, used, fs.vol.Img(), fs.chains, fs.used, StripSlash(path), c);
        AfterCreate(a, img, chains, used, StripSlash(path), c);
      }
    }

    /** Whether the handles an operation names exist, and it does not write from position 2^32 on. */
    method Permitted(op: Op) returns (ok: bool)
      requires Valid()
      ensures ok == (Known(Abs(), op) && !Far(Abs(), op))
    {
      hide Wf, ImageOf, Chains.Files, Valid, Lookup, FreeSet;
      match op {
        case Create(_) => ok := true;
        case Mkdir(_) => ok := true;
        case Open(h, _) => ok := h < |files|;
        case Close(h) => ok := h < |files|;
        case Seek(h, _) => ok := h < |files|;
        case Read(h, _) => ok := h < |files|;
        case Write(h, data) =>
          ok := h < |files| && |data| < 0x1_0000_0000 && (files[h].isOpen ==> files[h].position < 0x1_0000_0000);
      }
    }

    /** Performs one admitted operation. */
    method Do(op: Op) returns (e: Event)
      requires Valid() && Allowed(Abs(), op)
      modifies fs, files, fs.vol.disk.data
      ensures Valid() && e.op == op && Step(old(Abs()), e, Abs())
    {
      hide Step, Wf, ImageOf, FreeSet;
      match op {
        case Create(path) => Create(path); e := Event(op, []);
        case Mkdir(path) => Mkdir(path); e := Event(op, []);
        case Open(h, path) => Open(h, path); e := Event(op, []);
        case Close(h) => Close(h); e := Event(op, []);
        case Seek(h, offset) => Seek(h, offset); e := Event(op, []);
        case Read(h, size) => var out := Read(h, size); e := Event(op, out);
        case Write(h, data) => Write(h, data); e := Event(op, []);
      }
    }

    /** Performs operations in order, up to the first that names a handle that does not exist or writes from position
        2^32 on. What the disk then holds is reached by a run of the map from names to contents. */
    method RunAll(ops: seq<Op>) returns (events: seq<Event>, ghost states: seq<State>)
      requires Valid()
      modifies fs, files, fs.vol.disk.data
      ensures Valid() && Run(states, events)
      ensures states[0] == old(Abs()) && states[|events|] == Abs()
      ensures |events| <= |ops| && forall i :: 0 <= i < |events| ==> events[i].op == ops[i]
      ensures |events| < |ops| ==> !Known(Abs(), ops[|events|]) || Far(Abs(), ops[|events|])
    {
      hide Step, Wf, ImageOf, Valid, FreeSet, Lookup, Chains.Files, RoomOf;
      events, states := [], [Abs()];
      while |events| < |ops|
        invariant Valid() && Run(states, events)
        invariant states[0] == old(Abs()) && states[|events|] == Abs()
        invariant |events| <= |ops| && forall i :: 0 <= i < |events| ==> events[i].op == ops[i]
      {
        var ok := Permitted(ops[|events|]);
        if !ok {
          return;
        }
        var e := Do(ops[|events|]);
        RunExtend(states, events, e, Abs());
        events, states := events + [e], states + [Abs()];
      }
    }

    lemma AllAttached()
      requires Valid()
      ensures ROOT < |fs.vol.Img().heap| && |fs.vol.Img().heap[ROOT]| == ROOT_BYTES
      ensures forall i :: 0 <= i < |files| && files[i].isOpen ==>
                AttachedTo(fs.vol.Img(), fs.chains, files[i].name, files[i].firstCluster, files[i].fileSize)
    {
      RootShape();
    }

    lemma RootShape()
      requires fs.Valid()
      ensures ROOT < |fs.vol.Img().heap| && |fs.vol.Img().heap[ROOT]| == ROOT_BYTES
    {
    }
  }
}
