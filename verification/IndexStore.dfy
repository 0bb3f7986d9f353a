/** Keeping the object index in a file. */
module IndexStore {
  import opened Bytes
  import opened Layout
  import opened Directory
  import opened Chains
  import opened Contents
  import opened FileMap
  import opened FileSystem
  import opened MetaFiles
  import opened Hex
  import opened ObjectIndex

  const DB_MAGIC: U32 := 0x4D44_4220
  const HEADER := 24
  const ENTRY := 192

  /** ".kernel.objects.db" */
  const INDEX_FILE: CString :=
    [0x2E, 0x6B, 0x65, 0x72, 0x6E, 0x65, 0x6C, 0x2E, 0x6F, 0x62, 0x6A, 0x65, 0x63, 0x74, 0x73, 0x2E, 0x64, 0x62]

  // ----- entries and the header as bytes

  /** An entry as it lies in memory, with four bytes of padding after the type and after the extension. */
  function Encoded(e: Entry): (s: seq<Byte>)
    ensures |s| == ENTRY
  {
    LeBytes(e.id.high, 8) + LeBytes(e.id.low, 8) + LeBytes(e.kind, 4) + LeBytes(0, 4)
    + LeBytes(e.dataOffset, 8) + LeBytes(e.metaOffset, 8) + LeBytes(e.checksum, 4)
    + e.name + e.view + e.extension + LeBytes(0, 4)
  }

  function Decoded(s: seq<Byte>): Entry
    requires |s| == ENTRY
  {
    Entry(ObjectId(Get64(s, 0), Get64(s, 8)), Get32(s, 16), Get64(s, 24), Get64(s, 32), Get32(s, 40),
          s[44..108], s[108..172], s[172..188])
  }

  lemma DecodedEncoded(e: Entry)
    ensures Decoded(Encoded(e)) == e
  {
    var s := Encoded(e);
    PowValues();
    LeRoundTrip(e.id.high, 8);
    LeRoundTrip(e.id.low, 8);
    LeRoundTrip(e.kind, 4);
    LeRoundTrip(e.dataOffset, 8);
    LeRoundTrip(e.metaOffset, 8);
    LeRoundTrip(e.checksum, 4);
    EncodedFields(e);
  }

  /** The place of every field. */
  lemma EncodedFields(e: Entry)
    ensures var s := Encoded(e);
            && s[0..8] == LeBytes(e.id.high, 8) && s[8..16] == LeBytes(e.id.low, 8) && s[16..20] == LeBytes(e.kind, 4)
            && s[24..32] == LeBytes(e.dataOffset, 8) && s[32..40] == LeBytes(e.metaOffset, 8)
            && s[40..44] == LeBytes(e.checksum, 4)
            && s[44..108] == e.name && s[108..172] == e.view && s[172..188] == e.extension
  {
    hide LeBytes;
  }

  function Header(count: U32, views: U32): (s: seq<Byte>)
    ensures |s| == HEADER
  {
    LeBytes(DB_MAGIC, 4) + LeBytes(1, 4) + LeBytes(count, 4) + LeBytes(views, 4) + LeBytes(0, 8)
  }

  /** Magic number, version 1, the numbers of objects and views, and no time of the last save. */
  lemma HeaderFields(count: U32, views: U32)
    ensures Get32(Header(count, views), 0) == DB_MAGIC && Get32(Header(count, views), 4) == 1
    ensures Get32(Header(count, views), 8) == count && Get32(Header(count, views), 12) == views
    ensures Get64(Header(count, views), 16) == 0
  {
    hide LeBytes, LeVal;
    var s := Header(count, views);
    PowValues();
    LeRoundTrip(DB_MAGIC, 4);
    LeRoundTrip(count, 4);
    LeRoundTrip(views, 4);
    LeRoundTrip(1, 4);
    LeRoundTrip(0, 8);
    assert s[0..4] == LeBytes(DB_MAGIC, 4) && s[4..8] == LeBytes(1, 4) && s[8..12] == LeBytes(count, 4);
    assert s[12..16] == LeBytes(views, 4);
    assert s[16..24] == s[16..] == LeBytes(0, 8);
  }

  function EncodedAll(s: seq<Entry>): (b: seq<Byte>)
    ensures |b| == ENTRY * |s|
  {
    if s == [] then [] else EncodedAll(s[..|s| - 1]) + Encoded(s[|s| - 1])
  }

  /** The bytes saved for an index. */
  function Saved(s: seq<Entry>, views: U32): (b: seq<Byte>)
    requires |s| < 0x1_0000_0000
    ensures |b| == HEADER + ENTRY * |s|
  {
    Header(|s|, views) + EncodedAll(s)
  }

  lemma {:induction false} EntryAt(s: seq<Entry>, i: nat)
    requires i < |s|
    ensures EncodedAll(s)[ENTRY * i..ENTRY * i + ENTRY] == Encoded(s[i])
  {
    hide Encoded;
    var n := |s| - 1;
    var b := EncodedAll(s[..n]);
    if i < n {
      EntryAt(s[..n], i);
      assert EncodedAll(s)[..|b|] == b;
      assert EncodedAll(s)[ENTRY * i..ENTRY * i + ENTRY] == b[ENTRY * i..ENTRY * i + ENTRY];
    }
  }

  // ----- loading

  /** The file holds an index: a whole header with the right magic number. */
  predicate HasIndex(c: seq<Byte>)
  {
    |c| >= HEADER && Get32(c, 0) == DB_MAGIC
  }

  /** The number of entries the header announces. */
  function Announced(c: seq<Byte>): U32
    requires HasIndex(c)
  {
    Get32(c, 8)
  }

  /** How much of n bytes fits. */
  function Fitting(n: nat, room: nat): nat
  {
    if n <= room then n else room
  }

  /** Slot e after entry i was read into it: what the file lacks of the entry stays as it was. */
  function ReadOver(e: Entry, c: seq<Byte>, i: nat): Entry
  {
    Decoded(Splice(Encoded(e), 0, c[Fitting(HEADER + ENTRY * i, |c|)..Fitting(HEADER + ENTRY * i + ENTRY, |c|)]))
  }

  /** The largest low half of the identifiers. */
  function MaxLow(s: seq<Entry>): (m: U64)
  {
    if s == [] then 0
    else
      var m, low := MaxLow(s[..|s| - 1]), s[|s| - 1].id.low;
      if low > m then low else m
  }

  /** The index after loading a file. */
  function Loaded(slots: seq<Entry>, c: seq<Byte>): (st: State)
    requires |slots| == MAX_OBJECTS && HasIndex(c) && Announced(c) <= MAX_OBJECTS
    ensures st.Shape()
  {
    var n := Announced(c);
    var slots' := seq(MAX_OBJECTS, i requires 0 <= i < MAX_OBJECTS =>
      if i < n then ReadOver(slots[i], c, i) else slots[i]);
    State(slots', n, MaxLow(slots'[..n]))
  }

  lemma {:induction false} MaxLowBound(s: seq<Entry>, i: nat)
    requires i < |s|
    ensures s[i].id.low <= MaxLow(s)
  {
    if i < |s| - 1 {
      MaxLowBound(s[..|s| - 1], i);
    }
  }

  /** In an index in order the largest identifier is the last. */
  lemma MaxLowLast(s: seq<Entry>, last: U64)
    requires Ordered(s, last)
    ensures MaxLow(s) == (if s == [] then 0 else s[|s| - 1].id.low) <= last
    ensures Ordered(s, MaxLow(s))
  {
    if |s| > 1 {
      MaxLowLast(s[..|s| - 1], last);
    }
  }

  /** Loading a file that begins with what was saved gives the saved entries back, in order, whatever follows
      and whatever the table held; and identifiers go on after the largest. */
  lemma LoadsSaved(slots: seq<Entry>, c: seq<Byte>, st: State, views: U32)
    requires |slots| == MAX_OBJECTS && st.Shape() && Saved(st.Live(), views) <= c
    ensures HasIndex(c) && Announced(c) == st.count && Get32(c, 12) == views
    ensures Loaded(slots, c).Live() == st.Live() && Loaded(slots, c).last == MaxLow(st.Live())
    ensures st.Valid() && (forall i :: 0 <= i < MAX_OBJECTS ==> Terminated(slots[i])) ==> Loaded(slots, c).Valid()
    ensures st.Valid() ==> MaxLow(st.Live()) == (if st.count == 0 then 0 else st.Live()[st.count - 1].id.low) <= st.last
  {
    hide Header, EncodedAll, Encoded, Decoded, Get32, Terminated, Ordered;
    var s, b := st.Live(), Saved(st.Live(), views);
    HeaderFields(|s|, views);
    HeaderIn(c, |s|, views);
    var st' := Loaded(slots, c);
    forall i | 0 <= i < st.count
      ensures st'.slots[i] == s[i]
    {
      EntryAt(s, i);
      DecodedEncoded(s[i]);
      var lo := HEADER + ENTRY * i;
      assert c[lo..lo + ENTRY] == b[lo..lo + ENTRY] == EncodedAll(s)[ENTRY * i..ENTRY * i + ENTRY];
      assert Splice(Encoded(slots[i]), 0, c[lo..lo + ENTRY]) == c[lo..lo + ENTRY];
    }
    assert st'.Live() == s;
    if Ordered(s, st.last) {
      MaxLowLast(s, st.last);
    }
  }

  /** Whatever terminated table it is loaded over, the file yields a valid index. */
  ghost predicate Safe(c: seq<Byte>)
    requires HasIndex(c) && Announced(c) <= MAX_OBJECTS
  {
    forall slots: seq<Entry> :: |slots| == MAX_OBJECTS && AllTerminated(slots) ==> Loaded(slots, c).Valid()
  }

  predicate AllTerminated(slots: seq<Entry>)
  {
    forall i :: 0 <= i < |slots| ==> Terminated(slots[i])
  }

  /** An entry of which the identifier and possibly more was in the file keeps its identifier, and ends in NULs. */
  lemma CutEntry(e: Entry, was: Entry, n: nat)
    requires 16 <= n <= ENTRY && Terminated(e) && Terminated(was)
    ensures var r := Decoded(Splice(Encoded(was), 0, Encoded(e)[..n])); r.id == e.id && Terminated(r)
  {
    hide LeBytes, Get64, Get32;
    var a, b := Encoded(was), Encoded(e);
    var s := Splice(a, 0, b[..n]);
    DecodedEncoded(e);
    assert s[0..8] == b[0..8] && s[8..16] == b[8..16];
    Get64Same(s, b, 0);
    Get64Same(s, b, 8);
    assert a[107] == was.name[63] && a[171] == was.view[63] && a[187] == was.extension[15];
    assert b[107] == e.name[63] && b[171] == e.view[63] && b[187] == e.extension[15];
  }

  /** A file cut at a multiple of the cluster size is never cut inside an identifier. */
  lemma CutPlace(stored: nat)
    requires stored % CLUSTER == 0 && HEADER <= stored
    ensures 16 <= (stored - HEADER) % ENTRY
  {
    var k := stored / CLUSTER;
    var q, r := k / 3, k % 3;
    assert stored == 12288 * q + 4096 * r;
    assert stored - HEADER == ENTRY * (64 * q + 21 * r - 1) + 64 * r + 168;
  }

  /** What is loaded over the entries of a file that was cut after `stored` bytes: those before the cut, and at the cut
      and behind it what the table had. */
  lemma CutSlots(slots: seq<Entry>, st: State, views: U32, stored: nat, i: nat)
    requires |slots| == MAX_OBJECTS && st.Shape() && HEADER <= stored <= |Saved(st.Live(), views)| && i < st.count
    ensures var r := ReadOver(slots[i], Saved(st.Live(), views)[..stored], i);
            && (HEADER + ENTRY * (i + 1) <= stored ==> r == st.slots[i])
            && (stored <= HEADER + ENTRY * i ==> r == slots[i])
            && (HEADER + ENTRY * i < stored < HEADER + ENTRY * (i + 1) ==>
                  r == Decoded(Splice(Encoded(slots[i]), 0, Encoded(st.slots[i])[..stored - HEADER - ENTRY * i])))
  {
    hide Header, EncodedAll, Encoded, Decoded;
    var b := Saved(st.Live(), views);
    var c, lo := b[..stored], HEADER + ENTRY * i;
    EntryIn(st.Live(), views, i);
    assert st.Live()[i] == st.slots[i] && b[lo..lo + ENTRY] == Encoded(st.slots[i]);
    if lo + ENTRY <= stored {
      assert c[lo..lo + ENTRY] == b[lo..lo + ENTRY];
      assert Splice(Encoded(slots[i]), 0, c[lo..lo + ENTRY]) == Encoded(st.slots[i]);
      DecodedEncoded(st.slots[i]);
    } else if stored <= lo {
      assert c[Fitting(lo, |c|)..Fitting(lo + ENTRY, |c|)] == [];
      assert Splice(Encoded(slots[i]), 0, []) == Encoded(slots[i]);
      DecodedEncoded(slots[i]);
    } else {
      assert b[lo..lo + ENTRY][..stored - lo] == b[lo..stored];
      assert c[lo..stored] == b[lo..stored];
    }
  }

  /** What the header of a cut file says. */
  lemma CutHeader(st: State, views: U32, stored: nat)
    requires st.Shape() && HEADER <= stored <= |Saved(st.Live(), views)|
    ensures var c := Saved(st.Live(), views)[..stored]; HasIndex(c) && Announced(c) == st.count
  {
    hide Header, EncodedAll, Get32;
    var b := Saved(st.Live(), views);
    assert b[..stored][..HEADER] == b[..HEADER] == Header(st.count, views);
    HeaderFields(st.count, views);
    HeaderIn(b[..stored], st.count, views);
  }

  /** A file that was cut is safe exactly if the cut is in the last entry. */
  lemma CutSafeIff(st: State, views: U32, stored: nat)
    requires st.Valid() && HEADER <= stored < |Saved(st.Live(), views)| && stored % CLUSTER == 0
    ensures var c := Saved(st.Live(), views)[..stored];
            && HasIndex(c) && Announced(c) == st.count
            && (Safe(c) <==> HEADER + ENTRY * (st.count - 1) < stored)
  {
    hide Terminated, Saved, ReadOver, HasIndex, Announced, Unused;
    var c := Saved(st.Live(), views)[..stored];
    CutHeader(st, views, stored);
    if HEADER + ENTRY * (st.count - 1) < stored {
      forall slots: seq<Entry> | |slots| == MAX_OBJECTS && AllTerminated(slots)
        ensures Loaded(slots, c).Valid()
      {
        CutValid(slots, st, views, stored);
      }
    } else {
      CutInvalid(st, views, stored);
    }
  }

  lemma CutInvalid(st: State, views: U32, stored: nat)
    requires st.Valid() && HEADER <= stored <= HEADER + ENTRY * (st.count - 1)
    requires stored <= |Saved(st.Live(), views)|
    ensures var c := Saved(st.Live(), views)[..stored];
            HasIndex(c) && Announced(c) == st.count && !Safe(c)
  {
    hide Terminated, Saved, ReadOver, HasIndex, Announced, Unused;
    var c, slots := Saved(st.Live(), views)[..stored], seq(MAX_OBJECTS, _ => Unused());
    CutHeader(st, views, stored);
    UnusedTerminated();
    CutSlots(slots, st, views, stored, st.count - 1);
    UnusedInvalid(Loaded(slots, c));
    assert AllTerminated(slots);
  }

  lemma UnusedTerminated()
    ensures Terminated(Unused()) && Unused().id.low == 0
  {
  }

  lemma UnusedInvalid(st: State)
    requires st.Shape() && 0 < st.count && st.slots[st.count - 1] == Unused()
    ensures !st.Valid()
  {
    assert st.Live()[st.count - 1].id.low == 0;
  }

  lemma CutValid(slots: seq<Entry>, st: State, views: U32, stored: nat)
    requires |slots| == MAX_OBJECTS && AllTerminated(slots) && st.Valid()
    requires HEADER <= stored < |Saved(st.Live(), views)| && stored % CLUSTER == 0
    requires HEADER + ENTRY * (st.count - 1) < stored
    ensures var c := Saved(st.Live(), views)[..stored];
            HasIndex(c) && Announced(c) == st.count && Loaded(slots, c).Valid()
  {
    hide Terminated, Saved, ReadOver, HasIndex, Announced, Ordered, Encoded, Decoded, Splice;
    var c, n := Saved(st.Live(), views)[..stored], st.count - 1;
    CutHeader(st, views, stored);
    CutPlace(stored);
    assert (stored - HEADER) % ENTRY == stored - HEADER - ENTRY * n;
    var st' := Loaded(slots, c);
    forall i | 0 <= i < st.count
      ensures st'.slots[i].id == st.slots[i].id && Terminated(st'.slots[i])
    {
      CutSlots(slots, st, views, stored, i);
      if i == n {
        CutEntry(st.slots[i], slots[i], stored - HEADER - ENTRY * n);
      }
    }
    SameIds(st.Live(), st'.Live(), st.last);
    MaxLowLast(st'.Live(), st.last);
  }

  lemma SameIds(s: seq<Entry>, s': seq<Entry>, last: U64)
    requires |s'| == |s| && (forall i :: 0 <= i < |s| ==> s'[i].id == s[i].id) && Ordered(s, last)
    ensures Ordered(s', last)
  {
  }

  /** A file that starts with a whole saved index is safe. */
  lemma SavedSafe(st: State, views: U32, c: seq<Byte>)
    requires st.Valid() && Saved(st.Live(), views) <= c
    ensures HasIndex(c) && Announced(c) == st.count && Safe(c)
  {
    hide Saved, Loaded, HasIndex, Announced, Ordered, Terminated, Get32;
    LoadsSaved(seq(MAX_OBJECTS, _ => Unused()), c, st, views);
    forall slots: seq<Entry> | |slots| == MAX_OBJECTS && AllTerminated(slots)
      ensures Loaded(slots, c).Valid()
    {
      LoadsSaved(slots, c, st, views);
    }
  }

  lemma HeaderIn(c: seq<Byte>, count: U32, views: U32)
    requires Header(count, views) <= c
    ensures Get32(c, 0) == Get32(Header(count, views), 0)
    ensures Get32(c, 8) == Get32(Header(count, views), 8)
    ensures Get32(c, 12) == Get32(Header(count, views), 12)
  {
    hide Header;
    var h := Header(count, views);
    assert c[..HEADER] == h;
    assert c[0..4] == h[0..4] && c[8..12] == h[8..12] && c[12..16] == h[12..16];
  }

  /** After a load the next identifier exceeds every live one; it is one that was drawn before exactly if a create came
      after the one of the last live object. */
  lemma NextAfterLoad(st: State)
    requires st.Valid()
    ensures var next := MaxLow(st.Live()) + 1;
            && (forall e :: e in st.Live() ==> e.id.low < next)
            && (next <= st.last <==> !(st.last == 0 || (st.count > 0 && st.Live()[st.count - 1].id.low == st.last)))
  {
    var s := st.Live();
    MaxLowLast(s, st.last);
    forall e | e in s
      ensures e.id.low <= MaxLow(s)
    {
      var i :| 0 <= i < |s| && s[i] == e;
      MaxLowBound(s, i);
    }
  }

  lemma LastNext(st: State)
    requires st.Valid()
    ensures MaxLow(st.Live()) <= st.last
  {
    MaxLowLast(st.Live(), st.last);
  }

  /** The identifier given out next after a load was given out before in the run that led to the save exactly if the
      first create after that of the last live object found room in the table: that object has been deleted since. */
  lemma NextIssuedIff(states: seq<State>, ops: seq<Op>)
    requires Run(states, ops) && states[0].last + Creates(ops) < U64_MAX
    ensures states[|ops|].Valid()
    ensures var m := MaxLow(states[|ops|].Live());
            && m <= states[|ops|].last
            && (GivenOut(states, ops, NextId(m)) <==>
                states[0].last <= m && var j := NthCreate(ops, m - states[0].last);
                                       j.Some? && states[j.value].count < MAX_OBJECTS)
  {
    hide GivenOut, NthCreate, Creates, Apply, Ordered, Terminated, MaxLow;
    RunValid(states, ops);
    LastNext(states[|ops|]);
    IssuedIff(states, ops, MaxLow(states[|ops|].Live()) + 1);
  }

  /** A create that finds no room uses up an identifier that no object ever had, and a load lets it be drawn again. */
  lemma RefusedDrawnAgain(st: State, kind: U32)
    requires st.Valid() && st.count == MAX_OBJECTS && st.last < U64_MAX && st.Live()[MAX_OBJECTS - 1].id.low == st.last
    ensures Issued(st, Op.Create(kind)) == NULL_ID
    ensures var st' := Apply(st, Op.Create(kind));
            st'.Valid() && st'.Live() == st.Live() && MaxLow(st'.Live()) + 1 == st'.last
  {
    hide Ordered, Terminated, Apply;
    ApplyValid(st, Op.Create(kind));
    MaxLowLast(st.Live(), st.last);
    FullCreate(st, kind);
  }

  lemma FullCreate(st: State, kind: U32)
    requires st.Shape() && st.count == MAX_OBJECTS && st.last < U64_MAX
    ensures Apply(st, Op.Create(kind)) == st.(last := st.last + 1)
  {
  }

  // ----- runs of saves

  /** The files after the index was saved completely. */
  function WithIndex(files: NameMap, s: seq<Entry>, views: U32): NameMap
    requires |s| < 0x1_0000_0000
  {
    files[INDEX_FILE := Overwritten(if INDEX_FILE in files then files[INDEX_FILE] else [], Saved(s, views))]
  }

  /** A step in the life of the volume: a save of which the first `stored` bytes found room, or anything that leaves
      the index file alone. */
  datatype SaveStep = Saving(st: State, views: U32, stored: nat) | Elsewhere

  ghost predicate SaveStepOk(files: NameMap, step: SaveStep, files': NameMap)
  {
    match step
    case Saving(st, views, stored) =>
      st.Shape() && stored <= |Saved(st.Live(), views)| && files' == WithPart(files, Saved(st.Live(), views)[..stored])
    case Elsewhere =>
      (INDEX_FILE in files <==> INDEX_FILE in files')
      && (INDEX_FILE in files ==> files'[INDEX_FILE] == files[INDEX_FILE])
  }

  /** All of it was stored. */
  ghost predicate Complete(step: SaveStep)
  {
    step.Saving? && step.stored == HEADER + ENTRY * step.st.count
  }

  ghost predicate SaveRun(states: seq<NameMap>, steps: seq<SaveStep>)
  {
    && |states| == |steps| + 1
    && forall i {:trigger steps[i]} :: 0 <= i < |steps| ==> SaveStepOk(states[i], steps[i], states[i + 1])
  }

  /** What was saved last. */
  function LastSave(steps: seq<SaveStep>): Option<SaveStep>
  {
    if steps == [] then None
    else
      var last := steps[|steps| - 1];
      if last.Saving? then Some(last) else LastSave(steps[..|steps| - 1])
  }

  lemma {:induction false} LastSaveKept(states: seq<NameMap>, steps: seq<SaveStep>)
    requires SaveRun(states, steps) && LastSave(steps).Some? && Complete(LastSave(steps).value)
    ensures INDEX_FILE in states[|steps|] && LastSave(steps).value.st.Shape()
    ensures Saved(LastSave(steps).value.st.Live(), LastSave(steps).value.views) <= states[|steps|][INDEX_FILE]
    decreases |steps|
  {
    hide Saved, State.Valid;
    var n := |steps| - 1;
    assert SaveStepOk(states[n], steps[n], states[n + 1]);
    if steps[n].Elsewhere? {
      assert SaveRun(states[..n + 1], steps[..n]) by {
        forall i | 0 <= i < n
          ensures SaveStepOk(states[..n + 1][i], steps[..n][i], states[..n + 1][i + 1])
        {
          assert steps[..n][i] == steps[i];
        }
      }
      LastSaveKept(states[..n + 1], steps[..n]);
    } else {
      var b := Saved(steps[n].st.Live(), steps[n].views);
      assert b[..|b|] == b;
    }
  }

  /** Over any run, loading gives exactly what was saved last, however long earlier saves were, if the last save was
      complete. */
  lemma LoadsLastSave(states: seq<NameMap>, steps: seq<SaveStep>, slots: seq<Entry>)
    requires SaveRun(states, steps) && LastSave(steps).Some? && Complete(LastSave(steps).value)
    requires |slots| == MAX_OBJECTS
    ensures var last := LastSave(steps).value;
            && INDEX_FILE in states[|steps|]
            && var c := states[|steps|][INDEX_FILE];
               && HasIndex(c) && Announced(c) <= MAX_OBJECTS && Get32(c, 12) == last.views
               && last.st.Shape() && Loaded(slots, c).Live() == last.st.Live()
               && (last.st.Valid() && (forall i :: 0 <= i < MAX_OBJECTS ==> Terminated(slots[i])) ==>
                     Loaded(slots, c).Valid())
               && Loaded(slots, c).last == MaxLow(last.st.Live())
  {
    hide Saved, Loaded, HasIndex, Announced, Get32;
    LastSaveKept(states, steps);
    var last := LastSave(steps).value;
    LoadsSaved(slots, states[|steps|][INDEX_FILE], last.st, last.views);
  }

  // ----- the two operations

  /** How much of an index can be saved. */
  ghost function IndexRoom(fs: FileSystem): int
    requires fs.Valid()
    reads fs, fs.vol`geo, fs.vol.disk.data
  {
    if INDEX_FILE in fs.Files() then RoomFor(fs, INDEX_FILE) - CLUSTER else CLUSTER * FreeClusters(fs)
  }

  /** The room is in whole clusters, and the present file is within it. */
  lemma RoomInClusters(fs: FileSystem)
    requires fs.Valid()
    ensures IndexRoom(fs) % CLUSTER == 0
    ensures 0 < FreeClusters(fs) && INDEX_FILE in fs.Files() ==> |fs.Files()[INDEX_FILE]| <= IndexRoom(fs)
  {
    hide Wf, ImageOf, Chains.Files, Lookup, FreeSet;
    if INDEX_FILE in fs.Files() {
      FileWithinRoom(fs, INDEX_FILE);
    }
  }

  /** The files after the first n bytes of the index were saved. */
  function WithPart(files: NameMap, b: seq<Byte>): NameMap
  {
    files[INDEX_FILE := Overwritten(if INDEX_FILE in files then files[INDEX_FILE] else [], b)]
  }

  /** A part that fills the room is all there is in the file. */
  lemma PartFills(files: NameMap, b: seq<Byte>, room: nat)
    requires room <= |b| && (INDEX_FILE in files ==> |files[INDEX_FILE]| <= room)
    ensures WithPart(files, b[..room])[INDEX_FILE] == b[..room]
  {
  }

  lemma OverwriteMore(files: NameMap, files1: NameMap, files2: NameMap, b: seq<Byte>, d: seq<Byte>)
    requires files1 == WithPart(files, b) && OnlyChanged(files1, files2, INDEX_FILE)
    requires WriteEffect(files1[INDEX_FILE], files2[INDEX_FILE], |b|, d)
    ensures files2 == WithPart(files, b + d)
  {
    var c := if INDEX_FILE in files then files[INDEX_FILE] else [];
    assert files2[INDEX_FILE] == Overwritten(c, b + d);
  }

  /** Storing the next piece d of b, of which as much as fits before it was stored already. */
  lemma StoreMore(files: NameMap, files1: NameMap, files2: NameMap, b: seq<Byte>, k: nat, d: seq<Byte>, room: nat)
    requires k + |d| <= |b| && b[k..k + |d|] == d
    requires files1 == WithPart(files, b[..Fitting(k, room)]) && OnlyChanged(files1, files2, INDEX_FILE)
    requires var n := Storable(room, Fitting(k, room), |d|);
             n <= |d| && WriteEffect(files1[INDEX_FILE], files2[INDEX_FILE], Fitting(k, room), d[..n])
    ensures files2 == WithPart(files, b[..Fitting(k + |d|, room)])
    ensures Fitting(k, room) + Storable(room, Fitting(k, room), |d|) == Fitting(k + |d|, room)
  {
    hide WriteEffect, OnlyChanged, WithPart;
    var n := Storable(room, Fitting(k, room), |d|);
    if k <= room {
      assert b[k..k + n] == b[k..k + |d|][..n] == d[..n];
      assert b[..k] + b[k..k + n] == b[..k + n];
      OverwriteMore(files, files1, files2, b[..k], d[..n]);
    } else {
      assert b[..room] + d[..n] == b[..room];
      OverwriteMore(files, files1, files2, b[..room], d[..n]);
    }
  }

  /** The bytes of entry i among all. */
  lemma EntryIn(s: seq<Entry>, views: U32, i: nat)
    requires i < |s| < 0x1_0000_0000
    ensures Saved(s, views)[HEADER + ENTRY * i..HEADER + ENTRY * i + ENTRY] == Encoded(s[i])
  {
    hide Header, EncodedAll, Encoded;
    EntryAt(s, i);
    var b := EncodedAll(s);
    assert Saved(s, views)[HEADER + ENTRY * i..HEADER + ENTRY * i + ENTRY] == b[ENTRY * i..ENTRY * i + ENTRY];
  }

  /** Writes all entries behind the header, as far as they fit; b is all there is to write. */
  method SaveEntries(fs: FileSystem, f: File, index: Index, ghost files: NameMap, ghost b: seq<Byte>, ghost room: nat)
    requires index.Value().Shape() && b == Saved(index.Value().Live(), index.views) && HEADER <= |b|
    requires fs.Valid() && fs.Agrees(f) && f.isOpen && f.name == INDEX_FILE
    requires RoomFor(fs, INDEX_FILE) == room && f.position == Fitting(HEADER, room)
    requires fs.Files() == WithPart(files, b[..Fitting(HEADER, room)])
    modifies fs, f, fs.vol.disk.data
    ensures fs.Valid() && f.isOpen && fs.Files() == WithPart(files, b[..Fitting(|b|, room)])
  {
    hide Wf, ImageOf, Chains.Files, Lookup, OnlyChanged, WriteEffect, Room, FreeSet, Overwritten, WithPart;
    hide Header, EncodedAll, Encoded, Ordered, Terminated, Storable;
    ghost var s := index.Value().Live();
    var i: U32 := 0;
    while i < index.count
      invariant i <= index.count && fs.Valid() && fs.Agrees(f) && f.isOpen && f.name == INDEX_FILE
      invariant RoomFor(fs, INDEX_FILE) == room && f.position == Fitting(HEADER + ENTRY * i, room)
      invariant fs.Files() == WithPart(files, b[..Fitting(HEADER + ENTRY * i, room)])
    {
      ghost var files1 := fs.Files();
      var entry := Encoded(index.entries[i]);
      EntryIn(s, index.views, i);
      var w := Store(fs, f, entry);
      StoreMore(files, files1, fs.Files(), b, HEADER + ENTRY * i, entry, room);
      i := i + 1;
    }
  }

  /** Writes the header and all entries; what does not fit is lost without notice. */
  method Save(fs: FileSystem, index: Index) returns (r: int)
    requires fs.Valid() && index.Value().Shape()
    modifies fs, fs.vol.disk.data
    ensures fs.Valid() && r == if old(CanCreate(fs, INDEX_FILE)) then 0 else -1
    ensures r != 0 ==> fs.Files() == old(fs.Files())
    ensures r == 0 ==> HEADER <= old(IndexRoom(fs))
    ensures r == 0 ==> var b := Saved(index.Value().Live(), index.views);
                       fs.Files() == WithPart(old(fs.Files()), b[..Fitting(|b|, old(IndexRoom(fs)))])
    ensures r == 0 ==> (fs.Files() == WithIndex(old(fs.Files()), index.Value().Live(), index.views) <==>
                        HEADER + ENTRY * index.count <= old(IndexRoom(fs)))
  {
    hide Wf, ImageOf, Chains.Files, Lookup, OnlyChanged, WriteEffect, Room, FreeSet, Overwritten, Creatable, WithPart;
    hide Header, EncodedAll, Encoded, Ordered, Terminated, Storable;
    ghost var files := fs.Files();
    ghost var room := IndexRoom(fs);
    ghost var s := index.Value().Live();
    ghost var b := Saved(s, index.views);
    if INDEX_FILE in files {
      FileWithinRoom(fs, INDEX_FILE);
    }
    var f := CreateAndOpen(fs, INDEX_FILE);
    if f.None? {
      return -1;
    }
    ghost var files1 := fs.Files();
    CreatedPart(files, b);
    var header := Header(index.count, index.views);
    var w := Store(fs, f.value, header);
    StoreMore(files, files1, fs.Files(), b, 0, header, room);
    SaveEntries(fs, f.value, index, files, b, room);
    var closed := fs.Close(f.value);
    SavedWhole(files, s, index.views, room);
    return 0;
  }

  lemma CreatedPart(files: NameMap, b: seq<Byte>)
    ensures WithFile(files, INDEX_FILE) == WithPart(files, b[..0])
  {
    if INDEX_FILE in files {
      var c := files[INDEX_FILE];
      assert Overwritten(c, []) == c;
      assert files[INDEX_FILE := c] == files;
    }
  }

  /** Saving is saving completely exactly if there is room for all of it. */
  lemma SavedWhole(files: NameMap, s: seq<Entry>, views: U32, room: nat)
    requires |s| <= MAX_OBJECTS && (INDEX_FILE in files ==> |files[INDEX_FILE]| <= room)
    ensures var b := Saved(s, views);
            (WithPart(files, b[..Fitting(|b|, room)]) == WithIndex(files, s, views) <==> HEADER + ENTRY * |s| <= room)
  {
    hide Saved;
    var b := Saved(s, views);
    if |b| <= room {
      assert b[..|b|] == b;
    } else {
      assert |WithPart(files, b[..room])[INDEX_FILE]| == room && |WithIndex(files, s, views)[INDEX_FILE]| == |b|;
    }
  }

  /** There is an index to load. */
  predicate Loadable(files: NameMap)
  {
    INDEX_FILE in files && HasIndex(files[INDEX_FILE])
  }

  /** What loading did: everything the file says, or nothing. */
  ghost predicate LoadResult(files: NameMap, st: State, views: U32, st': State, views': U32, r: int)
    requires st.Shape() && (Loadable(files) ==> Announced(files[INDEX_FILE]) <= MAX_OBJECTS)
  {
    if Loadable(files)
    then r == 0 && st' == Loaded(st.slots, files[INDEX_FILE]) && views' == Get32(files[INDEX_FILE], 12)
    else r == -1 && st' == st && views' == views
  }

  /** Reads and checks the header: the number of entries and of views. */
  method ReadHeader(fs: FileSystem, f: File) returns (r: Option<(U32, U32)>)
    requires fs.Valid() && fs.Agrees(f) && f.isOpen && f.position == 0
    modifies f`position
    ensures fs.Valid() && fs.Agrees(f) && f.name in fs.Files()
    ensures var c := fs.Files()[f.name];
            && r == (if HasIndex(c) then Some((Announced(c), Get32(c, 12))) else None)
            && (r.Some? ==> f.position == HEADER)
  {
    hide Wf, ImageOf, Chains.Files, Lookup, Room, FreeSet, Get32;
    var header := FetchRight(fs, f, HEADER);
    if |header| != HEADER {
      return None;
    }
    HeaderRead(fs.Files()[f.name], header);
    if Get32(header, 0) != DB_MAGIC {
      return None;
    }
    return Some((Get32(header, 8), Get32(header, 12)));
  }

  /** Reads the next entry over slot i and keeps track of the largest low half. */
  method ReadSlot(fs: FileSystem, f: File, index: Index, i: nat, ghost c: seq<Byte>)
    requires fs.Valid() && fs.Agrees(f) && f.isOpen && f.name in fs.Files() && fs.Files()[f.name] == c
    requires f.position == Fitting(HEADER + ENTRY * i, |c|) && i < index.entries.Length
    modifies f`position, index`last, index.entries
    ensures fs.Valid() && fs.Agrees(f) && fs.Files() == old(fs.Files())
    ensures f.position == Fitting(HEADER + ENTRY * (i + 1), |c|)
    ensures index.entries[..] == old(index.entries[..])[i := ReadOver(old(index.entries[i]), c, i)]
    ensures index.last == if index.entries[i].id.low > old(index.last) then index.entries[i].id.low else old(index.last)
  {
    hide Wf, ImageOf, Chains.Files, Lookup, Room, FreeSet, Encoded, Decoded, Splice, Available;
    var piece := FetchRight(fs, f, ENTRY);
    PieceRead(c, i, piece);
    index.entries[i] := Decoded(Splice(Encoded(index.entries[i]), 0, piece));
    if index.entries[i].id.low > index.last {
      index.last := index.entries[i].id.low;
    }
  }

  /** Reads the index back. */
  method Load(fs: FileSystem, index: Index) returns (r: int)
    requires fs.Valid() && index.Value().Shape()
    requires Loadable(fs.Files()) ==> Announced(fs.Files()[INDEX_FILE]) <= MAX_OBJECTS
    modifies index, index.entries
    ensures fs.Valid() && fs.Files() == old(fs.Files())
    ensures LoadResult(fs.Files(), old(index.Value()), old(index.views), index.Value(), index.views, r)
  {
    hide Wf, ImageOf, Chains.Files, Lookup, Room, FreeSet, DirOk, Encoded, Decoded, Get32, Splice, MaxLow;
    var f := new File();
    var found := fs.Open(INDEX_FILE, f);
    if found < 0 {
      return -1;
    }
    ghost var c := fs.Files()[INDEX_FILE];
    var header := ReadHeader(fs, f);
    if header.None? {
      var _ := fs.Close(f);
      return -1;
    }
    ghost var slots := index.entries[..];
    MaxLowNone();
    assert index.entries[..0] == [];
    index.count, index.views := header.value.0, header.value.1;
    index.last := 0;
    var i: U32 := 0;
    while i < index.count
      invariant i <= index.count == Announced(c) && index.views == Get32(c, 12)
      invariant fs.Valid() && fs.Files() == old(fs.Files()) && fs.Agrees(f) && f.isOpen && f.name == INDEX_FILE
      invariant f.position == Fitting(HEADER + ENTRY * i, |c|)
      invariant forall k :: 0 <= k < i ==> index.entries[k] == ReadOver(slots[k], c, k)
      invariant forall k :: i <= k < MAX_OBJECTS ==> index.entries[k] == slots[k]
      invariant index.last == MaxLow(index.entries[..i])
    {
      ghost var before := index.entries[..];
      ReadSlot(fs, f, index, i, c);
      assert index.entries[..i + 1] == before[..i] + [index.entries[i]];
      MaxLowNext(before[..i], index.entries[i]);
      i := i + 1;
    }
    var closed := fs.Close(f);
    LoadedIs(slots, c, index.Value());
    return 0;
  }

  lemma LoadedIs(slots: seq<Entry>, c: seq<Byte>, st: State)
    requires |slots| == |st.slots| == MAX_OBJECTS && HasIndex(c) && st.count == Announced(c) <= MAX_OBJECTS
    requires forall k :: 0 <= k < st.count ==> st.slots[k] == ReadOver(slots[k], c, k)
    requires forall k :: st.count <= k < MAX_OBJECTS ==> st.slots[k] == slots[k]
    requires st.last == MaxLow(st.slots[..st.count])
    ensures st == Loaded(slots, c)
  {
    assert st.slots == Loaded(slots, c).slots;
  }

  lemma MaxLowNone()
    ensures MaxLow([]) == 0
  {
  }

  /** A read at entry i yields the part of the entry that is there. */
  lemma PieceRead(c: seq<Byte>, i: nat, piece: seq<Byte>)
    requires var lo := Fitting(HEADER + ENTRY * i, |c|);
             |piece| == Available(|c|, lo, ENTRY) && (piece != [] ==> piece == c[lo..lo + |piece|])
    ensures piece == c[Fitting(HEADER + ENTRY * i, |c|)..Fitting(HEADER + ENTRY * i + ENTRY, |c|)]
    ensures Fitting(HEADER + ENTRY * i, |c|) + |piece| == Fitting(HEADER + ENTRY * (i + 1), |c|)
  {
  }

  lemma MaxLowNext(s: seq<Entry>, e: Entry)
    ensures MaxLow(s + [e]) == if e.id.low > MaxLow(s) then e.id.low else MaxLow(s)
  {
    assert (s + [e])[..|s|] == s;
  }

  lemma HeaderRead(c: seq<Byte>, header: seq<Byte>)
    requires |header| == HEADER <= |c| && header == c[..HEADER]
    ensures Get32(header, 0) == Get32(c, 0) && Get32(header, 8) == Get32(c, 8) && Get32(header, 12) == Get32(c, 12)
  {
    assert header[0..4] == c[0..4] && header[8..12] == c[8..12] && header[12..16] == c[12..16];
  }

  /** Syncing an index and mounting the volume into another context: with a directory entry, a cluster and room
      to spare, the other context ends up with the same objects in the same order. */
  method SyncAndMount(fs: FileSystem, index: Index, mounted: Index) returns (r: int)
    requires fs.Valid() && index.Valid() && mounted.Valid() && mounted.entries != index.entries && mounted != index
    requires CanCreate(fs, INDEX_FILE) && HEADER + ENTRY * index.count <= IndexRoom(fs)
    modifies fs, fs.vol.disk.data, mounted, mounted.entries
    ensures fs.Valid() && index.Value() == old(index.Value()) && r == 0
    ensures mounted.Valid() && mounted.Value().Live() == index.Value().Live() && mounted.views == index.views
    ensures mounted.last == MaxLow(index.Value().Live())
  {
    hide Wf, ImageOf, Chains.Files, Lookup, Room, FreeSet, Creatable, Header, EncodedAll, Ordered, Terminated, Get32,
         Loaded;
    ghost var files, slots, s := fs.Files(), mounted.Value().slots, index.Value().Live();
    ghost var room := IndexRoom(fs);
    var saved := Save(fs, index);
    LoadsSaved(slots, fs.Files()[INDEX_FILE], index.Value(), index.views);
    MaxLowLast(s, index.last);
    r := Load(fs, mounted);
  }
}
