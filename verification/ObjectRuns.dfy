/** Runs of the object layer: links, object data and the index, kept in files of one volume. */
module ObjectRuns {
  import opened Bytes
  import opened Layout
  import opened Directory
  import opened Chains
  import opened Contents
  import opened FileMap
  import opened FileSystem
  import opened MetaFiles
  import opened Hex
  import opened Links
  import ObjectIndex
  import opened IndexStore
  import Session

  // ----- the files of the object layer

  /** Links, object data and the index lie in different files. */
  lemma FilesApart(view: CString, name: CString, id: ObjectId)
    ensures Flat(view, name) != DataFile(id) && Flat(view, name) != INDEX_FILE && DataFile(id) != INDEX_FILE
    ensures !IsLinkFile(INDEX_FILE) && !IsLinkFile(DataFile(id))
  {
    FlatParts(view, name);
    DataNotLink(id);
    assert DataFile(id)[0] == 0x64 && Flat(view, name)[0] == 0x76;
  }

  /** A file that an operation has nothing to do with. */
  predicate Kept(files: NameMap, files': NameMap, name: seq<Byte>)
  {
    (name in files' <==> name in files) && (name in files ==> files'[name] == files[name])
  }

  /** The file an operation on open files is about to create or to write. */
  ghost predicate Touches(a: Session.State, op: Session.Op, name: seq<Byte>)
    requires Session.Allowed(a, op)
  {
    match op
    case Create(path) => StripSlash(path) == name
    case Mkdir(path) => StripSlash(path) == name
    case Write(h, _) => a.handles[h].Some? && a.handles[h].value.name == name
    case _ => false
  }

  /** An operation on open files leaves all other files alone, so it counts as done elsewhere for the links and for
      the index unless it is about one of their files. */
  lemma SessionElsewhere(a: Session.State, e: Session.Event, a': Session.State)
    requires Session.Allowed(a, e.op) && Session.Step(a, e, a')
    ensures forall name :: !Touches(a, e.op, name) ==> Kept(a.files, a'.files, name)
    ensures (forall f :: IsLinkFile(f) ==> !Touches(a, e.op, f)) ==> LinkStepOk(a.files, LinkStep.Elsewhere, a'.files)
    ensures !Touches(a, e.op, INDEX_FILE) ==> SaveStepOk(a.files, SaveStep.Elsewhere, a'.files)
  {
    forall name | !Touches(a, e.op, name)
      ensures Kept(a.files, a'.files, name)
    {
    }
    assert !Touches(a, e.op, INDEX_FILE) ==> Kept(a.files, a'.files, INDEX_FILE);
    if forall f :: IsLinkFile(f) ==> !Touches(a, e.op, f) {
      forall f | IsLinkFile(f)
        ensures Kept(a.files, a'.files, f)
      {
      }
    }
  }

  // ----- what a user of the object layer sees

  datatype Call =
    | MakeLink(view: CString, name: CString, id: ObjectId)
    | ResolvePath(path: CString)
    | PutData(id: ObjectId, data: seq<Byte>)
    | GetData(id: ObjectId, size: U32)
    | Change(op: ObjectIndex.Op)
    | SaveIndex
    | LoadIndex

  datatype Answer = Code(r: int) | Identifier(id: ObjectId) | Data(data: Option<seq<Byte>>)

  /** A call with what it returned and how many of its bytes found room on the volume. */
  datatype Event = Event(call: Call, answer: Answer, stored: nat)

  /** The files of the volume and the index in memory, with its number of views. */
  datatype State = State(files: NameMap, index: ObjectIndex.State, views: U32)

  /** The index fits its table, and so does the one that is saved. */
  ghost predicate Sound(a: State)
  {
    a.index.Shape() && (Loadable(a.files) ==> Announced(a.files[INDEX_FILE]) <= ObjectIndex.MAX_OBJECTS)
  }

  /** Flattened names fit the buffers they are built in, and the length of data fits 32 bits. */
  predicate Allowed(call: Call)
  {
    match call
    case MakeLink(view, name, _) => 7 + |view| + |name| <= 255
    case ResolvePath(path) => FitsBuffer(path)
    case PutData(_, data) => |data| < 0x1_0000_0000
    case _ => true
  }

  /** What one call does. */
  ghost predicate Step(a: State, e: Event, a': State)
    requires Sound(a)
  {
    match e.call
    case MakeLink(view, name, id) =>
      a' == a.(files := a'.files) && LinkMade(a.files, view, name, id, e.answer, a'.files)
    case ResolvePath(path) => a' == a && e.answer == Identifier(ResolveIn(a.files, path))
    case PutData(id, data) => a' == a.(files := a'.files) && DataPut(a.files, id, data, e.answer, e.stored, a'.files)
    case GetData(id, size) => a' == a && e.answer.Data? && DataGot(a.files, id, size, e.answer.data)
    case Change(op) => a' == a.(index := ObjectIndex.Apply(a.index, op)) && e.answer == Changed(a.index, op)
    case SaveIndex => a' == a.(files := a'.files) && IndexSaved(a, e.answer, e.stored, a'.files)
    case LoadIndex =>
      a'.files == a.files && e.answer.Code? && LoadResult(a.files, a.index, a.views, a'.index, a'.views, e.answer.r)
  }

  ghost predicate LinkMade(files: NameMap, view: CString, name: CString, id: ObjectId, answer: Answer, files': NameMap)
  {
    if answer == Code(0) then files' == Linked(files, view, name, id) else answer == Code(-1) && files' == files
  }

  /** Some first bytes of the data were stored; or the file could not be created twice, and then it may have been
      created once. */
  ghost predicate DataPut(files: NameMap, id: ObjectId, data: seq<Byte>, answer: Answer, stored: nat, files': NameMap)
  {
    && stored <= |data|
    && ((answer == Code(AsInt(stored)) && files' == WithData(files, id, data[..stored]))
        || (answer == Code(-1) && stored == 0 && (files' == files || files' == WithFile(files, DataFile(id)))))
  }

  ghost predicate DataGot(files: NameMap, id: ObjectId, size: nat, r: Option<seq<Byte>>)
  {
    && (r.Some? <==> DataFile(id) in files)
    && (r.Some? ==>
          |r.value| == Available(|files[DataFile(id)]|, 0, size) && r.value == files[DataFile(id)][..|r.value|])
  }

  ghost function Changed(st: ObjectIndex.State, op: ObjectIndex.Op): Answer
    requires st.Shape()
  {
    match op
    case Create(_) => Identifier(ObjectIndex.Issued(st, op))
    case Delete(id) => Code(if ObjectIndex.Find(st.Live(), id).Some? then 0 else -1)
    case Set(id, _) => Code(if ObjectIndex.Find(st.Live(), id).Some? then 0 else -1)
  }

  /** At least the header was stored, and as much of the entries as found room. If that was not all, it fills whole
      clusters and is all there is in the file. */
  ghost predicate IndexSaved(a: State, answer: Answer, stored: nat, files': NameMap)
    requires a.index.Shape()
  {
    var b := Saved(a.index.Live(), a.views);
    if answer == Code(0)
    then && HEADER <= stored <= |b| && files' == WithPart(a.files, b[..stored])
         && (stored < |b| ==> stored % CLUSTER == 0 && files'[INDEX_FILE] == b[..stored])
    else answer == Code(-1) && files' == a.files
  }

  /** states[i + 1] follows from states[i] by events[i]. */
  ghost predicate Run(states: seq<State>, events: seq<Event>)
  {
    && |states| == |events| + 1
    && (forall i {:trigger states[i]} :: 0 <= i < |states| ==> Sound(states[i]))
    && (forall i {:trigger events[i]} :: 0 <= i < |events| ==>
          Allowed(events[i].call) && Step(states[i], events[i], states[i + 1]))
  }

  lemma RunExtend(states: seq<State>, events: seq<Event>, e: Event, a: State)
    requires Run(states, events) && Allowed(e.call) && Step(states[|events|], e, a) && Sound(a)
    ensures Run(states + [a], events + [e])
  {
    hide Step, Sound, Allowed;
    var ss, es := states + [a], events + [e];
    forall i | 0 <= i < |es|
      ensures Allowed(es[i].call) && Step(ss[i], es[i], ss[i + 1])
    {
      if i < |events| {
        assert es[i] == events[i];
      }
    }
  }

  /** However little of an index was stored, its header announces no more objects than there may be. */
  lemma StepSound(a: State, e: Event, a': State)
    requires Sound(a) && Step(a, e, a')
    ensures Sound(a')
  {
    hide Saved, Announced, HasIndex, Linked, WithData, WithFile, ObjectIndex.Apply, Loaded, Changed, DataGot;
    hide Header;
    match e.call {
      case SaveIndex =>
        if e.answer == Code(0) {
          PartAnnounces(a.files, a.index, a.views, e.stored);
        }
      case _ => ElsewhereForIndex(a, e, a');
    }
  }

  lemma PartAnnounces(files: NameMap, st: ObjectIndex.State, views: U32, stored: nat)
    requires st.Shape() && HEADER <= stored <= |Saved(st.Live(), views)|
    ensures var c := WithPart(files, Saved(st.Live(), views)[..stored])[INDEX_FILE];
            HasIndex(c) && Announced(c) == st.count
  {
    hide Header, EncodedAll, Get32;
    var b := Saved(st.Live(), views);
    var c := WithPart(files, b[..stored])[INDEX_FILE];
    assert Header(st.count, views) <= c by {
      assert b[..HEADER] == Header(st.count, views) && c[..HEADER] == b[..stored][..HEADER];
    }
    HeaderFields(st.count, views);
    HeaderIn(c, st.count, views);
  }

  // ----- every run is a run of links, and a run of saves

  function LinkStepOf(e: Event): LinkStep
  {
    match e.call
    case MakeLink(view, name, id) => if e.answer == Code(0) then Made(view, name, id) else LinkStep.Elsewhere
    case _ => LinkStep.Elsewhere
  }

  function SaveStepOf(a: State, e: Event): SaveStep
  {
    if e.call.SaveIndex? && e.answer == Code(0) then SaveStep.Saving(a.index, a.views, e.stored) else SaveStep.Elsewhere
  }

  /** Nothing but saving touches the index file. */
  lemma ElsewhereForIndex(a: State, e: Event, a': State)
    requires Sound(a) && Step(a, e, a') && !e.call.SaveIndex?
    ensures SaveStepOk(a.files, SaveStep.Elsewhere, a'.files)
  {
    hide Flat, DataFile, Printed, Sound, Overwritten;
    match e.call {
      case MakeLink(view, name, id) => FilesApart(view, name, id);
      case PutData(id, data) => FilesApart([], [], id);
      case _ =>
    }
  }

  /** Nothing but linking touches link files. */
  lemma StepLinks(a: State, e: Event, a': State)
    requires Sound(a) && Step(a, e, a')
    ensures LinkStepOk(a.files, LinkStepOf(e), a'.files)
  {
    hide Flat, DataFile, Printed, Sound, Overwritten, IsLinkFile, Saved;
    match e.call {
      case PutData(id, data) => FilesApart([], [], id);
      case SaveIndex => FilesApart([], [], NULL_ID);
      case _ =>
    }
  }

  lemma StepSaves(a: State, e: Event, a': State)
    requires Sound(a) && Step(a, e, a')
    ensures SaveStepOk(a.files, SaveStepOf(a, e), a'.files)
  {
    hide Saved;
    if !e.call.SaveIndex? {
      ElsewhereForIndex(a, e, a');
    }
  }

  /** The files before each of the first n calls and after them. */
  ghost function FilesOf(states: seq<State>, n: nat): seq<NameMap>
    requires n < |states|
  {
    seq(n + 1, i requires 0 <= i < n + 1 => states[i].files)
  }

  ghost function LinkSteps(events: seq<Event>, n: nat): seq<LinkStep>
    requires n <= |events|
  {
    seq(n, i requires 0 <= i < n => LinkStepOf(events[i]))
  }

  ghost function SaveSteps(states: seq<State>, events: seq<Event>, n: nat): seq<SaveStep>
    requires n <= |events| <= |states|
  {
    seq(n, i requires 0 <= i < n => SaveStepOf(states[i], events[i]))
  }

  lemma RunLinks(states: seq<State>, events: seq<Event>, n: nat)
    requires Run(states, events) && n <= |events|
    ensures LinkRun(FilesOf(states, n), LinkSteps(events, n))
  {
    hide Step, LinkStepOk, LinkStepOf;
    forall i | 0 <= i < n
      ensures LinkStepOk(FilesOf(states, n)[i], LinkSteps(events, n)[i], FilesOf(states, n)[i + 1])
    {
      assert Step(states[i], events[i], states[i + 1]);
      StepLinks(states[i], events[i], states[i + 1]);
    }
  }

  lemma RunSaves(states: seq<State>, events: seq<Event>, n: nat)
    requires Run(states, events) && n <= |events|
    ensures SaveRun(FilesOf(states, n), SaveSteps(states, events, n))
  {
    hide Step, SaveStepOk, SaveStepOf;
    forall i | 0 <= i < n
      ensures SaveStepOk(FilesOf(states, n)[i], SaveSteps(states, events, n)[i], FilesOf(states, n)[i + 1])
    {
      assert Step(states[i], events[i], states[i + 1]);
      StepSaves(states[i], events[i], states[i + 1]);
    }
  }

  /** In every run a path resolves to what was last linked in its file. */
  lemma ResolvedInRun(states: seq<State>, events: seq<Event>, k: nat, view: CString, name: CString)
    requires Run(states, events) && k < |events|
    requires ViewName(view) && events[k].call == ResolvePath(PathOf(view, name))
    ensures events[k].answer
         == Identifier(LastLinked(LinkSteps(events, k), view, name, ResolveIn(states[0].files, PathOf(view, name))))
  {
    hide LinkStepOf, ResolveIn, PathOf, LastLinked, Sound, Allowed;
    RunLinks(states, events, k);
    ResolvesToLastLinked(FilesOf(states, k), LinkSteps(events, k), view, name);
    assert Step(states[k], events[k], states[k + 1]);
  }

  /** In every run a load gives back exactly the objects that were there at the last save, if that was complete. */
  lemma LoadedInRun(states: seq<State>, events: seq<Event>, k: nat)
    requires Run(states, events) && k < |events| && events[k].call.LoadIndex?
    requires var last := LastSave(SaveSteps(states, events, k)); last.Some? && Complete(last.value)
    ensures var last := LastSave(SaveSteps(states, events, k)).value;
            && events[k].answer == Code(0) && states[k + 1].views == last.views
            && last.st.Shape() && states[k + 1].index.Shape() && states[k + 1].index.Live() == last.st.Live()
            && states[k + 1].index.last == MaxLow(last.st.Live())
  {
    hide LastSave, Complete, Loaded, HasIndex, Announced, Get32;
    RunSaves(states, events, k);
    LoadsLastSave(FilesOf(states, k), SaveSteps(states, events, k), states[k].index.slots);
    assert Step(states[k], events[k], states[k + 1]);
  }

  // ----- the index stays in order, through loads as well

  /** The index in memory is valid, and so is whatever may be loaded. */
  ghost predicate Healthy(a: State)
    requires Sound(a)
  {
    a.index.Valid() && (Loadable(a.files) ==> Safe(a.files[INDEX_FILE]))
  }

  /** The call does not exhaust the counter of identifiers, and does not cut a saved index before its last entry. */
  predicate Tame(a: State, e: Event)
  {
    && (e.call.Change? && e.call.op.Create? ==> a.index.last < U64_MAX)
    && (e.call.SaveIndex? && e.answer == Code(0) ==> HEADER + ENTRY * (a.index.count - 1) < e.stored)
  }

  /** A call keeps the index in memory and the saved one valid exactly if it is tame. */
  lemma HealthyIff(a: State, e: Event, a': State)
    requires Sound(a) && Step(a, e, a') && Healthy(a) && Sound(a')
    ensures Healthy(a') <==> Tame(a, e)
  {
    hide ObjectIndex.State.Valid, ObjectIndex.Apply, Safe, HasIndex, Announced, Linked, WithData, WithFile, Changed,
         DataGot, Saved, LinkMade, DataPut;
    match e.call {
      case Change(op) => ObjectIndex.ApplyValid(a.index, op);
      case SaveIndex =>
        if e.answer == Code(0) {
          SaveSafeIff(a, e, a');
        }
      case LoadIndex => LoadHealthy(a, e, a');
      case _ => ElsewhereForIndex(a, e, a');
    }
  }

  lemma LoadHealthy(a: State, e: Event, a': State)
    requires Sound(a) && Step(a, e, a') && Healthy(a) && e.call.LoadIndex?
    ensures a'.index.Valid() && a'.files == a.files
  {
    hide ObjectIndex.Terminated, ObjectIndex.Ordered, HasIndex, Announced, Loaded;
    assert AllTerminated(a.index.slots);
  }

  lemma SaveSafeIff(a: State, e: Event, a': State)
    requires Sound(a) && a.index.Valid() && IndexSaved(a, e.answer, e.stored, a'.files) && e.answer == Code(0)
    ensures Loadable(a'.files) && Announced(a'.files[INDEX_FILE]) <= ObjectIndex.MAX_OBJECTS
    ensures Safe(a'.files[INDEX_FILE]) <==> HEADER + ENTRY * (a.index.count - 1) < e.stored
  {
    hide ObjectIndex.Terminated, ObjectIndex.Ordered, HasIndex, Announced, Saved, Safe;
    var b := Saved(a.index.Live(), a.views);
    if e.stored < |b| {
      CutSafeIff(a.index, a.views, e.stored);
    } else {
      assert b[..|b|] == b;
      SavedSafe(a.index, a.views, a'.files[INDEX_FILE]);
    }
  }

  /** Over any run the index is valid after every call, with identifiers that are nonzero and increase strictly, and so
      is the saved one, exactly if all calls are tame. */
  lemma {:induction false} RunHealthyIff(states: seq<State>, events: seq<Event>, k: nat)
    requires Run(states, events) && k <= |events| && Healthy(states[0])
    ensures (forall i :: 0 <= i <= k ==> Healthy(states[i])) <==>
            (forall i :: 0 <= i < k ==> Tame(states[i], events[i]))
    decreases k
  {
    hide Step, Healthy, Tame, Sound;
    if k > 0 {
      RunHealthyIff(states, events, k - 1);
      assert Step(states[k - 1], events[k - 1], states[k - 1 + 1]);
      if Healthy(states[k - 1]) {
        HealthyIff(states[k - 1], events[k - 1], states[k]);
      }
    }
  }

  /** Otherwise an index out of order may be loaded: after a save that was cut before the last two entries, the first
      object is deleted and the index is loaded. */
  lemma CutLoadBreaks(states: seq<State>, events: seq<Event>)
    requires Run(states, events) && |events| == 3 && states[0].index.Valid() && 2 <= states[0].index.count
    requires events[0].call.SaveIndex? && events[0].answer == Code(0)
    requires events[0].stored <= HEADER + ENTRY * (states[0].index.count - 2)
    requires events[1].call == Change(ObjectIndex.Delete(states[0].index.slots[0].id)) && events[2].call.LoadIndex?
    ensures states[2].index.Valid() && !states[3].index.Valid()
  {
    hide ObjectIndex.State.Valid, HasIndex, Announced, Saved, Loaded, ObjectIndex.Apply;
    assert Step(states[0], events[0], states[1]) && Step(states[1], events[1], states[2]);
    assert Step(states[2], events[2], states[3]);
    FirstDeleted(states[0].index);
    CutHeader(states[0].index, states[0].views, events[0].stored);
    CutLoad(states[0].index, states[0].views, events[0].stored, states[2].index.slots);
  }

  /** Deleting the first object leaves the last entry in two slots. */
  lemma FirstDeleted(st: ObjectIndex.State)
    requires st.Valid() && 2 <= st.count
    ensures var st' := ObjectIndex.Apply(st, ObjectIndex.Delete(st.slots[0].id));
            st'.Valid() && st'.slots[st.count - 2] == st'.slots[st.count - 1]
  {
    hide ObjectIndex.Terminated, ObjectIndex.Ordered;
    ObjectIndex.ApplyValid(st, ObjectIndex.Delete(st.slots[0].id));
    ObjectIndex.IndexOfFirst(st.Live(), st.slots[0].id, 0);
  }

  /** Loading a file without the last two entries takes them from the table. */
  lemma CutLoad(st: ObjectIndex.State, views: U32, stored: nat, slots: seq<ObjectIndex.Entry>)
    requires |slots| == ObjectIndex.MAX_OBJECTS && st.Shape() && 2 <= st.count && HEADER <= stored
    requires stored <= HEADER + ENTRY * (st.count - 2) && slots[st.count - 2] == slots[st.count - 1]
    ensures var c := Saved(st.Live(), views)[..stored];
            HasIndex(c) && Announced(c) == st.count && !Loaded(slots, c).Valid()
  {
    hide ObjectIndex.Terminated, HasIndex, Announced, Saved, ReadOver;
    var c := Saved(st.Live(), views)[..stored];
    CutHeader(st, views, stored);
    CutSlots(slots, st, views, stored, st.count - 2);
    CutSlots(slots, st, views, stored, st.count - 1);
    var st' := Loaded(slots, c);
    assert st'.Live()[st.count - 2] == st'.Live()[st.count - 1];
  }

  // ----- object data over a run

  /** Event e does not store byte j in the data file of an object. */
  predicate SparesData(e: Event, id: ObjectId, j: nat)
  {
    e.call.PutData? && DataFile(e.call.id) == DataFile(id) ==> e.stored <= j
  }

  lemma StepSparesData(a: State, e: Event, a': State, id: ObjectId, j: nat)
    requires Sound(a) && Step(a, e, a') && SparesData(e, id, j)
    requires DataFile(id) in a.files && j < |a.files[DataFile(id)]|
    ensures DataFile(id) in a'.files && j < |a'.files[DataFile(id)]|
    ensures a'.files[DataFile(id)][j] == a.files[DataFile(id)][j]
  {
    hide Flat, DataFile, Printed, Sound, Saved;
    match e.call {
      case MakeLink(view, name, _) => FilesApart(view, name, id);
      case SaveIndex => FilesApart([], [], id);
      case _ =>
    }
  }

  lemma {:induction false} DataKept(states: seq<State>, events: seq<Event>, i: nat, k: nat, id: ObjectId, j: nat)
    requires Run(states, events) && i <= k <= |events|
    requires DataFile(id) in states[i].files && j < |states[i].files[DataFile(id)]|
    requires forall l :: i <= l < k ==> SparesData(events[l], id, j)
    ensures DataFile(id) in states[k].files && j < |states[k].files[DataFile(id)]|
    ensures states[k].files[DataFile(id)][j] == states[i].files[DataFile(id)][j]
    decreases k
  {
    hide DataFile, Step, SparesData;
    if i < k {
      DataKept(states, events, i, k - 1, id, j);
      assert SparesData(events[k - 1], id, j) && Step(states[k - 1], events[k - 1], states[k - 1 + 1]);
      StepSparesData(states[k - 1], events[k - 1], states[k - 1 + 1], id, j);
    }
  }

  /** What was stored for an object is what is read for it, whatever links, indexes and data of other objects were
      stored in between. */
  lemma DataInRun(states: seq<State>, events: seq<Event>, i: nat, k: nat, j: nat)
    requires Run(states, events) && i < k < |events| && events[i].call.PutData? && events[k].call.GetData?
    requires DataFile(events[i].call.id) == DataFile(events[k].call.id) && j < events[i].stored
             && j < events[k].call.size
    requires forall l :: i < l < k ==> SparesData(events[l], events[k].call.id, j)
    ensures events[k].answer.Data? && events[k].answer.data.Some?
    ensures j < |events[k].answer.data.value| && events[i].stored <= |events[i].call.data|
    ensures events[k].answer.data.value[j] == events[i].call.data[j]
  {
    hide DataFile, Sound, SparesData;
    assert Step(states[i], events[i], states[i + 1]);
    DataKept(states, events, i + 1, k, events[k].call.id, j);
    assert Step(states[k], events[k], states[k + 1]);
  }

  // ----- the object layer keeps to it

  class Client {
    const fs: FileSystem
    const index: ObjectIndex.Index

    ghost predicate Valid()
      reads this, fs, fs.vol`geo, fs.vol.disk.data, index, index.entries
    {
      fs.Valid() && Sound(Value())
    }

    ghost function Value(): State
      reads this, fs, fs.vol`geo, fs.vol.disk.data, index, index.entries
      requires fs.Valid()
    {
      State(fs.Files(), index.Value(), index.views)
    }

    /** Starts on any volume whose index, if it holds one, announces no more objects than there may be. */
    constructor (fs: FileSystem, index: ObjectIndex.Index)
      requires fs.Valid() && index.Value().Shape()
      requires Loadable(fs.Files()) ==> Announced(fs.Files()[INDEX_FILE]) <= ObjectIndex.MAX_OBJECTS
      ensures Valid() && this.fs == fs && this.index == index
    {
      this.fs, this.index := fs, index;
    }

    method ChangeIndex(op: ObjectIndex.Op) returns (answer: Answer)
      requires Valid()
      modifies index, index.entries
      ensures fs.Valid() && fs.Files() == old(fs.Files()) && index.views == old(index.views)
      ensures index.Value() == ObjectIndex.Apply(old(index.Value()), op) && answer == Changed(old(index.Value()), op)
    {
      hide ObjectIndex.Apply;
      match op {
        case Create(kind) =>
          var id := index.Create(kind);
          answer := Identifier(id);
        case Delete(id) =>
          var r := index.Delete(id);
          answer := Code(r);
        case Set(id, field) =>
          var r := index.Set(id, field);
          answer := Code(r);
      }
    }

    method Do(call: Call) returns (answer: Answer, ghost stored: nat)
      requires Valid() && Allowed(call)
      modifies fs, fs.vol.disk.data, index, index.entries
      ensures Valid() && Step(old(Value()), Event(call, answer, stored), Value())
    {
      hide Wf, ImageOf, Chains.Files, Lookup, Room, FreeSet, Creatable, Flat, DataFile, Saved, Overwritten, FilesOk;
      hide ObjectIndex.Apply, Loaded, ResolveIn, Changed, DirOk, CanCreateTwice, DataRoom, IndexRoom,
           WithIndex;
      ghost var a := Value();
      stored := 0;
      match call {
        case MakeLink(view, name, id) =>
          var r := Links.Link(fs, view, name, id);
          answer := Code(r);
        case ResolvePath(path) =>
          var id := Links.Resolve(fs, path);
          answer := Identifier(id);
        case PutData(id, data) =>
          var r;
          r, stored := Links.WriteData(fs, id, data);
          answer := Code(r);
        case GetData(id, size) =>
          var data := Links.ReadData(fs, id, size);
          answer := Data(data);
        case Change(op) =>
          answer := ChangeIndex(op);
        case SaveIndex =>
          ghost var room := IndexRoom(fs);
          RoomInClusters(fs);
          var r := IndexStore.Save(fs, index);
          stored := Fitting(|Saved(index.Value().Live(), index.views)|, if r == 0 then room else 0);
          if 0 <= room < |Saved(index.Value().Live(), index.views)| && r == 0 {
            PartFills(a.files, Saved(index.Value().Live(), index.views), room);
          }
          answer := Code(r);
        case LoadIndex =>
          var r := IndexStore.Load(fs, index);
          answer := Code(r);
      }
      StepSound(a, Event(call, answer, stored), Value());
    }

    /** Any sequence of calls is a run. */
    method RunAll(calls: seq<Call>) returns (ghost states: seq<State>, ghost events: seq<Event>)
      requires Valid() && forall i :: 0 <= i < |calls| ==> Allowed(calls[i])
      modifies fs, fs.vol.disk.data, index, index.entries
      ensures Valid() && |events| == |calls| && Run(states, events)
      ensures states[0] == old(Value()) && states[|calls|] == Value()
      ensures forall i :: 0 <= i < |calls| ==> events[i].call == calls[i]
    {
      hide Step, Sound, Allowed;
      states, events := [Value()], [];
      for i := 0 to |calls|
        invariant Valid() && Run(states, events) && |events| == i && states[0] == old(Value()) && states[i] == Value()
        invariant forall j :: 0 <= j < i ==> events[j].call == calls[j]
      {
        var answer; ghost var stored;
        answer, stored := Do(calls[i]);
        RunExtend(states, events, Event(calls[i], answer, stored), Value());
        states, events := states + [Value()], events + [Event(calls[i], answer, stored)];
      }
    }
  }
}
