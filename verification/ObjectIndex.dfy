/** The object index: a table of entries in the order their objects were created. */
module ObjectIndex {
  import opened Bytes
  import opened Directory
  import opened Hex
  import opened Links
  import opened Metadata

  const MAX_OBJECTS: U32 := 1024

  /** A text buffer of 64 bytes. */
  type Text64 = s: seq<Byte> | |s| == 64 witness seq(64, _ => 0)

  /** A text buffer of 16 bytes. */
  type Text16 = s: seq<Byte> | |s| == 16 witness seq(16, _ => 0)

  datatype Entry = Entry(id: ObjectId, kind: U32, dataOffset: U64, metaOffset: U64, checksum: U32,
                         name: Text64, view: Text64, extension: Text16)

  predicate Terminated(e: Entry)
  {
    e.name[63] == 0 && e.view[63] == 0 && e.extension[15] == 0
  }

  /** A string copied into a buffer of n bytes: cut to n - 1 bytes and padded with NULs. */
  function Fitted(text: CString, n: nat): (s: seq<Byte>)
    requires 0 < n
    ensures |s| == n && s[n - 1] == 0
  {
    if |text| < n then text + seq(n - |text|, _ => 0) else text[..n - 1] + [0]
  }

  /** A slot that was never used. */
  function Unused(): Entry
  {
    Entry(NULL_ID, 0, 0, 0, 0, Fitted([], 64), Fitted([], 64), Fitted([], 16))
  }

  /** The string read back from a buffer is the string copied into it, cut to fit. */
  lemma FittedRead(text: CString, n: nat)
    requires 0 < n
    ensures UntilNul(Fitted(text, n)) == if |text| < n then text else text[..n - 1]
  {
    var k := if |text| < n then |text| else n - 1;
    UntilNulAt(Fitted(text, n), k);
    assert Fitted(text, n)[..k] == text[..k];
  }

  lemma {:induction false} UntilNulAt(s: seq<Byte>, k: nat)
    requires k < |s| && s[k] == 0 && forall i :: 0 <= i < k ==> s[i] != 0
    ensures UntilNul(s) == s[..k]
  {
    if k == 0 {
    } else {
      UntilNulAt(s[1..], k - 1);
      assert s[..k] == [s[0]] + s[1..][..k - 1];
    }
  }

  // ----- the index as a value

  /** The whole table, the number of entries in use, and the last identifier given out. */
  datatype State = State(slots: seq<Entry>, count: nat, last: U64)
  {
    predicate Shape()
    {
      |slots| == MAX_OBJECTS && count <= MAX_OBJECTS
    }

    function Live(): seq<Entry>
      requires Shape()
    {
      slots[..count]
    }

    /** Identifiers are nonzero, increase strictly and are at most the last one given out. */
    predicate Valid()
    {
      && Shape()
      && (forall i :: 0 <= i < |slots| ==> Terminated(slots[i]))
      && Ordered(Live(), last)
    }
  }

  predicate Ordered(s: seq<Entry>, last: U64)
  {
    && (forall i :: 0 <= i < |s| ==> s[i].id.high == 0 && 0 < s[i].id.low <= last)
    && (forall i, j :: 0 <= i < j < |s| ==> s[i].id.low < s[j].id.low)
  }

  /** The position of the first entry of an object. */
  function IndexOf(s: seq<Entry>, id: ObjectId): (r: Option<nat>)
    ensures r.Some? ==> r.value < |s| && s[r.value].id == id
  {
    if s == [] then None
    else if s[0].id == id then Some(0)
    else
      var r := IndexOf(s[1..], id);
      if r.None? then None else Some(r.value + 1)
  }

  lemma {:induction false} IndexOfFirst(s: seq<Entry>, id: ObjectId, k: nat)
    requires k <= |s| && (k < |s| ==> s[k].id == id) && forall i :: 0 <= i < k ==> s[i].id != id
    ensures IndexOf(s, id) == if k < |s| then Some(k) else None
  {
    if k > 0 {
      IndexOfFirst(s[1..], id, k - 1);
    }
  }

  lemma {:induction false} IndexOfNone(s: seq<Entry>, id: ObjectId, i: nat)
    requires IndexOf(s, id).None? && i < |s|
    ensures s[i].id != id
  {
    if i > 0 {
      IndexOfNone(s[1..], id, i - 1);
    }
  }

  /** The entry of an object. */
  function Find(s: seq<Entry>, id: ObjectId): Option<Entry>
  {
    var k := IndexOf(s, id);
    if k.None? then None else Some(s[k.value])
  }

  /** What a setter changes. */
  datatype Field = Name(text: CString) | View(text: CString) | Extension(text: CString) | Kind(kind: U32)

  function SetField(e: Entry, f: Field): (r: Entry)
    ensures r.id == e.id && (Terminated(e) ==> Terminated(r))
  {
    match f
    case Name(text) => e.(name := Fitted(text, 64))
    case View(text) => e.(view := Fitted(text, 64))
    case Extension(text) => e.(extension := Fitted(text, 16))
    case Kind(kind) => e.(kind := kind)
  }

  datatype Op = Create(kind: U32) | Delete(id: ObjectId) | Set(id: ObjectId, field: Field)

  /** The identifier the next object gets; the counter wraps around. */
  function NextId(last: U64): ObjectId
  {
    ObjectId(0, (last + 1) % 0x1_0000_0000_0000_0000)
  }

  /** The entry of a new object: name, view and extension stay as the slot had them. */
  function NewEntry(slot: Entry, id: ObjectId, kind: U32): (e: Entry)
    ensures e.id == id && (Terminated(slot) ==> Terminated(e))
  {
    slot.(id := id, kind := kind, dataOffset := 0, metaOffset := 0, checksum := Checked(NewMeta(id, kind)))
  }

  /** The core metadata of an object as it is read back. */
  function MetaOf(e: Entry): Meta
  {
    NewMeta(e.id, e.kind).(checksum := e.checksum)
  }

  /** What is read back of an object is accepted exactly if its type is the one it was created with. */
  lemma RetypedRejected(slot: Entry, id: ObjectId, kind: U32, kind': U32)
    requires kind <= KIND_DATA && kind' <= KIND_DATA
    ensures Accepted(MetaOf(SetField(NewEntry(slot, id, kind), Kind(kind')))) <==> kind' == kind
  {
    hide Accepted;
    KindDecides(id, kind, kind');
  }

  /** The index after an operation. */
  function Apply(st: State, op: Op): (st': State)
    requires st.Shape()
    ensures st'.Shape()
  {
    match op
    case Create(kind) =>
      var id := NextId(st.last);
      if st.count == MAX_OBJECTS then st.(last := id.low)
      else State(st.slots[st.count := NewEntry(st.slots[st.count], id, kind)], st.count + 1, id.low)
    case Delete(id) =>
      var k := IndexOf(st.Live(), id);
      if k.None? then st
      else State(st.slots[..k.value] + st.slots[k.value + 1..st.count] + st.slots[st.count - 1..], st.count - 1,
                 st.last)
    case Set(id, field) =>
      var k := IndexOf(st.Live(), id);
      if k.None? then st else st.(slots := st.slots[k.value := SetField(st.slots[k.value], field)])
  }

  /** The identifier an operation gives out. */
  function Issued(st: State, op: Op): ObjectId
    requires st.Shape()
  {
    if op.Create? && st.count < MAX_OBJECTS then NextId(st.last) else NULL_ID
  }

  // ----- one operation

  lemma OrderedSub(s: seq<Entry>, k: nat, last: U64)
    requires Ordered(s, last) && k < |s|
    ensures Ordered(s[..k] + s[k + 1..], last)
  {
  }

  lemma CreateValid(st: State, kind: U32)
    requires st.Valid()
    ensures Apply(st, Create(kind)).Valid() <==> st.last < U64_MAX
  {
    hide NewEntry;
    var st' := Apply(st, Create(kind));
    if st.count < MAX_OBJECTS {
      assert st'.Live() == st.Live() + [st'.slots[st.count]];
      assert st'.Live()[st.count].id == NextId(st.last);
    } else {
      assert st'.Live() == st.Live() && 0 < st.Live()[0].id.low;
    }
  }

  lemma DeleteValid(st: State, id: ObjectId)
    requires st.Valid()
    ensures Apply(st, Delete(id)).Valid()
  {
    hide Ordered, Terminated;
    var st', k := Apply(st, Delete(id)), IndexOf(st.Live(), id);
    if k.Some? {
      assert st'.Live() == st.Live()[..k.value] + st.Live()[k.value + 1..];
      OrderedSub(st.Live(), k.value, st.last);
      forall i | 0 <= i < MAX_OBJECTS ensures Terminated(st'.slots[i]) {
        assert st'.slots[i] == if k.value <= i < st.count - 1 then st.slots[i + 1] else st.slots[i];
      }
    }
  }

  lemma SetValid(st: State, id: ObjectId, field: Field)
    requires st.Valid()
    ensures Apply(st, Set(id, field)).Valid()
  {
    hide SetField, Terminated;
    var st', k := Apply(st, Set(id, field)), IndexOf(st.Live(), id);
    if k.Some? {
      assert st'.Live() == st.Live()[k.value := SetField(st.slots[k.value], field)];
    }
  }

  /** An operation keeps the index valid exactly if the identifier counter does not wrap around. */
  lemma ApplyValid(st: State, op: Op)
    requires st.Valid()
    ensures Apply(st, op).Valid() <==> !(op.Create? && st.last == U64_MAX)
  {
    hide Apply, State.Valid;
    match op
    case Create(kind) => CreateValid(st, kind);
    case Delete(id) => DeleteValid(st, id);
    case Set(id, field) => SetValid(st, id, field);
  }

  /** An entry is found at its own identifier. */
  lemma FindAt(s: seq<Entry>, last: U64, i: nat)
    requires Ordered(s, last) && i < |s|
    ensures IndexOf(s, s[i].id) == Some(i)
  {
    IndexOfFirst(s, s[i].id, i);
  }

  lemma NotFound(s: seq<Entry>, id: ObjectId)
    requires forall i :: 0 <= i < |s| ==> s[i].id != id
    ensures Find(s, id) == None
  {
    IndexOfFirst(s, id, |s|);
  }

  /** The identifiers in the order of creation. */
  function Ids(s: seq<Entry>): (r: seq<ObjectId>)
    ensures |r| == |s|
    ensures forall i :: 0 <= i < |s| ==> r[i] == s[i].id
  {
    seq(|s|, i requires 0 <= i < |s| => s[i].id)
  }

  /** Creating adds one object at the end; deleting removes one and keeps the order of the others; setting a
      field moves nothing. */
  lemma ApplyIds(st: State, op: Op)
    requires st.Valid() && (op.Create? ==> st.last < U64_MAX)
    ensures var s, s' := Ids(st.Live()), Ids(Apply(st, op).Live());
            match op
            case Create(_) => s' == if st.count < MAX_OBJECTS then s + [NextId(st.last)] else s
            case Delete(id) =>
              (id !in s && s' == s) || (exists k :: 0 <= k < |s| && s[k] == id && s' == s[..k] + s[k + 1..])
            case Set(_, _) => s' == s
  {
    hide Ordered, Terminated, NewEntry, SetField;
    var s, st' := Ids(st.Live()), Apply(st, op);
    if op.Delete? {
      var k := IndexOf(st.Live(), op.id);
      if k.Some? {
        assert st'.Live() == st.Live()[..k.value] + st.Live()[k.value + 1..];
        assert s[k.value] == op.id && Ids(st'.Live()) == s[..k.value] + s[k.value + 1..];
      } else {
        forall i | 0 <= i < |s| ensures s[i] != op.id {
          IndexOfNone(st.Live(), op.id, i);
        }
      }
    }
  }

  lemma CreatedFind(st: State, kind: U32, x: ObjectId)
    requires st.Valid() && st.last < U64_MAX
    ensures Find(Apply(st, Create(kind)).Live(), x)
         == if st.count < MAX_OBJECTS && x == NextId(st.last) then Some(NewEntry(st.slots[st.count], x, kind))
            else Find(st.Live(), x)
  {
    hide NewEntry, Terminated;
    var s, st' := st.Live(), Apply(st, Create(kind));
    var s' := st'.Live();
    CreateValid(st, kind);
    var k := IndexOf(s, x);
    if k.Some? {
      assert s'[k.value] == s[k.value];
      FindAt(s', st'.last, k.value);
    } else {
      forall i | 0 <= i < |s| ensures s[i].id != x {
        IndexOfNone(s, x, i);
      }
      if st.count < MAX_OBJECTS && x == NextId(st.last) {
        FindAt(s', st'.last, st.count);
      } else {
        NotFound(s', x);
      }
    }
  }

  lemma ChangedFind(st: State, id: ObjectId, field: Field, x: ObjectId)
    requires st.Valid()
    ensures Find(Apply(st, Set(id, field)).Live(), x)
         == if x == id && Find(st.Live(), x).Some? then Some(SetField(Find(st.Live(), x).value, field))
            else Find(st.Live(), x)
  {
    hide SetField, Terminated;
    var s, st' := st.Live(), Apply(st, Set(id, field));
    var s' := st'.Live();
    SetValid(st, id, field);
    var k := IndexOf(s, x);
    if k.Some? {
      assert s'[k.value].id == x;
      FindAt(s', st'.last, k.value);
    } else {
      forall i | 0 <= i < |s| ensures s[i].id != x {
        IndexOfNone(s, x, i);
      }
      NotFound(s', x);
    }
  }

  lemma DeletedFind(st: State, id: ObjectId, x: ObjectId)
    requires st.Valid()
    ensures Find(Apply(st, Delete(id)).Live(), x) == if x == id then None else Find(st.Live(), x)
  {
    hide Terminated;
    var s, st' := st.Live(), Apply(st, Delete(id));
    var s' := st'.Live();
    DeleteValid(st, id);
    var k, d := IndexOf(s, x), IndexOf(s, id);
    if d.Some? {
      assert s' == s[..d.value] + s[d.value + 1..];
    }
    if k.Some? && x != id {
      if d.Some? {
        var j := if k.value < d.value then k.value else k.value - 1;
        assert s'[j] == s[k.value];
        FindAt(s', st'.last, j);
      }
    } else if k.Some? {
      NotFound(s', x);
    } else {
      forall i | 0 <= i < |s| ensures s[i].id != x {
        IndexOfNone(s, x, i);
      }
      NotFound(s', x);
    }
  }

  /** As a map from identifiers to entries, the index changes at most at the identifier the operation is
      about. */
  lemma ApplyFind(st: State, op: Op, x: ObjectId)
    requires st.Valid() && (op.Create? ==> st.last < U64_MAX)
    ensures Find(Apply(st, op).Live(), x) ==
            match op
            case Create(kind) =>
              if st.count < MAX_OBJECTS && x == NextId(st.last) then Some(NewEntry(st.slots[st.count], x, kind))
              else Find(st.Live(), x)
            case Delete(id) => if x == id then None else Find(st.Live(), x)
            case Set(id, field) =>
              if x == id && Find(st.Live(), x).Some? then Some(SetField(Find(st.Live(), x).value, field))
              else Find(st.Live(), x)
  {
    hide SetField, NewEntry, Apply, Find, Ordered, Terminated;
    match op
    case Create(kind) => CreatedFind(st, kind, x);
    case Delete(id) => DeletedFind(st, id, x);
    case Set(id, field) => ChangedFind(st, id, field, x);
  }

  // ----- runs

  ghost predicate Run(states: seq<State>, ops: seq<Op>)
  {
    && |states| == |ops| + 1 && states[0].Valid()
    && (forall i {:trigger states[i]} :: 0 <= i < |states| ==> states[i].Shape())
    && (forall i {:trigger ops[i]} :: 0 <= i < |ops| ==> states[i + 1] == Apply(states[i], ops[i]))
  }

  /** How many of the operations create. */
  function Creates(ops: seq<Op>): nat
  {
    if ops == [] then 0
    else Creates(ops[..|ops| - 1]) + (if ops[|ops| - 1].Create? then 1 else 0)
  }

  lemma RunPrefix(states: seq<State>, ops: seq<Op>, n: nat)
    requires Run(states, ops) && n <= |ops|
    ensures Run(states[..n + 1], ops[..n])
  {
    forall i | 0 <= i < n
      ensures states[..n + 1][i + 1] == Apply(states[..n + 1][i], ops[..n][i])
    {
      assert ops[..n][i] == ops[i];
    }
  }

  /** Every identifier asked for is used up, also when the table is full; while the counter has not wrapped
      around, every state of a run is valid. */
  lemma {:induction false} RunValid(states: seq<State>, ops: seq<Op>)
    requires Run(states, ops) && states[0].last + Creates(ops) <= U64_MAX
    ensures states[|ops|].Valid() && states[|ops|].last == states[0].last + Creates(ops)
    decreases |ops|
  {
    hide Apply, State.Valid;
    if ops == [] {
    } else {
      var n := |ops| - 1;
      RunPrefix(states, ops, n);
      RunValid(states[..n + 1], ops[..n]);
      ApplyValid(states[n], ops[n]);
      ApplyLast(states[n], ops[n]);
    }
  }

  lemma ApplyLast(st: State, op: Op)
    requires st.Shape()
    ensures Apply(st, op).last == if op.Create? then NextId(st.last).low else st.last
  {
  }

  lemma {:induction false} CreatesPrefix(ops: seq<Op>, n: nat)
    requires n <= |ops|
    ensures Creates(ops[..n]) <= Creates(ops)
    decreases |ops|
  {
    if n < |ops| {
      CreatesPrefix(ops[..|ops| - 1], n);
      assert ops[..|ops| - 1][..n] == ops[..n];
    } else {
      assert ops[..n] == ops;
    }
  }

  /** No identifier is given out twice in a run, and none that was live when the run began. */
  lemma IssuedOnce(states: seq<State>, ops: seq<Op>, i: nat, j: nat)
    requires Run(states, ops) && states[0].last + Creates(ops) <= U64_MAX && i < j < |ops|
    requires Issued(states[i], ops[i]) != NULL_ID && Issued(states[j], ops[j]) != NULL_ID
    ensures Issued(states[i], ops[i]).low < Issued(states[j], ops[j]).low
    ensures Find(states[0].Live(), Issued(states[j], ops[j])) == None
  {
    hide Apply, Terminated, Issued, Creates, NextId;
    IssuedLow(states, ops, i);
    IssuedLow(states, ops, j);
    CreatesPrefix(ops[..j], i + 1);
    assert ops[..j][..i + 1] == ops[..i + 1];
    NotFound(states[0].Live(), Issued(states[j], ops[j]));
  }

  lemma IssuedIs(st: State, op: Op)
    requires st.Shape() && Issued(st, op) != NULL_ID
    ensures op.Create? && Issued(st, op).low == (st.last + 1) % 0x1_0000_0000_0000_0000
  {
  }

  lemma IssuedLow(states: seq<State>, ops: seq<Op>, i: nat)
    requires Run(states, ops) && states[0].last + Creates(ops) <= U64_MAX && i < |ops|
    requires Issued(states[i], ops[i]) != NULL_ID
    ensures Creates(ops[..i + 1]) == Creates(ops[..i]) + 1
    ensures Issued(states[i], ops[i]).low == states[0].last + Creates(ops[..i + 1])
  {
    hide Apply, Terminated, Ordered, Issued, NextId, Creates;
    RunLast(states, ops, i);
    IssuedIs(states[i], ops[i]);
    CreatesNext(ops, i);
    CreatesPrefix(ops, i + 1);
  }

  lemma CreatesNext(ops: seq<Op>, i: nat)
    requires i < |ops| && ops[i].Create?
    ensures Creates(ops[..i + 1]) == Creates(ops[..i]) + 1
  {
    assert ops[..i + 1][..i] == ops[..i];
  }

  lemma RunLast(states: seq<State>, ops: seq<Op>, i: nat)
    requires Run(states, ops) && states[0].last + Creates(ops) <= U64_MAX && i <= |ops|
    ensures states[i].Shape() && states[i].last == states[0].last + Creates(ops[..i])
  {
    hide Apply, Terminated, Ordered;
    RunPrefix(states, ops, i);
    CreatesPrefix(ops, i);
    RunValid(states[..i + 1], ops[..i]);
  }

  /** Which operation is the k-th create, counted from 0. */
  function NthCreate(ops: seq<Op>, k: nat): (r: Option<nat>)
    ensures r.Some? ==> r.value < |ops|
  {
    if ops == [] then None
    else
      var rest := ops[..|ops| - 1];
      var r := NthCreate(rest, k);
      if r.Some? then r
      else if ops[|ops| - 1].Create? && Creates(rest) == k then Some(|ops| - 1)
      else None
  }

  lemma {:induction false} NthCreateIs(ops: seq<Op>, k: nat, j: nat)
    requires j < |ops|
    ensures NthCreate(ops, k) == Some(j) <==> ops[j].Create? && Creates(ops[..j]) == k
    decreases |ops|
  {
    var n := |ops| - 1;
    var rest := ops[..n];
    var r := NthCreate(rest, k);
    if j < n {
      NthCreateIs(rest, k, j);
      assert rest[..j] == ops[..j];
    } else if r.Some? {
      NthCreateIs(rest, k, r.value);
      assert rest[..r.value + 1][..r.value] == rest[..r.value];
      CreatesPrefix(rest, r.value + 1);
    }
  }

  /** Some operation of the run gives out the identifier. */
  ghost predicate GivenOut(states: seq<State>, ops: seq<Op>, id: ObjectId)
    requires Run(states, ops)
  {
    exists j :: 0 <= j < |ops| && Issued(states[j], ops[j]) == id
  }

  /** An identifier is issued by the run exactly if its number among those drawn in the run is that of a create which
      found room in the table. Creates that find none draw an identifier too, but issue nothing. */
  lemma IssuedIff(states: seq<State>, ops: seq<Op>, low: U64)
    requires Run(states, ops) && states[0].last + Creates(ops) <= U64_MAX && 0 < low
    ensures GivenOut(states, ops, ObjectId(0, low)) <==>
            states[0].last < low
            && var j := NthCreate(ops, low - 1 - states[0].last);
               j.Some? && states[j.value].count < MAX_OBJECTS
  {
    hide Issued, Creates, NthCreate, Apply, Ordered, Terminated;
    RunValid(states, ops);
    if j: nat :| j < |ops| && Issued(states[j], ops[j]) == ObjectId(0, low) {
      IssuedAt(states, ops, j, low);
    }
    if states[0].last < low {
      var j := NthCreate(ops, low - 1 - states[0].last);
      if j.Some? && states[j.value].count < MAX_OBJECTS {
        IssuedAt(states, ops, j.value, low);
      }
    }
  }

  lemma IssuedAt(states: seq<State>, ops: seq<Op>, j: nat, low: U64)
    requires Run(states, ops) && states[0].last + Creates(ops) <= U64_MAX && 0 < low && j < |ops|
    ensures Issued(states[j], ops[j]) == ObjectId(0, low) <==>
            && states[0].last < low && states[j].count < MAX_OBJECTS
            && NthCreate(ops, low - 1 - states[0].last) == Some(j)
  {
    hide Apply, Terminated, Ordered, Creates, NthCreate;
    RunLast(states, ops, j);
    if ops[j].Create? {
      CreatesNext(ops, j);
      CreatesPrefix(ops, j + 1);
    }
    if states[0].last < low {
      NthCreateIs(ops, low - 1 - states[0].last, j);
    }
  }

  // ----- what an object is made of

  /** An object just created is found under its identifier with the type asked for and no data yet, and the record read
      back of it is accepted. */
  lemma CreatedEntry(st: State, kind: U32)
    requires st.Valid() && st.count < MAX_OBJECTS && st.last < U64_MAX
    ensures var id, r := Issued(st, Create(kind)), Find(Apply(st, Create(kind)).Live(), Issued(st, Create(kind)));
            && id.low == st.last + 1 && id.high == 0
            && r.Some? && r.value.id == id && r.value.kind == kind
            && r.value.dataOffset == 0 && r.value.metaOffset == 0
            && MetaOf(r.value).id == id && MetaOf(r.value).kind == kind && Accepted(MetaOf(r.value))
  {
    hide Find, Apply, Accepted, Checked, Ordered, Terminated;
    ApplyFind(st, Create(kind), NextId(st.last));
    NewMetaIs(NextId(st.last), kind);
    CheckedAccepted(NewMeta(NextId(st.last), kind));
  }

  /** What the setters do, in terms of what is read back. */
  lemma SetReads(e: Entry, text: CString, kind: U32)
    ensures var r := SetField(e, Name(text));
            UntilNul(r.name) == (if |text| < 64 then text else text[..63]) && r == e.(name := r.name)
    ensures var r := SetField(e, View(text));
            UntilNul(r.view) == (if |text| < 64 then text else text[..63]) && r == e.(view := r.view)
    ensures var r := SetField(e, Extension(text));
            UntilNul(r.extension) == (if |text| < 16 then text else text[..15]) && r == e.(extension := r.extension)
    ensures SetField(e, Kind(kind)) == e.(kind := kind)
  {
    hide UntilNul, Fitted;
    FittedRead(text, 64);
    FittedRead(text, 16);
  }

  /** What can be read of an object, as strings. */
  datatype Shown = Shown(name: CString, view: CString, extension: CString, kind: U32)

  function ShownOf(e: Entry): Shown
  {
    Shown(UntilNul(e.name), UntilNul(e.view), UntilNul(e.extension), e.kind)
  }

  /** The last values given to the fields of an object by setters, on top of those it had. */
  function LastSet(ops: seq<Op>, id: ObjectId, v: Shown): Shown
  {
    if ops == [] then v
    else
      var before, op := LastSet(ops[..|ops| - 1], id, v), ops[|ops| - 1];
      if !op.Set? || op.id != id then before
      else
        match op.field
        case Name(text) => before.(name := if |text| < 64 then text else text[..63])
        case View(text) => before.(view := if |text| < 64 then text else text[..63])
        case Extension(text) => before.(extension := if |text| < 16 then text else text[..15])
        case Kind(kind) => before.(kind := kind)
  }

  lemma RunFind(states: seq<State>, ops: seq<Op>, k: nat, x: ObjectId)
    requires Run(states, ops) && states[0].last + Creates(ops) <= U64_MAX && k < |ops|
    ensures states[k].Valid() && (ops[k].Create? ==> states[k].last < U64_MAX)
    ensures states[k + 1] == Apply(states[k], ops[k])
  {
    hide Apply, State.Valid;
    RunLast(states, ops, k);
    RunPrefix(states, ops, k);
    CreatesPrefix(ops, k);
    RunValid(states[..k + 1], ops[..k]);
    if ops[k].Create? {
      CreatesNext(ops, k);
      CreatesPrefix(ops, k + 1);
    }
  }

  /** Over every run an object that nobody deletes keeps its identifier, offsets and checksum, and its type, name, view
      and extension are those set last, or else those it had. */
  lemma {:induction false} LastSetInRun(states: seq<State>, ops: seq<Op>, i: nat, k: nat, id: ObjectId)
    requires Run(states, ops) && states[0].last + Creates(ops) <= U64_MAX && i <= k <= |ops|
    requires Find(states[i].Live(), id).Some? && forall l :: i <= l < k ==> ops[l] != Delete(id)
    ensures states[k].Shape() && states[i].Shape() && Find(states[k].Live(), id).Some?
    ensures var e, e' := Find(states[i].Live(), id).value, Find(states[k].Live(), id).value;
            && ShownOf(e') == LastSet(ops[i..k], id, ShownOf(e))
            && e'.id == e.id && e'.dataOffset == e.dataOffset && e'.metaOffset == e.metaOffset
            && e'.checksum == e.checksum
    decreases k
  {
    hide Find, Apply, State.Valid, UntilNul, SetField, NewEntry;
    if i == k {
      assert ops[i..k] == [];
    } else {
      LastSetInRun(states, ops, i, k - 1, id);
      assert ops[i..k][..k - 1 - i] == ops[i..k - 1] && ops[i..k][k - 1 - i] == ops[k - 1];
      RunFind(states, ops, k - 1, id);
      ApplyFind(states[k - 1], ops[k - 1], id);
      OneSet(states[k - 1], ops[k - 1], id);
    }
  }

  /** One operation other than a deletion of the object. */
  lemma OneSet(st: State, op: Op, id: ObjectId)
    requires st.Valid() && (op.Create? ==> st.last < U64_MAX) && Find(st.Live(), id).Some? && op != Delete(id)
    ensures Find(Apply(st, op).Live(), id).Some?
    ensures var e, e' := Find(st.Live(), id).value, Find(Apply(st, op).Live(), id).value;
            && ShownOf(e') == LastSet([op], id, ShownOf(e))
            && e'.id == e.id && e'.dataOffset == e.dataOffset && e'.metaOffset == e.metaOffset
            && e'.checksum == e.checksum
  {
    hide Find, Apply, Ordered, Terminated, UntilNul, NewEntry, Fitted;
    ApplyFind(st, op, id);
    assert [op][..0] == [];
    match op {
      case Set(_, field) =>
        match field {
          case Name(text) => SetReads(Find(st.Live(), id).value, text, 0);
          case View(text) => SetReads(Find(st.Live(), id).value, text, 0);
          case Extension(text) => SetReads(Find(st.Live(), id).value, text, 0);
          case Kind(kind) =>
        }
      case Create(kind) => NotNext(st, id);
      case _ =>
    }
  }

  /** The next identifier is not one of a live object. */
  lemma NotNext(st: State, id: ObjectId)
    requires st.Valid() && st.last < U64_MAX && Find(st.Live(), id).Some?
    ensures id != NextId(st.last)
  {
    var k := IndexOf(st.Live(), id).value;
    assert st.Live()[k].id == id;
  }

  /** So over every run an object has the type it was set to last, or else the one it was created with. */
  lemma CreatedInRun(states: seq<State>, ops: seq<Op>, i: nat, k: nat)
    requires Run(states, ops) && states[0].last + Creates(ops) <= U64_MAX && i < k <= |ops|
    requires ops[i].Create? && Issued(states[i], ops[i]) != NULL_ID
    requires forall l :: i < l < k ==> ops[l] != Delete(Issued(states[i], ops[i]))
    ensures states[k].Shape() && states[i + 1].Shape() && Find(states[k].Live(), Issued(states[i], ops[i])).Some?
    ensures var id := Issued(states[i], ops[i]); Find(states[i + 1].Live(), id).Some?
    ensures var id := Issued(states[i], ops[i]);
            var born, e := Find(states[i + 1].Live(), id).value, Find(states[k].Live(), id).value;
            && ShownOf(born).kind == ops[i].kind && ShownOf(e) == LastSet(ops[i + 1..k], id, ShownOf(born))
            && e.id == id && e.dataOffset == 0 && e.metaOffset == 0 && e.checksum == Checked(NewMeta(id, ops[i].kind))
  {
    hide Find, Apply, State.Valid, UntilNul, SetField, LastSet, Checked;
    RunFind(states, ops, i, Issued(states[i], ops[i]));
    ApplyFind(states[i], ops[i], Issued(states[i], ops[i]));
    LastSetInRun(states, ops, i + 1, k, Issued(states[i], ops[i]));
  }

  // ----- slots are reused as they are

  /** After any deletion, the next object created is born with the name, view and extension of the object that
      was last in the index before the deletion. */
  lemma BornWithLastName(st: State, id: ObjectId, kind: U32)
    requires st.Valid() && Find(st.Live(), id).Some?
    ensures var st' := Apply(Apply(st, Delete(id)), Create(kind));
            && st'.count == st.count
            && st'.slots[st.count - 1].name == st.slots[st.count - 1].name
            && st'.slots[st.count - 1].view == st.slots[st.count - 1].view
            && st'.slots[st.count - 1].extension == st.slots[st.count - 1].extension
  {
    var mid := Apply(st, Delete(id));
    assert mid.slots[st.count - 1] == st.slots[st.count - 1];
  }

  /** Slots from `high` on have never been used. */
  predicate BlankFrom(st: State, high: nat)
  {
    st.Shape() && st.count <= high <= MAX_OBJECTS && forall i :: high <= i < MAX_OBJECTS ==> st.slots[i] == Unused()
  }

  /** The last state up to the n-th in which more than c entries were in use. */
  ghost function LastAbove(states: seq<State>, c: nat, n: nat): (r: Option<nat>)
    requires n < |states|
    ensures r.Some? ==> r.value <= n && states[r.value].count > c
    ensures forall l :: (if r.Some? then r.value < l else 0 <= l) && l <= n ==> states[l].count <= c
  {
    if states[n].count > c then Some(n)
    else if n == 0 then None
    else LastAbove(states, c, n - 1)
  }

  /** A slot keeps what it held last for as long as it is not in use. */
  lemma {:induction false} SlotKept(states: seq<State>, ops: seq<Op>, i: nat, k: nat, c: nat)
    requires Run(states, ops) && i <= k <= |ops| && c < MAX_OBJECTS && states[i].count <= c + 1
    requires forall l :: i < l <= k ==> states[l].count <= c
    ensures states[k].Shape() && states[i].Shape() && states[k].slots[c] == states[i].slots[c]
    decreases k
  {
    hide Ordered, Terminated, Apply;
    if i < k {
      SlotKept(states, ops, i, k - 1, c);
      assert states[k - 1 + 1] == Apply(states[k - 1], ops[k - 1]);
      SlotStep(states[k - 1], ops[k - 1], c);
    }
  }

  lemma SlotStep(st: State, op: Op, c: nat)
    requires st.Shape() && c < MAX_OBJECTS && st.count <= c + 1 && Apply(st, op).count <= c
    ensures Apply(st, op).slots[c] == st.slots[c]
  {
    hide NewEntry, SetField;
  }

  /** Falling below c + 1 entries takes a deletion, and is by one. */
  lemma FallsByOne(st: State, op: Op, c: nat)
    requires st.Shape() && st.count > c && Apply(st, op).count <= c
    ensures op.Delete? && st.count == c + 1
  {
    hide NewEntry, SetField;
  }

  /** With what an object is born when c entries are in use: with nothing, if there never were more; otherwise with
      the name, view and extension of the object that was last when the number of entries last fell to c. */
  lemma BornWith(states: seq<State>, ops: seq<Op>, n: nat)
    requires Run(states, ops) && n < |ops| && ops[n].Create? && BlankFrom(states[0], states[0].count)
    requires states[n].count < MAX_OBJECTS
    ensures var c := states[n].count;
            var r, e := LastAbove(states, c, n), states[n + 1].slots[c];
            && states[n + 1].count == c + 1
            && (r.None? ==> e.name == Unused().name && e.view == Unused().view && e.extension == Unused().extension)
            && (r.Some? ==> r.value < n && ops[r.value].Delete? && states[r.value].count == c + 1
                            && var last := states[r.value].Live()[c];
                               e.name == last.name && e.view == last.view && e.extension == last.extension)
  {
    hide Ordered, Terminated, Unused, Apply;
    var c := states[n].count;
    var r := LastAbove(states, c, n);
    CreatedSlot(states[n], ops[n].kind);
    assert states[n + 1] == Apply(states[n], ops[n]);
    if r.None? {
      SlotKept(states, ops, 0, n, c);
    } else {
      var i := r.value;
      assert states[i + 1] == Apply(states[i], ops[i]);
      FallsByOne(states[i], ops[i], c);
      SlotKept(states, ops, i, n, c);
    }
  }

  lemma CreatedSlot(st: State, kind: U32)
    requires st.Shape() && st.count < MAX_OBJECTS
    ensures var st', e := Apply(st, Create(kind)), st.slots[st.count];
            && st'.count == st.count + 1
            && st'.slots[st.count].name == e.name && st'.slots[st.count].view == e.view
            && st'.slots[st.count].extension == e.extension
  {
  }

  /** So an object is born nameless exactly if the index was never fuller, or the object that was last when it was
      last fuller had no name. */
  lemma BornNamelessIff(states: seq<State>, ops: seq<Op>, n: nat)
    requires Run(states, ops) && n < |ops| && ops[n].Create? && BlankFrom(states[0], states[0].count)
    requires states[n].count < MAX_OBJECTS
    ensures var c := states[n].count;
            var r, e := LastAbove(states, c, n), states[n + 1].slots[c];
            && (UntilNul(e.name) == [] <==> r.None? || UntilNul(states[r.value].slots[c].name) == [])
            && (UntilNul(e.view) == [] <==> r.None? || UntilNul(states[r.value].slots[c].view) == [])
            && (UntilNul(e.extension) == [] <==> r.None? || UntilNul(states[r.value].slots[c].extension) == [])
  {
    hide Apply, LastAbove, Ordered, Terminated;
    BornWith(states, ops, n);
    var name, view, extension := Unused().name, Unused().view, Unused().extension;
    assert UntilNul(name) == [] && UntilNul(view) == [] && UntilNul(extension) == [];
  }

  // ----- looking up by name

  /** The entry has this name; no entry has the empty name. */
  predicate Called(e: Entry, name: seq<Byte>)
  {
    e.name[0] != 0 && UntilNul(e.name) == name
  }

  lemma CalledIff(e: Entry, name: seq<Byte>)
    ensures Called(e, name) <==> UntilNul(e.name) == name && name != []
  {
  }

  /** The first object of a name. */
  function FirstNamed(s: seq<Entry>, name: seq<Byte>): (r: Option<nat>)
    ensures r.Some? ==> r.value < |s| && Called(s[r.value], name)
  {
    if s == [] then None
    else if Called(s[0], name) then Some(0)
    else
      var r := FirstNamed(s[1..], name);
      if r.None? then None else Some(r.value + 1)
  }

  lemma {:induction false} FirstNamedAt(s: seq<Entry>, name: seq<Byte>, k: nat)
    requires k <= |s| && (k < |s| ==> Called(s[k], name)) && forall i :: 0 <= i < k ==> !Called(s[i], name)
    ensures FirstNamed(s, name) == if k < |s| then Some(k) else None
  {
    hide Called;
    if k > 0 {
      FirstNamedAt(s[1..], name, k - 1);
    }
  }

  lemma {:induction false} FirstNamedFirst(s: seq<Entry>, name: seq<Byte>, i: nat)
    requires i < |s| && (FirstNamed(s, name).Some? ==> i < FirstNamed(s, name).value)
    ensures !Called(s[i], name)
  {
    hide Called;
    if i > 0 {
      FirstNamedFirst(s[1..], name, i - 1);
    }
  }

  /** A name of sixteen hexadecimal digits is an identifier, whatever objects there are. */
  function ResolvedName(s: seq<Entry>, name: CString): ObjectId
  {
    if |name| == 16 && Scanned(name).Some? then Scanned(name).value
    else
      var r := FirstNamed(s, name);
      if r.None? then NULL_ID else s[r.value].id
  }

  /** Naming an object makes the name resolve to it exactly if the name fits the buffer, is not made of sixteen
      hexadecimal digits that denote something else, and no older object has it. */
  lemma NamedResolves(st: State, id: ObjectId, name: CString)
    requires st.Valid() && Find(st.Live(), id).Some? && name != []
    ensures var st' := Apply(st, Set(id, Name(name)));
            ResolvedName(st'.Live(), name) == id <==>
            if |name| == 16 && Scanned(name).Some? then Scanned(name).value == id
            else |name| < 64 && forall e :: e in st.Live() && e.id.low < id.low ==> UntilNul(e.name) != name
  {
    hide Fitted, Scanned, Ordered, Called, UntilNul;
    var s, st' := st.Live(), Apply(st, Set(id, Name(name)));
    var s', k := st'.Live(), IndexOf(st.Live(), id).value;
    if !(|name| == 16 && Scanned(name).Some?) {
      OlderThan(s, st.last, k);
      SetValid(st, id, Name(name));
      NotNull(s, st.last, k);
      assert s' == s[k := SetField(s[k], Name(name))];
      FittedRead(name, 64);
      CalledIff(s'[k], name);
      forall i | 0 <= i < k ensures Called(s'[i], name) <==> UntilNul(s[i].name) == name {
        CalledIff(s'[i], name);
      }
      if |name| >= 64 {
        LongNameNowhere(s', name);
      } else if i :| 0 <= i < k && Called(s'[i], name) {
        FirstNamedBefore(s', name, i);
        DistinctIds(s', st.last, FirstNamed(s', name).value, k);
        assert s[i] in s;
      } else {
        FirstNamedAt(s', name, k);
      }
    }
  }

  lemma FirstNamedBefore(s: seq<Entry>, name: seq<Byte>, i: nat)
    requires i < |s| && Called(s[i], name)
    ensures FirstNamed(s, name).Some? && FirstNamed(s, name).value <= i
  {
    hide Called;
    if FirstNamed(s, name).None? || i < FirstNamed(s, name).value {
      FirstNamedFirst(s, name, i);
    }
  }

  /** The older objects are those at lower positions. */
  lemma OlderThan(s: seq<Entry>, last: U64, k: nat)
    requires Ordered(s, last) && k < |s|
    ensures forall i :: 0 <= i < |s| ==> (s[i].id.low < s[k].id.low <==> i < k)
  {
  }

  lemma NotNull(s: seq<Entry>, last: U64, k: nat)
    requires Ordered(s, last) && k < |s|
    ensures s[k].id != NULL_ID
  {
  }

  lemma DistinctIds(s: seq<Entry>, last: U64, i: nat, j: nat)
    requires Ordered(s, last) && i < j < |s|
    ensures s[i].id != s[j].id
  {
  }

  lemma LongNameNowhere(s: seq<Entry>, name: CString)
    requires (forall i :: 0 <= i < |s| ==> Terminated(s[i])) && |name| >= 64
    ensures FirstNamed(s, name) == None
  {
    forall i | 0 <= i < |s|
      ensures !Called(s[i], name)
    {
      UntilNulShort(s[i].name, 63);
    }
    FirstNamedAt(s, name, |s|);
  }

  lemma {:induction false} UntilNulShort(s: seq<Byte>, k: nat)
    requires k < |s| && s[k] == 0
    ensures |UntilNul(s)| <= k
  {
    if k > 0 {
      UntilNulShort(s[1..], k - 1);
    }
  }

  // ----- the index in memory

  /** The table s after the entries k + 1 to j were moved down by one. */
  function Shifted(s: seq<Entry>, k: nat, j: nat): seq<Entry>
    requires k <= j < |s|
  {
    s[..k] + s[k + 1..j + 1] + s[j..]
  }

  lemma ShiftedStep(s: seq<Entry>, k: nat, j: nat)
    requires k <= j < |s| - 1
    ensures Shifted(s, k, j)[j + 1] == s[j + 1]
    ensures Shifted(s, k, j)[j := s[j + 1]] == Shifted(s, k, j + 1)
  {
  }

  class Index {
    const entries: array<Entry>
    var count: U32
    var last: U64
    var views: U32

    ghost function Value(): State
      reads this, entries
    {
      State(entries[..], count, last)
    }

    ghost predicate Valid()
      reads this, entries
    {
      Value().Valid()
    }

    constructor ()
      ensures Valid() && count == 0 && last == 0 && views == 0 && fresh(entries)
      ensures BlankFrom(Value(), 0)
    {
      entries := new Entry[MAX_OBJECTS](_ => Unused());
      count, last, views := 0, 0, 0;
    }

    /** The position of an object's entry. */
    method Locate(id: ObjectId) returns (r: Option<nat>)
      requires Value().Shape()
      ensures r == IndexOf(Value().Live(), id)
    {
      var i: U32 := 0;
      while i < count
        invariant i <= count
        invariant forall j :: 0 <= j < i ==> entries[j].id != id
      {
        if entries[i].id == id {
          IndexOfFirst(Value().Live(), id, i);
          return Some(i);
        }
        i := i + 1;
      }
      IndexOfFirst(Value().Live(), id, i);
      return None;
    }

    /** Gives out the next identifier. */
    method GenerateId() returns (id: ObjectId)
      modifies this`last
      ensures id == NextId(old(last)) && last == id.low
    {
      last := if last == U64_MAX then 0 else last + 1;
      id := ObjectId(0, last);
    }

    /** Adds an object; the null identifier if the table is full. */
    method Create(kind: U32) returns (id: ObjectId)
      requires Value().Shape()
      modifies this`last, this`count, entries
      ensures Value() == Apply(old(Value()), Op.Create(kind)) && id == Issued(old(Value()), Op.Create(kind))
      ensures old(Valid()) && old(last) < U64_MAX ==> Valid()
    {
      if Valid() {
        ApplyValid(Value(), Op.Create(kind));
      }
      id := GenerateId();
      var checksum := Check(NewMeta(id, kind));
      if count >= MAX_OBJECTS {
        return NULL_ID;
      }
      entries[count] := entries[count].(id := id, kind := kind, dataOffset := 0, metaOffset := 0, checksum := checksum);
      count := count + 1;
    }

    /** Removes an object, moving the entries after it down by one. */
    method Delete(id: ObjectId) returns (r: int)
      requires Value().Shape()
      modifies this`count, entries
      ensures Value() == Apply(old(Value()), Op.Delete(id)) && (old(Valid()) ==> Valid())
      ensures r == if Find(old(Value()).Live(), id).Some? then 0 else -1
    {
      hide Ordered, Terminated, NewEntry, SetField;
      if Valid() {
        ApplyValid(Value(), Op.Delete(id));
      }
      var k := Locate(id);
      if k.None? {
        return -1;
      }
      ghost var before := entries[..];
      assert |before| == MAX_OBJECTS;
      var j := k.value;
      while j < count - 1
        invariant k.value <= j <= count - 1 && count == old(count)
        invariant entries[..] == Shifted(before, k.value, j)
      {
        ShiftedStep(before, k.value, j);
        entries[j] := entries[j + 1];
        j := j + 1;
      }
      count := count - 1;
      return 0;
    }

    /** Sets one field of an object's entry. */
    method Set(id: ObjectId, field: Field) returns (r: int)
      requires Value().Shape()
      modifies entries
      ensures Value() == Apply(old(Value()), Op.Set(id, field)) && (old(Valid()) ==> Valid())
      ensures r == if Find(old(Value()).Live(), id).Some? then 0 else -1
    {
      if Valid() {
        ApplyValid(Value(), Op.Set(id, field));
      }
      var k := Locate(id);
      if k.None? {
        return -1;
      }
      entries[k.value] := SetField(entries[k.value], field);
      return 0;
    }

    /** The name of an object; None if it has none. */
    method GetName(id: ObjectId) returns (r: Option<CString>)
      requires Value().Shape()
      ensures r == match Find(Value().Live(), id)
                   case Some(e) => (if e.name[0] != 0 then Some(UntilNul(e.name)) else None)
                   case None => None
    {
      var k := Locate(id);
      if k.None? {
        return None;
      }
      if entries[k.value].name[0] == 0 {
        return None;
      }
      return Some(UntilNul(entries[k.value].name));
    }

    /** The core metadata of an object. */
    method GetMeta(id: ObjectId) returns (r: Option<Meta>)
      requires Value().Shape()
      ensures r == match Find(Value().Live(), id)
                   case Some(e) => Some(MetaOf(e))
                   case None => None
    {
      var k := Locate(id);
      if k.None? {
        return None;
      }
      return Some(NewMeta(id, entries[k.value].kind).(checksum := entries[k.value].checksum));
    }

    /** The object a name stands for. */
    method ResolveByName(name: CString) returns (id: ObjectId)
      requires Value().Shape()
      ensures id == ResolvedName(Value().Live(), name)
    {
      hide Scanned, Called, Ordered, Terminated;
      if |name| == 16 {
        var r := ScanId(name);
        if r.Some? {
          return r.value;
        }
      }
      var i: U32 := 0;
      while i < count
        invariant i <= count
        invariant forall j :: 0 <= j < i ==> !Called(entries[j], name)
      {
        if Called(entries[i], name) {
          FirstNamedAt(Value().Live(), name, i);
          return entries[i].id;
        }
        i := i + 1;
      }
      FirstNamedAt(Value().Live(), name, i);
      return NULL_ID;
    }
  }
}
