/** View links and object data, kept as small files with flattened names. */
module Links {
  import opened Bytes
  import opened Layout
  import opened Directory
  import opened Chains
  import opened FileMap
  import opened Contents
  import opened FileSystem
  import opened MetaFiles
  import opened Hex

  const DOT: Byte := 0x2E

  /** "views." */
  const VIEWS: seq<Byte> := [0x76, 0x69, 0x65, 0x77, 0x73, 0x2E]

  /** "data." */
  const DATA: seq<Byte> := [0x64, 0x61, 0x74, 0x61, 0x2E]

  /** The file that holds the link called `name` in a view. */
  function Flat(view: CString, name: CString): (s: CString)
    ensures |s| == 7 + |view| + |name|
  {
    VIEWS + view + [DOT] + name
  }

  lemma FlatParts(view: CString, name: CString)
    ensures Flat(view, name)[6..6 + |view|] == view
    ensures Flat(view, name)[6 + |view|] == DOT
    ensures Flat(view, name)[7 + |view|..] == name
    ensures Flat(view, name)[..6] == VIEWS && StripSlash(Flat(view, name)) == Flat(view, name)
  {
  }

  /** Without dots in view names, no two links share a file. */
  lemma FlatInjective(v: CString, n: CString, w: CString, m: CString)
    requires DOT !in v && DOT !in w && Flat(v, n) == Flat(w, m)
    ensures v == w && n == m
  {
    FlatParts(v, n);
    FlatParts(w, m);
    if |v| < |w| {
      DotInside(Flat(w, m), |v|, w);
    } else if |w| < |v| {
      DotInside(Flat(v, n), |w|, v);
    }
  }

  lemma DotInside(s: seq<Byte>, k: int, view: seq<Byte>)
    requires 0 <= k < |view| && 6 + |view| <= |s| && s[6..6 + |view|] == view && s[6 + k] == DOT
    ensures DOT in view
  {
    assert s[6..6 + |view|][k] == DOT;
  }

  /** The link n in view v has the name that m has in view w, because w is v with more behind a dot, and n says so. */
  predicate Inside(v: CString, n: CString, w: CString, m: CString)
  {
    v + [DOT] <= w && n == w[|v| + 1..] + [DOT] + m
  }

  lemma InsideFlat(v: CString, n: CString, w: CString, m: CString)
    requires Inside(v, n, w, m)
    ensures Flat(v, n) == Flat(w, m)
  {
    assert w == v + [DOT] + w[|v| + 1..];
  }

  lemma FlatInside(v: CString, n: CString, w: CString, m: CString)
    requires Flat(v, n) == Flat(w, m) && |v| < |w|
    ensures Inside(v, n, w, m)
  {
    var s := Flat(v, n);
    FlatParts(v, n);
    FlatParts(w, m);
    assert w == s[6..6 + |w|] && s[6..6 + |w|][..|v|] == v && s[6..6 + |w|][|v|] == DOT;
    assert v + [DOT] == w[..|v| + 1];
    assert n == s[7 + |v|..6 + |w|] + [s[6 + |w|]] + s[7 + |w|..];
    assert s[7 + |v|..6 + |w|] == w[|v| + 1..];
  }

  /** Two links share a file exactly if they are the same, or one lies inside the view of the other. */
  lemma SharedIff(v: CString, n: CString, w: CString, m: CString)
    ensures Flat(v, n) == Flat(w, m) <==> (v == w && n == m) || Inside(v, n, w, m) || Inside(w, m, v, n)
  {
    if Flat(v, n) == Flat(w, m) {
      FlatParts(v, n);
      FlatParts(w, m);
      if |v| < |w| {
        FlatInside(v, n, w, m);
      } else if |w| < |v| {
        FlatInside(w, m, v, n);
      }
    }
    if Inside(v, n, w, m) {
      InsideFlat(v, n, w, m);
    }
    if Inside(w, m, v, n) {
      InsideFlat(w, m, v, n);
    }
  }

  /** One of two different views is the other with more behind a dot. */
  predicate Nested(v: CString, w: CString)
  {
    v + [DOT] <= w || w + [DOT] <= v
  }

  /** Some links in two different views share a file exactly if the views are nested. */
  lemma CollideIff(v: CString, w: CString)
    requires v != w
    ensures (exists n: CString, m: CString :: Flat(v, n) == Flat(w, m)) <==> Nested(v, w)
  {
    if v + [DOT] <= w {
      InsideFlat(v, w[|v| + 1..] + [DOT], w, []);
      assert Flat(v, w[|v| + 1..] + [DOT]) == Flat(w, []);
    }
    if w + [DOT] <= v {
      InsideFlat(w, v[|w| + 1..] + [DOT], v, []);
      assert Flat(v, []) == Flat(w, v[|w| + 1..] + [DOT]);
    }
    if n: CString, m: CString :| Flat(v, n) == Flat(w, m) {
      SharedIff(v, n, w, m);
    }
  }

  /** With dots they may: the link c in view a.b is the link b.c in view a. */
  lemma DotsCollide()
    ensures Flat([0x61, 0x2E, 0x62], [0x63]) == Flat([0x61], [0x62, 0x2E, 0x63])
  {
  }

  // ----- resolving a path

  /** The position of the first slash. */
  function FindSlash(s: seq<Byte>): (r: Option<nat>)
    ensures r.Some? ==> r.value < |s| && s[r.value] == SLASH && SLASH !in s[..r.value]
    ensures r.None? ==> SLASH !in s
  {
    if s == [] then None
    else if s[0] == SLASH then Some(0)
    else
      var r := FindSlash(s[1..]);
      if r.None? then None
      else
        assert s[..r.value + 1] == [s[0]] + s[1..][..r.value];
        Some(r.value + 1)
  }

  /** The view and the name in a path; None if there is no slash between them, or the view is too long. */
  function SplitPath(path: CString): Option<(CString, CString)>
  {
    var p := StripSlash(path);
    var slash := FindSlash(p);
    if slash.None? || slash.value >= 64 then None
    else Some((p[..slash.value], p[slash.value + 1..]))
  }

  /** The bytes before the first NUL. */
  function UntilNul(s: seq<Byte>): (r: CString)
    ensures |r| <= |s| && r == s[..|r|]
  {
    if s == [] || s[0] == 0 then []
    else
      var r := UntilNul(s[1..]);
      assert [s[0]] + r == s[..1 + |r|];
      [s[0]] + r
  }

  lemma {:induction false} UntilNulAll(s: CString)
    ensures UntilNul(s) == s
  {
    if s == [] {
    } else {
      UntilNulAll(s[1..]);
      assert s == [s[0]] + s[1..];
    }
  }

  /** What the link stored in a file denotes: its first sixteen bytes as an identifier. */
  function LinkIn(c: seq<Byte>): ObjectId
  {
    if |c| < 16 then NULL_ID
    else
      var r := Scanned(UntilNul(c[..16]));
      if r.None? then NULL_ID else r.value
  }

  /** The object a path denotes. */
  function ResolveIn(files: NameMap, path: CString): ObjectId
  {
    var parts := SplitPath(path);
    if parts.None? then NULL_ID
    else
      var file := Flat(parts.value.0, parts.value.1);
      if file in files then LinkIn(files[file]) else NULL_ID
  }

  /** A path denotes nothing without a slash between view and name, or with a view of 64 bytes or more. */
  lemma ResolvesToNothing(files: NameMap, path: CString, view: CString, name: CString)
    ensures SLASH !in StripSlash(path) ==> ResolveIn(files, path) == NULL_ID
    ensures SLASH !in view && 64 <= |view| ==> ResolveIn(files, PathOf(view, name)) == NULL_ID
  {
    var p := StripSlash(PathOf(view, name));
    assert p == view + [SLASH] + name;
    if SLASH !in view {
      FindSlashAt(view, name);
    }
    if FindSlash(StripSlash(path)).Some? {
      assert SLASH in StripSlash(path);
    }
  }

  /** A file is a link exactly if it starts with sixteen hexadecimal digits; otherwise it denotes nothing. */
  lemma LinkInIff(c: seq<Byte>)
    ensures if 16 <= |c| && forall i :: 0 <= i < 16 ==> 0 <= DigitValue(c[i])
            then UntilNul(c[..16]) == c[..16] && Scanned(UntilNul(c[..16])) == Some(LinkIn(c))
            else LinkIn(c) == NULL_ID
  {
    hide Scanned;
    if 16 <= |c| {
      var t := UntilNul(c[..16]);
      ScannedIff(t);
      assert forall i :: 0 <= i < |t| ==> t[i] == c[..16][i] == c[i];
      if forall i :: 0 <= i < 16 ==> 0 <= DigitValue(c[i]) {
        assert forall i :: 0 <= i < 16 ==> c[..16][i] != 0;
        UntilNulAll(c[..16]);
      }
    }
  }

  /** The flattened name of the path fits the buffer of 256 bytes it is built in. */
  predicate FitsBuffer(path: CString)
  {
    var parts := SplitPath(path);
    parts.Some? ==> 7 + |parts.value.0| + |parts.value.1| <= 255
  }

  method Resolve(fs: FileSystem, path: CString) returns (id: ObjectId)
    requires fs.Valid() && FitsBuffer(path)
    ensures id == ResolveIn(fs.Files(), path)
  {
    hide Wf, ImageOf, Chains.Files, Scanned, UntilNul, FindSlash;
    var p := StripSlash(path);
    var slash := FindSlash(p);
    if slash.None? {
      return NULL_ID;
    }
    if slash.value >= 64 {
      return NULL_ID;
    }
    var link := Flat(p[..slash.value], p[slash.value + 1..]);
    FlatParts(p[..slash.value], p[slash.value + 1..]);
    var text := FetchFirst(fs, link, 16);
    if text.None? {
      return NULL_ID;
    }
    if |text.value| != 16 {
      return NULL_ID;
    }
    var r := ScanId(UntilNul(text.value));
    if r.None? {
      return NULL_ID;
    }
    return r.value;
  }

  /** The files after a link was made. */
  function Linked(files: NameMap, view: CString, name: CString, id: ObjectId): NameMap
  {
    var file := Flat(view, name);
    files[file := Overwritten(if file in files then files[file] else [], Printed(id))]
  }

  /** Makes a link, or points an existing one elsewhere. */
  method Link(fs: FileSystem, view: CString, name: CString, id: ObjectId) returns (r: int)
    requires fs.Valid() && 7 + |view| + |name| <= 255
    modifies fs, fs.vol.disk.data
    ensures fs.Valid()
    ensures r == if old(CanCreate(fs, Flat(view, name))) then 0 else -1
    ensures fs.Files() == if r == 0 then Linked(old(fs.Files()), view, name, id) else old(fs.Files())
  {
    hide Flat, Wf, ImageOf, Chains.Files, Lookup, OnlyChanged, WriteEffect, Printed, Room;
    var path := Flat(view, name);
    FlatParts(view, name);
    var text := PrintId(id);
    ghost var files := fs.Files();
    var f := CreateAndOpen(fs, path);
    if f.None? {
      return -1;
    }
    var written := Store(fs, f.value, text);
    assert text[..16] == text;
    OverwriteFile(files, fs.Files(), path, text);
    var closed := fs.Close(f.value);
    return 0;
  }

  /** Storing d at the start of a file just created or found. */
  lemma OverwriteFile(files: NameMap, files': NameMap, name: seq<Byte>, d: seq<Byte>)
    requires name in files'
    requires OnlyChanged(WithFile(files, name), files', name)
    requires WriteEffect(WithFile(files, name)[name], files'[name], 0, d)
    ensures files' == files[name := Overwritten(if name in files then files[name] else [], d)]
  {
    var c := if name in files then files[name] else [];
    assert files'[name] == Overwritten(c, d);
    assert files'.Keys == files.Keys + {name};
  }

  // ----- linking and resolving

  /** The path "/view/name". */
  function PathOf(view: CString, name: CString): CString
  {
    [SLASH] + view + [SLASH] + name
  }

  /** A view name that links can be looked up under: no slash, at most 63 bytes. */
  predicate ViewName(view: CString)
  {
    SLASH !in view && |view| < 64
  }

  lemma {:induction false} FindSlashAt(a: seq<Byte>, b: seq<Byte>)
    requires SLASH !in a
    ensures FindSlash(a + [SLASH] + b) == Some(|a|)
  {
    if a == [] {
    } else {
      FindSlashAt(a[1..], b);
      assert (a + [SLASH] + b)[1..] == a[1..] + [SLASH] + b;
    }
  }

  lemma SplitPathOf(view: CString, name: CString)
    requires SLASH !in view && |view| < 64
    ensures SplitPath(PathOf(view, name)) == Some((view, name))
  {
    var p := StripSlash(PathOf(view, name));
    assert p == view + [SLASH] + name;
    FindSlashAt(view, name);
    assert p[..|view|] == view && p[|view| + 1..] == name;
  }

  /** A link just made resolves to its identifier, cut to 32 bits in each half. */
  lemma LinkResolves(files: NameMap, view: CString, name: CString, id: ObjectId)
    requires ViewName(view)
    ensures ResolveIn(Linked(files, view, name, id), PathOf(view, name)) == ObjectId(Low32(id.high), Low32(id.low))
  {
    hide Printed, Scanned;
    var file, text := Flat(view, name), Printed(id);
    SplitPathOf(view, name);
    ScannedPrinted(id);
    UntilNulAll(text);
    var c := Linked(files, view, name, id)[file];
    assert c[..16] == text;
  }

  /** So linking and resolving gives back exactly the identifiers whose halves fit 32 bits. */
  lemma LinkResolvesIff(files: NameMap, view: CString, name: CString, id: ObjectId)
    requires ViewName(view)
    ensures ResolveIn(Linked(files, view, name, id), PathOf(view, name)) == id
       <==> id.high < 0x1_0000_0000 && id.low < 0x1_0000_0000
  {
    hide ResolveIn, Linked, PathOf;
    LinkResolves(files, view, name, id);
  }

  /** Making a link changes what another one denotes exactly where the two share a file. */
  lemma LinkSpares(files: NameMap, view: CString, name: CString, id: ObjectId, v: CString, n: CString)
    requires ViewName(v)
    ensures ResolveIn(Linked(files, view, name, id), PathOf(v, n))
         == if Flat(v, n) == Flat(view, name) then ObjectId(Low32(id.high), Low32(id.low))
             else ResolveIn(files, PathOf(v, n))
  {
    hide Printed, Scanned;
    SplitPathOf(v, n);
    if Flat(v, n) == Flat(view, name) {
      LinkResolves(files, v, n, id);
      assert Linked(files, v, n, id) == Linked(files, view, name, id);
    }
  }

  /** So it leaves every other link alone whose view is not nested with its own. */
  lemma LinkSparesOthers(files: NameMap, view: CString, name: CString, id: ObjectId, v: CString, n: CString)
    requires ViewName(v) && (v, n) != (view, name) && !Nested(v, view)
    ensures ResolveIn(Linked(files, view, name, id), PathOf(v, n)) == ResolveIn(files, PathOf(v, n))
  {
    hide Linked, ResolveIn, PathOf, Flat;
    LinkSpares(files, view, name, id, v, n);
    SharedIff(v, n, view, name);
  }

  /** A step of the life of the volume: a link that was made, or anything that leaves link files alone. */
  datatype LinkStep = Made(view: CString, name: CString, id: ObjectId) | Elsewhere

  predicate IsLinkFile(file: seq<Byte>)
  {
    VIEWS <= file
  }

  ghost predicate LinkStepOk(files: NameMap, step: LinkStep, files': NameMap)
  {
    match step
    case Made(view, name, id) => files' == Linked(files, view, name, id)
    case Elsewhere =>
      forall f :: IsLinkFile(f) ==> (f in files <==> f in files') && (f in files ==> files'[f] == files[f])
  }

  ghost predicate LinkRun(states: seq<NameMap>, steps: seq<LinkStep>)
  {
    && |states| == |steps| + 1
    && forall i {:trigger steps[i]} :: 0 <= i < |steps| ==> LinkStepOk(states[i], steps[i], states[i + 1])
  }

  /** The identifier last linked in the file of (view, name), with `none` for what it denoted before. */
  function LastLinked(steps: seq<LinkStep>, view: CString, name: CString, none: ObjectId): ObjectId
  {
    if steps == [] then none
    else
      var last := steps[|steps| - 1];
      if last.Made? && Flat(last.view, last.name) == Flat(view, name)
      then ObjectId(Low32(last.id.high), Low32(last.id.low))
      else LastLinked(steps[..|steps| - 1], view, name, none)
  }

  lemma LinkRunPrefix(states: seq<NameMap>, steps: seq<LinkStep>)
    requires LinkRun(states, steps) && steps != []
    ensures LinkRun(states[..|steps|], steps[..|steps| - 1])
  {
    var n := |steps| - 1;
    forall i | 0 <= i < n
      ensures LinkStepOk(states[..n + 1][i], steps[..n][i], states[..n + 1][i + 1])
    {
      assert steps[..n][i] == steps[i];
    }
  }

  /** Over any run, a path resolves to what was last linked in its file. */
  lemma {:induction false} ResolvesToLastLinked(states: seq<NameMap>, steps: seq<LinkStep>, view: CString,
                                                name: CString)
    requires LinkRun(states, steps) && ViewName(view)
    ensures ResolveIn(states[|steps|], PathOf(view, name))
         == LastLinked(steps, view, name, ResolveIn(states[0], PathOf(view, name)))
    decreases |steps|
  {
    hide ResolveIn, Linked, Flat;
    if steps == [] {
    } else {
      var n := |steps| - 1;
      LinkRunPrefix(states, steps);
      ResolvesToLastLinked(states[..n + 1], steps[..n], view, name);
      assert LinkStepOk(states[n], steps[n], states[n + 1]);
      match steps[n] {
        case Made(v, m, id) => LinkSpares(states[n], v, m, id, view, name);
        case Elsewhere => ElsewhereResolves(states[n], states[n + 1], view, name);
      }
    }
  }

  lemma ElsewhereResolves(files: NameMap, files': NameMap, view: CString, name: CString)
    requires LinkStepOk(files, Elsewhere, files') && ViewName(view)
    ensures ResolveIn(files', PathOf(view, name)) == ResolveIn(files, PathOf(view, name))
  {
    SplitPathOf(view, name);
    FlatParts(view, name);
    assert IsLinkFile(Flat(view, name));
  }

  /** The identifier last linked at (view, name) itself. */
  function LastLinkedHere(steps: seq<LinkStep>, view: CString, name: CString, none: ObjectId): ObjectId
  {
    if steps == [] then none
    else
      var last := steps[|steps| - 1];
      if last.Made? && last.view == view && last.name == name then ObjectId(Low32(last.id.high), Low32(last.id.low))
      else LastLinkedHere(steps[..|steps| - 1], view, name, none)
  }

  /** Where no other view in use is nested with this one, only links made under this very name count. */
  lemma {:induction false} LinkedHere(steps: seq<LinkStep>, view: CString, name: CString, none: ObjectId)
    requires forall i :: 0 <= i < |steps| && steps[i].Made? && steps[i].view != view ==> !Nested(steps[i].view, view)
    ensures LastLinked(steps, view, name, none) == LastLinkedHere(steps, view, name, none)
    decreases |steps|
  {
    hide Flat;
    if steps == [] {
    } else {
      var last := steps[|steps| - 1];
      LinkedHere(steps[..|steps| - 1], view, name, none);
      if last.Made? {
        SharedIff(last.view, last.name, view, name);
      }
    }
  }

  // ----- object data

  /** The file that holds the data of an object. */
  function DataFile(id: ObjectId): (s: CString)
    ensures |s| == 21
  {
    ScannedPrinted(id);
    DATA + Printed(id)
  }

  /** Objects share a data file exactly if their identifiers agree in the low 32 bits of both halves. */
  lemma DataFileShared(a: ObjectId, b: ObjectId)
    ensures DataFile(a) == DataFile(b) <==> Low32(a.high) == Low32(b.high) && Low32(a.low) == Low32(b.low)
  {
    PrintedInjective(a, b);
    assert DataFile(a)[5..] == Printed(a) && DataFile(b)[5..] == Printed(b);
  }

  /** Data files are not link files. */
  lemma DataNotLink(id: ObjectId)
    ensures !IsLinkFile(DataFile(id)) && StripSlash(DataFile(id)) == DataFile(id)
  {
    assert DataFile(id)[0] == 0x64;
  }

  /** The files after n bytes of data were stored for an object. */
  function WithData(files: NameMap, id: ObjectId, data: seq<Byte>): NameMap
  {
    var file := DataFile(id);
    files[file := Overwritten(if file in files then files[file] else [], data)]
  }

  /** Two entry sets for data files, and a cluster for each, are still to be had. */
  ghost predicate CanCreateTwice(fs: FileSystem)
    requires fs.Valid()
    reads fs, fs.vol`geo, fs.vol.disk.data
  {
    fs.used + 8 <= SLOTS && 2 <= FreeClusters(fs)
  }

  /** How much data can be stored for an object after its file was created twice. */
  ghost function DataRoom(fs: FileSystem, id: ObjectId): int
    requires fs.Valid()
    reads fs, fs.vol`geo, fs.vol.disk.data
  {
    if DataFile(id) in fs.Files() then RoomFor(fs, DataFile(id)) - 2 * CLUSTER else CLUSTER * FreeClusters(fs) - CLUSTER
  }

  lemma DataCreatable(id: ObjectId, used: nat)
    ensures Creatable(DataFile(id), used) <==> used + 4 <= SLOTS
  {
    hide Printed;
    var file := DataFile(id);
    DigitsNotSlash(Low32(id.high), 8);
    DigitsNotSlash(Low32(id.low), 8);
    assert SLASH !in Printed(id) by {
      PrintedParts(id);
    }
    assert SLASH !in DATA;
    assert SLASH !in file;
  }

  lemma PrintedParts(id: ObjectId)
    ensures Printed(id) == Digits(Low32(id.high), 8) + Digits(Low32(id.low), 8)
  {
  }

  lemma {:induction false} DigitsNotSlash(v: nat, n: nat)
    ensures SLASH !in Digits(v, n)
  {
    if n != 0 {
      DigitsNotSlash(v / 16, n - 1);
    }
  }

  /** Stores the data of an object. Its file is created twice, and both must succeed. */
  method WriteData(fs: FileSystem, id: ObjectId, data: seq<Byte>) returns (r: int, ghost n: nat)
    requires fs.Valid() && |data| < 0x1_0000_0000
    modifies fs, fs.vol.disk.data
    ensures fs.Valid() && n <= |data|
    ensures !old(CanCreateTwice(fs)) ==> r == -1 && n == 0
    ensures !old(CanCreateTwice(fs)) ==>
      fs.Files() == if old(CanCreate(fs, DataFile(id))) then WithFile(old(fs.Files()), DataFile(id))
          else old(fs.Files())
    ensures old(CanCreateTwice(fs)) ==> r == AsInt(n) && fs.Files() == WithData(old(fs.Files()), id, data[..n])
    ensures old(CanCreateTwice(fs)) ==> (n == |data| <==> |data| <= old(DataRoom(fs, id)))
  {
    hide DataFile, Wf, ImageOf, Chains.Files, Lookup, OnlyChanged, WriteEffect, Room, FreeSet, Overwritten, Creatable;
    var file := DataFile(id);
    DataNotLink(id);
    DataCreatable(id, fs.used);
    DataCreatable(id, fs.used + 4);
    ghost var files := fs.Files();
    n := 0;
    var created := CreateFile(fs, file);
    if !created {
      return -1, n;
    }
    var f := CreateAndOpen(fs, file);
    if f.None? {
      return -1, n;
    }
    r := Store(fs, f.value, data);
    n := f.value.position;
    OverwriteFile(files, fs.Files(), file, data[..n]);
    var closed := fs.Close(f.value);
  }

  /** Reads the data of an object, or as much of it as there is. */
  method ReadData(fs: FileSystem, id: ObjectId, size: U32) returns (r: Option<seq<Byte>>)
    requires fs.Valid()
    ensures r.Some? <==> DataFile(id) in fs.Files()
    ensures r.Some? ==> |r.value| == Available(|fs.Files()[DataFile(id)]|, 0, size)
    ensures r.Some? ==> r.value == fs.Files()[DataFile(id)][..|r.value|]
  {
    hide DataFile, Wf, ImageOf, Chains.Files;
    DataNotLink(id);
    r := FetchFirst(fs, DataFile(id), size);
  }

  /** Storing data for an object changes no link and no data of an object with another file; and what
      was stored is what is read first. */
  lemma DataRoundTrip(files: NameMap, id: ObjectId, data: seq<Byte>, other: ObjectId)
    ensures var files' := WithData(files, id, data);
            && LinkStepOk(files, Elsewhere, files')
            && DataFile(id) in files' && |data| <= |files'[DataFile(id)]| && files'[DataFile(id)][..|data|] == data
            && (Low32(other.high) != Low32(id.high) || Low32(other.low) != Low32(id.low) ==>
                  (DataFile(other) in files' <==> DataFile(other) in files)
                  && (DataFile(other) in files ==> files'[DataFile(other)] == files[DataFile(other)]))
  {
    hide DataFile;
    DataNotLink(id);
    DataFileShared(id, other);
  }
}
