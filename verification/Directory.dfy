/** The root directory: 128 slots of 32 bytes, in which a file is a set of one file entry,
    one stream entry and as many name entries as its name needs. */
module Directory {
  import opened Bytes

  const SLOTS := 128
  const SLOT := 32
  const ROOT_BYTES := 4096

  const TYPE_END := 0x00
  const TYPE_FILE := 0x85
  const TYPE_STREAM := 0xC0
  const TYPE_NAME := 0xC1

  const ATTR_DIRECTORY: U16 := 0x0010
  const ATTR_ARCHIVE: U16 := 0x0020

  const NAME_CHARS := 15

  /** A C string: its bytes up to the terminating NUL. */
  type CString = s: seq<Byte> | forall i :: 0 <= i < |s| ==> s[i] != 0 witness []

  /** Number of name entries for a name of the given length. */
  function NameSlots(length: nat): nat
  {
    (length + 14) / NAME_CHARS
  }

  /** Just as many as hold the name, at fifteen characters each. */
  lemma NameSlotsIs(length: nat)
    ensures 15 * NameSlots(length) - 15 < length <= 15 * NameSlots(length)
  {
  }

  // ----- the fields of the entry set starting at slot i

  function TypeAt(rb: seq<Byte>, i: nat): Byte
    requires |rb| == ROOT_BYTES && i < SLOTS
  {
    rb[SLOT * i]
  }

  function SecondaryAt(rb: seq<Byte>, i: nat): Byte
    requires |rb| == ROOT_BYTES && i < SLOTS
  {
    rb[SLOT * i + 1]
  }

  function AttributesAt(rb: seq<Byte>, i: nat): U16
    requires |rb| == ROOT_BYTES && i < SLOTS
  {
    Get16(rb, SLOT * i + 4)
  }

  function NameLengthAt(rb: seq<Byte>, i: nat): Byte
    requires |rb| == ROOT_BYTES && i + 1 < SLOTS
  {
    rb[SLOT * (i + 1) + 3]
  }

  function FirstClusterAt(rb: seq<Byte>, i: nat): U32
    requires |rb| == ROOT_BYTES && i + 1 < SLOTS
  {
    Get32(rb, SLOT * (i + 1) + 20)
  }

  function SizeAt(rb: seq<Byte>, i: nat): U64
    requires |rb| == ROOT_BYTES && i + 1 < SLOTS
  {
    Get64(rb, SLOT * (i + 1) + 24)
  }

  /** Where the low byte of the m-th character of the name is stored. */
  function NameByteIndex(i: nat, m: nat): nat
  {
    SLOT * (i + 2 + m / NAME_CHARS) + 2 + 2 * (m % NAME_CHARS)
  }

  /** The entry set at slot i lies inside the directory, its secondary entries have the right
      types and its name is a C string. */
  predicate SetAt(rb: seq<Byte>, i: nat)
    requires |rb| == ROOT_BYTES
  {
    && i + 1 < SLOTS
    && var length := NameLengthAt(rb, i);
       && i + 2 + NameSlots(length) <= SLOTS
       && TypeAt(rb, i) == TYPE_FILE
       && SecondaryAt(rb, i) == 1 + NameSlots(length)
       && TypeAt(rb, i + 1) == TYPE_STREAM
       && (forall j :: i + 2 <= j < i + 2 + NameSlots(length) ==> TypeAt(rb, j) == TYPE_NAME)
       && (forall m :: 0 <= m < length ==> NameByteIndex(i, m) < ROOT_BYTES && rb[NameByteIndex(i, m)] != 0)
  }

  function NameAt(rb: seq<Byte>, i: nat): (name: CString)
    requires |rb| == ROOT_BYTES && SetAt(rb, i)
    ensures |name| == NameLengthAt(rb, i)
  {
    seq(NameLengthAt(rb, i), m requires 0 <= m < NameLengthAt(rb, i) => rb[NameByteIndex(i, m)])
  }

  /** An entry set in terms of the bytes of the directory. */
  lemma SetBytes(rb: seq<Byte>, i: nat)
    requires |rb| == ROOT_BYTES && SetAt(rb, i)
    ensures var at, length := 32 * i, |NameAt(rb, i)|;
            && at + 64 <= 4096 && rb[at] == 0x85 && rb[at + 32] == 0xC0 && rb[at + 35] == length
            && 15 * (rb[at + 1] as int) - 30 < length <= 15 * (rb[at + 1] as int) - 15
            && AttributesAt(rb, i) == (rb[at + 4] as int) + 0x100 * (rb[at + 5] as int)
            && FirstClusterAt(rb, i) == Get32(rb, at + 52) && SizeAt(rb, i) == Get64(rb, at + 56)
            && (forall m {:trigger NameAt(rb, i)[m]} :: 0 <= m < length ==>
                  at + 64 + 32 * (m / 15) + 2 + 2 * (m % 15) < 4096
                  && rb[at + 64 + 32 * (m / 15)] == 0xC1
                  && NameAt(rb, i)[m] == rb[at + 64 + 32 * (m / 15) + 2 + 2 * (m % 15)])
  {
    hide Get32, Get64;
    NameSlotsIs(NameLengthAt(rb, i));
    FieldValues(rb, 32 * i + 4);
    forall m | 0 <= m < |NameAt(rb, i)|
      ensures 32 * i + 64 + 32 * (m / 15) + 2 + 2 * (m % 15) < 4096
      ensures rb[32 * i + 64 + 32 * (m / 15)] == 0xC1
      ensures NameAt(rb, i)[m] == rb[32 * i + 64 + 32 * (m / 15) + 2 + 2 * (m % 15)]
    {
      assert m / 15 < NameSlots(NameLengthAt(rb, i));
      assert TypeAt(rb, i + 2 + m / 15) == TYPE_NAME;
      assert NameByteIndex(i, m) < ROOT_BYTES;
    }
  }

  /** Slots below `used` are in use and those from `used` on are free; every file entry starts a
      well-formed set that ends below `used`. */
  predicate DirOk(rb: seq<Byte>, used: nat)
  {
    && |rb| == ROOT_BYTES && used <= SLOTS
    && (forall i :: 0 <= i < used ==> TypeAt(rb, i) != TYPE_END)
    && (forall i :: used <= i < SLOTS ==> TypeAt(rb, i) == TYPE_END)
    && (forall i :: 0 <= i < used && TypeAt(rb, i) == TYPE_FILE ==> SetAt(rb, i))
  }

  function FileSlots(rb: seq<Byte>): set<nat>
    requires |rb| == ROOT_BYTES
  {
    set i: nat | i < SLOTS && TypeAt(rb, i) == TYPE_FILE
  }

  predicate Named(rb: seq<Byte>, i: nat, name: seq<Byte>)
    requires |rb| == ROOT_BYTES
  {
    SetAt(rb, i) && NameAt(rb, i) == name
  }

  /** The first slot from i on holding a file of the given name. */
  function FindSlot(rb: seq<Byte>, name: seq<Byte>, i: nat): (r: Option<nat>)
    requires |rb| == ROOT_BYTES && i <= SLOTS
    ensures r.Some? ==> i <= r.value < SLOTS && Named(rb, r.value, name)
    decreases SLOTS - i
  {
    if i == SLOTS then None
    else if Named(rb, i, name) then Some(i)
    else FindSlot(rb, name, i + 1)
  }

  /** FindSlot finds the lowest slot of that name, and misses none. */
  lemma {:induction false} FindSlotFirst(rb: seq<Byte>, name: seq<Byte>, i: nat)
    requires |rb| == ROOT_BYTES && i <= SLOTS
    ensures var r := FindSlot(rb, name, i);
            forall k :: i <= k < (if r.Some? then r.value else SLOTS) ==> !Named(rb, k, name)
    decreases SLOTS - i
  {
    if i < SLOTS && !Named(rb, i, name) {
      FindSlotFirst(rb, name, i + 1);
    }
  }

  /** Two directories with the same names at the same slots find the same slot. */
  lemma {:induction false} FindSlotSame(rb: seq<Byte>, rb': seq<Byte>, name: seq<Byte>, i: nat)
    requires |rb| == |rb'| == ROOT_BYTES && i <= SLOTS
    requires forall k :: i <= k < SLOTS ==> Named(rb', k, name) == Named(rb, k, name)
    ensures FindSlot(rb', name, i) == FindSlot(rb, name, i)
    decreases SLOTS - i
  {
    if i < SLOTS {
      FindSlotSame(rb, rb', name, i + 1);
    }
  }

  /** What a lookup by name yields. */
  datatype Found = Found(slot: nat, first: U32, size: U64)

  function Lookup(rb: seq<Byte>, name: seq<Byte>): Option<Found>
    requires |rb| == ROOT_BYTES
  {
    match FindSlot(rb, name, 0)
    case None => None
    case Some(s) => Some(Found(s, FirstClusterAt(rb, s), SizeAt(rb, s)))
  }

  // ----- what leaves an entry set alone

  predicate SameSlot(rb: seq<Byte>, rb': seq<Byte>, j: nat)
    requires |rb| == |rb'| == ROOT_BYTES && j < SLOTS
  {
    forall k :: SLOT * j <= k < SLOT * j + SLOT ==> rb[k] == rb'[k]
  }

  /** A set whose slots all keep their bytes keeps its fields and its name. */
  lemma SetKept(rb: seq<Byte>, rb': seq<Byte>, i: nat)
    requires |rb| == |rb'| == ROOT_BYTES && SetAt(rb, i)
    requires forall j :: i <= j < i + 2 + NameSlots(NameLengthAt(rb, i)) ==> SameSlot(rb, rb', j)
    ensures SetAt(rb', i) && NameAt(rb', i) == NameAt(rb, i)
    ensures FirstClusterAt(rb', i) == FirstClusterAt(rb, i) && SizeAt(rb', i) == SizeAt(rb, i)
    ensures AttributesAt(rb', i) == AttributesAt(rb, i)
  {
    var length := NameLengthAt(rb, i);
    assert SameSlot(rb, rb', i) && SameSlot(rb, rb', i + 1);
    assert rb[SLOT * (i + 1) + 20..SLOT * (i + 1) + 24] == rb'[SLOT * (i + 1) + 20..SLOT * (i + 1) + 24];
    assert rb[SLOT * (i + 1) + 24..SLOT * (i + 1) + 32] == rb'[SLOT * (i + 1) + 24..SLOT * (i + 1) + 32];
    assert rb[SLOT * i + 4..SLOT * i + 6] == rb'[SLOT * i + 4..SLOT * i + 6];
    forall m | 0 <= m < length
      ensures NameByteIndex(i, m) < ROOT_BYTES && rb'[NameByteIndex(i, m)] == rb[NameByteIndex(i, m)]
    {
      assert SameSlot(rb, rb', i + 2 + m / NAME_CHARS);
    }
    forall j | i + 2 <= j < i + 2 + NameSlots(length)
      ensures TypeAt(rb', j) == TYPE_NAME
    {
      assert SameSlot(rb, rb', j) && TypeAt(rb, j) == TYPE_NAME;
    }
    assert SetAt(rb', i);
    assert NameAt(rb', i) == NameAt(rb, i);
  }

  /** Both directories hold a file at slot i, with the same name and first cluster. */
  predicate SameFile(rb: seq<Byte>, rb': seq<Byte>, i: nat)
    requires |rb| == |rb'| == ROOT_BYTES
  {
    && SetAt(rb, i) && SetAt(rb', i)
    && NameAt(rb', i) == NameAt(rb, i) && FirstClusterAt(rb', i) == FirstClusterAt(rb, i)
  }

  /** The directory after the size fields of the file at slot s are set. */
  function SetSize(rb: seq<Byte>, s: nat, size: U64): (rb': seq<Byte>)
    requires |rb| == ROOT_BYTES && s + 1 < SLOTS
    ensures |rb'| == ROOT_BYTES
  {
    Splice(Splice(rb, SLOT * (s + 1) + 24, LeBytes(size, 8)), SLOT * (s + 1) + 8, LeBytes(size, 8))
  }

  lemma SetSizeSlots(rb: seq<Byte>, used: nat, s: nat, size: U64)
    requires DirOk(rb, used) && SetAt(rb, s)
    ensures var rb' := SetSize(rb, s, size);
            && (forall j :: 0 <= j < SLOTS && j != s + 1 ==> SameSlot(rb, rb', j))
            && (forall j :: 0 <= j < SLOTS ==> TypeAt(rb', j) == TypeAt(rb, j))
  {
  }

  /** Both size fields of the stream entry change, and no other byte. */
  lemma SetSizeBytes(rb: seq<Byte>, s: nat, size: U64)
    requires |rb| == ROOT_BYTES && s + 1 < SLOTS
    ensures var rb' := SetSize(rb, s, size);
            && Get64(rb', 32 * s + 40) == size && Get64(rb', 32 * s + 56) == size
            && forall k :: 0 <= k < 4096 && !(32 * s + 40 <= k < 32 * s + 48) && !(32 * s + 56 <= k < 32 * s + 64) ==>
                 rb'[k] == rb[k]
  {
    hide Get64, LeBytes;
    var mid := Splice(rb, SLOT * (s + 1) + 24, LeBytes(size, 8));
    Get64AfterPut(rb, SLOT * (s + 1) + 24, size);
    Get64AfterPut(mid, SLOT * (s + 1) + 8, size);
    SpliceSlice(mid, SLOT * (s + 1) + 8, LeBytes(size, 8), SLOT * (s + 1) + 24, SLOT * (s + 1) + 32);
    Get64Same(SetSize(rb, s, size), mid, SLOT * (s + 1) + 24);
  }

  lemma Get64Same(a: seq<Byte>, b: seq<Byte>, at: nat)
    requires at + 8 <= |a| && at + 8 <= |b| && a[at..at + 8] == b[at..at + 8]
    ensures Get64(a, at) == Get64(b, at)
  {
  }

  /** Setting a size keeps the directory well-formed, changes that size and nothing else a
      reader of the directory can see. */
  lemma SetSizeOk(rb: seq<Byte>, used: nat, s: nat, size: U64)
    requires DirOk(rb, used) && SetAt(rb, s)
    ensures var rb' := SetSize(rb, s, size);
            && DirOk(rb', used) && FileSlots(rb') == FileSlots(rb)
            && (forall i :: i in FileSlots(rb) ==> SameFile(rb, rb', i))
            && (forall i :: i in FileSlots(rb) ==> SizeAt(rb', i) == if i == s then size else SizeAt(rb, i))
  {
    var rb' := SetSize(rb, s, size);
    SetSizeSlots(rb, used, s, size);
    forall i | i in FileSlots(rb)
      ensures SameFile(rb, rb', i)
      ensures SizeAt(rb', i) == if i == s then size else SizeAt(rb, i)
    {
      assert SetAt(rb, i);
      if i == s {
        SetSizeSelf(rb, used, s, size);
      } else {
        forall j | i <= j < i + 2 + NameSlots(NameLengthAt(rb, i))
          ensures SameSlot(rb, rb', j)
        {
          assert j == i || j == i + 1 || TypeAt(rb, j) == TYPE_NAME;
        }
        SetKept(rb, rb', i);
      }
    }
  }

  lemma SetSizeSelf(rb: seq<Byte>, used: nat, s: nat, size: U64)
    requires DirOk(rb, used) && SetAt(rb, s)
    ensures var rb' := SetSize(rb, s, size);
            && SetAt(rb', s) && NameAt(rb', s) == NameAt(rb, s)
            && FirstClusterAt(rb', s) == FirstClusterAt(rb, s) && SizeAt(rb', s) == size
  {
    var mid := Splice(rb, SLOT * (s + 1) + 24, LeBytes(size, 8));
    var rb' := SetSize(rb, s, size);
    SetSizeSlots(rb, used, s, size);
    Get64AfterPut(rb, SLOT * (s + 1) + 24, size);
    assert rb'[SLOT * (s + 1) + 24..SLOT * (s + 1) + 32] == mid[SLOT * (s + 1) + 24..SLOT * (s + 1) + 32];
    assert rb'[SLOT * (s + 1) + 20..SLOT * (s + 1) + 24] == rb[SLOT * (s + 1) + 20..SLOT * (s + 1) + 24];
    assert SameSlot(rb, rb', s);
    assert NameLengthAt(rb', s) == NameLengthAt(rb, s);
    forall m | 0 <= m < NameLengthAt(rb, s)
      ensures NameByteIndex(s, m) < ROOT_BYTES && rb'[NameByteIndex(s, m)] == rb[NameByteIndex(s, m)]
    {
      assert SameSlot(rb, rb', s + 2 + m / NAME_CHARS);
    }
    assert SetAt(rb', s);
    assert NameAt(rb', s) == NameAt(rb, s);
  }

  /** rb' is rb with an entry set for a new empty file written at the first free slot. */
  predicate Appended(rb: seq<Byte>, rb': seq<Byte>, used: nat, name: CString, attributes: U16, first: U32)
  {
    && |rb| == |rb'| == ROOT_BYTES && |name| <= 255
    && used + 2 + NameSlots(|name|) <= SLOTS
    && SetAt(rb', used) && NameAt(rb', used) == name
    && AttributesAt(rb', used) == attributes
    && FirstClusterAt(rb', used) == first && SizeAt(rb', used) == 0
    && forall j :: 0 <= j < SLOTS && !(used <= j < used + 2 + NameSlots(|name|)) ==> SameSlot(rb, rb', j)
  }

  /** Creating a file keeps the used slots a dense prefix, adds one file and leaves the others alone. */
  lemma AppendedOk(rb: seq<Byte>, rb': seq<Byte>, used: nat, name: CString, attributes: U16, first: U32)
    requires DirOk(rb, used) && Appended(rb, rb', used, name, attributes, first)
    ensures DirOk(rb', used + 2 + NameSlots(|name|))
    ensures FileSlots(rb') == FileSlots(rb) + {used} && used !in FileSlots(rb)
    ensures forall i :: i in FileSlots(rb) ==> SameFile(rb, rb', i)
    ensures forall i :: i in FileSlots(rb) ==> SizeAt(rb', i) == SizeAt(rb, i)
  {
    var end := used + 2 + NameSlots(|name|);
    forall j | 0 <= j < SLOTS
      ensures used <= j < end ==> TypeAt(rb', j) != TYPE_END && (TypeAt(rb', j) == TYPE_FILE <==> j == used)
      ensures !(used <= j < end) ==> TypeAt(rb', j) == TypeAt(rb, j)
    {
      if !(used <= j < end) {
        assert SameSlot(rb, rb', j);
      } else {
        assert j == used || j == used + 1 || TypeAt(rb', j) == TYPE_NAME;
      }
    }
    forall i | i in FileSlots(rb)
      ensures SameFile(rb, rb', i) && SizeAt(rb', i) == SizeAt(rb, i)
    {
      SetBelowUsed(rb, used, i);
      SetKept(rb, rb', i);
    }
    forall i | 0 <= i < end && TypeAt(rb', i) == TYPE_FILE
      ensures SetAt(rb', i)
    {
      assert i == used || i in FileSlots(rb);
    }
  }

  /** A set lies entirely in used slots. */
  lemma SetBelowUsed(rb: seq<Byte>, used: nat, i: nat)
    requires DirOk(rb, used) && i in FileSlots(rb)
    ensures SetAt(rb, i) && i + 2 + NameSlots(NameLengthAt(rb, i)) <= used
  {
    assert i < used;
    var last := i + 1 + NameSlots(NameLengthAt(rb, i));
    assert TypeAt(rb, last) == if last == i + 1 then TYPE_STREAM else TYPE_NAME;
  }

  lemma AppendedFind(rb: seq<Byte>, rb': seq<Byte>, used: nat, name: CString, attributes: U16, first: U32,
                       other: seq<Byte>)
    requires DirOk(rb, used) && Appended(rb, rb', used, name, attributes, first)
    ensures FindSlot(rb', other, 0)
         == if FindSlot(rb, other, 0).None? && other == name then Some(used) else FindSlot(rb, other, 0)
  {
    AppendedOk(rb, rb', used, name, attributes, first);
    forall k | 0 <= k < SLOTS
      ensures k != used ==> Named(rb', k, other) == Named(rb, k, other)
    {
      if k in FileSlots(rb) {
      } else if k != used {
        assert k !in FileSlots(rb');
      }
    }
    assert Named(rb', used, other) <==> other == name;
    forall k | used <= k < SLOTS
      ensures !Named(rb, k, other)
    {
      assert TypeAt(rb, k) == TYPE_END;
    }
    FindSlotFirst(rb, other, 0);
    FindSlotFirst(rb', other, 0);
  }

  /** Every name that could be looked up before a create still finds the same file; the new
      name finds the new, empty file when no file had that name. */
  lemma AppendedLookup(rb: seq<Byte>, rb': seq<Byte>, used: nat, name: CString, attributes: U16, first: U32,
                       other: seq<Byte>)
    requires DirOk(rb, used) && Appended(rb, rb', used, name, attributes, first)
    ensures Lookup(rb', other)
         == if Lookup(rb, other).None? && other == name then Some(Found(used, first, 0)) else Lookup(rb, other)
  {
    AppendedOk(rb, rb', used, name, attributes, first);
    AppendedFind(rb, rb', used, name, attributes, first, other);
    match FindSlot(rb, other, 0) {
      case Some(s) => assert s in FileSlots(rb);
      case None =>
    }
  }

  lemma SetSizeFind(rb: seq<Byte>, used: nat, s: nat, size: U64, other: seq<Byte>)
    requires DirOk(rb, used) && SetAt(rb, s)
    ensures FindSlot(SetSize(rb, s, size), other, 0) == FindSlot(rb, other, 0)
  {
    var rb' := SetSize(rb, s, size);
    SetSizeOk(rb, used, s, size);
    forall k | 0 <= k < SLOTS
      ensures Named(rb', k, other) == Named(rb, k, other)
    {
      if k in FileSlots(rb) {
      } else {
        assert k !in FileSlots(rb');
      }
    }
    FindSlotSame(rb, rb', other, 0);
  }

  /** Setting a size changes what a lookup of that file yields and no other lookup. */
  lemma SetSizeLookup(rb: seq<Byte>, used: nat, s: nat, size: U64, other: seq<Byte>)
    requires DirOk(rb, used) && SetAt(rb, s)
    ensures Lookup(SetSize(rb, s, size), other)
         == var r := Lookup(rb, other); if r.Some? && r.value.slot == s then Some(r.value.(size := size)) else r
  {
    SetSizeOk(rb, used, s, size);
    SetSizeFind(rb, used, s, size, other);
    match FindSlot(rb, other, 0) {
      case Some(t) => assert t in FileSlots(rb);
      case None =>
    }
  }
}
