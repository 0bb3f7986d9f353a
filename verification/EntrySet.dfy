/** Writing the directory entry set of a new file into a buffer. */
module EntrySet {
  import opened Bytes
  import opened Directory

  /** memset(buffer + at, 0, n) */
  method Clear(buffer: array<Byte>, at: nat, n: nat)
    requires at + n <= buffer.Length
    modifies buffer
    ensures forall k :: 0 <= k < buffer.Length ==>
              buffer[k] == if at <= k < at + n then 0 else old(buffer[k])
  {
    for i := 0 to n
      invariant forall k :: 0 <= k < buffer.Length ==>
                  buffer[k] == if at <= k < at + i then 0 else old(buffer[k])
    {
      buffer[at + i] := 0;
    }
  }

  /** Only slot j of the buffer may differ from what it was. */
  twostate predicate OnlySlot(buffer: array<Byte>, j: nat)
    reads buffer
  {
    forall k :: 0 <= k < buffer.Length && !(SLOT * j <= k < SLOT * j + SLOT) ==> buffer[k] == old(buffer[k])
  }

  method FillFileEntry(buffer: array<Byte>, i: nat, nameEntries: nat, attributes: U16)
    requires buffer.Length == ROOT_BYTES && i < SLOTS && 1 + nameEntries < 0x100
    modifies buffer
    ensures TypeAt(buffer[..], i) == TYPE_FILE && SecondaryAt(buffer[..], i) == 1 + nameEntries
    ensures AttributesAt(buffer[..], i) == attributes
    ensures OnlySlot(buffer, i)
  {
    Clear(buffer, SLOT * i, SLOT);
    buffer[SLOT * i] := TYPE_FILE;
    buffer[SLOT * i + 1] := 1 + nameEntries;
    Get16AfterPut(buffer[..], SLOT * i + 4, attributes);
    PutLe(buffer, SLOT * i + 4, attributes, 2);
  }

  method FillStreamEntry(buffer: array<Byte>, i: nat, length: Byte, hash: U16, first: U32)
    requires buffer.Length == ROOT_BYTES && i + 1 < SLOTS
    modifies buffer
    ensures TypeAt(buffer[..], i + 1) == TYPE_STREAM && NameLengthAt(buffer[..], i) == length
    ensures FirstClusterAt(buffer[..], i) == first && SizeAt(buffer[..], i) == 0
    ensures Get16(buffer[..], SLOT * (i + 1) + 4) == hash
    ensures OnlySlot(buffer, i + 1)
  {
    hide LeBytes, LeVal, Splice;
    var at := SLOT * (i + 1);
    Clear(buffer, at, SLOT);
    buffer[at], buffer[at + 1], buffer[at + 3] := TYPE_STREAM, 1, length;
    ghost var b := buffer[..];
    PutLe(buffer, at + 4, hash, 2);
    PutLe(buffer, at + 8, 0, 8);
    PutLe(buffer, at + 20, first, 4);
    PutLe(buffer, at + 24, 0, 8);
    StreamFields(b, at, hash, first);
  }

  lemma StreamFields(b: seq<Byte>, at: nat, hash: U16, first: U32)
    requires at + 32 <= |b|
    ensures var b1 := Splice(b, at + 4, LeBytes(hash, 2));
            var b2 := Splice(b1, at + 8, LeBytes(0, 8));
            var b3 := Splice(b2, at + 20, LeBytes(first, 4));
            var b4 := Splice(b3, at + 24, LeBytes(0, 8));
            && Get16(b4, at + 4) == hash && Get32(b4, at + 20) == first && Get64(b4, at + 24) == 0
            && (forall k :: 0 <= k < |b| && !(at + 4 <= k < at + 32) ==> b4[k] == b[k])
  {
    StreamOthers(b, at, LeBytes(hash, 2), LeBytes(0, 8), LeBytes(first, 4));
    hide LeBytes, LeVal, Splice;
    var b1 := Splice(b, at + 4, LeBytes(hash, 2));
    var b2 := Splice(b1, at + 8, LeBytes(0, 8));
    var b3 := Splice(b2, at + 20, LeBytes(first, 4));
    Get16AfterPut(b, at + 4, hash);
    SpliceSlice(b1, at + 8, LeBytes(0, 8), at + 4, at + 6);
    SpliceSlice(b2, at + 20, LeBytes(first, 4), at + 4, at + 6);
    SpliceSlice(b3, at + 24, LeBytes(0, 8), at + 4, at + 6);
    Get32AfterPut(b2, at + 20, first);
    SpliceSlice(b3, at + 24, LeBytes(0, 8), at + 20, at + 24);
    Get64AfterPut(b3, at + 24, 0);
  }

  lemma StreamOthers(b: seq<Byte>, at: nat, s2: seq<Byte>, s8: seq<Byte>, s4: seq<Byte>)
    requires at + 32 <= |b| && |s2| == 2 && |s8| == 8 && |s4| == 4
    ensures var b3 := Splice(Splice(Splice(b, at + 4, s2), at + 8, s8), at + 20, s4);
            forall k :: 0 <= k < |b| && !(at + 4 <= k < at + 32) ==> Splice(b3, at + 24, s8)[k] == b[k]
  {
  }

  /** Low byte of a 16-bit character made from a signed C char. */
  function Widen(c: Byte): U16
  {
    if c < 0x80 then c else 0xFF00 + c
  }

  lemma WidenLow(c: Byte)
    ensures LeBytes(Widen(c), 2)[0] == c
  {
  }

  lemma NameByteAt(i: nat, j: nat, m: nat)
    requires m / NAME_CHARS == j
    ensures 0 <= m - NAME_CHARS * j < NAME_CHARS
    ensures NameByteIndex(i, m) == SLOT * (i + 2 + j) + 2 + 2 * (m - NAME_CHARS * j)
  {
  }

  /** Name entry j of the set: the characters of the name from 15 * j on, as many as fit. */
  method FillNameEntry(buffer: array<Byte>, i: nat, j: nat, name: CString)
    requires buffer.Length == ROOT_BYTES && i + 2 + j < SLOTS
    modifies buffer
    ensures TypeAt(buffer[..], i + 2 + j) == TYPE_NAME
    ensures forall m :: 0 <= m < |name| && m / NAME_CHARS == j ==> buffer[NameByteIndex(i, m)] == name[m]
    ensures OnlySlot(buffer, i + 2 + j)
  {
    hide NameByteIndex;
    var at := SLOT * (i + 2 + j);
    Clear(buffer, at, SLOT);
    buffer[at] := TYPE_NAME;
    var k := 0;
    while k < NAME_CHARS && NAME_CHARS * j + k < |name|
      invariant 0 <= k <= NAME_CHARS
      invariant buffer[at] == TYPE_NAME
      invariant forall l :: 0 <= l < k ==>
                  NAME_CHARS * j + l < |name| && buffer[at + 2 + 2 * l] == name[NAME_CHARS * j + l]
      invariant OnlySlot(buffer, i + 2 + j)
    {
      WidenLow(name[NAME_CHARS * j + k]);
      PutLe(buffer, at + 2 + 2 * k, Widen(name[NAME_CHARS * j + k]), 2);
      k := k + 1;
    }
    forall m | 0 <= m < |name| && m / NAME_CHARS == j
      ensures 0 <= m - NAME_CHARS * j < NAME_CHARS && NameByteIndex(i, m) == at + 2 + 2 * (m - NAME_CHARS * j)
    {
      NameByteAt(i, j, m);
    }
  }

  /** One step of the 16-bit rotating sum used for name hashes and set checksums. */
  function RotateAdd(sum: U16, x: U16): U16
  {
    ((sum % 2) * 0x8000 + sum / 2 + x) % 0x1_0000
  }

  function Upcase(c: U16): U16
  {
    if 0x61 <= c <= 0x7A then c - 32 else c
  }

  /** A step rotates the sum right by one bit, the lowest bit becoming the highest, and adds to it. */
  lemma RotateAddIs(sum: U16, x: U16)
    ensures exists r: U16 :: 2 * r == sum + 0xFFFF * (sum % 2) && (RotateAdd(sum, x) - (r + x)) % 0x1_0000 == 0
  {
    var r: U16 := (sum + 0xFFFF * (sum % 2)) / 2;
    assert 2 * r == sum + 0xFFFF * (sum % 2) && (RotateAdd(sum, x) - (r + x)) % 0x1_0000 == 0;
  }

  /** Characters are extended with their sign; just the small letters a to z have another upper case. */
  lemma CharactersAre(c: Byte, x: U16)
    ensures Widen(c) % 0x100 == c && (Widen(c) < 0x8000 <==> c < 0x80)
    ensures Widen(c) / 0x100 == 0 || Widen(c) / 0x100 == 0xFF
    ensures if 0x61 <= x < 0x61 + 26 then Upcase(x) - 0x41 == x - 0x61 else Upcase(x) == x
  {
  }

  /** The hash of a name: a rotating sum over its characters in upper case. */
  function Hashed(name: seq<Byte>): U16
  {
    if name == [] then 0
    else RotateAdd(Hashed(name[..|name| - 1]), Upcase(Widen(name[|name| - 1])))
  }

  /** Names that differ only in the case of letters have the same hash. */
  lemma {:induction false} HashIgnoresCase(a: seq<Byte>, b: seq<Byte>)
    requires |a| == |b| && forall i :: 0 <= i < |a| ==> Upcase(Widen(a[i])) == Upcase(Widen(b[i]))
    ensures Hashed(a) == Hashed(b)
  {
    if a == [] {
    } else {
      HashIgnoresCase(a[..|a| - 1], b[..|b| - 1]);
    }
  }

  /** The name hash; nothing in the file system reads it back. */
  method CalcNameHash(name: CString) returns (hash: U16)
    ensures hash == Hashed(name)
  {
    hash := 0;
    for i := 0 to |name|
      invariant hash == Hashed(name[..i])
    {
      assert name[..i + 1][..i] == name[..i];
      hash := RotateAdd(hash, Upcase(Widen(name[i])));
    }
    assert name[..|name|] == name;
  }

  /** The checksum of the first n bytes of a set: a rotating sum without the two bytes that hold it. */
  function Summed(slots: seq<Byte>, n: nat): U16
    requires n <= |slots|
  {
    if n == 0 then 0
    else if n - 1 == 2 || n - 1 == 3 then Summed(slots, n - 1)
    else RotateAdd(Summed(slots, n - 1), slots[n - 1])
  }

  /** Storing a checksum in its place leaves it the checksum. */
  lemma {:induction false} SumSparesItself(a: seq<Byte>, b: seq<Byte>, n: nat)
    requires n <= |a| == |b| && forall k :: 0 <= k < n && k != 2 && k != 3 ==> a[k] == b[k]
    ensures Summed(a, n) == Summed(b, n)
  {
    if n > 0 {
      SumSparesItself(a, b, n - 1);
    }
  }

  /** The set checksum over `count` slots from slot i; nothing in the file system reads it back. */
  method CalcChecksum(buffer: array<Byte>, i: nat, count: nat) returns (checksum: U16)
    requires SLOT * (i + count) <= buffer.Length
    ensures checksum == Summed(buffer[SLOT * i..SLOT * (i + count)], SLOT * count)
  {
    checksum := 0;
    ghost var s := buffer[SLOT * i..SLOT * (i + count)];
    for k := 0 to SLOT * count
      invariant checksum == Summed(s, k)
    {
      if k != 2 && k != 3 {
        checksum := RotateAdd(checksum, buffer[SLOT * i + k]);
      }
    }
  }

  /** The set of `count` slots from slot i carries its checksum, and the hash of its name. */
  predicate Sealed(rb: seq<Byte>, i: nat, count: nat, name: seq<Byte>)
    requires |rb| == ROOT_BYTES && 2 <= count && i + count <= SLOTS
  {
    && Get16(rb, SLOT * i + 2) == Summed(rb[SLOT * i..SLOT * (i + count)], SLOT * count)
    && Get16(rb, SLOT * (i + 1) + 4) == Hashed(name)
  }

  /** Writes the name entries of the set. */
  method FillNameEntries(buffer: array<Byte>, i: nat, name: CString)
    requires buffer.Length == ROOT_BYTES && i + 2 + NameSlots(|name|) <= SLOTS
    modifies buffer
    ensures forall l :: i + 2 <= l < i + 2 + NameSlots(|name|) ==> buffer[SLOT * l] == TYPE_NAME
    ensures forall m :: 0 <= m < |name| ==> NameByteIndex(i, m) < ROOT_BYTES && buffer[NameByteIndex(i, m)] == name[m]
    ensures forall k :: 0 <= k < ROOT_BYTES && !(SLOT * (i + 2) <= k < SLOT * (i + 2 + NameSlots(|name|))) ==>
              buffer[k] == old(buffer[k])
  {
    for j := 0 to NameSlots(|name|)
      invariant forall l :: i + 2 <= l < i + 2 + j ==> buffer[SLOT * l] == TYPE_NAME
      invariant forall m :: 0 <= m < |name| && m / NAME_CHARS < j ==> buffer[NameByteIndex(i, m)] == name[m]
      invariant forall k :: 0 <= k < ROOT_BYTES && !(SLOT * (i + 2) <= k < SLOT * (i + 2 + j)) ==>
                  buffer[k] == old(buffer[k])
    {
      FillNameEntry(buffer, i, j, name);
    }
  }

  /** All entries of the set are in rb, whatever its checksum field holds; rb1 is the directory before the name
      entries were written, and rb0 before any were. */
  predicate Filled(rb0: seq<Byte>, rb1: seq<Byte>, rb: seq<Byte>, i: nat, name: CString, attributes: U16, first: U32)
  {
    && |rb0| == |rb1| == |rb| == ROOT_BYTES && |name| <= 255 && i + 2 + NameSlots(|name|) <= SLOTS
    && TypeAt(rb1, i) == TYPE_FILE && SecondaryAt(rb1, i) == 1 + NameSlots(|name|) && AttributesAt(rb1, i) == attributes
    && TypeAt(rb1, i + 1) == TYPE_STREAM && NameLengthAt(rb1, i) == |name|
    && FirstClusterAt(rb1, i) == first && SizeAt(rb1, i) == 0
    && (forall k :: 0 <= k < ROOT_BYTES && !(SLOT * i <= k < SLOT * (i + 2)) ==> rb1[k] == rb0[k])
    && (forall l :: i + 2 <= l < i + 2 + NameSlots(|name|) ==> rb[SLOT * l] == TYPE_NAME)
    && (forall m :: 0 <= m < |name| ==> NameByteIndex(i, m) < ROOT_BYTES && rb[NameByteIndex(i, m)] == name[m])
    && (forall k :: 0 <= k < SLOT * (i + 2) && !(SLOT * i + 2 <= k < SLOT * i + 4) ==> rb[k] == rb1[k])
    && (forall k :: SLOT * (i + 2 + NameSlots(|name|)) <= k < ROOT_BYTES ==> rb[k] == rb1[k])
  }

  /** Writes the entries, but for the checksum. */
  method FillEntries(buffer: array<Byte>, i: nat, name: CString, attributes: U16, first: U32)
      returns (ghost before: seq<Byte>)
    requires buffer.Length == ROOT_BYTES && |name| <= 255 && i + 2 + NameSlots(|name|) <= SLOTS
    modifies buffer
    ensures Filled(old(buffer[..]), before, buffer[..], i, name, attributes, first)
    ensures Get16(buffer[..], SLOT * (i + 1) + 4) == Hashed(name)
  {
    hide Hashed;
    var nameEntries := NameSlots(|name|);
    var hash := CalcNameHash(name);
    FillFileEntry(buffer, i, nameEntries, attributes);
    ghost var fileEntry := buffer[..];
    FillStreamEntry(buffer, i, |name|, hash, first);
    before := buffer[..];
    assert before[SLOT * i + 4..SLOT * i + 6] == fileEntry[SLOT * i + 4..SLOT * i + 6];
    FillNameEntries(buffer, i, name);
    assert buffer[..][SLOT * (i + 1) + 4..SLOT * (i + 1) + 6] == before[SLOT * (i + 1) + 4..SLOT * (i + 1) + 6];
  }

  /** Writes the whole entry set of an empty file. */
  method FillEntrySet(buffer: array<Byte>, i: nat, name: CString, attributes: U16, first: U32)
    requires buffer.Length == ROOT_BYTES && |name| <= 255 && i + 2 + NameSlots(|name|) <= SLOTS
    modifies buffer
    ensures Appended(old(buffer[..]), buffer[..], i, name, attributes, first)
    ensures Sealed(buffer[..], i, 2 + NameSlots(|name|), name)
  {
    hide Appended, Sealed, Filled, Summed, Hashed;
    ghost var before := FillEntries(buffer, i, name, attributes, first);
    ghost var unsealed := buffer[..];
    var checksum := CalcChecksum(buffer, i, 2 + NameSlots(|name|));
    assert unsealed[SLOT * i..SLOT * (i + (2 + NameSlots(|name|)))]
           == buffer[SLOT * i..SLOT * (i + (2 + NameSlots(|name|)))];
    PutLe(buffer, SLOT * i + 2, checksum, 2);
    SealedNow(unsealed, i, 2 + NameSlots(|name|), name, checksum);
    FilledSealed(old(buffer[..]), before, unsealed, i, name, attributes, first, LeBytes(checksum, 2));
    EntrySetFilled(old(buffer[..]), before, buffer[..], i, name, attributes, first);
  }

  lemma FilledSealed(rb0: seq<Byte>, rb1: seq<Byte>, rb: seq<Byte>, i: nat, name: CString, attributes: U16, first: U32,
                     field: seq<Byte>)
    requires Filled(rb0, rb1, rb, i, name, attributes, first) && |field| == 2
    ensures Filled(rb0, rb1, Splice(rb, SLOT * i + 2, field), i, name, attributes, first)
  {
    hide Splice, LeVal;
  }

  lemma SealedNow(rb: seq<Byte>, i: nat, count: nat, name: seq<Byte>, checksum: U16)
    requires |rb| == ROOT_BYTES && 2 <= count && i + count <= SLOTS
    requires checksum == Summed(rb[SLOT * i..SLOT * (i + count)], SLOT * count)
    requires Get16(rb, SLOT * (i + 1) + 4) == Hashed(name)
    ensures Sealed(Splice(rb, SLOT * i + 2, LeBytes(checksum, 2)), i, count, name)
  {
    hide LeBytes, LeVal, Splice, Summed, Hashed;
    var rb' := Splice(rb, SLOT * i + 2, LeBytes(checksum, 2));
    Get16AfterPut(rb, SLOT * i + 2, checksum);
    SpliceSlice(rb, SLOT * i + 2, LeBytes(checksum, 2), SLOT * (i + 1) + 4, SLOT * (i + 1) + 6);
    SumSparesItself(rb[SLOT * i..SLOT * (i + count)], rb'[SLOT * i..SLOT * (i + count)], SLOT * count);
  }

  /** The three kinds of entries together form the set of a file of that name. */
  lemma EntrySetFilled(rb0: seq<Byte>, rb1: seq<Byte>, rb: seq<Byte>, i: nat, name: CString, attributes: U16,
                       first: U32)
    requires Filled(rb0, rb1, rb, i, name, attributes, first)
    ensures Appended(rb0, rb, i, name, attributes, first)
  {
    assert rb[SLOT * (i + 1) + 20..SLOT * (i + 1) + 24] == rb1[SLOT * (i + 1) + 20..SLOT * (i + 1) + 24];
    assert rb[SLOT * (i + 1) + 24..SLOT * (i + 1) + 32] == rb1[SLOT * (i + 1) + 24..SLOT * (i + 1) + 32];
    assert rb[SLOT * i + 4..SLOT * i + 6] == rb1[SLOT * i + 4..SLOT * i + 6];
    assert SetAt(rb, i);
    assert NameAt(rb, i) == name;
  }
}
