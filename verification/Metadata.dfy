/** The core metadata of an object and its checksum. */
module Metadata {
  import opened Bytes
  import opened Hex
  import Crc32

  const META_MAGIC: U32 := 0x4D45_5441
  const META_VERSION: U32 := 1
  const FLAG_EXECUTABLE: U32 := 1

  /** The type number of executable objects; type numbers end at KIND_DATA. */
  const KIND_EXECUTABLE: U32 := 1
  const KIND_DATA: U32 := 7

  datatype Meta = Meta(magic: U32, version: U32, id: ObjectId, kind: U32, size: U64, created: U64, modified: U64,
                       flags: U32, checksum: U32)

  /** The fields before the type. */
  function Head(m: Meta): (s: seq<Byte>)
    ensures |s| == 24
  {
    LeBytes(m.magic, 4) + LeBytes(m.version, 4) + LeBytes(m.id.high, 8) + LeBytes(m.id.low, 8)
  }

  /** The fields between the type and the flags. */
  function Times(m: Meta): (s: seq<Byte>)
    ensures |s| == 24
  {
    LeBytes(m.size, 8) + LeBytes(m.created, 8) + LeBytes(m.modified, 8)
  }

  /** The 56 bytes of the packed structure before its checksum. */
  function Packed(m: Meta): (s: seq<Byte>)
    ensures |s| == 56
  {
    Head(m) + (LeBytes(m.kind, 4) + Times(m) + LeBytes(m.flags, 4))
  }

  // A byte as a bit vector, from its two halves, and a checksum register as a number.

  function Nibble(n: nat): bv8
    requires n < 16
  {
    if n == 0 then 0 else if n == 1 then 1 else if n == 2 then 2 else if n == 3 then 3 else
    if n == 4 then 4 else if n == 5 then 5 else if n == 6 then 6 else if n == 7 then 7 else
    if n == 8 then 8 else if n == 9 then 9 else if n == 10 then 10 else if n == 11 then 11 else
    if n == 12 then 12 else if n == 13 then 13 else if n == 14 then 14 else 15
  }

  function Joined(high: bv8, low: bv8): bv8
  {
    (high << 4) | low
  }

  function Octet(b: Byte): bv8
  {
    Joined(Nibble(b / 16), Nibble(b % 16))
  }

  lemma NibbleInjective(m: nat, n: nat)
    requires m < 16 && n < 16 && Nibble(m) == Nibble(n)
    ensures m == n
  {
  }

  lemma NibbleBound(n: nat)
    requires n < 16
    ensures Nibble(n) < 16
  {
  }

  lemma JoinedInjective(high: bv8, low: bv8, high': bv8, low': bv8)
    requires high < 16 && low < 16 && high' < 16 && low' < 16 && Joined(high, low) == Joined(high', low')
    ensures high == high' && low == low'
  {
  }

  lemma OctetInjective(a: Byte, b: Byte)
    requires Octet(a) == Octet(b)
    ensures a == b
  {
    hide Nibble, Joined;
    NibbleBound(a / 16);
    NibbleBound(a % 16);
    NibbleBound(b / 16);
    NibbleBound(b % 16);
    JoinedInjective(Nibble(a / 16), Nibble(a % 16), Nibble(b / 16), Nibble(b % 16));
    NibbleInjective(a / 16, b / 16);
    NibbleInjective(a % 16, b % 16);
  }

  function WordValue(x: bv32): U32
  {
    x as int
  }

  function WordOf(v: U32): bv32
  {
    v as bv32
  }

  lemma WordBack(x: bv32)
    ensures WordOf(WordValue(x)) == x
  {
  }

  function Octets(s: seq<Byte>): (r: seq<bv8>)
    ensures |r| == |s|
    ensures forall i :: 0 <= i < |s| ==> r[i] == Octet(s[i])
  {
    seq(|s|, i requires 0 <= i < |s| => Octet(s[i]))
  }

  /** The checksum that belongs to a metadata record. */
  function Checked(m: Meta): U32
  {
    WordValue(Crc32.Crc(Octets(Packed(m))))
  }

  method Check(m: Meta) returns (r: U32)
    ensures r == Checked(m)
  {
    hide WordValue, Octet, Crc32.Crc;
    var c := Crc32.Checksum(Octets(Packed(m)));
    r := WordValue(c);
  }

  /** The record of a new object, before its checksum is filled in. */
  function NewMeta(id: ObjectId, kind: U32): Meta
  {
    Meta(META_MAGIC, META_VERSION, id, kind, 0, 0, 0, if kind == KIND_EXECUTABLE then FLAG_EXECUTABLE else 0, 0)
  }

  /** Accepts a record with the right magic number and checksum. */
  predicate Accepted(m: Meta)
  {
    m.magic == META_MAGIC && m.checksum == Checked(m)
  }

  method Validate(m: Meta) returns (ok: bool)
    ensures ok == Accepted(m)
  {
    if m.magic != META_MAGIC {
      return false;
    }
    var c := Check(m.(checksum := 0));
    return m.checksum == c;
  }

  /** Where the fields of a record lie among the 56 bytes, in little-endian form. */
  lemma PackedFields(m: Meta)
    ensures var s := Packed(m);
            && Get32(s, 0) == m.magic && Get32(s, 4) == m.version
            && Get64(s, 8) == m.id.high && Get64(s, 16) == m.id.low && Get32(s, 24) == m.kind
            && Get64(s, 28) == m.size && Get64(s, 36) == m.created
            && Get64(s, 44) == m.modified && Get32(s, 52) == m.flags
  {
    hide LeBytes, Get32, Get64, Head, Times;
    var s, head, times := Packed(m), Head(m), Times(m);
    HeadFields(m);
    TimesFields(m);
    assert s[0..4] == head[0..4] && s[4..8] == head[4..8] && s[8..16] == head[8..16] && s[16..24] == head[16..24];
    assert s[28..36] == times[0..8] && s[36..44] == times[8..16] && s[44..52] == times[16..24];
    assert s[24..28] == LeBytes(m.kind, 4) && s[52..56] == LeBytes(m.flags, 4);
    Field32(s, 0, m.magic);
    Field32(s, 4, m.version);
    Field64(s, 8, m.id.high);
    Field64(s, 16, m.id.low);
    Field32(s, 24, m.kind);
    Field64(s, 28, m.size);
    Field64(s, 36, m.created);
    Field64(s, 44, m.modified);
    Field32(s, 52, m.flags);
  }

  lemma HeadFields(m: Meta)
    ensures var s := Head(m);
            && s[0..4] == LeBytes(m.magic, 4) && s[4..8] == LeBytes(m.version, 4)
            && s[8..16] == LeBytes(m.id.high, 8) && s[16..24] == LeBytes(m.id.low, 8)
  {
    hide LeBytes;
    var a, b, c, d := LeBytes(m.magic, 4), LeBytes(m.version, 4), LeBytes(m.id.high, 8), LeBytes(m.id.low, 8);
    assert (a + b + c + d)[0..4] == a && (a + b + c + d)[4..8] == b;
    assert (a + b + c + d)[8..16] == c && (a + b + c + d)[16..24] == d;
  }

  lemma TimesFields(m: Meta)
    ensures var s := Times(m);
            && s[0..8] == LeBytes(m.size, 8) && s[8..16] == LeBytes(m.created, 8) && s[16..24] == LeBytes(m.modified, 8)
  {
    hide LeBytes;
    var a, b, c := LeBytes(m.size, 8), LeBytes(m.created, 8), LeBytes(m.modified, 8);
    assert (a + b + c)[0..8] == a && (a + b + c)[8..16] == b && (a + b + c)[16..24] == c;
  }

  lemma Field32(s: seq<Byte>, at: nat, v: U32)
    requires at + 4 <= |s| && s[at..at + 4] == LeBytes(v, 4)
    ensures Get32(s, at) == v
  {
    hide LeBytes, LeVal;
    PowValues();
    LeRoundTrip(v, 4);
  }

  lemma Field64(s: seq<Byte>, at: nat, v: U64)
    requires at + 8 <= |s| && s[at..at + 8] == LeBytes(v, 8)
    ensures Get64(s, at) == v
  {
    hide LeBytes, LeVal;
    PowValues();
    LeRoundTrip(v, 8);
  }

  /** A byte keeps its value when the checksum is computed over it. */
  lemma OctetIs(b: Byte)
    ensures Octet(b) as int == b
  {
    hide Octet;
    NibblesIs(b / 16, b % 16);
    OctetJoined(b);
  }

  lemma OctetJoined(b: Byte)
    ensures Octet(b) == Joined(Nibble(b / 16), Nibble(b % 16))
  {
  }

  lemma NibblesIs(high: nat, low: nat)
    requires high < 16 && low < 16
    ensures Joined(Nibble(high), Nibble(low)) as int == 16 * high + low
  {
    NibbleIs(high);
    NibbleIs(low);
    JoinedIs(Nibble(high), Nibble(low));
  }

  lemma NibbleIs(n: nat)
    requires n < 16
    ensures Nibble(n) as int == n && Nibble(n) < 16
  {
  }

  lemma JoinedIs(high: bv8, low: bv8)
    requires high < 16 && low < 16
    ensures Joined(high, low) as int == 16 * high as int + low as int
  {
    assert Joined(high, low) == 16 * high + low;
  }

  /** The record of a new object: empty, without times, and flagged exactly if it can be executed. */
  lemma NewMetaIs(id: ObjectId, kind: U32)
    ensures var m := NewMeta(id, kind);
            && m.id == id && m.kind == kind && m.size == 0 && m.created == 0 && m.modified == 0 && m.checksum == 0
            && m.magic == META_MAGIC && m.version == 1 && (m.flags == 1 <==> kind == 1) && (m.flags == 0 <==> kind != 1)
  {
  }

  /** It is accepted with the checksum made for it, whatever the checksum field held. */
  lemma CheckedAccepted(m: Meta)
    requires m.magic == META_MAGIC
    ensures Accepted(m.(checksum := Checked(m)))
  {
    hide Packed, Crc32.Crc, WordValue, Octets;
    PackedSame(m);
    PackedSame(m.(checksum := Checked(m)));
  }

  lemma OctetsInjective(s: seq<Byte>, t: seq<Byte>)
    requires Octets(s) == Octets(t)
    ensures s == t
  {
    hide Octet;
    assert |s| == |Octets(s)| == |Octets(t)| == |t|;
    forall i | 0 <= i < |s| ensures s[i] == t[i] {
      assert Octets(s)[i] == Octets(t)[i];
      OctetInjective(s[i], t[i]);
    }
  }

  /** An accepted record is no longer accepted after any change within four consecutive bytes. */
  lemma ChangeRejected(m: Meta, n: Meta, k: nat)
    requires Accepted(m) && n.checksum == m.checksum && Packed(m) != Packed(n)
    requires forall i :: 0 <= i < 56 && !(k <= i < k + 4) ==> Packed(m)[i] == Packed(n)[i]
    ensures !Accepted(n)
  {
    hide Packed, Crc32.Crc, WordValue, WordOf, Octet;
    var x, y := Octets(Packed(m)), Octets(Packed(n));
    if x == y {
      OctetsInjective(Packed(m), Packed(n));
    } else {
      Crc32.BurstDetected(x, y, k);
      WordBack(Crc32.Crc(x));
      WordBack(Crc32.Crc(y));
    }
  }

  // ----- changing the type of an object

  /** The registers that turn into 1 when zeros are divided out, 28 bytes before to none. */
  function Gap(i: nat): bv32
  {
    if i == 0 then 0x42501e4e else if i == 1 then 0x91263c89 else if i == 2 then 0x94f51db8
    else if i == 3 then 0xc52ecea3 else if i == 4 then 0x4f1adc9c else if i == 5 then 0xf9f6c5b3
    else if i == 6 then 0x529114f3 else if i == 7 then 0x24e632b2 else if i == 8 then 0x254b3492
    else if i == 9 then 0x1e24b95c else if i == 10 then 0x62c33966 else if i == 11 then 0xa4b30754
    else if i == 12 then 0x6ca226ea else if i == 13 then 0x40b3a940 else if i == 14 then 0x769cf239
    else if i == 15 then 0x5f7314fa else if i == 16 then 0x5d376816 else if i == 17 then 0xf4898239
    else if i == 18 then 0x5ff1018a else if i == 19 then 0x0d329b3f else if i == 20 then 0xb66b1fa6
    else if i == 21 then 0x3f036dc2 else if i == 22 then 0x7555a0f1 else if i == 23 then 0xcacf972a
    else if i == 24 then 0xdb710641 else if i == 25 then 0x01000000 else if i == 26 then 0x00010000
    else if i == 27 then 0x00000100 else 0x00000001
  }

  lemma GapStep(i: nat)
    requires i < 28
    ensures Crc32.Shift8(Gap(i)) == Gap(i + 1)
  {
    if i == 0 {} else if i == 1 {} else if i == 2 {} else if i == 3 {} else if i == 4 {} else if i == 5 {}
    else if i == 6 {} else if i == 7 {} else if i == 8 {} else if i == 9 {} else if i == 10 {} else if i == 11 {}
    else if i == 12 {} else if i == 13 {} else if i == 14 {} else if i == 15 {} else if i == 16 {} else if i == 17 {}
    else if i == 18 {} else if i == 19 {} else if i == 20 {} else if i == 21 {} else if i == 22 {} else if i == 23 {}
    else if i == 24 {} else if i == 25 {} else if i == 26 {} else {}
  }

  lemma {:induction false} GapLeads(i: nat)
    requires i <= 28
    ensures Crc32.Zeros(Gap(i), 28 - i) == 1
    decreases 28 - i
  {
    hide Crc32.Shift8;
    if i < 28 {
      GapStep(i);
      GapLeads(i + 1);
    }
  }

  lemma {:induction false} ZerosXor(x: bv32, y: bv32, n: nat)
    ensures Crc32.Zeros(Crc32.Xor(x, y), n) == Crc32.Xor(Crc32.Zeros(x, n), Crc32.Zeros(y, n))
    decreases n
  {
    hide Crc32.Shift8, Crc32.Xor;
    if n != 0 {
      Crc32.Shift8Xor(x, y);
      ZerosXor(Crc32.Shift8(x), Crc32.Shift8(y), n - 1);
    }
  }

  lemma {:induction false} ZerosConcat(c: bv32, m: nat, n: nat)
    ensures Crc32.Zeros(c, m + n) == Crc32.Zeros(Crc32.Zeros(c, m), n)
    decreases m
  {
    hide Crc32.Shift8;
    if m != 0 {
      ZerosConcat(Crc32.Shift8(c), m - 1, n);
    }
  }

  /** No bytes but zeros. */
  function Blank(n: nat): seq<bv8>
  {
    seq(n, _ => 0)
  }

  lemma {:induction false} BitwiseBlank(c: bv32, n: nat)
    ensures Crc32.Bitwise(c, Blank(n)) == Crc32.Zeros(c, n)
    decreases n
  {
    hide Crc32.Shift8;
    if n != 0 {
      assert Blank(n)[1..] == Blank(n - 1);
      WideZero();
      Crc32.XorZero(c);
      BitwiseBlank(Crc32.Shift8(c), n - 1);
    }
  }

  lemma WideZero()
    ensures Crc32.Wide(0) == 0
  {
  }

  /** A word of one small value. */
  function Small(v: bv8): seq<bv8>
  {
    [v, 0, 0, 0]
  }

  lemma SmallWord(v: bv8)
    ensures Crc32.Word(Small(v)) == Crc32.Wide(v)
  {
    var w := Small(v);
    assert w[1..] == [0, 0, 0] && w[1..][1..] == [0, 0] && w[1..][1..][1..] == [0] && w[1..][1..][1..][1..] == [];
    UpZero();
    assert Crc32.Word([0]) == 0 && Crc32.Word([0, 0]) == 0 && Crc32.Word([0, 0, 0]) == 0;
  }

  lemma UpZero()
    ensures Crc32.Up(0) == 0
  {
  }

  /** The register after a word v, 24 zeros and a word f. */
  lemma Framed(c: bv32, v: bv8, f: bv8)
    ensures Crc32.Bitwise(c, Small(v) + Blank(24) + Small(f))
         == Crc32.Zeros(Crc32.Xor(Crc32.Zeros(Crc32.Xor(c, Crc32.Wide(v)), 28), Crc32.Wide(f)), 4)
  {
    hide Crc32.Zeros, Crc32.Bitwise, Crc32.Xor, Crc32.Word;
    Crc32.BitwiseConcat(c, Small(v) + Blank(24), Small(f));
    Crc32.BitwiseConcat(c, Small(v), Blank(24));
    Crc32.BitwiseWord(c, Small(v));
    SmallWord(v);
    BitwiseBlank(Crc32.Bitwise(c, Small(v)), 24);
    ZerosConcat(Crc32.Xor(c, Crc32.Wide(v)), 4, 24);
    Crc32.BitwiseWord(Crc32.Bitwise(c, Small(v) + Blank(24)), Small(f));
    SmallWord(f);
  }

  /** Two such messages are told apart, if the first words are small and the second differ by at most one. */
  lemma FramedApart(c: bv32, v: bv8, f: bv8, v': bv8, f': bv8)
    requires v < 8 && v' < 8 && f < 2 && f' < 2 && (v == v' ==> f == f')
    requires Crc32.Bitwise(c, Small(v) + Blank(24) + Small(f)) == Crc32.Bitwise(c, Small(v') + Blank(24) + Small(f'))
    ensures v == v'
  {
    hide Crc32.Zeros, Crc32.Bitwise, Crc32.Xor, Crc32.Wide;
    var x, x' := Crc32.Xor(c, Crc32.Wide(v)), Crc32.Xor(c, Crc32.Wide(v'));
    Framed(c, v, f);
    Framed(c, v', f');
    var z, z' := Crc32.Zeros(x, 28), Crc32.Zeros(x', 28);
    Crc32.ZerosInjective(Crc32.Xor(z, Crc32.Wide(f)), Crc32.Xor(z', Crc32.Wide(f')), 4);
    ZerosXor(x, x', 28);
    Cancel(c, v, v');
    Swap(z, f, z', f');
    GapLeads(0);
    var d := Crc32.Xor(Crc32.Wide(v), Crc32.Wide(v'));
    BitDifference(f, f');
    if Crc32.Zeros(d, 28) == 1 {
      Crc32.ZerosInjective(d, Gap(0), 28);
      SmallDifference(v, v');
    } else {
      ZerosZero(28);
      Crc32.ZerosInjective(d, 0, 28);
      NoDifference(v, v');
    }
  }

  lemma {:induction false} ZerosZero(n: nat)
    ensures Crc32.Zeros(0, n) == 0
  {
    if n != 0 {
      ShiftZero();
      ZerosZero(n - 1);
    }
  }

  lemma ShiftZero()
    ensures Crc32.Shift8(0) == 0
  {
  }

  lemma Cancel(c: bv32, v: bv8, w: bv8)
    ensures Crc32.Xor(Crc32.Xor(c, Crc32.Wide(v)), Crc32.Xor(c, Crc32.Wide(w)))
            == Crc32.Xor(Crc32.Wide(v), Crc32.Wide(w))
  {
  }

  lemma Swap(z: bv32, f: bv8, z': bv32, f': bv8)
    requires Crc32.Xor(z, Crc32.Wide(f)) == Crc32.Xor(z', Crc32.Wide(f'))
    ensures Crc32.Xor(z, z') == Crc32.Xor(Crc32.Wide(f), Crc32.Wide(f'))
  {
  }

  lemma BitDifference(f: bv8, f': bv8)
    requires f < 2 && f' < 2
    ensures Crc32.Xor(Crc32.Wide(f), Crc32.Wide(f')) == 0 || Crc32.Xor(Crc32.Wide(f), Crc32.Wide(f')) == 1
  {
  }

  lemma SmallDifference(v: bv8, v': bv8)
    requires v < 8 && v' < 8
    ensures Crc32.Xor(Crc32.Wide(v), Crc32.Wide(v')) < 8
  {
  }

  lemma NoDifference(v: bv8, v': bv8)
    requires Crc32.Xor(Crc32.Wide(v), Crc32.Wide(v')) == 0
    ensures v == v'
  {
  }

  lemma SmallBytes(v: nat)
    requires v < 0x100
    ensures LeBytes(v, 4) == [v, 0, 0, 0]
  {
    assert LeBytes(0, 1) == [0] && LeBytes(0, 2) == [0, 0] && LeBytes(0, 3) == [0, 0, 0];
  }

  lemma NoBytes()
    ensures LeBytes(0, 8) == [0, 0, 0, 0, 0, 0, 0, 0]
  {
    assert LeBytes(0, 1) == [0] && LeBytes(0, 2) == [0, 0] && LeBytes(0, 3) == [0, 0, 0];
    assert LeBytes(0, 4) == [0, 0, 0, 0] && LeBytes(0, 5) == [0, 0, 0, 0, 0];
    assert LeBytes(0, 6) == [0, 0, 0, 0, 0, 0] && LeBytes(0, 7) == [0, 0, 0, 0, 0, 0, 0];
  }

  function FlagOf(kind: U32): Byte
  {
    if kind == KIND_EXECUTABLE then 1 else 0
  }

  lemma OctetsConcat(a: seq<Byte>, b: seq<Byte>)
    ensures Octets(a + b) == Octets(a) + Octets(b)
  {
  }

  lemma SmallOctets(v: nat)
    requires v < 0x100
    ensures Octets(LeBytes(v, 4)) == Small(Octet(v))
  {
    hide Octet;
    OctetZero();
    SmallBytes(v);
  }

  lemma NoTimes(m: Meta)
    requires m.size == 0 && m.created == 0 && m.modified == 0
    ensures Octets(Times(m)) == Blank(24)
  {
    NoBytes();
    OctetZero();
    hide Octet, LeBytes;
  }

  lemma PackedNew(id: ObjectId, kind: U32)
    requires kind <= KIND_DATA
    ensures Octets(Packed(NewMeta(id, kind)))
         == Octets(Head(NewMeta(id, 0))) + (Small(Octet(kind)) + Blank(24) + Small(Octet(FlagOf(kind))))
  {
    hide LeBytes, Octet, Octets, Times, Small, Blank;
    var m := NewMeta(id, kind);
    OctetsConcat(Head(m), LeBytes(m.kind, 4) + Times(m) + LeBytes(m.flags, 4));
    OctetsConcat(LeBytes(m.kind, 4) + Times(m), LeBytes(m.flags, 4));
    OctetsConcat(LeBytes(m.kind, 4), Times(m));
    SmallOctets(kind);
    SmallOctets(m.flags);
    NoTimes(m);
  }

  lemma OctetZero()
    ensures Octet(0) == 0
  {
  }

  lemma OctetSmall(n: Byte, m: Byte)
    requires n <= m && m < 8
    ensures Octet(n) < 8 && (m < 2 ==> Octet(n) < 2)
  {
  }

  /** Among the known types, the record of an object is accepted with the checksum made for one type exactly
      if it is of that type: giving an object another type leaves a checksum that no longer fits. */
  lemma KindDecides(id: ObjectId, kind: U32, kind': U32)
    requires kind <= KIND_DATA && kind' <= KIND_DATA
    ensures Accepted(NewMeta(id, kind').(checksum := Checked(NewMeta(id, kind)))) <==> kind' == kind
  {
    hide Packed, WordValue, WordOf, Octet, Crc32.Bitwise, Crc32.Xor, Head;
    var m, n := NewMeta(id, kind), NewMeta(id, kind').(checksum := Checked(NewMeta(id, kind)));
    PackedSame(n);
    if Accepted(n) {
      var x, y := Octets(Packed(m)), Octets(Packed(n));
      WordBack(Crc32.Crc(x));
      WordBack(Crc32.Crc(y));
      assert Crc32.Crc(x) == Crc32.Crc(y);
      Crc32.XorCancel(Crc32.Bitwise(0xffffffff, x), 0xffffffff);
      Crc32.XorCancel(Crc32.Bitwise(0xffffffff, y), 0xffffffff);
      PackedNew(id, kind);
      PackedNew(id, kind');
      var head := Octets(Head(NewMeta(id, 0)));
      var v, f, v', f' := Octet(kind), Octet(FlagOf(kind)), Octet(kind'), Octet(FlagOf(kind'));
      Crc32.BitwiseConcat(0xffffffff, head, Small(v) + Blank(24) + Small(f));
      Crc32.BitwiseConcat(0xffffffff, head, Small(v') + Blank(24) + Small(f'));
      OctetSmall(kind, 7);
      OctetSmall(kind', 7);
      OctetSmall(FlagOf(kind), 1);
      OctetSmall(FlagOf(kind'), 1);
      if v == v' {
        OctetInjective(kind, kind');
      }
      FramedApart(Crc32.Bitwise(0xffffffff, head), v, f, v', f');
    } else {
      PackedSame(m.(checksum := Checked(m)));
    }
  }

  /** The checksum field is not covered. */
  lemma PackedSame(m: Meta)
    ensures Packed(m) == Packed(m.(checksum := 0))
  {
  }
}
