/** The table-driven CRC-32 of object metadata, against its bitwise definition. */
module Crc32 {

  /** The reflected generator polynomial of CRC-32 (section 8 of RFC 1952). */
  const POLYNOMIAL: bv32 := 0xedb88320

  // ----- operations on registers, with the few facts about bits that are needed

  function Xor(x: bv32, y: bv32): bv32
  {
    x ^ y
  }

  /** A byte as the low byte of a register. */
  function Wide(b: bv8): bv32
  {
    b as bv32
  }

  /** A register moved up by one byte. */
  function Up(c: bv32): bv32
  {
    c << 8
  }

  /** A register moved down by one byte. */
  function Down(c: bv32): bv32
  {
    c >> 8
  }

  function LowByte(c: bv32): bv8
  {
    (c & 0xff) as bv8
  }

  lemma XorAssoc(x: bv32, y: bv32, z: bv32)
    ensures Xor(Xor(x, y), z) == Xor(x, Xor(y, z))
  {
  }

  lemma XorComm(x: bv32, y: bv32)
    ensures Xor(x, y) == Xor(y, x)
  {
  }

  lemma XorZero(x: bv32)
    ensures Xor(x, 0) == x
  {
  }

  lemma XorCancel(x: bv32, y: bv32)
    ensures Xor(Xor(x, y), y) == x
  {
  }

  lemma DownUp(y: bv32)
    requires y <= 0xffffff
    ensures Down(Up(y)) == y && Up(y) & 0xff == 0
  {
  }

  /** A register is its low byte and the rest. */
  lemma SplitLow(c: bv32)
    ensures c == Xor(Wide(LowByte(c)), c & 0xffffff00)
  {
  }

  lemma DownRest(c: bv32, b: bv8)
    ensures Down(Xor(c, Wide(b)) & 0xffffff00) == Down(c)
  {
  }

  lemma RestClear(c: bv32)
    ensures (c & 0xffffff00) & 0xff == 0
  {
  }

  lemma SplitWord(a: bv8, x: bv32, b: bv8, y: bv32)
    requires x <= 0xffffff && y <= 0xffffff
    requires Xor(Wide(a), Up(x)) == Xor(Wide(b), Up(y))
    ensures a == b && x == y
  {
  }

  // ----- the bitwise definition

  function Half(c: bv32): bv32
  {
    c >> 1
  }

  predicate Odd(c: bv32)
  {
    c & 1 == 1
  }

  /** Divides out one bit. */
  function Shift1(c: bv32): bv32
  {
    if Odd(c) then Xor(Half(c), POLYNOMIAL) else Half(c)
  }

  function Shift8(c: bv32): bv32
  {
    Shift1(Shift1(Shift1(Shift1(Shift1(Shift1(Shift1(Shift1(c))))))))
  }

  /** The register after a message has been divided out bit by bit, lowest bit of each byte first. */
  function Bitwise(c: bv32, m: seq<bv8>): bv32
    decreases |m|
  {
    if m == [] then c else Bitwise(Shift8(Xor(c, Wide(m[0]))), m[1..])
  }

  /** CRC-32 of a message: all ones in, complement out. */
  function Crc(m: seq<bv8>): bv32
  {
    Xor(Bitwise(0xffffffff, m), 0xffffffff)
  }

  // ----- dividing out bits distributes over exclusive or, and confuses nothing

  lemma HalfXor(x: bv32, y: bv32)
    ensures Half(Xor(x, y)) == Xor(Half(x), Half(y))
  {
  }

  lemma OddXor(x: bv32, y: bv32)
    ensures Odd(Xor(x, y)) <==> Odd(x) != Odd(y)
  {
  }

  /** A constant taken out of an exclusive or; two cancel. */
  lemma XorOut(x: bv32, y: bv32, p: bv32)
    ensures Xor(Xor(x, p), y) == Xor(Xor(x, y), p)
    ensures Xor(x, Xor(y, p)) == Xor(Xor(x, y), p)
    ensures Xor(Xor(x, p), Xor(y, p)) == Xor(x, y)
  {
    hide Xor;
    XorAssoc(x, p, y);
    XorAssoc(x, y, p);
    XorComm(p, y);
    XorAssoc(Xor(x, p), y, p);
    XorCancel(Xor(x, y), p);
  }

  lemma Shift1Xor(x: bv32, y: bv32)
    ensures Shift1(Xor(x, y)) == Xor(Shift1(x), Shift1(y))
  {
    hide Xor, Half, Odd;
    HalfXor(x, y);
    OddXor(x, y);
    XorOut(Half(x), Half(y), POLYNOMIAL);
  }

  lemma Shift8Xor(x: bv32, y: bv32)
    ensures Shift8(Xor(x, y)) == Xor(Shift8(x), Shift8(y))
  {
    hide Shift1, Xor;
    var a, b := x, y;
    Shift1Xor(a, b);
    a, b := Shift1(a), Shift1(b);
    Shift1Xor(a, b);
    a, b := Shift1(a), Shift1(b);
    Shift1Xor(a, b);
    a, b := Shift1(a), Shift1(b);
    Shift1Xor(a, b);
    a, b := Shift1(a), Shift1(b);
    Shift1Xor(a, b);
    a, b := Shift1(a), Shift1(b);
    Shift1Xor(a, b);
    a, b := Shift1(a), Shift1(b);
    Shift1Xor(a, b);
    a, b := Shift1(a), Shift1(b);
    Shift1Xor(a, b);
  }

  lemma Shift1Injective(x: bv32, y: bv32)
    requires Shift1(x) == Shift1(y)
    ensures x == y
  {
  }

  /** No two registers are confused by dividing out a byte. */
  lemma Shift8Injective(x: bv32, y: bv32)
    requires Shift8(x) == Shift8(y)
    ensures x == y
  {
    hide Shift1;
    var a, b := Shift1(x), Shift1(y);
    var a2, b2 := Shift1(Shift1(a)), Shift1(Shift1(b));
    var a4, b4 := Shift1(Shift1(a2)), Shift1(Shift1(b2));
    var a6, b6 := Shift1(Shift1(a4)), Shift1(Shift1(b4));
    Shift1Injective(a6, b6);
    Shift1Injective(Shift1(a4), Shift1(b4));
    Shift1Injective(a4, b4);
    Shift1Injective(Shift1(a2), Shift1(b2));
    Shift1Injective(a2, b2);
    Shift1Injective(Shift1(a), Shift1(b));
    Shift1Injective(a, b);
    Shift1Injective(x, y);
  }

  /** A register whose low byte is clear just moves down. */
  lemma Shift8High(c: bv32)
    requires c & 0xff == 0
    ensures Shift8(c) == Down(c)
  {
  }

  // ----- the table

  const ROW_0: seq<bv32> := [
    0x00000000, 0x77073096, 0xee0e612c, 0x990951ba, 0x076dc419, 0x706af48f, 0xe963a535, 0x9e6495a3,
    0x0edb8832, 0x79dcb8a4, 0xe0d5e91e, 0x97d2d988, 0x09b64c2b, 0x7eb17cbd, 0xe7b82d07, 0x90bf1d91]

  const ROW_1: seq<bv32> := [
    0x1db71064, 0x6ab020f2, 0xf3b97148, 0x84be41de, 0x1adad47d, 0x6ddde4eb, 0xf4d4b551, 0x83d385c7,
    0x136c9856, 0x646ba8c0, 0xfd62f97a, 0x8a65c9ec, 0x14015c4f, 0x63066cd9, 0xfa0f3d63, 0x8d080df5]

  const ROW_2: seq<bv32> := [
    0x3b6e20c8, 0x4c69105e, 0xd56041e4, 0xa2677172, 0x3c03e4d1, 0x4b04d447, 0xd20d85fd, 0xa50ab56b,
    0x35b5a8fa, 0x42b2986c, 0xdbbbc9d6, 0xacbcf940, 0x32d86ce3, 0x45df5c75, 0xdcd60dcf, 0xabd13d59]

  const ROW_3: seq<bv32> := [
    0x26d930ac, 0x51de003a, 0xc8d75180, 0xbfd06116, 0x21b4f4b5, 0x56b3c423, 0xcfba9599, 0xb8bda50f,
    0x2802b89e, 0x5f058808, 0xc60cd9b2, 0xb10be924, 0x2f6f7c87, 0x58684c11, 0xc1611dab, 0xb6662d3d]

  const ROW_4: seq<bv32> := [
    0x76dc4190, 0x01db7106, 0x98d220bc, 0xefd5102a, 0x71b18589, 0x06b6b51f, 0x9fbfe4a5, 0xe8b8d433,
    0x7807c9a2, 0x0f00f934, 0x9609a88e, 0xe10e9818, 0x7f6a0dbb, 0x086d3d2d, 0x91646c97, 0xe6635c01]

  const ROW_5: seq<bv32> := [
    0x6b6b51f4, 0x1c6c6162, 0x856530d8, 0xf262004e, 0x6c0695ed, 0x1b01a57b, 0x8208f4c1, 0xf50fc457,
    0x65b0d9c6, 0x12b7e950, 0x8bbeb8ea, 0xfcb9887c, 0x62dd1ddf, 0x15da2d49, 0x8cd37cf3, 0xfbd44c65]

  const ROW_6: seq<bv32> := [
    0x4db26158, 0x3ab551ce, 0xa3bc0074, 0xd4bb30e2, 0x4adfa541, 0x3dd895d7, 0xa4d1c46d, 0xd3d6f4fb,
    0x4369e96a, 0x346ed9fc, 0xad678846, 0xda60b8d0, 0x44042d73, 0x33031de5, 0xaa0a4c5f, 0xdd0d7cc9]

  const ROW_7: seq<bv32> := [
    0x5005713c, 0x270241aa, 0xbe0b1010, 0xc90c2086, 0x5768b525, 0x206f85b3, 0xb966d409, 0xce61e49f,
    0x5edef90e, 0x29d9c998, 0xb0d09822, 0xc7d7a8b4, 0x59b33d17, 0x2eb40d81, 0xb7bd5c3b, 0xc0ba6cad]

  const ROW_8: seq<bv32> := [
    0xedb88320, 0x9abfb3b6, 0x03b6e20c, 0x74b1d29a, 0xead54739, 0x9dd277af, 0x04db2615, 0x73dc1683,
    0xe3630b12, 0x94643b84, 0x0d6d6a3e, 0x7a6a5aa8, 0xe40ecf0b, 0x9309ff9d, 0x0a00ae27, 0x7d079eb1]

  const ROW_9: seq<bv32> := [
    0xf00f9344, 0x8708a3d2, 0x1e01f268, 0x6906c2fe, 0xf762575d, 0x806567cb, 0x196c3671, 0x6e6b06e7,
    0xfed41b76, 0x89d32be0, 0x10da7a5a, 0x67dd4acc, 0xf9b9df6f, 0x8ebeeff9, 0x17b7be43, 0x60b08ed5]

  const ROW_A: seq<bv32> := [
    0xd6d6a3e8, 0xa1d1937e, 0x38d8c2c4, 0x4fdff252, 0xd1bb67f1, 0xa6bc5767, 0x3fb506dd, 0x48b2364b,
    0xd80d2bda, 0xaf0a1b4c, 0x36034af6, 0x41047a60, 0xdf60efc3, 0xa867df55, 0x316e8eef, 0x4669be79]

  const ROW_B: seq<bv32> := [
    0xcb61b38c, 0xbc66831a, 0x256fd2a0, 0x5268e236, 0xcc0c7795, 0xbb0b4703, 0x220216b9, 0x5505262f,
    0xc5ba3bbe, 0xb2bd0b28, 0x2bb45a92, 0x5cb36a04, 0xc2d7ffa7, 0xb5d0cf31, 0x2cd99e8b, 0x5bdeae1d]

  const ROW_C: seq<bv32> := [
    0x9b64c2b0, 0xec63f226, 0x756aa39c, 0x026d930a, 0x9c0906a9, 0xeb0e363f, 0x72076785, 0x05005713,
    0x95bf4a82, 0xe2b87a14, 0x7bb12bae, 0x0cb61b38, 0x92d28e9b, 0xe5d5be0d, 0x7cdcefb7, 0x0bdbdf21]

  const ROW_D: seq<bv32> := [
    0x86d3d2d4, 0xf1d4e242, 0x68ddb3f8, 0x1fda836e, 0x81be16cd, 0xf6b9265b, 0x6fb077e1, 0x18b74777,
    0x88085ae6, 0xff0f6a70, 0x66063bca, 0x11010b5c, 0x8f659eff, 0xf862ae69, 0x616bffd3, 0x166ccf45]

  const ROW_E: seq<bv32> := [
    0xa00ae278, 0xd70dd2ee, 0x4e048354, 0x3903b3c2, 0xa7672661, 0xd06016f7, 0x4969474d, 0x3e6e77db,
    0xaed16a4a, 0xd9d65adc, 0x40df0b66, 0x37d83bf0, 0xa9bcae53, 0xdebb9ec5, 0x47b2cf7f, 0x30b5ffe9]

  const ROW_F: seq<bv32> := [
    0xbdbdf21c, 0xcabac28a, 0x53b39330, 0x24b4a3a6, 0xbad03605, 0xcdd70693, 0x54de5729, 0x23d967bf,
    0xb3667a2e, 0xc4614ab8, 0x5d681b02, 0x2a6f2b94, 0xb40bbe37, 0xc30c8ea1, 0x5a05df1b, 0x2d02ef8d]

  function Row(i: nat): (row: seq<bv32>)
    requires i < 16
    ensures |row| == 16
  {
    if i < 8 then
      [ROW_0, ROW_1, ROW_2, ROW_3, ROW_4, ROW_5, ROW_6, ROW_7][i]
    else
      [ROW_8, ROW_9, ROW_A, ROW_B, ROW_C, ROW_D, ROW_E, ROW_F][i - 8]
  }

  /** Entry b of the 256-entry table. */
  function Table(b: bv8): bv32
  {
    Row((b >> 4) as nat)[(b & 0xf) as nat]
  }

  /** Row r of the table is row 0, changed by the entry at the head of row r. */
  lemma RowsFrom0(r: nat, j: nat)
    requires r < 4 && j < 16
    ensures Row(r)[j] == Xor(Row(r)[0], ROW_0[j])
  {
    if r == 0 {} else if r == 1 {} else if r == 2 {} else {}
  }

  lemma RowsFrom4(r: nat, j: nat)
    requires 4 <= r < 8 && j < 16
    ensures Row(r)[j] == Xor(Row(r)[0], ROW_0[j])
  {
    if r == 4 {} else if r == 5 {} else if r == 6 {} else {}
  }

  lemma RowsFrom8(r: nat, j: nat)
    requires 8 <= r < 12 && j < 16
    ensures Row(r)[j] == Xor(Row(r)[0], ROW_0[j])
  {
    if r == 8 {} else if r == 9 {} else if r == 10 {} else {}
  }

  lemma RowsFrom12(r: nat, j: nat)
    requires 12 <= r < 16 && j < 16
    ensures Row(r)[j] == Xor(Row(r)[0], ROW_0[j])
  {
    if r == 12 {} else if r == 13 {} else if r == 14 {} else {}
  }

  lemma Rows(r: nat, j: nat)
    requires r < 16 && j < 16
    ensures Row(r)[j] == Xor(Row(r)[0], ROW_0[j])
  {
    hide Row, Xor;
    if r < 4 { RowsFrom0(r, j); } else if r < 8 { RowsFrom4(r, j); } else if r < 12 { RowsFrom8(r, j); }
    else { RowsFrom12(r, j); }
  }

  lemma RowHead(r: bv8)
    requires r < 16
    ensures Row(r as nat)[0] == Shift8((r as bv32) << 4)
  {
    if r == 0 {} else if r == 1 {} else if r == 2 {} else if r == 3 {} else if r == 4 {} else if r == 5 {}
    else if r == 6 {} else if r == 7 {} else if r == 8 {} else if r == 9 {} else if r == 10 {} else if r == 11 {}
    else if r == 12 {} else if r == 13 {} else if r == 14 {} else {}
  }

  lemma FirstRow(j: bv8)
    requires j < 16
    ensures ROW_0[j as nat] == Shift8(j as bv32)
  {
    if j == 0 {} else if j == 1 {} else if j == 2 {} else if j == 3 {} else if j == 4 {} else if j == 5 {}
    else if j == 6 {} else if j == 7 {} else if j == 8 {} else if j == 9 {} else if j == 10 {} else if j == 11 {}
    else if j == 12 {} else if j == 13 {} else if j == 14 {} else {}
  }

  lemma Nibbles(b: bv8)
    ensures Wide(b) == Xor(((b >> 4) as bv32) << 4, (b & 0xf) as bv32)
  {
  }

  /** The table holds the effect of dividing out each byte. */
  lemma TableIs(b: bv8)
    ensures Table(b) == Shift8(Wide(b))
  {
    hide Shift8, Xor, Wide;
    var h, l := b >> 4, b & 0xf;
    RowHead(h);
    FirstRow(l);
    Rows(h as nat, l as nat);
    Shift8Xor((h as bv32) << 4, l as bv32);
    Nibbles(b);
  }

  // ----- the table-driven form

  /** One step of the table-driven form. */
  function Step(c: bv32, b: bv8): bv32
  {
    Xor(Table(LowByte(Xor(c, Wide(b)))), Down(c))
  }

  lemma StepIs(c: bv32, b: bv8)
    ensures Step(c, b) == Shift8(Xor(c, Wide(b)))
  {
    hide Shift8, Table, Xor, Wide, LowByte, Down;
    var z := Xor(c, Wide(b));
    TableIs(LowByte(z));
    SplitLow(z);
    Shift8Xor(Wide(LowByte(z)), z & 0xffffff00);
    RestClear(z);
    Shift8High(z & 0xffffff00);
    DownRest(c, b);
  }

  lemma {:induction false} BitwiseAppend(c: bv32, m: seq<bv8>, b: bv8)
    ensures Bitwise(c, m + [b]) == Shift8(Xor(Bitwise(c, m), Wide(b)))
    decreases |m|
  {
    hide Shift8, Xor, Wide;
    if m == [] {
      assert [b][1..] == [];
      assert Bitwise(Shift8(Xor(c, Wide(b))), []) == Shift8(Xor(c, Wide(b)));
    } else {
      BitwiseAppend(Shift8(Xor(c, Wide(m[0]))), m[1..], b);
      assert (m + [b])[1..] == m[1..] + [b];
    }
  }

  /** The table-driven checksum is CRC-32. */
  method Checksum(data: seq<bv8>) returns (r: bv32)
    ensures r == Crc(data)
  {
    hide Shift8, Table, Step, Xor, Wide, Bitwise;
    r := 0xffffffff;
    NothingDivided(r);
    assert data[..0] == [];
    for i := 0 to |data|
      invariant r == Bitwise(0xffffffff, data[..i])
    {
      StepIs(r, data[i]);
      BitwiseAppend(0xffffffff, data[..i], data[i]);
      assert data[..i + 1] == data[..i] + [data[i]];
      r := Step(r, data[i]);
    }
    assert data[..|data|] == data;
    r := Xor(r, 0xffffffff);
  }

  lemma NothingDivided(c: bv32)
    ensures Bitwise(c, []) == c
  {
  }

  // ----- burst errors

  lemma {:induction false} BitwiseInjective(c: bv32, d: bv32, m: seq<bv8>)
    requires Bitwise(c, m) == Bitwise(d, m)
    ensures c == d
    decreases |m|
  {
    hide Shift8, Xor, Wide;
    if m != [] {
      var b := Wide(m[0]);
      BitwiseInjective(Shift8(Xor(c, b)), Shift8(Xor(d, b)), m[1..]);
      Shift8Injective(Xor(c, b), Xor(d, b));
      XorCancel(c, b);
      XorCancel(d, b);
    }
  }

  lemma {:induction false} BitwiseConcat(c: bv32, m: seq<bv8>, n: seq<bv8>)
    ensures Bitwise(c, m + n) == Bitwise(Bitwise(c, m), n)
    decreases |m|
  {
    hide Shift8, Xor, Wide;
    if m == [] {
      assert m + n == n;
    } else {
      BitwiseConcat(Shift8(Xor(c, Wide(m[0]))), m[1..], n);
      assert (m + n)[1..] == m[1..] + n;
    }
  }

  /** Up to four bytes as one register, first byte lowest. */
  function Word(w: seq<bv8>): bv32
    requires |w| <= 4
    decreases |w|
  {
    if w == [] then 0 else Xor(Wide(w[0]), Up(Word(w[1..])))
  }

  /** A register with only its n low bytes in use. */
  predicate InUse(c: bv32, n: nat)
    requires n <= 4
  {
    n == 4 || (n == 3 && c <= 0xffffff) || (n == 2 && c <= 0xffff) || (n == 1 && c <= 0xff) || (n == 0 && c == 0)
  }

  lemma UpInUse(b: bv8, y: bv32, n: nat)
    requires n < 4 && InUse(y, n)
    ensures InUse(Xor(Wide(b), Up(y)), n + 1) && y <= 0xffffff
  {
  }

  lemma {:induction false} WordInUse(w: seq<bv8>)
    requires |w| <= 4
    ensures InUse(Word(w), |w|)
    decreases |w|
  {
    hide Xor, Wide, Up;
    if w == [] {
    } else {
      WordInUse(w[1..]);
      UpInUse(w[0], Word(w[1..]), |w| - 1);
    }
  }

  /** n bytes of zeros divided out. */
  function Zeros(c: bv32, n: nat): bv32
    decreases n
  {
    if n == 0 then c else Zeros(Shift8(c), n - 1)
  }

  /** Up to three bytes waiting behind the low byte can be added before or after it is divided out. */
  lemma Shift8Late(c: bv32, y: bv32)
    requires y <= 0xffffff
    ensures Shift8(Xor(c, Up(y))) == Xor(Shift8(c), y)
  {
    hide Shift8, Xor, Up, Down;
    DownUp(y);
    Shift8Xor(c, Up(y));
    Shift8High(Up(y));
  }

  /** Dividing out up to four bytes is dividing out zeros after adding all of them at once. */
  lemma {:induction false} BitwiseWord(c: bv32, w: seq<bv8>)
    requires |w| <= 4
    ensures Bitwise(c, w) == Zeros(Xor(c, Word(w)), |w|)
    decreases |w|
  {
    hide Shift8, Xor, Wide, Up;
    if w == [] {
      XorZero(c);
    } else {
      var b, y := Wide(w[0]), Word(w[1..]);
      BitwiseWord(Shift8(Xor(c, b)), w[1..]);
      WordInUse(w[1..]);
      UpInUse(w[0], y, |w| - 1);
      Shift8Late(Xor(c, b), y);
      XorAssoc(c, b, Up(y));
    }
  }

  lemma {:induction false} ZerosInjective(c: bv32, d: bv32, n: nat)
    requires Zeros(c, n) == Zeros(d, n)
    ensures c == d
    decreases n
  {
    hide Shift8;
    if n != 0 {
      ZerosInjective(Shift8(c), Shift8(d), n - 1);
      Shift8Injective(c, d);
    }
  }

  lemma {:induction false} WordInjective(v: seq<bv8>, w: seq<bv8>)
    requires |v| == |w| <= 4 && Word(v) == Word(w)
    ensures v == w
    decreases |v|
  {
    hide Xor, Wide, Up;
    if v != [] {
      var x, y := Word(v[1..]), Word(w[1..]);
      WordInUse(v[1..]);
      WordInUse(w[1..]);
      UpInUse(v[0], x, |v| - 1);
      UpInUse(w[0], y, |v| - 1);
      SplitWord(v[0], x, w[0], y);
      WordInjective(v[1..], w[1..]);
      assert v == [v[0]] + v[1..] && w == [w[0]] + w[1..];
    }
  }

  /** Different short words leave different registers. */
  lemma WordDetected(c: bv32, v: seq<bv8>, w: seq<bv8>)
    requires |v| == |w| <= 4 && v != w
    ensures Bitwise(c, v) != Bitwise(c, w)
  {
    hide Bitwise, Zeros, Word, Xor;
    if Bitwise(c, v) == Bitwise(c, w) {
      BitwiseWord(c, v);
      BitwiseWord(c, w);
      ZerosInjective(Xor(c, Word(v)), Xor(c, Word(w)), |v|);
      XorComm(c, Word(v));
      XorComm(c, Word(w));
      XorCancel(Word(v), c);
      XorCancel(Word(w), c);
      WordInjective(v, w);
    }
  }

  /** The usual check value: the digits 1 to 9 in ASCII. */
  lemma CheckValue()
    ensures Crc([0x31, 0x32, 0x33, 0x34, 0x35, 0x36, 0x37, 0x38, 0x39]) == 0xcbf43926
  {
  }

  /** Messages of one length that differ, but only inside four consecutive bytes, have different checksums. */
  lemma BurstDetected(m: seq<bv8>, n: seq<bv8>, k: nat)
    requires |m| == |n| && m != n
    requires forall i :: 0 <= i < |m| && !(k <= i < k + 4) ==> m[i] == n[i]
    ensures Crc(m) != Crc(n)
  {
    hide Bitwise, Xor;
    var lo := if k < |m| then k else |m|;
    var hi := if k + 4 < |m| then k + 4 else |m|;
    var v, w := m[lo..hi], n[lo..hi];
    assert m[..lo] == n[..lo] && m[hi..] == n[hi..];
    assert m == m[..lo] + (v + m[hi..]) && n == n[..lo] + (w + n[hi..]);
    var c := Bitwise(0xffffffff, m[..lo]);
    BitwiseConcat(0xffffffff, m[..lo], v + m[hi..]);
    BitwiseConcat(0xffffffff, n[..lo], w + n[hi..]);
    BitwiseConcat(c, v, m[hi..]);
    BitwiseConcat(c, w, n[hi..]);
    WordDetected(c, v, w);
    var x, y := Bitwise(0xffffffff, m), Bitwise(0xffffffff, n);
    if Crc(m) == Crc(n) {
      XorCancel(x, 0xffffffff);
      XorCancel(y, 0xffffffff);
      BitwiseInjective(Bitwise(c, v), Bitwise(c, w), m[hi..]);
    }
  }
}
