/** Bytes, fixed-width unsigned integers, little-endian fields and in-place
    replacement of part of a byte sequence. */
module Bytes {

  type Byte = x: int | 0 <= x < 0x100
  type U16 = x: int | 0 <= x < 0x1_0000
  type U32 = x: int | 0 <= x < 0x1_0000_0000
  type U64 = x: int | 0 <= x < 0x1_0000_0000_0000_0000

  const U64_MAX: U64 := 0xFFFF_FFFF_FFFF_FFFF

  datatype Option<+T> = None | Some(value: T)

  /** The number held by a little-endian field. */
  function LeVal(s: seq<Byte>): nat
  {
    if s == [] then 0 else s[0] + 0x100 * LeVal(s[1..])
  }

  /** The n-byte little-endian field for v, truncating v to n bytes as a C store does. */
  function LeBytes(v: nat, n: nat): (s: seq<Byte>)
    ensures |s| == n
  {
    if n == 0 then [] else [v % 0x100] + LeBytes(v / 0x100, n - 1)
  }

  function Pow256(n: nat): nat
  {
    if n == 0 then 1 else 0x100 * Pow256(n - 1)
  }

  lemma {:induction false} LeRoundTrip(v: nat, n: nat)
    requires v < Pow256(n)
    ensures LeVal(LeBytes(v, n)) == v
  {
    if n == 0 {
    } else {
      LeRoundTrip(v / 0x100, n - 1);
      var s := LeBytes(v, n);
      assert s[1..] == LeBytes(v / 0x100, n - 1);
    }
  }

  lemma {:induction false} LeValBound(s: seq<Byte>)
    ensures LeVal(s) < Pow256(|s|)
  {
    if s == [] {
    } else {
      LeValBound(s[1..]);
    }
  }

  lemma PowValues()
    ensures Pow256(2) == 0x1_0000
    ensures Pow256(4) == 0x1_0000_0000
    ensures Pow256(8) == 0x1_0000_0000_0000_0000
  {
    assert Pow256(1) == 0x100;
    assert Pow256(3) == 0x100_0000;
    assert Pow256(5) == 0x100_0000_0000;
    assert Pow256(6) == 0x1_0000_0000_0000;
    assert Pow256(7) == 0x100_0000_0000_0000;
  }

  /** Reads of 2-, 4- and 8-byte fields. */
  function Get16(s: seq<Byte>, at: nat): U16
    requires at + 2 <= |s|
  {
    PowValues(); LeValBound(s[at..at + 2]);
    LeVal(s[at..at + 2])
  }

  function Get32(s: seq<Byte>, at: nat): U32
    requires at + 4 <= |s|
  {
    PowValues(); LeValBound(s[at..at + 4]);
    LeVal(s[at..at + 4])
  }

  function Get64(s: seq<Byte>, at: nat): U64
    requires at + 8 <= |s|
  {
    PowValues(); LeValBound(s[at..at + 8]);
    LeVal(s[at..at + 8])
  }

  /** Fields are little-endian. */
  lemma FieldValues(s: seq<Byte>, at: nat)
    ensures at + 2 <= |s| ==> Get16(s, at) == (s[at] as int) + 0x100 * (s[at + 1] as int)
    ensures at + 4 <= |s| ==>
              Get32(s, at) == (s[at] as int) + 0x100 * (s[at + 1] as int) + 0x1_0000 * (s[at + 2] as int)
                              + 0x100_0000 * (s[at + 3] as int)
    ensures at + 8 <= |s| ==> Get64(s, at) == Get32(s, at) + 0x1_0000_0000 * Get32(s, at + 4)
  {
    hide LeVal;
    if at + 2 <= |s| {
      TwoBytes(s[at..at + 2]);
    }
    if at + 4 <= |s| {
      FourBytes(s[at..at + 4]);
    }
    if at + 8 <= |s| {
      EightBytes(s[at..at + 8]);
      assert s[at..at + 8][..4] == s[at..at + 4] && s[at..at + 8][4..] == s[at + 4..at + 8];
    }
  }

  lemma TwoBytes(s: seq<Byte>)
    requires |s| == 2
    ensures LeVal(s) == (s[0] as int) + 0x100 * (s[1] as int)
  {
    assert LeVal(s[1..]) == s[1] + 0x100 * LeVal(s[1..][1..]) && s[1..][1..] == [];
  }

  lemma FourBytes(s: seq<Byte>)
    requires |s| == 4
    ensures LeVal(s) == (s[0] as int) + 0x100 * (s[1] as int) + 0x1_0000 * (s[2] as int) + 0x100_0000 * (s[3] as int)
  {
    TwoBytes(s[2..]);
    assert LeVal(s[1..]) == s[1] + 0x100 * LeVal(s[1..][1..]) && s[1..][1..] == s[2..];
  }

  lemma EightBytes(s: seq<Byte>)
    requires |s| == 8
    ensures LeVal(s) == LeVal(s[..4]) + 0x1_0000_0000 * LeVal(s[4..])
  {
    FourBytes(s[..4]);
    assert LeVal(s[1..]) == s[1] + 0x100 * LeVal(s[1..][1..]) && s[1..][1..] == s[2..];
    assert LeVal(s[2..]) == s[2] + 0x100 * LeVal(s[2..][1..]) && s[2..][1..] == s[3..];
    assert LeVal(s[3..]) == s[3] + 0x100 * LeVal(s[3..][1..]) && s[3..][1..] == s[4..];
  }

  /** s with the bytes starting at `at` replaced by t. */
  function Splice(s: seq<Byte>, at: nat, t: seq<Byte>): (r: seq<Byte>)
    requires at + |t| <= |s|
    ensures |r| == |s|
    ensures forall i :: 0 <= i < |s| ==> r[i] == if at <= i < at + |t| then t[i - at] else s[i]
  {
    s[..at] + t + s[at + |t|..]
  }

  lemma SpliceSlice(s: seq<Byte>, at: nat, t: seq<Byte>, a: nat, b: nat)
    requires at + |t| <= |s| && a <= b <= |s|
    requires b <= at || at + |t| <= a
    ensures Splice(s, at, t)[a..b] == s[a..b]
  {
  }

  lemma SpliceOwn(s: seq<Byte>, at: nat, t: seq<Byte>)
    requires at + |t| <= |s|
    ensures Splice(s, at, t)[at..at + |t|] == t
  {
  }

  /** Rewriting a whole sector of which only one field changed is the same as rewriting the field. */
  lemma SpliceNested(s: seq<Byte>, at: nat, len: nat, off: nat, t: seq<Byte>)
    requires at + len <= |s| && off + |t| <= len
    ensures Splice(s, at, Splice(s[at..at + len], off, t)) == Splice(s, at + off, t)
  {
  }

  lemma Get16AfterPut(s: seq<Byte>, at: nat, v: U16)
    requires at + 2 <= |s|
    ensures Get16(Splice(s, at, LeBytes(v, 2)), at) == v
  {
    PowValues();
    LeRoundTrip(v, 2);
    SpliceOwn(s, at, LeBytes(v, 2));
  }

  lemma Get32AfterPut(s: seq<Byte>, at: nat, v: U32)
    requires at + 4 <= |s|
    ensures Get32(Splice(s, at, LeBytes(v, 4)), at) == v
  {
    PowValues();
    LeRoundTrip(v, 4);
    SpliceOwn(s, at, LeBytes(v, 4));
  }

  lemma Get64AfterPut(s: seq<Byte>, at: nat, v: U64)
    requires at + 8 <= |s|
    ensures Get64(Splice(s, at, LeBytes(v, 8)), at) == v
  {
    PowValues();
    LeRoundTrip(v, 8);
    SpliceOwn(s, at, LeBytes(v, 8));
  }

  // ----- fields of a buffer

  /** Stores the n-byte little-endian field v at buffer[at..]. */
  method PutLe(buffer: array<Byte>, at: nat, v: nat, n: nat)
    requires at + n <= buffer.Length
    modifies buffer
    ensures buffer[..] == Splice(old(buffer[..]), at, LeBytes(v, n))
  {
    var rest := v;
    for i := 0 to n
      invariant LeBytes(v, n)[i..] == LeBytes(rest, n - i)
      invariant buffer[..] == Splice(old(buffer[..]), at, LeBytes(v, n)[..i])
    {
      assert LeBytes(v, n)[i] == LeBytes(v, n)[i..][0];
      assert LeBytes(v, n)[i + 1..] == LeBytes(v, n)[i..][1..];
      buffer[at + i] := rest % 0x100;
      rest := rest / 0x100;
    }
    assert LeBytes(v, n)[..n] == LeBytes(v, n);
  }

  /** Loads the n-byte little-endian field at buffer[at..]. */
  method LoadLe(buffer: array<Byte>, at: nat, n: nat) returns (v: nat)
    requires at + n <= buffer.Length
    ensures v == LeVal(buffer[at..at + n]) && v < Pow256(n)
  {
    LeValBound(buffer[at..at + n]);
    v := 0;
    for i := n downto 0
      invariant v == LeVal(buffer[at + i..at + n])
    {
      assert buffer[at + i..at + n][1..] == buffer[at + (i + 1)..at + n];
      v := buffer[at + i] + 0x100 * v;
    }
  }
}
