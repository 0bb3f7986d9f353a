/** Object identifiers as sixteen hexadecimal digits. */
module Hex {
  import opened Bytes
  import opened Directory

  datatype ObjectId = ObjectId(high: U64, low: U64)

  const NULL_ID := ObjectId(0, 0)

  /** Digit d of "0123456789abcdef". */
  function Digit(d: nat): (c: Byte)
    requires d < 16
    ensures c != 0
  {
    if d < 10 then 0x30 + d else 0x61 + (d - 10)
  }

  /** The value of a hexadecimal digit in either case; -1 for any other character. */
  function DigitValue(c: Byte): (v: int)
    ensures -1 <= v < 16
  {
    if 0x30 <= c <= 0x39 then c - 0x30
    else if 0x61 <= c <= 0x66 then c - 0x61 + 10
    else if 0x41 <= c <= 0x46 then c - 0x41 + 10
    else -1
  }

  /** The digits in order: "0123456789abcdef". */
  const DIGITS: seq<Byte> :=
    [0x30, 0x31, 0x32, 0x33, 0x34, 0x35, 0x36, 0x37, 0x38, 0x39, 0x61, 0x62, 0x63, 0x64, 0x65, 0x66]

  /** Digits are read in either case, and nothing else is one. */
  lemma DigitsRead(d: nat, c: Byte)
    requires d < 16
    ensures Digit(d) == DIGITS[d] && DigitValue(DIGITS[d]) == d
    ensures 10 <= d ==> DigitValue(DIGITS[d] - 32) == d
    ensures 0 <= DigitValue(c) <==> c in DIGITS || (0x41 <= c && c + 32 in DIGITS)
  {
    if 0 <= DigitValue(c) {
      assert DIGITS[DigitValue(c)] == c || DIGITS[DigitValue(c)] == c + 32;
    }
  }

  /** The n lowest digits of v, highest first. */
  function Digits(v: nat, n: nat): (s: seq<Byte>)
    ensures |s| == n
  {
    if n == 0 then [] else Digits(v / 16, n - 1) + [Digit(v % 16)]
  }

  /** The number a string of digits denotes; None if it holds anything else. */
  function Value(s: seq<Byte>): Option<nat>
  {
    if s == [] then Some(0)
    else
      var r, d := Value(s[..|s| - 1]), DigitValue(s[|s| - 1]);
      if r.None? || d < 0 then None else Some(16 * r.value + d)
  }

  function Pow16(n: nat): (p: nat)
    ensures 0 < p
  {
    if n == 0 then 1 else 16 * Pow16(n - 1)
  }

  lemma {:induction false} ValueOfDigits(v: nat, n: nat)
    requires v < Pow16(n)
    ensures Value(Digits(v, n)) == Some(v)
  {
    if n == 0 {
    } else {
      var s := Digits(v, n);
      ValueOfDigits(v / 16, n - 1);
      assert s[..n - 1] == Digits(v / 16, n - 1);
    }
  }

  lemma {:induction false} ValueBound(s: seq<Byte>)
    ensures Value(s).Some? ==> Value(s).value < Pow16(|s|)
  {
    if s == [] {
    } else {
      ValueBound(s[..|s| - 1]);
    }
  }

  lemma Pow16Values()
    ensures Pow16(8) == 0x1_0000_0000
  {
    assert Pow16(3) == 0x1000;
    assert Pow16(6) == 0x100_0000;
  }

  /** Digit k from the right is the k-th hexadecimal digit. */
  lemma {:induction false} DigitAt(v: nat, n: nat, k: nat)
    requires k < n
    ensures Digits(v, n)[n - 1 - k] == DIGITS[v / Pow16(k) % 16]
  {
    DigitsRead(v % 16, 0);
    if k > 0 {
      DigitAt(v / 16, n - 1, k - 1);
      DivTwice(v, k);
    }
  }

  lemma DivTwice(v: nat, k: nat)
    requires 0 < k
    ensures v / 16 / Pow16(k - 1) == v / Pow16(k)
  {
    DivDiv(v, Pow16(k - 1));
  }

  lemma DivDiv(v: nat, m: nat)
    requires 0 < m
    ensures v / 16 / m == v / (16 * m)
  {
    var q, r := v / 16, v % 16;
    var a, b := q / m, q % m;
    assert v == 16 * (m * a + b) + r == (16 * m) * a + (16 * b + r);
    assert 16 * b + r < 16 * m;
    QuotientIs(v, 16 * m, a, 16 * b + r);
  }

  lemma QuotientIs(v: nat, n: nat, q: nat, r: nat)
    requires r < n && v == n * q + r
    ensures v / n == q
  {
    assert v == n * (v / n) + v % n;
    assert n * (v / n - q) == r - v % n;
    Cancelled(n, v / n - q);
  }

  lemma Cancelled(n: int, d: int)
    requires -n < n * d < n
    ensures d == 0
  {
  }

  /** A string denotes a number exactly if all of it are digits. */
  lemma {:induction false} ValueIff(s: seq<Byte>)
    ensures Value(s).Some? <==> forall i :: 0 <= i < |s| ==> 0 <= DigitValue(s[i])
  {
    if s != [] {
      var n := |s| - 1;
      ValueIff(s[..n]);
      assert forall i :: 0 <= i < n ==> s[..n][i] == s[i];
    }
  }

  /** Which case the digits are in makes no difference. */
  lemma {:induction false} ValueIgnoresCase(s: seq<Byte>, t: seq<Byte>)
    requires |s| == |t| && forall i :: 0 <= i < |s| ==> t[i] == s[i] || (0x41 <= s[i] <= 0x46 && t[i] == s[i] + 32)
    ensures Value(s) == Value(t)
  {
    if s != [] {
      ValueIgnoresCase(s[..|s| - 1], t[..|t| - 1]);
    }
  }

  // ----- identifiers

  function Low32(v: U64): U32
  {
    v % 0x1_0000_0000
  }

  /** An identifier as it is written: eight digits for each half, each half cut to 32 bits. */
  function Printed(id: ObjectId): (s: seq<Byte>)
    ensures |s| == 16
  {
    Digits(Low32(id.high), 8) + Digits(Low32(id.low), 8)
  }

  /** The identifier that the first sixteen characters denote; None for shorter strings and for
      characters that are not digits. */
  function Scanned(s: CString): Option<ObjectId>
  {
    if |s| < 16 then None
    else
      var high, low := Value(s[..8]), Value(s[8..16]);
      if high.None? || low.None? then None
      else
        ValueBound(s[..8]); ValueBound(s[8..16]); Pow16Values();
        Some(ObjectId(high.value, low.value))
  }

  lemma {:induction false} DigitsNonzero(v: nat, n: nat)
    ensures forall i :: 0 <= i < n ==> Digits(v, n)[i] != 0
  {
    if n != 0 {
      DigitsNonzero(v / 16, n - 1);
    }
  }

  /** Scanning what was printed gives the identifier back, cut to 32 bits in each half. */
  lemma ScannedPrinted(id: ObjectId)
    ensures forall i :: 0 <= i < 16 ==> Printed(id)[i] != 0
    ensures Scanned(Printed(id)) == Some(ObjectId(Low32(id.high), Low32(id.low)))
  {
    var h, l := Low32(id.high), Low32(id.low);
    DigitsNonzero(h, 8);
    DigitsNonzero(l, 8);
    assert Printed(id)[..8] == Digits(h, 8) && Printed(id)[8..16] == Digits(l, 8);
    Pow16Values();
    ValueOfDigits(h, 8);
    ValueOfDigits(l, 8);
  }

  /** The high half is written before the low half, each highest digit first. */
  lemma PrintedAt(id: ObjectId, k: nat)
    requires k < 8
    ensures Printed(id)[7 - k] == DIGITS[Low32(id.high) / Pow16(k) % 16]
    ensures Printed(id)[15 - k] == DIGITS[Low32(id.low) / Pow16(k) % 16]
  {
    DigitAt(Low32(id.high), 8, k);
    DigitAt(Low32(id.low), 8, k);
  }

  /** Sixteen characters denote an identifier exactly if all are digits. */
  lemma ScannedIff(s: CString)
    ensures Scanned(s).Some? <==> 16 <= |s| && forall i :: 0 <= i < 16 ==> 0 <= DigitValue(s[i])
  {
    if 16 <= |s| {
      ValueIff(s[..8]);
      ValueIff(s[8..16]);
      assert forall i :: 0 <= i < 8 ==> s[..8][i] == s[i] && s[8..16][i] == s[8 + i];
      if forall i :: 0 <= i < 16 ==> 0 <= DigitValue(s[i]) {
        assert forall i :: 0 <= i < 8 ==> 0 <= DigitValue(s[8..16][i]);
      } else {
        var i :| 0 <= i < 16 && DigitValue(s[i]) < 0;
        assert DigitValue(if i < 8 then s[..8][i] else s[8..16][i - 8]) < 0;
      }
    }
  }

  /** An identifier survives printing and scanning exactly if both its halves fit 32 bits. */
  lemma SurvivesIff(id: ObjectId)
    ensures (forall i :: 0 <= i < 16 ==> Printed(id)[i] != 0)
         && (Scanned(Printed(id)) == Some(id) <==> id.high < 0x1_0000_0000 && id.low < 0x1_0000_0000)
  {
    hide Printed, Scanned;
    ScannedPrinted(id);
  }

  /** Two identifiers are printed alike exactly if they agree in the low 32 bits of both halves. */
  lemma PrintedInjective(a: ObjectId, b: ObjectId)
    ensures Printed(a) == Printed(b) <==> Low32(a.high) == Low32(b.high) && Low32(a.low) == Low32(b.low)
  {
    ScannedPrinted(a);
    ScannedPrinted(b);
  }

  /** v shifted right by i bits. */
  function ShiftRight(v: nat, i: nat): nat
  {
    if i == 0 then v else ShiftRight(v, i - 1) / 2
  }

  lemma {:induction false} ShiftNibble(v: nat, i: nat)
    ensures ShiftRight(v, i + 4) == ShiftRight(v, i) / 16
  {
    assert ShiftRight(v, i + 4) == ShiftRight(v, i + 3) / 2;
    assert ShiftRight(v, i + 3) == ShiftRight(v, i + 2) / 2;
    assert ShiftRight(v, i + 2) == ShiftRight(v, i + 1) / 2;
    assert ShiftRight(v, i + 1) == ShiftRight(v, i) / 2;
  }

  /** Prints one half, from the highest nibble down. */
  method PrintHalf(v: U32) returns (s: seq<Byte>)
    ensures s == Digits(v, 8)
  {
    s := [];
    var k := 8;
    ShrinkToZero(v);
    while k > 0
      invariant 0 <= k <= 8
      invariant s == Digits(ShiftRight(v, 4 * k), 8 - k)
    {
      k := k - 1;
      ShiftNibble(v, 4 * k);
      var d := ShiftRight(v, 4 * k) % 16;
      s := s + [Digit(d)];
    }
  }

  lemma ShrinkToZero(v: U32)
    ensures Digits(ShiftRight(v, 32), 0) == []
  {
  }

  method PrintId(id: ObjectId) returns (s: seq<Byte>)
    ensures s == Printed(id)
  {
    var high := PrintHalf(Low32(id.high));
    var low := PrintHalf(Low32(id.low));
    s := high + low;
  }

  /** Scans eight digits from position `at`; None at the first character that is not a digit. */
  method ScanHalf(s: CString, at: nat) returns (r: Option<U32>)
    requires at + 8 <= |s|
    ensures r.Some? <==> Value(s[at..at + 8]).Some?
    ensures r.Some? ==> Value(s[at..at + 8]) == Some(r.value as nat)
  {
    var v: nat := 0;
    for i := 0 to 8
      invariant Value(s[at..at + i]) == Some(v)
    {
      var d := DigitValue(s[at + i]);
      assert s[at..at + (i + 1)][..i] == s[at..at + i];
      if d < 0 {
        NoValue(s[at..at + 8], i);
        return None;
      }
      v := 16 * v + d;
    }
    ValueBound(s[at..at + 8]);
    Pow16Values();
    return Some(v);
  }

  /** A string with a character that is not a digit denotes no number. */
  lemma {:induction false} NoValue(s: seq<Byte>, i: nat)
    requires i < |s| && DigitValue(s[i]) < 0
    ensures Value(s).None?
  {
    if i < |s| - 1 {
      NoValue(s[..|s| - 1], i);
    }
  }

  /** Scans an identifier. */
  method ScanId(s: CString) returns (r: Option<ObjectId>)
    ensures r == Scanned(s)
  {
    if |s| < 16 {
      return None;
    }
    var high := ScanHalf(s, 0);
    if high.None? {
      return None;
    }
    var low := ScanHalf(s, 8);
    if low.None? {
      return None;
    }
    assert s[0..8] == s[..8];
    return Some(ObjectId(high.value, low.value));
  }
}
