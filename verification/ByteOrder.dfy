/** Fixed-width integers in network byte order, as both copies of the codec read and write them.

    Strings are raw bytes.  The widths of the source are explicit: `u16`, `u32`, `i32` and `i64`
    are the C++ types, and every truncation or reinterpretation is written out. */
module ByteOrder {

  type byte = b: int | 0 <= b < 0x100
  type u16 = n: int | 0 <= n < 0x1_0000
  type u32 = n: int | 0 <= n < 0x1_0000_0000
  type i32 = n: int | -0x8000_0000 <= n < 0x8000_0000
  type i64 = n: int | -0x8000_0000_0000_0000 <= n < 0x8000_0000_0000_0000
  type Bytes = seq<byte>

  const TWO_TO_16: int := 0x1_0000
  const TWO_TO_32: int := 0x1_0000_0000
  const TWO_TO_64: int := 0x1_0000_0000_0000_0000

  datatype Option<+T> = None | Some(value: T)

  /** `static_cast<uint16_t>` and arithmetic in `uint32_t`: only the low bits are kept. */
  function Low16(n: int): u16 {
    n % 0x1_0000
  }

  function Low32(n: int): u32 {
    n % 0x1_0000_0000
  }

  // ---- 16 and 32 bits -------------------------------------------------------------------

  /** The low `w` bytes of the two's-complement representation of `v`, most significant first. */
  function BigEndian(w: nat, v: int): (r: Bytes)
    ensures |r| == w
  {
    if w == 0 then [] else BigEndian(w - 1, v / 0x100) + [v % 0x100]
  }

  function Be16(v: u16): (r: Bytes)
    ensures |r| == 2
  {
    BigEndian(2, v)
  }

  function Be32(v: u32): (r: Bytes)
    ensures |r| == 4
  {
    BigEndian(4, v)
  }

  lemma BytesOf16(v: u16)
    ensures Be16(v) == [v / 0x100, v % 0x100]
  {
    assert BigEndian(1, v / 0x100) == BigEndian(0, v / 0x100 / 0x100) + [v / 0x100 % 0x100];
  }

  lemma BytesOf32(v: u32)
    ensures Be32(v) == [v / 0x100_0000, v / 0x1_0000 % 0x100, v / 0x100 % 0x100, v % 0x100]
  {
    var a, b, c := v / 0x100, v / 0x100 / 0x100, v / 0x100 / 0x100 / 0x100;
    assert b == v / 0x1_0000 && c == v / 0x100_0000;
    assert BigEndian(1, c) == BigEndian(0, c / 0x100) + [c % 0x100] == [c];
    assert BigEndian(2, b) == [c, b % 0x100];
    assert BigEndian(3, a) == [c, b % 0x100, a % 0x100];
  }

  function Read16(d: Bytes, at: nat): u16
    requires at + 2 <= |d|
  {
    (d[at] as int) * 0x100 + d[at + 1]
  }

  function Read32(d: Bytes, at: nat): u32
    requires at + 4 <= |d|
  {
    (d[at] as int) * 0x100_0000 + (d[at + 1] as int) * 0x1_0000 + (d[at + 2] as int) * 0x100 + d[at + 3]
  }

  /** `static_cast<uint32_t>` of an `int32_t`. */
  function ToU32(v: i32): u32 {
    if v < 0 then v + TWO_TO_32 else v
  }

  /** `static_cast<int32_t>` of a `uint32_t`. */
  function ToI32(v: u32): i32 {
    if v < 0x8000_0000 then v else v - TWO_TO_32
  }

  function ReadI32(d: Bytes, at: nat): i32
    requires at + 4 <= |d|
  {
    ToI32(Read32(d, at))
  }

  /** Reading two bytes yields `v` exactly when those two bytes are the encoding of `v`. */
  lemma Read16Exact(d: Bytes, at: nat, v: u16)
    requires at + 2 <= |d|
    ensures Read16(d, at) == v <==> d[at..at + 2] == Be16(v)
  {
    BytesOf16(v);
    assert d[at..at + 2] == [d[at], d[at + 1]];
  }

  /** The digits of a number to base 256 are unique. */
  lemma Digits(a: int, b: byte, v: int)
    ensures a * 0x100 + b == v <==> a == v / 0x100 && b == v % 0x100
  {
  }

  lemma Read32Exact(d: Bytes, at: nat, v: u32)
    requires at + 4 <= |d|
    ensures Read32(d, at) == v <==> d[at..at + 4] == Be32(v)
  {
    BytesOf32(v);
    assert d[at..at + 4] == [d[at], d[at + 1], d[at + 2], d[at + 3]];
    var a, b, c, e := d[at], d[at + 1], d[at + 2], d[at + 3];
    var ab: int := a as int * 0x100 + b;
    var abc: int := ab * 0x100 + c;
    Digits(abc, e, v);
    Digits(ab, c, v / 0x100);
    Digits(a, b, v / 0x100 / 0x100);
    assert v / 0x100 / 0x100 == v / 0x1_0000 && v / 0x100 / 0x100 / 0x100 == v / 0x100_0000;
  }

  /** Reinterpretation and byte order together: an `int32_t` survives the trip, and only its own encoding reads
      back as it. */
  lemma ReadI32Exact(d: Bytes, at: nat, v: i32)
    requires at + 4 <= |d|
    ensures ReadI32(d, at) == v <==> d[at..at + 4] == Be32(ToU32(v))
  {
    Read32Exact(d, at, ToU32(v));
  }

  // ---- 64 bits --------------------------------------------------------------------------

  function Pow256(w: nat): nat {
    if w == 0 then 1 else 0x100 * Pow256(w - 1)
  }

  /** Arithmetic shift right by `8 * n` bits. */
  function Shr(v: int, n: nat): int
    decreases n
  {
    if n == 0 then v else Shr(v / 0x100, n - 1)
  }

  /** The positional value of a byte string. */
  function Value(bs: Bytes): nat {
    if bs == [] then 0 else Value(bs[..|bs| - 1]) * 0x100 + bs[|bs| - 1]
  }

  /** `static_cast<int64_t>` of an unsigned value reduced to 64 bits. */
  function Wrap64(v: int): i64 {
    var m := v % 0x1_0000_0000_0000_0000;
    if m < 0x8000_0000_0000_0000 then m else m - TWO_TO_64
  }

  function Be64(v: i64): (r: Bytes)
    ensures |r| == 8
  {
    BigEndian(8, v)
  }

  function ReadI64(d: Bytes, at: nat): i64
    requires at + 8 <= |d|
  {
    Wrap64(Value(d[at..at + 8]))
  }

  /** Splitting a number into what a `w`-byte shift drops and what it keeps. */
  lemma {:induction false} SplitBytes(w: nat, v: int)
    ensures v == Shr(v, w) * Pow256(w) + Value(BigEndian(w, v))
    ensures 0 <= Value(BigEndian(w, v)) < Pow256(w)
  {
    if w > 0 {
      var q, b := v / 0x100, v % 0x100;
      SplitBytes(w - 1, q);
      var low := BigEndian(w - 1, q);
      ValueSnoc(low, b);
      Regroup(Shr(q, w - 1), Pow256(w - 1));
    }
  }

  lemma ValueSnoc(bs: Bytes, b: byte)
    ensures Value(bs + [b]) == Value(bs) * 0x100 + b
  {
    assert (bs + [b])[..|bs|] == bs;
  }

  lemma Regroup(s: int, p: int)
    ensures (s * p) * 0x100 == s * (0x100 * p)
  {
  }

  /** Any `w` bytes are the representation of their own value. */
  lemma {:induction false} BigEndianOfValue(bs: Bytes)
    ensures BigEndian(|bs|, Value(bs)) == bs
  {
    if bs != [] {
      var n := |bs| - 1;
      BigEndianOfValue(bs[..n]);
      assert Value(bs) / 0x100 == Value(bs[..n]) && Value(bs) % 0x100 == bs[n];
      assert bs == bs[..n] + [bs[n]];
    }
  }

  lemma {:induction false} BigEndianMod(w: nat, v: int, k: int)
    ensures BigEndian(w, v + k * Pow256(w)) == BigEndian(w, v)
  {
    if w > 0 {
      var p := Pow256(w - 1);
      assert k * (0x100 * p) == (k * p) * 0x100;
      assert (v + (k * p) * 0x100) / 0x100 == v / 0x100 + k * p;
      assert (v + (k * p) * 0x100) % 0x100 == v % 0x100;
      BigEndianMod(w - 1, v / 0x100, k);
    }
  }

  lemma Pow256Of8()
    ensures Pow256(8) == TWO_TO_64
  {
    assert Pow256(4) == TWO_TO_32;
    assert Pow256(8) == 0x1_0000_0000 * Pow256(4);
  }

  /** Reading eight bytes yields `v` exactly when they are the two's-complement encoding of `v`; negative
      values included. */
  lemma ReadI64Exact(d: Bytes, at: nat, v: i64)
    requires at + 8 <= |d|
    ensures ReadI64(d, at) == v <==> d[at..at + 8] == Be64(v)
  {
    var w := d[at..at + 8];
    if w == Be64(v) {
      WrapOfBe64(v);
    }
    if ReadI64(d, at) == v {
      BigEndianOfValue(w);
      Be64OfWrap(Value(w));
    }
  }

  lemma WrapOfBe64(v: i64)
    ensures Wrap64(Value(Be64(v))) == v
  {
    Pow256Of8();
    SplitBytes(8, v);
    hide Value, Be64, Shr;
    WrapUnique(v, Shr(v, 8), Value(Be64(v)));
  }

  lemma WrapUnique(v: i64, k: int, n: nat)
    requires v == k * 0x1_0000_0000_0000_0000 + n && n < TWO_TO_64
    ensures Wrap64(n) == v
  {
  }

  lemma Be64OfWrap(u: nat)
    ensures Be64(Wrap64(u)) == BigEndian(8, u)
  {
    var k := u / 0x1_0000_0000_0000_0000 + (if u % 0x1_0000_0000_0000_0000 < 0x8000_0000_0000_0000 then 0 else 1);
    assert u == Wrap64(u) + k * Pow256(8) by {
      Pow256Of8();
    }
    BigEndianMod(8, Wrap64(u), k);
  }

  // ---- The writers and the looping reader -------------------------------------------------

  /** The `std::vector<uint8_t>` an encoder appends to. */
  class ByteBuffer {
    var bytes: Bytes

    constructor ()
      ensures bytes == []
    {
      bytes := [];
    }

    method PushBack(b: byte)
      modifies this
      ensures bytes == old(bytes) + [b]
    {
      bytes := bytes + [b];
    }

    /** `buffer.insert(buffer.end(), s.begin(), s.end())` */
    method Insert(s: Bytes)
      modifies this
      ensures bytes == old(bytes) + s
    {
      bytes := bytes + s;
    }

    method WriteUint16(v: u16)
      modifies this
      ensures bytes == old(bytes) + Be16(v)
    {
      BytesOf16(v);
      PushBack(v / 0x100 % 0x100);
      PushBack(v % 0x100);
    }

    method WriteUint32(v: u32)
      modifies this
      ensures bytes == old(bytes) + Be32(v)
    {
      BytesOf32(v);
      HighByte(v);
      hide Be32;
      PushBack(v / 0x100_0000 % 0x100);
      PushBack(v / 0x1_0000 % 0x100);
      PushBack(v / 0x100 % 0x100);
      PushBack(v % 0x100);
      assert bytes == old(bytes) + [v / 0x100_0000, v / 0x1_0000 % 0x100, v / 0x100 % 0x100, v % 0x100];
    }

    method WriteInt32(v: i32)
      modifies this
      ensures bytes == old(bytes) + Be32(ToU32(v))
    {
      WriteUint32(ToU32(v));
    }

    /** Eight bytes, most significant first, each an arithmetic shift and a mask. */
    method WriteInt64(v: i64)
      modifies this
      ensures bytes == old(bytes) + Be64(v)
    {
      var i := 7;
      while i >= 0
        invariant -1 <= i <= 7
        invariant bytes == old(bytes) + BigEndian(7 - i, Shr(v, i + 1))
      {
        ShrStep(v, i);
        PushBack(Shr(v, i) % 0x100);
        i := i - 1;
      }
    }

    /** The length field keeps only sixteen bits, but the whole string is appended. */
    method WriteString(s: Bytes)
      modifies this
      ensures bytes == old(bytes) + Be16(Low16(|s|)) + s
    {
      WriteUint16(Low16(|s|));
      Insert(s);
    }
  }

  lemma HighByte(v: u32)
    ensures v / 0x100_0000 % 0x100 == v / 0x100_0000
  {
  }

  lemma {:induction false} ShrStep(v: int, n: nat)
    ensures Shr(v, n) / 0x100 == Shr(v, n + 1)
    decreases n
  {
    if n > 0 {
      ShrStep(v / 0x100, n - 1);
    }
  }

  lemma Wrap64Step(n: int, b: byte)
    ensures Wrap64(Wrap64(n) * 0x100 + b) == Wrap64(n * 0x100 + b)
  {
    var q := (n - Wrap64(n)) / 0x1_0000_0000_0000_0000;
    assert n == Wrap64(n) + q * 0x1_0000_0000_0000_0000;
    var x, y := Wrap64(n) * 0x100 + b, n * 0x100 + b;
    assert y == x + (q * 0x100) * 0x1_0000_0000_0000_0000;
    assert y % 0x1_0000_0000_0000_0000 == x % 0x1_0000_0000_0000_0000 by {
      ModShift(x, q * 0x100);
    }
  }

  lemma ModShift(x: int, k: int)
    ensures (x + k * 0x1_0000_0000_0000_0000) % 0x1_0000_0000_0000_0000 == x % 0x1_0000_0000_0000_0000
  {
    var q := x / 0x1_0000_0000_0000_0000;
    assert x + k * 0x1_0000_0000_0000_0000 == (q + k) * 0x1_0000_0000_0000_0000 + x % 0x1_0000_0000_0000_0000;
  }

  /** The loop shifts a signed accumulator, so it wraps at every step; the result is still the two's-complement
      reading of the eight bytes. */
  method ReadInt64(d: Bytes, at: nat) returns (value: i64)
    requires at + 8 <= |d|
    ensures value == ReadI64(d, at)
  {
    value := 0;
    var i := 0;
    while i < 8
      invariant 0 <= i <= 8
      invariant value == Wrap64(Value(d[at..at + i]))
    {
      assert d[at..at + i + 1][..i] == d[at..at + i];
      Wrap64Step(Value(d[at..at + i]), d[at + i]);
      value := Wrap64(value * 0x100 + d[at + i]);
      i := i + 1;
    }
  }
}
