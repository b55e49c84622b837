// Fixed-width byte accessors of X2Utils::Byte.
module Bytes {
  import opened Arithmetic

  type byte = b: int | 0 <= b < 256
  type bytes = seq<byte>

  // Get2Bytes: network byte order.
  function Get2Bytes(data: bytes, i: nat): (v: nat)
    requires i + 2 <= |data|
    ensures v < 0x1_0000
  {
    data[i + 1] as int + 0x100 * data[i] as int
  }

  // Get4LEBytes: little-endian.
  function Get4LEBytes(data: bytes, i: nat): (v: nat)
    requires i + 4 <= |data|
    ensures v < 0x1_0000_0000
  {
    0x100_0000 * data[i + 3] as int + 0x1_0000 * data[i + 2] as int + 0x100 * data[i + 1] as int + data[i] as int
  }

  // The bytes a setter stores for `value`, after the narrowing to 16 or 32 bits at the call.
  function Be16(value: nat): (bs: bytes)
    ensures |bs| == 2
  {
    [value / 0x100 % 0x100, value % 0x100]
  }

  function Le32(value: nat): (bs: bytes)
    ensures |bs| == 4
  {
    [value % 0x100, value / 0x100 % 0x100, value / 0x1_0000 % 0x100, value / 0x100_0000 % 0x100]
  }

  method Set2Bytes(data: array<byte>, i: nat, value: nat)
    requires i + 2 <= data.Length
    modifies data
    ensures data[..] == old(data[..i]) + Be16(value) + old(data[i + 2..])
  {
    data[i + 1] := value % 0x100;
    data[i] := value / 0x100 % 0x100;
  }

  method Set4LEBytes(data: array<byte>, i: nat, value: nat)
    requires i + 4 <= data.Length
    modifies data
    ensures data[..] == old(data[..i]) + Le32(value) + old(data[i + 4..])
  {
    data[i + 3] := value / 0x100_0000 % 0x100;
    data[i + 2] := value / 0x1_0000 % 0x100;
    data[i + 1] := value / 0x100 % 0x100;
    data[i] := value % 0x100;
  }

  // Splitting the lowest byte off.
  lemma LowByte(v: nat, w: nat)
    requires w > 0
    ensures v % (0x100 * w) == v % 0x100 + 0x100 * (v / 0x100 % w)
  {
    var q := v / 0x100;
    var hi, mid, lo := q / w, q % w, v % 0x100;
    assert v == 0x100 * q + lo && q == w * hi + mid;
    assert v == 0x100 * w * hi + (0x100 * mid + lo);
    DivModUnique(v, hi, 0x100 * w, 0x100 * mid + lo);
  }

  // A setter followed by its getter yields the value modulo the width.
  lemma {:induction false} GetAfterSet(value: nat)
    ensures Get2Bytes(Be16(value), 0) == value % 0x1_0000
    ensures Get4LEBytes(Le32(value), 0) == value % 0x1_0000_0000
  {
    LowByte(value, 0x100);
    LowByte(value, 0x100_0000);
    LowByte(value / 0x100, 0x1_0000);
    LowByte(value / 0x1_0000, 0x100);
    Shifts(value);
  }

  lemma Shifts(v: nat)
    ensures v / 0x1_0000 == v / 0x100 / 0x100
    ensures v / 0x100_0000 == v / 0x1_0000 / 0x100
  {
  }

  // ... and a getter followed by its setter restores the very bytes that were read.
  lemma {:induction false} SetAfterGet(s: bytes)
    ensures |s| >= 2 ==> Be16(Get2Bytes(s, 0)) == s[..2]
    ensures |s| >= 4 ==> Le32(Get4LEBytes(s, 0)) == s[..4]
  {
    if |s| >= 2 {
      TwoDigits(s[1], s[0]);
    }
    if |s| >= 4 {
      FourDigits(s[0], s[1], s[2], s[3]);
    }
  }

  lemma TwoDigits(b0: byte, b1: byte)
    ensures Be16(b0 as int + 0x100 * b1 as int) == [b1, b0]
  {
  }

  lemma FourDigits(b0: byte, b1: byte, b2: byte, b3: byte)
    ensures Le32(0x100_0000 * b3 as int + 0x1_0000 * b2 as int + 0x100 * b1 as int + b0 as int) == [b0, b1, b2, b3]
  {
    var q2 := 0x100 * b3 as int + b2 as int;
    var q1 := 0x100 * q2 + b1 as int;
    LowDigit(q1, b0);
    LowDigit(q2, b1);
    LowDigit(b3, b2);
    Shifts(0x100 * q1 + b0 as int);
  }

  lemma LowDigit(high: nat, low: byte)
    ensures (0x100 * high + low as int) / 0x100 == high && (0x100 * high + low as int) % 0x100 == low as int
  {
  }

  // Network byte order compares from the first byte on, little-endian from the last.
  lemma FirstByteDecides(s: bytes, t: bytes)
    requires |s| == |t| == 2
    ensures Get2Bytes(s, 0) < Get2Bytes(t, 0) <==> s[0] < t[0] || (s[0] == t[0] && s[1] < t[1])
  {
  }

  lemma LastByteDecides(s: bytes, t: bytes)
    requires |s| == |t| == 4
    ensures Get4LEBytes(s, 0) < Get4LEBytes(t, 0)
            <==> s[3] < t[3] || (s[3] == t[3] && (s[2] < t[2] || (s[2] == t[2] &&
                   (s[1] < t[1] || (s[1] == t[1] && s[0] < t[0])))))
  {
  }

  // The getters join bytes with `|`; on shifted bytes that is the sum used above.
  lemma OrIsSum(b3: bv32, b2: bv32, b1: bv32, b0: bv32)
    requires b3 < 0x100 && b2 < 0x100 && b1 < 0x100 && b0 < 0x100
    ensures (b3 << 24) | (b2 << 16) | (b1 << 8) | b0 == b3 * 0x100_0000 + b2 * 0x1_0000 + b1 * 0x100 + b0
  {
  }
}
