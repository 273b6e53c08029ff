/** The table-driven CRC-32 (crc32_init and compute_crc32, apps/icp_app/icp_helpers.c). */
module Crc32 {
  const POLYNOMIAL: bv32 := 0xEDB88320
  const ALL_ONES: bv32 := 0xFFFFFFFF

  // The operators are named so that proofs can treat them as uninterpreted.
  function Xor(x: bv32, y: bv32): bv32 { x ^ y }
  function Shift(x: bv32): bv32 { x >> 1 }
  function ShiftByte(x: bv32): bv32 { x >> 8 }
  function LowByte(x: bv32): bv32 { x & 0xFF }
  function HighBytes(x: bv32): bv32 { x & 0xFFFFFF00 }
  predicate Odd(x: bv32) { x & 1 == 1 }
  function Widen(b: bv8): bv32 { b as bv32 }

  /** One shift step of section 8 of RFC 1952. */
  function Step(crc: bv32): bv32 {
    if Odd(crc) then Xor(Shift(crc), POLYNOMIAL) else Shift(crc)
  }

  function Steps(crc: bv32, n: nat): bv32 {
    if n == 0 then crc else Step(Steps(crc, n - 1))
  }

  /** The register after the bytes, one bit at a time. */
  function Bitwise(crc: bv32, data: seq<bv8>): bv32 {
    if data == [] then crc
    else
      var k := |data| - 1;
      Steps(Xor(Bitwise(crc, data[..k]), Widen(data[k])), 8)
  }

  /** CRC-32 of RFC 1952, computed bit by bit. */
  function Crc(data: seq<bv8>): bv32 {
    Xor(Bitwise(ALL_ONES, data), ALL_ONES)
  }

  // ---- A step is linear, so that eight of them split into a byte shift and a table entry.

  lemma XorBits(x: bv32, y: bv32)
    ensures Odd(Xor(x, y)) <==> Odd(x) != Odd(y)
    ensures Shift(Xor(x, y)) == Xor(Shift(x), Shift(y))
  {
  }

  lemma XorMoves(a: bv32, b: bv32, p: bv32)
    ensures Xor(Xor(a, p), b) == Xor(Xor(a, b), p)
    ensures Xor(a, Xor(b, p)) == Xor(Xor(a, b), p)
    ensures Xor(Xor(a, p), Xor(b, p)) == Xor(a, b)
  {
  }

  lemma StepIsLinear(x: bv32, y: bv32)
    ensures Step(Xor(x, y)) == Xor(Step(x), Step(y))
  {
    hide Xor, Shift, Odd;
    XorBits(x, y);
    XorMoves(Shift(x), Shift(y), POLYNOMIAL);
  }

  lemma {:induction false} StepsAreLinear(x: bv32, y: bv32, n: nat)
    ensures Steps(Xor(x, y), n) == Xor(Steps(x, n), Steps(y, n))
  {
    hide Step, Xor;
    if n > 0 {
      StepsAreLinear(x, y, n - 1);
      StepIsLinear(Steps(x, n - 1), Steps(y, n - 1));
    }
  }

  lemma LowBitsClear(x: bv32)
    requires LowByte(x) == 0
    ensures !Odd(x) && !Odd(x >> 1) && !Odd(x >> 2) && !Odd(x >> 3)
    ensures !Odd(x >> 4) && !Odd(x >> 5) && !Odd(x >> 6) && !Odd(x >> 7)
  {
  }

  lemma ShiftsAdd(x: bv32)
    ensures Shift(x) == x >> 1 && Shift(x >> 1) == x >> 2
    ensures Shift(x >> 2) == x >> 3 && Shift(x >> 3) == x >> 4
    ensures Shift(x >> 4) == x >> 5 && Shift(x >> 5) == x >> 6
    ensures Shift(x >> 6) == x >> 7 && Shift(x >> 7) == ShiftByte(x)
  {
  }

  lemma EightShifts(x: bv32)
    requires LowByte(x) == 0
    ensures Steps(x, 8) == ShiftByte(x)
  {
    hide Odd, Shift, LowByte, ShiftByte, Xor, Steps;
    LowBitsClear(x);
    ShiftsAdd(x);
    EvenStep(x, 0, x);
    EvenStep(x, 1, x >> 1);
    EvenStep(x, 2, x >> 2);
    EvenStep(x, 3, x >> 3);
    EvenStep(x, 4, x >> 4);
    EvenStep(x, 5, x >> 5);
    EvenStep(x, 6, x >> 6);
    EvenStep(x, 7, x >> 7);
  }

  /** An even register is only shifted: nothing is fed back. */
  lemma EvenStep(x: bv32, n: nat, y: bv32)
    requires (n == 0 && y == x) || Steps(x, n) == y
    requires !Odd(y)
    ensures Steps(x, n + 1) == Shift(y)
  {
    hide Odd, Shift, Xor;
  }

  lemma SplitLowByte(x: bv32)
    ensures x == Xor(HighBytes(x), LowByte(x))
    ensures LowByte(HighBytes(x)) == 0 && ShiftByte(HighBytes(x)) == ShiftByte(x)
  {
  }

  /** Eight steps are one shift by a byte and the eight steps of the low byte. */
  lemma EightStepsByTable(x: bv32)
    ensures Steps(x, 8) == Xor(ShiftByte(x), Steps(LowByte(x), 8))
  {
    hide Steps, Xor, ShiftByte, LowByte, HighBytes;
    SplitLowByte(x);
    StepsAreLinear(HighBytes(x), LowByte(x), 8);
    EightShifts(HighBytes(x));
  }

  lemma ByteEntersLow(crc: bv32, b: bv8)
    ensures ShiftByte(Xor(crc, Widen(b))) == ShiftByte(crc)
  {
  }

  // ---- A change of one byte never goes unnoticed.

  /** The feedback sets the top bit that the shift has cleared, so no information is lost. */
  lemma StepIsInjective(x: bv32, y: bv32)
    requires Step(x) == Step(y)
    ensures x == y
  {
  }

  lemma {:induction false} StepsAreInjective(x: bv32, y: bv32, n: nat)
    requires Steps(x, n) == Steps(y, n)
    ensures x == y
  {
    hide Step;
    if n > 0 {
      StepIsInjective(Steps(x, n - 1), Steps(y, n - 1));
      StepsAreInjective(x, y, n - 1);
    }
  }

  lemma XorCancels(x: bv32, y: bv32, z: bv32)
    requires Xor(x, z) == Xor(y, z) || Xor(z, x) == Xor(z, y)
    ensures x == y
  {
  }

  lemma WidenIsInjective(a: bv8, b: bv8)
    requires Widen(a) == Widen(b)
    ensures a == b
  {
  }

  lemma {:induction false} TailKeepsDifference(x: bv32, y: bv32, data: seq<bv8>)
    requires Bitwise(x, data) == Bitwise(y, data)
    ensures x == y
  {
    hide Steps, Xor;
    if data != [] {
      var k := |data| - 1;
      var rx, ry := Bitwise(x, data[..k]), Bitwise(y, data[..k]);
      StepsAreInjective(Xor(rx, Widen(data[k])), Xor(ry, Widen(data[k])), 8);
      XorCancels(rx, ry, Widen(data[k]));
      TailKeepsDifference(x, y, data[..k]);
    }
  }

  lemma {:induction false} BitwiseAppend(crc: bv32, a: seq<bv8>, b: seq<bv8>)
    ensures Bitwise(crc, a + b) == Bitwise(Bitwise(crc, a), b)
  {
    hide Steps, Xor;
    if b == [] {
      assert a + b == a;
    } else {
      BitwiseAppend(crc, a, b[..|b| - 1]);
      assert (a + b)[..|a + b| - 1] == a + b[..|b| - 1];
    }
  }

  lemma OneByteChangeIsSeen(before: seq<bv8>, a: bv8, b: bv8, after: seq<bv8>)
    ensures Crc(before + [a] + after) == Crc(before + [b] + after) ==> a == b
  {
    hide Bitwise, Xor, Widen;
    if Crc(before + [a] + after) == Crc(before + [b] + after) {
      var r := Bitwise(ALL_ONES, before);
      BitwiseAppend(ALL_ONES, before + [a], after);
      BitwiseAppend(ALL_ONES, before + [b], after);
      XorCancels(Bitwise(ALL_ONES, before + [a] + after), Bitwise(ALL_ONES, before + [b] + after), ALL_ONES);
      TailKeepsDifference(Bitwise(ALL_ONES, before + [a]), Bitwise(ALL_ONES, before + [b]), after);
      LastByte(ALL_ONES, before, a);
      LastByte(ALL_ONES, before, b);
      StepsAreInjective(Xor(r, Widen(a)), Xor(r, Widen(b)), 8);
      XorCancels(Widen(a), Widen(b), r);
      WidenIsInjective(a, b);
    }
  }

  lemma LastByte(crc: bv32, data: seq<bv8>, b: bv8)
    ensures Bitwise(crc, data + [b]) == Steps(Xor(Bitwise(crc, data), Widen(b)), 8)
  {
    hide Steps, Xor, Widen;
    assert (data + [b])[..|data|] == data;
  }

  function Index(x: bv32): (i: nat)
    ensures i < 256 && i as bv32 == LowByte(x)
  {
    LowByte(x) as int
  }

  predicate IsTable(table: array<bv32>)
    reads table
  {
    table.Length == 256 && forall i | 0 <= i < 256 :: table[i] == Steps(i as bv32, 8)
  }

  /** crc32_init: nested loops fill the table. */
  method Init(table: array<bv32>)
    requires table.Length == 256
    modifies table
    ensures IsTable(table)
  {
    hide Xor, Shift, Odd;
    for i := 0 to 256
      invariant forall k | 0 <= k < i :: table[k] == Steps(k as bv32, 8)
    {
      var crc := i as bv32;
      for j := 0 to 8
        invariant crc == Steps(i as bv32, j)
      {
        if Odd(crc) {
          crc := Xor(Shift(crc), POLYNOMIAL);
        } else {
          crc := Shift(crc);
        }
      }
      table[i] := crc;
    }
  }

  /** compute_crc32 equals the bit-at-a-time CRC for every byte string. */
  method Compute(table: array<bv32>, data: seq<bv8>) returns (result: bv32)
    requires table.Length == 256
    modifies table
    ensures result == Crc(data)
  {
    hide Steps, Xor, ShiftByte, LowByte, Widen, Index;
    Init(table);
    var crc := ALL_ONES;
    for i := 0 to |data|
      invariant IsTable(table) && crc == Bitwise(ALL_ONES, data[..i])
    {
      var x := Xor(crc, Widen(data[i]));
      EightStepsByTable(x);
      ByteEntersLow(crc, data[i]);
      assert data[..i + 1][..i] == data[..i];
      crc := Xor(ShiftByte(crc), table[Index(x)]);
    }
    assert data[..|data|] == data;
    result := Xor(crc, ALL_ONES);
  }

  // ---- The check value.

  lemma EightFrom(x: bv32, a: bv32, b: bv32, c: bv32, d: bv32, e: bv32, f: bv32, g: bv32, y: bv32)
    requires Step(x) == a && Step(a) == b && Step(b) == c && Step(c) == d
    requires Step(d) == e && Step(e) == f && Step(f) == g && Step(g) == y
    ensures Steps(x, 8) == y
  {
    hide Step;
    assert Steps(x, 1) == a && Steps(x, 2) == b && Steps(x, 3) == c && Steps(x, 4) == d;
    assert Steps(x, 5) == e && Steps(x, 6) == f && Steps(x, 7) == g;
  }

  /** One byte more: the register before it, with the byte in it, and after eight steps. */
  lemma OneByteMore(data: seq<bv8>, n: bv8, next: seq<bv8>, crc: bv32, x: bv32, y: bv32)
    requires Bitwise(ALL_ONES, data) == crc && next == data + [n] && Xor(crc, Widen(n)) == x && Steps(x, 8) == y
    ensures Bitwise(ALL_ONES, next) == y
  {
    hide Steps, Xor, Widen;
    LastByte(ALL_ONES, data, n);
  }

  lemma FirstDigits()
    ensures Bitwise(ALL_ONES, [0x31, 0x32, 0x33]) == 0x77b79c2d
  {
    hide Bitwise, Steps;
    EmptyCrc();
    EightFrom(0xffffffce, 0x7fffffe7, 0xd2477cd3, 0x849b3d49, 0xaff51d84, 0x57fa8ec2, 0x2bfd4761, 0xf8462090,
              0x7c231048);
    OneByteMore([], 0x31, [0x31],
                0xffffffff, 0xffffffce, 0x7c231048);
    EightFrom(0x7c23107a, 0x3e11883d, 0xf2b0473e, 0x7958239f, 0xd11492ef, 0x8532ca57, 0xaf21e60b, 0xba287025,
              0xb0acbb32);
    OneByteMore([0x31], 0x32, [0x31, 0x32],
                0x7c231048, 0x7c23107a, 0xb0acbb32);
    EightFrom(0xb0acbb01, 0xb5eedea0, 0x5af76f50, 0x2d7bb7a8, 0x16bddbd4, 0x0b5eedea, 0x05af76f5, 0xef6f385a,
              0x77b79c2d);
    OneByteMore([0x31, 0x32], 0x33, [0x31, 0x32, 0x33],
                0xb0acbb32, 0xb0acbb01, 0x77b79c2d);
  }

  lemma NextDigits()
    ensures Bitwise(ALL_ONES, [0x31, 0x32, 0x33, 0x34, 0x35, 0x36]) == 0xf68d2c9e
  {
    hide Bitwise, Steps;
    FirstDigits();
    EightFrom(0x77b79c19, 0xd6634d2c, 0x6b31a696, 0x3598d34b, 0xf774ea85, 0x9602f662, 0x4b017b31, 0xc8383eb8,
              0x641c1f5c);
    OneByteMore([0x31, 0x32, 0x33], 0x34, [0x31, 0x32, 0x33, 0x34],
                0x77b79c2d, 0x77b79c19, 0x641c1f5c);
    EightFrom(0x641c1f69, 0xdfb68c94, 0x6fdb464a, 0x37eda325, 0xf64e52b2, 0x7b272959, 0xd02b178c, 0x68158bc6,
              0x340ac5e3);
    OneByteMore([0x31, 0x32, 0x33, 0x34], 0x35, [0x31, 0x32, 0x33, 0x34, 0x35],
                0x641c1f5c, 0x641c1f69, 0x340ac5e3);
    EightFrom(0x340ac5d5, 0xf7bde1ca, 0x7bdef0e5, 0xd057fb52, 0x682bfda9, 0xd9ad7df4, 0x6cd6befa, 0x366b5f7d,
              0xf68d2c9e);
    OneByteMore([0x31, 0x32, 0x33, 0x34, 0x35], 0x36, [0x31, 0x32, 0x33, 0x34, 0x35, 0x36],
                0x340ac5e3, 0x340ac5d5, 0xf68d2c9e);
  }

  lemma LastDigits()
    ensures Bitwise(ALL_ONES, [0x31, 0x32, 0x33, 0x34, 0x35, 0x36, 0x37, 0x38, 0x39]) == 0x340bc6d9
  {
    hide Bitwise, Steps;
    NextDigits();
    EightFrom(0xf68d2ca9, 0x96fe1574, 0x4b7f0aba, 0x25bf855d, 0xff67418e, 0x7fb3a0c7, 0xd2615343, 0x84882a81,
              0xaffc9660);
    OneByteMore([0x31, 0x32, 0x33, 0x34, 0x35, 0x36], 0x37, [0x31, 0x32, 0x33, 0x34, 0x35, 0x36, 0x37],
                0xf68d2c9e, 0xf68d2ca9, 0xaffc9660);
    EightFrom(0xaffc9658, 0x57fe4b2c, 0x2bff2596, 0x15ff92cb, 0xe7474a45, 0x9e1b2602, 0x4f0d9301, 0xca3e4aa0,
              0x651f2550);
    OneByteMore([0x31, 0x32, 0x33, 0x34, 0x35, 0x36, 0x37], 0x38, [0x31, 0x32, 0x33, 0x34, 0x35, 0x36, 0x37, 0x38],
                0xaffc9660, 0xaffc9658, 0x651f2550);
    EightFrom(0x651f2569, 0xdf371194, 0x6f9b88ca, 0x37cdc465, 0xf65e6112, 0x7b2f3089, 0xd02f1b64, 0x68178db2,
              0x340bc6d9);
    OneByteMore([0x31, 0x32, 0x33, 0x34, 0x35, 0x36, 0x37, 0x38], 0x39,
                [0x31, 0x32, 0x33, 0x34, 0x35, 0x36, 0x37, 0x38, 0x39],
                0x651f2550, 0x651f2569, 0x340bc6d9);
  }

  lemma EmptyCrc()
    ensures Bitwise(ALL_ONES, []) == 0xffffffff
  {
  }

  /** The digits 1 to 9 in ASCII give the check value by which CRC-32 is known; no data give 0. */
  lemma CheckValue()
    ensures Crc([0x31, 0x32, 0x33, 0x34, 0x35, 0x36, 0x37, 0x38, 0x39]) == 0xCBF43926 && Crc([]) == 0
  {
    hide Bitwise;
    LastDigits();
    EmptyCrc();
  }

  lemma OneFour()
    ensures Crc([4]) == 0xd56f2b94
  {
    hide Bitwise, Steps;
    EmptyCrc();
    EightFrom(0xfffffffb, 0x92477cdd, 0xa49b3d4e, 0x524d9ea7, 0xc49e4c73, 0x8ff7a519, 0xaa4351ac, 0x5521a8d6,
              0x2a90d46b);
    OneByteMore([], 4, [4], 0xffffffff, 0xfffffffb, 0x2a90d46b);
  }
}
