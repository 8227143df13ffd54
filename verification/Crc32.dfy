/**
  The table-driven CRC-32 of crc32.h against the bit-by-bit definition in section 8 of
  RFC 1952: reflected polynomial, register complemented before and after.
 */
module Crc32 {

  // ---------------------------------------------------------------- bit by bit

  // One bit of the reflected division.
  function Shift(c: bv32): bv32 {
    if c & 1 == 1 then (c >> 1) ^ 0xEDB88320 else c >> 1
  }

  function Shifts(c: bv32, n: nat): bv32
    decreases n
  {
    if n == 0 then c else Shifts(Shift(c), n - 1)
  }

  function Xor(x: bv32, y: bv32): bv32 {
    x ^ y
  }

  function Not(x: bv32): bv32 {
    !x
  }

  // The register after the bytes of `buf`, fed low bit first.
  function Divide(c: bv32, buf: seq<bv8>): bv32
    decreases |buf|
  {
    if buf == [] then c else Divide(Shifts(Xor(c, buf[0] as bv32), 8), buf[1..])
  }

  // The CRC of section 8 of RFC 1952, continued from an earlier CRC.
  function Crc(crc: bv32, buf: seq<bv8>): bv32 {
    Not(Divide(Not(crc), buf))
  }

  // ---------------------------------------------------------------- crc32_tab

  // crc32.h:5-49, sixteen entries to a row.
  const ROW_0: seq<bv32> := [
    0x00000000, 0x77073096, 0xee0e612c, 0x990951ba, 0x076dc419, 0x706af48f, 0xe963a535, 0x9e6495a3,
    0x0edb8832, 0x79dcb8a4, 0xe0d5e91e, 0x97d2d988, 0x09b64c2b, 0x7eb17cbd, 0xe7b82d07, 0x90bf1d91]
  const ROW_1: seq<bv32> := [
    0x1db71064, 0x6ab020f2, 0xf3b97148, 0x84be41de, 0x1adad47d, 0x6ddde4eb, 0xf4d4b551, 0x83d385c7,
    0x136c9856, 0x646ba8c0, 0xfd62f97a, 0x8a65c9ec, 0x14015c4f, 0x63066cd9, 0xfa0f3d63, 0x8d080df5]
  const ROW_2: seq<bv32> := [
    0x3b6e20c8, 0x4c69105e, 0xd56041e4, 0xa2677172, 0x3c03e4d1, 0x4b04d447, 0xd20d85fd, 0xa50ab56b,
    0x35b5a8fa, 0x42b2986c, 0xdbbbc9d6, 0xacbcf940, 0x32d86ce3, 0x45df5c75, 0xdcd60dcf, 0xabd13d59]
  const ROW_3: seq<bv32> := [
    0x26d930ac, 0x51de003a, 0xc8d75180, 0xbfd06116, 0x21b4f4b5, 0x56b3c423, 0xcfba9599, 0xb8bda50f,
    0x2802b89e, 0x5f058808, 0xc60cd9b2, 0xb10be924, 0x2f6f7c87, 0x58684c11, 0xc1611dab, 0xb6662d3d]
  const ROW_4: seq<bv32> := [
    0x76dc4190, 0x01db7106, 0x98d220bc, 0xefd5102a, 0x71b18589, 0x06b6b51f, 0x9fbfe4a5, 0xe8b8d433,
    0x7807c9a2, 0x0f00f934, 0x9609a88e, 0xe10e9818, 0x7f6a0dbb, 0x086d3d2d, 0x91646c97, 0xe6635c01]
  const ROW_5: seq<bv32> := [
    0x6b6b51f4, 0x1c6c6162, 0x856530d8, 0xf262004e, 0x6c0695ed, 0x1b01a57b, 0x8208f4c1, 0xf50fc457,
    0x65b0d9c6, 0x12b7e950, 0x8bbeb8ea, 0xfcb9887c, 0x62dd1ddf, 0x15da2d49, 0x8cd37cf3, 0xfbd44c65]
  const ROW_6: seq<bv32> := [
    0x4db26158, 0x3ab551ce, 0xa3bc0074, 0xd4bb30e2, 0x4adfa541, 0x3dd895d7, 0xa4d1c46d, 0xd3d6f4fb,
    0x4369e96a, 0x346ed9fc, 0xad678846, 0xda60b8d0, 0x44042d73, 0x33031de5, 0xaa0a4c5f, 0xdd0d7cc9]
  const ROW_7: seq<bv32> := [
    0x5005713c, 0x270241aa, 0xbe0b1010, 0xc90c2086, 0x5768b525, 0x206f85b3, 0xb966d409, 0xce61e49f,
    0x5edef90e, 0x29d9c998, 0xb0d09822, 0xc7d7a8b4, 0x59b33d17, 0x2eb40d81, 0xb7bd5c3b, 0xc0ba6cad]
  const ROW_8: seq<bv32> := [
    0xedb88320, 0x9abfb3b6, 0x03b6e20c, 0x74b1d29a, 0xead54739, 0x9dd277af, 0x04db2615, 0x73dc1683,
    0xe3630b12, 0x94643b84, 0x0d6d6a3e, 0x7a6a5aa8, 0xe40ecf0b, 0x9309ff9d, 0x0a00ae27, 0x7d079eb1]
  const ROW_9: seq<bv32> := [
    0xf00f9344, 0x8708a3d2, 0x1e01f268, 0x6906c2fe, 0xf762575d, 0x806567cb, 0x196c3671, 0x6e6b06e7,
    0xfed41b76, 0x89d32be0, 0x10da7a5a, 0x67dd4acc, 0xf9b9df6f, 0x8ebeeff9, 0x17b7be43, 0x60b08ed5]
  const ROW_A: seq<bv32> := [
    0xd6d6a3e8, 0xa1d1937e, 0x38d8c2c4, 0x4fdff252, 0xd1bb67f1, 0xa6bc5767, 0x3fb506dd, 0x48b2364b,
    0xd80d2bda, 0xaf0a1b4c, 0x36034af6, 0x41047a60, 0xdf60efc3, 0xa867df55, 0x316e8eef, 0x4669be79]
  const ROW_B: seq<bv32> := [
    0xcb61b38c, 0xbc66831a, 0x256fd2a0, 0x5268e236, 0xcc0c7795, 0xbb0b4703, 0x220216b9, 0x5505262f,
    0xc5ba3bbe, 0xb2bd0b28, 0x2bb45a92, 0x5cb36a04, 0xc2d7ffa7, 0xb5d0cf31, 0x2cd99e8b, 0x5bdeae1d]
  const ROW_C: seq<bv32> := [
    0x9b64c2b0, 0xec63f226, 0x756aa39c, 0x026d930a, 0x9c0906a9, 0xeb0e363f, 0x72076785, 0x05005713,
    0x95bf4a82, 0xe2b87a14, 0x7bb12bae, 0x0cb61b38, 0x92d28e9b, 0xe5d5be0d, 0x7cdcefb7, 0x0bdbdf21]
  const ROW_D: seq<bv32> := [
    0x86d3d2d4, 0xf1d4e242, 0x68ddb3f8, 0x1fda836e, 0x81be16cd, 0xf6b9265b, 0x6fb077e1, 0x18b74777,
    0x88085ae6, 0xff0f6a70, 0x66063bca, 0x11010b5c, 0x8f659eff, 0xf862ae69, 0x616bffd3, 0x166ccf45]
  const ROW_E: seq<bv32> := [
    0xa00ae278, 0xd70dd2ee, 0x4e048354, 0x3903b3c2, 0xa7672661, 0xd06016f7, 0x4969474d, 0x3e6e77db,
    0xaed16a4a, 0xd9d65adc, 0x40df0b66, 0x37d83bf0, 0xa9bcae53, 0xdebb9ec5, 0x47b2cf7f, 0x30b5ffe9]
  const ROW_F: seq<bv32> := [
    0xbdbdf21c, 0xcabac28a, 0x53b39330, 0x24b4a3a6, 0xbad03605, 0xcdd70693, 0x54de5729, 0x23d967bf,
    0xb3667a2e, 0xc4614ab8, 0x5d681b02, 0x2a6f2b94, 0xb40bbe37, 0xc30c8ea1, 0x5a05df1b, 0x2d02ef8d]

  function Row(r: bv32): (row: seq<bv32>)
    ensures |row| == 16
  {
    match r
    case 0 => ROW_0 case 1 => ROW_1 case 2 => ROW_2 case 3 => ROW_3 case 4 => ROW_4
    case 5 => ROW_5 case 6 => ROW_6 case 7 => ROW_7 case 8 => ROW_8 case 9 => ROW_9
    case 10 => ROW_A case 11 => ROW_B case 12 => ROW_C case 13 => ROW_D case 14 => ROW_E
    case _ => ROW_F
  }

  // The value of a four-bit number.
  function Digit(k: bv32): (d: nat)
    ensures d < 16
  {
    match k
    case 0 => 0 case 1 => 1 case 2 => 2 case 3 => 3 case 4 => 4
    case 5 => 5 case 6 => 6 case 7 => 7 case 8 => 8 case 9 => 9
    case 10 => 10 case 11 => 11 case 12 => 12 case 13 => 13 case 14 => 14
    case _ => 15
  }

  function Crc32Tab(i: bv32): bv32 {
    Row(i >> 4)[Digit(i & 15)]
  }

  // Division is linear, so a row is its first entry added to row 0.
  ghost predicate RowFollows(row: seq<bv32>) {
    && |row| == 16
    && row[0] == Xor(row[0], ROW_0[0])
    && row[1] == Xor(row[0], ROW_0[1]) && row[2] == Xor(row[0], ROW_0[2]) && row[3] == Xor(row[0], ROW_0[3])
    && row[4] == Xor(row[0], ROW_0[4]) && row[5] == Xor(row[0], ROW_0[5]) && row[6] == Xor(row[0], ROW_0[6])
    && row[7] == Xor(row[0], ROW_0[7]) && row[8] == Xor(row[0], ROW_0[8]) && row[9] == Xor(row[0], ROW_0[9])
    && row[10] == Xor(row[0], ROW_0[10]) && row[11] == Xor(row[0], ROW_0[11]) && row[12] == Xor(row[0], ROW_0[12])
    && row[13] == Xor(row[0], ROW_0[13]) && row[14] == Xor(row[0], ROW_0[14]) && row[15] == Xor(row[0], ROW_0[15])
  }

  lemma RowsFollow0()
    ensures RowFollows(ROW_0) && RowFollows(ROW_1) && RowFollows(ROW_2)
  {}

  lemma RowsFollow1()
    ensures RowFollows(ROW_3) && RowFollows(ROW_4) && RowFollows(ROW_5) && RowFollows(ROW_6)
  {}

  lemma RowsFollow2()
    ensures RowFollows(ROW_7) && RowFollows(ROW_8) && RowFollows(ROW_9) && RowFollows(ROW_A)
  {}

  lemma RowsFollow3()
    ensures RowFollows(ROW_B) && RowFollows(ROW_C) && RowFollows(ROW_D)
  {}

  lemma RowsFollow4()
    ensures RowFollows(ROW_E) && RowFollows(ROW_F)
  {}

  lemma RowZero0()
    ensures ROW_0[1] == Shifts(1, 8)
    ensures ROW_0[2] == Shifts(2, 8) && ROW_0[3] == Shifts(3, 8)
  {}

  lemma RowZero1()
    ensures ROW_0[4] == Shifts(4, 8) && ROW_0[5] == Shifts(5, 8)
    ensures ROW_0[6] == Shifts(6, 8) && ROW_0[7] == Shifts(7, 8)
  {}

  lemma RowZero2()
    ensures ROW_0[8] == Shifts(8, 8) && ROW_0[9] == Shifts(9, 8)
    ensures ROW_0[10] == Shifts(10, 8) && ROW_0[11] == Shifts(11, 8)
  {}

  lemma RowZero3()
    ensures ROW_0[12] == Shifts(12, 8) && ROW_0[13] == Shifts(13, 8)
    ensures ROW_0[14] == Shifts(14, 8) && ROW_0[15] == Shifts(15, 8)
  {}

  lemma RowLeads0()
    ensures ROW_0[0] == Shifts(0, 8) && ROW_1[0] == Shifts(16, 8)
    ensures ROW_2[0] == Shifts(32, 8) && ROW_3[0] == Shifts(48, 8)
  {}

  lemma RowLeads1()
    ensures ROW_4[0] == Shifts(64, 8) && ROW_5[0] == Shifts(80, 8)
    ensures ROW_6[0] == Shifts(96, 8) && ROW_7[0] == Shifts(112, 8)
  {}

  lemma RowLeads2()
    ensures ROW_8[0] == Shifts(128, 8) && ROW_9[0] == Shifts(144, 8)
    ensures ROW_A[0] == Shifts(160, 8) && ROW_B[0] == Shifts(176, 8)
  {}

  lemma RowLeads3()
    ensures ROW_C[0] == Shifts(192, 8) && ROW_D[0] == Shifts(208, 8)
    ensures ROW_E[0] == Shifts(224, 8) && ROW_F[0] == Shifts(240, 8)
  {}

  /** Every entry of the table is eight bit-steps of its index. */
  lemma TableDivides(i: bv32)
    requires i < 256
    ensures Crc32Tab(i) == Shifts(i, 8)
  {
    hide Shift, Shifts, Row, Digit;
    var hi, lo := (i >> 4) << 4, i & 15;
    assert i == Xor(hi, lo);
    ShiftsLinear(hi, lo, 8);
    RowFollowsAt(i >> 4, lo);
    RowZeroAt(lo);
    RowLeadsAt(i >> 4);
  }

  lemma RowFollowsAt(r: bv32, k: bv32)
    ensures Row(r)[Digit(k)] == Xor(Row(r)[0], ROW_0[Digit(k)])
  {
    RowFollowing(r);
    ColumnFollows(Row(r), Digit(k));
  }

  lemma RowFollowing(r: bv32)
    ensures RowFollows(Row(r))
  {
    hide RowFollows, Xor;
    RowsFollow0();
    RowsFollow1();
    RowsFollow2();
    RowsFollow3();
    RowsFollow4();
  }

  lemma ColumnFollows(row: seq<bv32>, d: nat)
    requires RowFollows(row) && d < 16
    ensures row[d] == Xor(row[0], ROW_0[d])
  {
    hide Xor;
  }

  lemma RowZeroAt(k: bv32)
    requires k < 16
    ensures ROW_0[Digit(k)] == Shifts(k, 8)
  {
    hide Shifts;
    if k == 0 {
      ZeroStays(8);
    } else {
      RowZero0();
      RowZero1();
      RowZero2();
      RowZero3();
    }
  }

  lemma {:induction false} ZeroStays(n: nat)
    ensures Shifts(0, n) == 0
    decreases n
  {
    if n > 0 {
      assert Shift(0) == 0;
      ZeroStays(n - 1);
    }
  }

  lemma RowLeadsAt(r: bv32)
    requires r < 16
    ensures Row(r)[0] == Shifts(r << 4, 8)
  {
    hide Shifts;
    RowLeads0();
    RowLeads1();
    RowLeads2();
    RowLeads3();
  }

  // ---------------------------------------------------------------- linearity

  lemma ShiftLinear(x: bv32, y: bv32)
    ensures Shift(Xor(x, y)) == Xor(Shift(x), Shift(y))
  {
    HalfXor(x, y);
    LowBitXor(x, y);
    XorRegroup(x >> 1, y >> 1, 0xEDB88320);
  }

  lemma HalfXor(x: bv32, y: bv32)
    ensures (x ^ y) >> 1 == (x >> 1) ^ (y >> 1)
  {}

  lemma LowBitXor(x: bv32, y: bv32)
    ensures (x ^ y) & 1 == (x & 1) ^ (y & 1)
    ensures x & 1 == 0 || x & 1 == 1
    ensures y & 1 == 0 || y & 1 == 1
  {}

  lemma XorRegroup(a: bv32, b: bv32, p: bv32)
    ensures (a ^ p) ^ (b ^ p) == a ^ b
    ensures (a ^ p) ^ b == (a ^ b) ^ p
    ensures a ^ (b ^ p) == (a ^ b) ^ p
  {}

  /** Division by the polynomial distributes over exclusive or. */
  lemma {:induction false} ShiftsLinear(x: bv32, y: bv32, n: nat)
    ensures Shifts(Xor(x, y), n) == Xor(Shifts(x, n), Shifts(y, n))
    decreases n
  {
    if n > 0 {
      ShiftLinear(x, y);
      ShiftsLinear(Shift(x), Shift(y), n - 1);
    }
  }

  // ---------------------------------------------------------------- the method

  function Up(x: bv32): bv32 {
    x << 8
  }

  function Down(x: bv32): bv32 {
    x >> 8
  }

  // The right-hand side of crc32.h:58.
  function Fold(c: bv32, b: bv8): bv32 {
    Xor(Crc32Tab(Xor(c, b as bv32) & 0xFF), Down(c))
  }

  /** One table step of the loop is eight bit-steps. */
  lemma TableStep(c: bv32, b: bv8)
    ensures Fold(c, b) == Shifts(Xor(c, b as bv32), 8)
  {
    hide Shift, Shifts, Xor, Up, Down, Crc32Tab;
    var lo := Xor(c, b as bv32) & 0xFF;
    SplitRegister(c, b);
    ShiftsLinear(lo, Up(Down(c)), 8);
    TableDivides(lo);
    ZeroByteMoves(Down(c));
  }

  lemma SplitRegister(c: bv32, b: bv8)
    ensures Xor(c, b as bv32) == Xor(Xor(c, b as bv32) & 0xFF, Up(Down(c)))
    ensures Xor(c, b as bv32) & 0xFF < 256
    ensures Down(c) <= 0xFF_FFFF
  {}

  lemma ZeroByteMoves(x: bv32)
    requires x <= 0xFF_FFFF
    ensures Shifts(Up(x), 8) == x
  {
    hide Shifts, Double, Up;
    var x1 := Double(x);
    var x2 := Double(x1);
    var x3 := Double(x2);
    var x4 := Double(x3);
    var x5 := Double(x4);
    var x6 := Double(x5);
    var x7 := Double(x6);
    EightDoublings(x);
    ZeroBitMoves(x7, 8);
    ZeroBitMoves(x6, 7);
    ZeroBitMoves(x5, 6);
    ZeroBitMoves(x4, 5);
    ZeroBitMoves(x3, 4);
    ZeroBitMoves(x2, 3);
    ZeroBitMoves(x1, 2);
    ZeroBitMoves(x, 1);
  }

  function Double(x: bv32): bv32 {
    x << 1
  }

  lemma EightDoublings(x: bv32)
    ensures Up(x) == Double(Double(Double(Double(Double(Double(Double(Double(x))))))))
    ensures x <= 0xFF_FFFF ==>
              && Double(x) < 0x8000_0000
              && Double(Double(x)) < 0x8000_0000
              && Double(Double(Double(x))) < 0x8000_0000
              && Double(Double(Double(Double(x)))) < 0x8000_0000
              && Double(Double(Double(Double(Double(x))))) < 0x8000_0000
              && Double(Double(Double(Double(Double(Double(x)))))) < 0x8000_0000
              && Double(Double(Double(Double(Double(Double(Double(x))))))) < 0x8000_0000
  {}

  lemma ZeroBitMoves(x: bv32, n: nat)
    requires x < 0x8000_0000 && n > 0
    ensures Shifts(Double(x), n) == Shifts(x, n - 1)
    ensures Shifts(x, 0) == x
  {
    assert Shift(Double(x)) == x;
  }

  /** crc32::getCrc32 computes the CRC of the first `size` bytes, continued from `crc`. */
  method GetCrc32(crc: bv32, buf: array<bv8>, size: nat) returns (r: bv32)
    requires size <= buf.Length
    ensures r == Crc(crc, buf[..size])
  {
    hide Fold, Shifts, Xor, Not;
    var c := Xor(crc, 0xFFFF_FFFF);
    Complement(crc);
    var p := 0;
    assert buf[0..size] == buf[..size];
    while p < size
      invariant p <= size
      invariant Divide(c, buf[p..size]) == Divide(Not(crc), buf[..size])
    {
      TableStep(c, buf[p]);
      assert buf[p..size][0] == buf[p] && buf[p..size][1..] == buf[p + 1..size];
      c := Fold(c, buf[p]);
      p := p + 1;
    }
    r := Xor(c, 0xFFFF_FFFF);
    Complement(c);
  }

  lemma Complement(x: bv32)
    ensures Xor(x, 0xFFFF_FFFF) == Not(x)
    ensures Not(Not(x)) == x
  {}

  // ---------------------------------------------------------------- properties of the CRC

  lemma {:induction false} DivideConcat(c: bv32, a: seq<bv8>, b: seq<bv8>)
    ensures Divide(c, a + b) == Divide(Divide(c, a), b)
    decreases |a|
  {
    hide Xor, Shifts;
    if a == [] {
      assert a + b == b;
    } else {
      assert (a + b)[1..] == a[1..] + b;
      DivideConcat(Shifts(Xor(c, a[0] as bv32), 8), a[1..], b);
    }
  }

  /** A CRC can be computed piecewise. */
  lemma CrcConcat(crc: bv32, a: seq<bv8>, b: seq<bv8>)
    ensures Crc(crc, a + b) == Crc(Crc(crc, a), b)
  {
    DivideConcat(Not(crc), a, b);
    Complement(Divide(Not(crc), a));
  }

  // The nine digits of the published check, and the register after each of them.
  const CHECK: seq<bv8> := [0x31, 0x32, 0x33, 0x34, 0x35, 0x36, 0x37, 0x38, 0x39]
  const REGISTERS: seq<bv32> := [
    0xFFFFFFFF, 0x7C231048, 0xB0ACBB32, 0x77B79C2D, 0x641C1F5C,
    0x340AC5E3, 0xF68D2C9E, 0xAFFC9660, 0x651F2550, 0x340BC6D9]

  lemma CheckDigits0()
    ensures Shifts(Xor(0xFFFFFFFF, 0x31), 8) == 0x7C231048
    ensures Shifts(Xor(0x7C231048, 0x32), 8) == 0xB0ACBB32
    ensures Shifts(Xor(0xB0ACBB32, 0x33), 8) == 0x77B79C2D
  {}

  lemma CheckDigits1()
    ensures Shifts(Xor(0x77B79C2D, 0x34), 8) == 0x641C1F5C
    ensures Shifts(Xor(0x641C1F5C, 0x35), 8) == 0x340AC5E3
    ensures Shifts(Xor(0x340AC5E3, 0x36), 8) == 0xF68D2C9E
  {}

  lemma CheckDigits2()
    ensures Shifts(Xor(0xF68D2C9E, 0x37), 8) == 0xAFFC9660
    ensures Shifts(Xor(0xAFFC9660, 0x38), 8) == 0x651F2550
    ensures Shifts(Xor(0x651F2550, 0x39), 8) == 0x340BC6D9
  {}

  lemma CheckStep(k: nat)
    requires k < 9
    ensures REGISTERS[k + 1] == Shifts(Xor(REGISTERS[k], CHECK[k] as bv32), 8)
  {
    hide Shifts, Xor;
    CheckDigits0();
    CheckDigits1();
    CheckDigits2();
  }

  lemma {:induction false} CheckFrom(k: nat)
    requires k <= 9
    ensures Divide(REGISTERS[k], CHECK[k..]) == REGISTERS[9]
    decreases 9 - k
  {
    hide Shifts, Xor;
    if k < 9 {
      CheckStep(k);
      assert CHECK[k..][0] == CHECK[k] && CHECK[k..][1..] == CHECK[k + 1..];
      CheckFrom(k + 1);
    }
  }

  /** The published check value of this CRC: that of the digits 1 to 9. */
  lemma CheckValue()
    ensures Crc(0, CHECK) == 0xCBF43926
    ensures forall crc :: Crc(crc, []) == crc
  {
    hide Divide, REGISTERS;
    CheckFrom(0);
    CheckEnds();
    assert CHECK[0..] == CHECK;
    forall crc
      ensures Crc(crc, []) == crc
    {
      EmptyCrc(crc);
    }
  }

  lemma CheckEnds()
    ensures REGISTERS[0] == Not(0) && Not(REGISTERS[9]) == 0xCBF43926
  {}

  lemma EmptyCrc(crc: bv32)
    ensures Crc(crc, []) == crc
  {}

  lemma ShiftInjective(x: bv32, y: bv32)
    requires Shift(x) == Shift(y)
    ensures x == y
  {}

  lemma {:induction false} ShiftsInjective(x: bv32, y: bv32, n: nat)
    requires Shifts(x, n) == Shifts(y, n)
    ensures x == y
    decreases n
  {
    if n > 0 {
      ShiftsInjective(Shift(x), Shift(y), n - 1);
      ShiftInjective(x, y);
    }
  }

  lemma XorCancels(x: bv32, y: bv32, z: bv32)
    ensures Xor(x, z) == Xor(y, z) ==> x == y
    ensures Xor(z, x) == Xor(z, y) ==> x == y
  {}

  /** Feeding the same bytes keeps different registers different. */
  lemma {:induction false} DivideInjective(x: bv32, y: bv32, buf: seq<bv8>)
    requires Divide(x, buf) == Divide(y, buf)
    ensures x == y
    decreases |buf|
  {
    if buf != [] {
      var b := buf[0] as bv32;
      DivideInjective(Shifts(Xor(x, b), 8), Shifts(Xor(y, b), 8), buf[1..]);
      ShiftsInjective(Xor(x, b), Xor(y, b), 8);
      XorCancels(x, y, b);
    }
  }

  function Pack(b: bv8, rest: bv32): bv32 {
    (b as bv32) | (rest << 8)
  }

  // Up to four bytes as one little-endian word.
  ghost function Word(w: seq<bv8>): bv32
    decreases |w|
  {
    if w == [] then 0 else Pack(w[0], Word(w[1..]))
  }

  lemma WordBound(w: seq<bv8>)
    requires |w| <= 3
    ensures Word(w) <= 0xFF_FFFF
    ensures |w| <= 2 ==> Word(w) <= 0xFFFF
    ensures |w| <= 1 ==> Word(w) <= 0xFF
    decreases |w|
  {
    hide Pack;
    if w != [] {
      WordBound(w[1..]);
      PackGrows(w[0], Word(w[1..]));
    }
  }

  lemma PackGrows(b: bv8, rest: bv32)
    ensures rest <= 0xFFFF ==> Pack(b, rest) <= 0xFF_FFFF
    ensures rest <= 0xFF ==> Pack(b, rest) <= 0xFFFF
    ensures rest == 0 ==> Pack(b, rest) <= 0xFF
  {}

  lemma {:induction false} ShiftsAdd(c: bv32, m: nat, n: nat)
    ensures Shifts(Shifts(c, m), n) == Shifts(c, m + n)
    decreases m
  {
    if m > 0 {
      ShiftsAdd(Shift(c), m - 1, n);
    }
  }

  lemma XorPack(c: bv32, b: bv8, rest: bv32)
    ensures Xor(c, Pack(b, rest)) == Xor(Xor(c, b as bv32), Up(rest))
  {}

  lemma XorZero(c: bv32)
    ensures Xor(c, 0) == c
  {}

  /** Dividing up to four bytes is dividing their word at once. */
  lemma {:induction false} DivideWord(c: bv32, w: seq<bv8>)
    requires |w| <= 4
    ensures Divide(c, w) == Shifts(Xor(c, Word(w)), 8 * |w|)
    decreases |w|
  {
    hide Xor, Pack, Up, Shift;
    if w == [] {
      XorZero(c);
    } else {
      var fed, rest := Xor(c, w[0] as bv32), Word(w[1..]);
      WordBound(w[1..]);
      XorPack(c, w[0], rest);
      ShiftsLinear(fed, Up(rest), 8);
      ZeroByteMoves(rest);
      DivideWord(Shifts(fed, 8), w[1..]);
      ShiftsAdd(Xor(fed, Up(rest)), 8, 8 * |w[1..]|);
    }
  }

  lemma PackInjective(b: bv8, rest: bv32, b': bv8, rest': bv32)
    requires rest <= 0xFF_FFFF && rest' <= 0xFF_FFFF && Pack(b, rest) == Pack(b', rest')
    ensures b == b' && rest == rest'
  {}

  lemma {:induction false} WordInjective(v: seq<bv8>, w: seq<bv8>)
    requires |v| == |w| <= 4 && Word(v) == Word(w)
    ensures v == w
    decreases |v|
  {
    hide Pack;
    if v != [] {
      WordBound(v[1..]);
      WordBound(w[1..]);
      PackInjective(v[0], Word(v[1..]), w[0], Word(w[1..]));
      WordInjective(v[1..], w[1..]);
      assert v == [v[0]] + v[1..] && w == [w[0]] + w[1..];
    }
  }

  /** Two strings of one length that differ only inside a window of at most four bytes
      always have different CRCs, whatever the start value. */
  lemma BurstDetected(crc: bv32, a: seq<bv8>, v: seq<bv8>, w: seq<bv8>, b: seq<bv8>)
    requires |v| == |w| <= 4 && v != w
    ensures Crc(crc, a + v + b) != Crc(crc, a + w + b)
  {
    hide Xor, Not;
    if Crc(crc, a + v + b) == Crc(crc, a + w + b) {
      var start := Not(crc);
      var c := Divide(start, a);
      Complement(Divide(start, a + v + b));
      Complement(Divide(start, a + w + b));
      DivideConcat(start, a + v, b);
      DivideConcat(start, a + w, b);
      DivideInjective(Divide(start, a + v), Divide(start, a + w), b);
      DivideConcat(start, a, v);
      DivideConcat(start, a, w);
      DivideWord(c, v);
      DivideWord(c, w);
      ShiftsInjective(Xor(c, Word(v)), Xor(c, Word(w)), 8 * |v|);
      XorCancels(Word(v), Word(w), c);
      WordInjective(v, w);
    }
  }

  /** In particular a single changed byte is always seen. */
  lemma ChangedByteDetected(crc: bv32, s: seq<bv8>, k: nat, byte: bv8)
    requires k < |s| && byte != s[k]
    ensures Crc(crc, s[k := byte]) != Crc(crc, s)
  {
    hide Crc;
    BurstDetected(crc, s[..k], [byte], [s[k]], s[k + 1..]);
    assert s[k := byte] == s[..k] + [byte] + s[k + 1..];
    assert s == s[..k] + [s[k]] + s[k + 1..];
  }
}
