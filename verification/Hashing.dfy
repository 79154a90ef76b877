/** The hash of names the dispatch uses first: a table-driven CRC-32, against dividing by the
    polynomial bit by bit, and which names it tells apart. Words are bit-vectors here. */
module Hashing {
  import opened Sequences
  import opened CaseLabels
  import opened PagedSwitch

  /** The bit pattern of a (signed) character. */
  type Byte = bv8

  // ---------------------------------------------------------------- hashing a name

  /** What a name makes of a state, character by character. */
  function Fold<S, C>(step: (S, C) -> S, state: S, name: seq<C>): S
  {
    if name == [] then state
    else step(Fold(step, state, name[..|name| - 1]), name[|name| - 1])
  }

  ghost predicate SameSteps<S(!new), C(!new)>(step: (S, C) -> S, other: (S, C) -> S)
  {
    forall s, c :: step(s, c) == other(s, c)
  }

  lemma {:induction false} FoldSame<S(!new), C(!new)>(step: (S, C) -> S, other: (S, C) -> S, state: S, name: seq<C>)
    requires SameSteps(step, other)
    ensures Fold(step, state, name) == Fold(other, state, name)
  {
    if name != [] { FoldSame(step, other, state, name[..|name| - 1]); }
  }

  lemma {:induction false} FoldJoin<S, C>(step: (S, C) -> S, state: S, a: seq<C>, b: seq<C>)
    ensures Fold(step, state, a + b) == Fold(step, Fold(step, state, a), b)
  {
    if b == [] {
      assert a + b == a;
    } else {
      FoldJoin(step, state, a, b[..|b| - 1]);
      assert (a + b)[..|a + b| - 1] == a + b[..|b| - 1];
    }
  }

  /** Different states stay different. */
  ghost predicate KeepsApart<S(!new), C(!new)>(step: (S, C) -> S)
  {
    forall s, t, c :: step(s, c) == step(t, c) ==> s == t
  }

  lemma {:induction false} FoldKeepsApart<S(!new), C(!new)>(step: (S, C) -> S, s: S, t: S, name: seq<C>)
    requires KeepsApart(step) && Fold(step, s, name) == Fold(step, t, name)
    ensures s == t
  {
    if name != [] { FoldKeepsApart(step, s, t, name[..|name| - 1]); }
  }

  /** Two steps combine into one. */
  ghost predicate Combines<S(!new), C(!new)>(step: (S, C) -> S, op: (S, S) -> S, on: (C, C) -> C)
  {
    forall s, t, c, d :: op(step(s, c), step(t, d)) == step(op(s, t), on(c, d))
  }

  function Zipped<C>(on: (C, C) -> C, a: seq<C>, b: seq<C>): (d: seq<C>)
    requires |a| == |b|
    ensures |d| == |a| && forall i :: 0 <= i < |d| ==> d[i] == on(a[i], b[i])
  {
    seq(|a|, i requires 0 <= i < |a| => on(a[i], b[i]))
  }

  lemma {:induction false} FoldCombines<S(!new), C(!new)>(step: (S, C) -> S, op: (S, S) -> S, on: (C, C) -> C,
                                                          s: S, t: S, a: seq<C>, b: seq<C>)
    requires |a| == |b| && Combines(step, op, on)
    ensures op(Fold(step, s, a), Fold(step, t, b)) == Fold(step, op(s, t), Zipped(on, a, b))
  {
    if a != [] {
      var n := |a| - 1;
      FoldCombines(step, op, on, s, t, a[..n], b[..n]);
      assert Zipped(on, a, b)[..n] == Zipped(on, a[..n], b[..n]);
    }
  }

  // ---------------------------------------------------------------- CRC-32

  /** The polynomial of CRC-32, lowest power first. */
  const POLYNOMIAL: bv32 := 0xedb88320

  function Xor(x: bv32, y: bv32): bv32 { x ^ y }

  /** One step of the division by the polynomial. */
  function Divide(x: bv32): bv32
  {
    if x & 1 == 1 then (x >> 1) ^ POLYNOMIAL else x >> 1
  }

  /** The steps for one byte. */
  function DivideByte(x: bv32): bv32
  {
    Divide(Divide(Divide(Divide(Divide(Divide(Divide(Divide(x))))))))
  }

  /** The bits of a name enter the division character by character. */
  function DivideCharacter(state: bv32, c: Byte): bv32
  {
    DivideByte(Xor(state, c as bv32))
  }

  function TableRow(row: bv32): (r: seq<bv32>)
    requires row < 16
    ensures |r| == 16
  {
    match row
    case 0 => [0x00000000, 0x77073096, 0xee0e612c, 0x990951ba, 0x076dc419, 0x706af48f, 0xe963a535, 0x9e6495a3,
               0x0edb8832, 0x79dcb8a4, 0xe0d5e91e, 0x97d2d988, 0x09b64c2b, 0x7eb17cbd, 0xe7b82d07, 0x90bf1d91]
    case 1 => [0x1db71064, 0x6ab020f2, 0xf3b97148, 0x84be41de, 0x1adad47d, 0x6ddde4eb, 0xf4d4b551, 0x83d385c7,
               0x136c9856, 0x646ba8c0, 0xfd62f97a, 0x8a65c9ec, 0x14015c4f, 0x63066cd9, 0xfa0f3d63, 0x8d080df5]
    case 2 => [0x3b6e20c8, 0x4c69105e, 0xd56041e4, 0xa2677172, 0x3c03e4d1, 0x4b04d447, 0xd20d85fd, 0xa50ab56b,
               0x35b5a8fa, 0x42b2986c, 0xdbbbc9d6, 0xacbcf940, 0x32d86ce3, 0x45df5c75, 0xdcd60dcf, 0xabd13d59]
    case 3 => [0x26d930ac, 0x51de003a, 0xc8d75180, 0xbfd06116, 0x21b4f4b5, 0x56b3c423, 0xcfba9599, 0xb8bda50f,
               0x2802b89e, 0x5f058808, 0xc60cd9b2, 0xb10be924, 0x2f6f7c87, 0x58684c11, 0xc1611dab, 0xb6662d3d]
    case 4 => [0x76dc4190, 0x01db7106, 0x98d220bc, 0xefd5102a, 0x71b18589, 0x06b6b51f, 0x9fbfe4a5, 0xe8b8d433,
               0x7807c9a2, 0x0f00f934, 0x9609a88e, 0xe10e9818, 0x7f6a0dbb, 0x086d3d2d, 0x91646c97, 0xe6635c01]
    case 5 => [0x6b6b51f4, 0x1c6c6162, 0x856530d8, 0xf262004e, 0x6c0695ed, 0x1b01a57b, 0x8208f4c1, 0xf50fc457,
               0x65b0d9c6, 0x12b7e950, 0x8bbeb8ea, 0xfcb9887c, 0x62dd1ddf, 0x15da2d49, 0x8cd37cf3, 0xfbd44c65]
    case 6 => [0x4db26158, 0x3ab551ce, 0xa3bc0074, 0xd4bb30e2, 0x4adfa541, 0x3dd895d7, 0xa4d1c46d, 0xd3d6f4fb,
               0x4369e96a, 0x346ed9fc, 0xad678846, 0xda60b8d0, 0x44042d73, 0x33031de5, 0xaa0a4c5f, 0xdd0d7cc9]
    case 7 => [0x5005713c, 0x270241aa, 0xbe0b1010, 0xc90c2086, 0x5768b525, 0x206f85b3, 0xb966d409, 0xce61e49f,
               0x5edef90e, 0x29d9c998, 0xb0d09822, 0xc7d7a8b4, 0x59b33d17, 0x2eb40d81, 0xb7bd5c3b, 0xc0ba6cad]
    case 8 => [0xedb88320, 0x9abfb3b6, 0x03b6e20c, 0x74b1d29a, 0xead54739, 0x9dd277af, 0x04db2615, 0x73dc1683,
               0xe3630b12, 0x94643b84, 0x0d6d6a3e, 0x7a6a5aa8, 0xe40ecf0b, 0x9309ff9d, 0x0a00ae27, 0x7d079eb1]
    case 9 => [0xf00f9344, 0x8708a3d2, 0x1e01f268, 0x6906c2fe, 0xf762575d, 0x806567cb, 0x196c3671, 0x6e6b06e7,
               0xfed41b76, 0x89d32be0, 0x10da7a5a, 0x67dd4acc, 0xf9b9df6f, 0x8ebeeff9, 0x17b7be43, 0x60b08ed5]
    case 10 => [0xd6d6a3e8, 0xa1d1937e, 0x38d8c2c4, 0x4fdff252, 0xd1bb67f1, 0xa6bc5767, 0x3fb506dd, 0x48b2364b,
                0xd80d2bda, 0xaf0a1b4c, 0x36034af6, 0x41047a60, 0xdf60efc3, 0xa867df55, 0x316e8eef, 0x4669be79]
    case 11 => [0xcb61b38c, 0xbc66831a, 0x256fd2a0, 0x5268e236, 0xcc0c7795, 0xbb0b4703, 0x220216b9, 0x5505262f,
                0xc5ba3bbe, 0xb2bd0b28, 0x2bb45a92, 0x5cb36a04, 0xc2d7ffa7, 0xb5d0cf31, 0x2cd99e8b, 0x5bdeae1d]
    case 12 => [0x9b64c2b0, 0xec63f226, 0x756aa39c, 0x026d930a, 0x9c0906a9, 0xeb0e363f, 0x72076785, 0x05005713,
                0x95bf4a82, 0xe2b87a14, 0x7bb12bae, 0x0cb61b38, 0x92d28e9b, 0xe5d5be0d, 0x7cdcefb7, 0x0bdbdf21]
    case 13 => [0x86d3d2d4, 0xf1d4e242, 0x68ddb3f8, 0x1fda836e, 0x81be16cd, 0xf6b9265b, 0x6fb077e1, 0x18b74777,
                0x88085ae6, 0xff0f6a70, 0x66063bca, 0x11010b5c, 0x8f659eff, 0xf862ae69, 0x616bffd3, 0x166ccf45]
    case 14 => [0xa00ae278, 0xd70dd2ee, 0x4e048354, 0x3903b3c2, 0xa7672661, 0xd06016f7, 0x4969474d, 0x3e6e77db,
                0xaed16a4a, 0xd9d65adc, 0x40df0b66, 0x37d83bf0, 0xa9bcae53, 0xdebb9ec5, 0x47b2cf7f, 0x30b5ffe9]
    case 15 => [0xbdbdf21c, 0xcabac28a, 0x53b39330, 0x24b4a3a6, 0xbad03605, 0xcdd70693, 0x54de5729, 0x23d967bf,
                0xb3667a2e, 0xc4614ab8, 0x5d681b02, 0x2a6f2b94, 0xb40bbe37, 0xc30c8ea1, 0x5a05df1b, 0x2d02ef8d]
  }

  /** `crc_table`, in rows of 16. */
  function CrcTable(i: bv32): bv32
    requires i < 0x100
  {
    TableRow(i >> 4)[(i & 15) as nat]
  }

  /** The values of `f` at `b` and the 15 numbers after it, for a multiple `b` of 16. */
  function Row(f: bv32 -> bv32, b: bv32): (r: seq<bv32>)
    ensures |r| == 16
  {
    [f(b), f(b ^ 1), f(b ^ 2), f(b ^ 3), f(b ^ 4), f(b ^ 5), f(b ^ 6), f(b ^ 7),
     f(b ^ 8), f(b ^ 9), f(b ^ 10), f(b ^ 11), f(b ^ 12), f(b ^ 13), f(b ^ 14), f(b ^ 15)]
  }

  lemma Row0()
    ensures TableRow(0) == Row(DivideByte, 0x00)
  {
  }

  lemma Row1()
    ensures TableRow(1) == Row(DivideByte, 0x10)
  {
  }

  lemma Row2()
    ensures TableRow(2) == Row(DivideByte, 0x20)
  {
  }

  lemma Row3()
    ensures TableRow(3) == Row(DivideByte, 0x30)
  {
  }

  lemma Row4()
    ensures TableRow(4) == Row(DivideByte, 0x40)
  {
  }

  lemma Row5()
    ensures TableRow(5) == Row(DivideByte, 0x50)
  {
  }

  lemma Row6()
    ensures TableRow(6) == Row(DivideByte, 0x60)
  {
  }

  lemma Row7()
    ensures TableRow(7) == Row(DivideByte, 0x70)
  {
  }

  lemma Row8()
    ensures TableRow(8) == Row(DivideByte, 0x80)
  {
  }

  lemma Row9()
    ensures TableRow(9) == Row(DivideByte, 0x90)
  {
  }

  lemma Row10()
    ensures TableRow(10) == Row(DivideByte, 0xa0)
  {
  }

  lemma Row11()
    ensures TableRow(11) == Row(DivideByte, 0xb0)
  {
  }

  lemma Row12()
    ensures TableRow(12) == Row(DivideByte, 0xc0)
  {
  }

  lemma Row13()
    ensures TableRow(13) == Row(DivideByte, 0xd0)
  {
  }

  lemma Row14()
    ensures TableRow(14) == Row(DivideByte, 0xe0)
  {
  }

  lemma Row15()
    ensures TableRow(15) == Row(DivideByte, 0xf0)
  {
  }

  lemma LowRow(high: bv32)
    requires high < 8
    ensures TableRow(high) == Row(DivideByte, high << 4)
  {
    if high == 0 {
      Row0();
    } else if high == 1 {
      Row1();
    } else if high == 2 {
      Row2();
    } else if high == 3 {
      Row3();
    } else if high == 4 {
      Row4();
    } else if high == 5 {
      Row5();
    } else if high == 6 {
      Row6();
    } else {
      Row7();
      assert high == 7;
    }
  }

  lemma RowAt(high: bv32)
    requires high < 16
    ensures TableRow(high) == Row(DivideByte, high << 4)
  {
    if high < 8 {
      LowRow(high);
    } else {
      HighRow(high);
    }
  }

  lemma HighRow(high: bv32)
    requires 8 <= high < 16
    ensures TableRow(high) == Row(DivideByte, high << 4)
  {
    if high == 8 {
      Row8();
    } else if high == 9 {
      Row9();
    } else if high == 10 {
      Row10();
    } else if high == 11 {
      Row11();
    } else if high == 12 {
      Row12();
    } else if high == 13 {
      Row13();
    } else if high == 14 {
      Row14();
    } else {
      Row15();
      assert high == 15;
    }
  }

  lemma EntryBelowEight(f: bv32 -> bv32, b: bv32, low: bv32)
    requires low < 8
    ensures Row(f, b)[low as nat] == f(b ^ low)
  {
    assert b ^ 0 == b;
    assert low == 0 || low == 1 || low == 2 || low == 3 || low == 4 || low == 5 || low == 6 || low == 7;
  }

  lemma EntryAt(f: bv32 -> bv32, b: bv32, low: bv32)
    requires low < 16
    ensures Row(f, b)[low as nat] == f(b ^ low)
  {
    if low < 8 {
      EntryBelowEight(f, b, low);
    } else {
      assert low == 8 || low == 9 || low == 10 || low == 11 || low == 12 || low == 13 || low == 14 || low == 15;
    }
  }

  lemma Nibbles(i: bv32)
    ensures ((i >> 4) << 4) ^ (i & 15) == i
  {
  }

  /** Every entry of the table is what dividing its index by the polynomial leaves. */
  lemma TableIsDivision(i: bv32)
    requires i < 0x100
    ensures CrcTable(i) == DivideByte(i)
  {
    RowAt(i >> 4);
    EntryAt(DivideByte, (i >> 4) << 4, i & 15);
    Nibbles(i);
  }

  /** Division distributes over exclusive or. */
  lemma Linear(x: bv32, y: bv32)
    ensures Divide(x ^ y) == Divide(x) ^ Divide(y)
  {
    HalvesXor(x, y);
    Regroup(x >> 1, y >> 1, POLYNOMIAL);
  }

  lemma HalvesXor(x: bv32, y: bv32)
    ensures (x ^ y) >> 1 == (x >> 1) ^ (y >> 1)
    ensures (x ^ y) & 1 == 1 <==> (x & 1 == 1) != (y & 1 == 1)
  {
  }

  lemma Regroup(a: bv32, b: bv32, p: bv32)
    ensures (a ^ p) ^ (b ^ p) == a ^ b
    ensures a ^ (b ^ p) == (a ^ b) ^ p == (a ^ p) ^ b
  {
  }

  function EightTimes<T>(f: T -> T, x: T): T
  {
    f(f(f(f(f(f(f(f(x))))))))
  }

  /** `f` distributes over the operation `op`. */
  ghost predicate Distributes<T(!new)>(f: T -> T, op: (T, T) -> T)
  {
    forall x, y {:trigger f(op(x, y))} :: f(op(x, y)) == op(f(x), f(y))
  }

  lemma EightDistribute<T(!new)>(f: T -> T, op: (T, T) -> T, x: T, y: T)
    requires Distributes(f, op)
    ensures EightTimes(f, op(x, y)) == op(EightTimes(f, x), EightTimes(f, y))
  {
  }

  lemma ByteIsEightTimes(x: bv32)
    ensures DivideByte(x) == EightTimes(Divide, x)
  {
  }

  lemma DivideDistributes()
    ensures Distributes(Divide, Xor)
  {
    forall x, y ensures Divide(Xor(x, y)) == Xor(Divide(x), Divide(y)) { Linear(x, y); }
  }

  lemma ByteDistributes(x: bv32, y: bv32)
    ensures DivideByte(Xor(x, y)) == Xor(DivideByte(x), DivideByte(y))
  {
    DivideDistributes();
    ByteIsEightTimes(x);
    ByteIsEightTimes(y);
    ByteIsEightTimes(Xor(x, y));
    EightDistribute(Divide, Xor, x, y);
  }

  /** `f` only halves even numbers. */
  ghost predicate HalvesEven(f: bv32 -> bv32)
  {
    forall x :: x & 1 == 0 ==> f(x) == x >> 1
  }

  lemma EvenHalves(x: bv32)
    requires x & 0xff == 0
    ensures x & 1 == (x >> 1) & 1 == (x >> 2) & 1 == (x >> 3) & 1 == 0
    ensures (x >> 4) & 1 == (x >> 5) & 1 == (x >> 6) & 1 == (x >> 7) & 1 == 0
  {
  }

  lemma ShiftsAdd(x: bv32)
    ensures (x >> 1) >> 1 == x >> 2 && (x >> 2) >> 1 == x >> 3 && (x >> 3) >> 1 == x >> 4
    ensures (x >> 4) >> 1 == x >> 5 && (x >> 5) >> 1 == x >> 6 && (x >> 6) >> 1 == x >> 7 && (x >> 7) >> 1 == x >> 8
  {
  }

  lemma EightHalves(f: bv32 -> bv32, x: bv32)
    requires HalvesEven(f) && x & 0xff == 0
    ensures EightTimes(f, x) == x >> 8
  {
    EvenHalves(x);
    ShiftsAdd(x);
  }

  /** Where the lowest byte is zero the division only shifts. */
  lemma Shifted(x: bv32)
    requires x & 0xff == 0
    ensures DivideByte(x) == x >> 8
  {
    ByteIsEightTimes(x);
    EightHalves(Divide, x);
  }

  /** A signed character converted to an unsigned word. */
  function Extended(c: Byte): bv32
  {
    if c & 0x80 == 0 then c as bv32 else 0xffffff00 | (c as bv32)
  }

  lemma LowByte(x: bv32, c: Byte)
    ensures var z := x ^ (c as bv32);
            && (x ^ Extended(c)) & 0xff == z & 0xff < 0x100
            && Xor(z & 0xffffff00, z & 0xff) == z
            && (z & 0xffffff00) & 0xff == 0 && (z & 0xffffff00) >> 8 == x >> 8
  {
  }

  /** A round of the table-driven loop. */
  function TableRound(crc: bv32, c: Byte): bv32
  {
    LowByte(crc, c);
    Xor(crc >> 8, CrcTable((crc ^ Extended(c)) & 0xff))
  }

  /** The bytes above the lowest one are only shifted. */
  lemma DivideByteSplits(z: bv32, high: bv32, low: bv32, top: bv32, entry: bv32)
    requires Xor(high, low) == z && high & 0xff == 0 && high >> 8 == top
    requires entry == DivideByte(low)
    ensures Xor(top, entry) == DivideByte(z)
  {
    Shifted(high);
    ByteDistributes(high, low);
  }

  lemma TableDivides(z: bv32, high: bv32, low: bv32, top: bv32)
    requires Xor(high, low) == z && high & 0xff == 0 && high >> 8 == top && low < 0x100
    ensures Xor(top, CrcTable(low)) == DivideByte(z)
  {
    TableIsDivision(low);
    DivideByteSplits(z, high, low, top, CrcTable(low));
  }

  lemma RoundDivides(crc: bv32, c: Byte, z: bv32, high: bv32, low: bv32)
    requires Xor(high, low) == z && high & 0xff == 0 && high >> 8 == crc >> 8 && low < 0x100
    requires low == (crc ^ Extended(c)) & 0xff && z == Xor(crc, c as bv32)
    ensures TableRound(crc, c) == DivideCharacter(crc, c)
  {
    TableDivides(z, high, low, crc >> 8);
  }

  lemma RoundIsDivision(crc: bv32, c: Byte)
    ensures TableRound(crc, c) == DivideCharacter(crc, c)
  {
    LowByte(crc, c);
    var z := Xor(crc, c as bv32);
    RoundDivides(crc, c, z, z & 0xffffff00, z & 0xff);
  }

  /** CRC-32 by its definition. */
  function Crc(name: seq<Byte>): bv32
  {
    Xor(Fold(DivideCharacter, 0xffffffff, name), 0xffffffff)
  }

  lemma TableRoundsDivide(state: bv32, name: seq<Byte>)
    ensures Fold(TableRound, state, name) == Fold(DivideCharacter, state, name)
  {
    forall s, c ensures TableRound(s, c) == DivideCharacter(s, c) { RoundIsDivision(s, c); }
    FoldSame(TableRound, DivideCharacter, state, name);
  }

  /** The hash of a name. */
  method CrcHash(value: seq<Byte>) returns (r: bv32)
    ensures r == Crc(value)
  {
    var crc: bv32 := 0xffffffff;
    for i := 0 to |value|
      invariant crc == Fold(TableRound, 0xffffffff, value[..i])
    {
      assert value[..i + 1][..i] == value[..i];
      crc := TableRound(crc, value[i]);
    }
    assert value[..|value|] == value;
    TableRoundsDivide(0xffffffff, value);
    return Xor(crc, 0xffffffff);
  }

  // ---------------------------------------------------------------- collisions of CRC-32

  function XorBytes(a: Byte, b: Byte): Byte { a ^ b }

  lemma Widened(a: Byte, b: Byte)
    ensures XorBytes(a, b) as bv32 == Xor(a as bv32, b as bv32)
  {
  }

  lemma XorAssociates(x: bv32, y: bv32, z: bv32)
    ensures Xor(Xor(x, y), z) == Xor(x, Xor(y, z))
  {
  }

  lemma XorCommutes(x: bv32, y: bv32)
    ensures Xor(x, y) == Xor(y, x)
  {
  }

  lemma Exchange(s: bv32, t: bv32, a: bv32, b: bv32)
    ensures Xor(Xor(s, a), Xor(t, b)) == Xor(Xor(s, t), Xor(a, b))
  {
    XorAssociates(s, a, Xor(t, b));
    XorAssociates(a, t, b);
    XorCommutes(a, t);
    XorAssociates(t, a, b);
    XorAssociates(s, t, Xor(a, b));
  }

  lemma BytesCombine(x: bv32, y: bv32, z: bv32)
    requires Xor(x, y) == z
    ensures Xor(DivideByte(x), DivideByte(y)) == DivideByte(z)
  {
    ByteDistributes(x, y);
  }

  lemma CharactersCombineAs(s: bv32, t: bv32, a: Byte, b: Byte, x: bv32, y: bv32, z: bv32)
    requires x == Xor(s, a as bv32) && y == Xor(t, b as bv32) && z == Xor(Xor(s, t), XorBytes(a, b) as bv32)
    requires Xor(x, y) == z
    ensures Xor(DivideCharacter(s, a), DivideCharacter(t, b)) == DivideCharacter(Xor(s, t), XorBytes(a, b))
  {
    BytesCombine(x, y, z);
  }

  lemma CharacterCombines(s: bv32, t: bv32, a: Byte, b: Byte)
    ensures Xor(DivideCharacter(s, a), DivideCharacter(t, b)) == DivideCharacter(Xor(s, t), XorBytes(a, b))
  {
    Widened(a, b);
    Exchange(s, t, a as bv32, b as bv32);
    CharactersCombineAs(s, t, a, b, Xor(s, a as bv32), Xor(t, b as bv32), Xor(Xor(s, t), XorBytes(a, b) as bv32));
  }

  lemma Cancel(x: bv32, y: bv32)
    ensures x == y ==> Xor(x, y) == 0
    ensures Xor(x, y) == 0 ==> x == y
    ensures Xor(x, 0xffffffff) == Xor(y, 0xffffffff) ==> x == y
  {
  }

  lemma CharactersCombine()
    ensures Combines(DivideCharacter, Xor, XorBytes)
  {
    forall s, t, c, d ensures Xor(DivideCharacter(s, c), DivideCharacter(t, d)) == DivideCharacter(Xor(s, t), XorBytes(c, d)) {
      CharacterCombines(s, t, c, d);
    }
  }

  /** Two names of the same length collide exactly when their difference divides to zero. */
  lemma CollideIff(a: seq<Byte>, b: seq<Byte>)
    requires |a| == |b|
    ensures Crc(a) == Crc(b) <==> Fold(DivideCharacter, 0, Zipped(XorBytes, a, b)) == 0
  {
    CharactersCombine();
    FoldCombines(DivideCharacter, Xor, XorBytes, 0xffffffff, 0xffffffff, a, b);
    Cancel(Fold(DivideCharacter, 0xffffffff, a), Fold(DivideCharacter, 0xffffffff, b));
    Cancel(0xffffffff, 0xffffffff);
  }

  lemma DivideKeepsApart(x: bv32, y: bv32)
    requires Divide(x) == Divide(y)
    ensures x == y
  {
  }

  lemma EightKeepApart<T(!new)>(f: T -> T, x: T, y: T)
    requires forall a, b :: f(a) == f(b) ==> a == b
    requires EightTimes(f, x) == EightTimes(f, y)
    ensures x == y
  {
  }

  lemma ByteKeepsApart(x: bv32, y: bv32)
    requires DivideByte(x) == DivideByte(y)
    ensures x == y
  {
    ByteIsEightTimes(x);
    ByteIsEightTimes(y);
    forall a, b | Divide(a) == Divide(b) ensures a == b { DivideKeepsApart(a, b); }
    EightKeepApart(Divide, x, y);
  }

  lemma CharacterKeepsApart(s: bv32, t: bv32, c: Byte)
    requires DivideCharacter(s, c) == DivideCharacter(t, c)
    ensures s == t
  {
    ByteKeepsApart(Xor(s, c as bv32), Xor(t, c as bv32));
    XorKeepsApart(s, t, c as bv32);
  }

  lemma XorKeepsApart(x: bv32, y: bv32, z: bv32)
    requires Xor(x, z) == Xor(y, z)
    ensures x == y
  {
  }

  ghost predicate Zeros(d: seq<Byte>)
  {
    forall i :: 0 <= i < |d| ==> d[i] == 0
  }

  lemma {:induction false} ZerosStay(d: seq<Byte>)
    requires Zeros(d)
    ensures Fold(DivideCharacter, 0, d) == 0
  {
    if d != [] {
      ZerosStay(d[..|d| - 1]);
      ZeroStays();
    }
  }

  lemma ZeroStays()
    ensures DivideCharacter(0, 0) == 0
  {
  }

  /** `x` has at most `k` significant bytes. */
  predicate Below(x: bv32, k: nat)
  {
    match k
    case 0 => x == 0
    case 1 => x < 0x100
    case 2 => x < 0x1_0000
    case 3 => x < 0x100_0000
    case _ => true
  }

  lemma BelowShifts(v: bv32, c: Byte, k: nat)
    requires k < 4 && Below(v, k)
    ensures (v << 8) & 0xff == 0 && (v << 8) >> 8 == v
    ensures Below(Xor(v << 8, c as bv32), k + 1)
    ensures Xor(v << 8, c as bv32) == 0 ==> v == 0 && c == 0
  {
  }

  lemma Flip(u: bv32, v: bv32, c: bv32)
    requires Xor(u, c) == v
    ensures u == Xor(v, c)
  {
  }

  lemma BeforeByte(x: bv32, y: bv32, v: bv32)
    requires DivideByte(x) == v && y & 0xff == 0 && y >> 8 == v
    ensures x == y
  {
    Shifted(y);
    ByteKeepsApart(x, y);
  }

  /** The state before the character after which the state is `v`. */
  lemma Before(u: bv32, v: bv32, c: Byte, k: nat)
    requires k < 4 && Below(v, k) && DivideCharacter(u, c) == v
    ensures u == Xor(v << 8, c as bv32)
  {
    BelowShifts(v, c, k);
    BeforeByte(Xor(u, c as bv32), v << 8, v);
    Flip(u, v << 8, c as bv32);
  }

  /** From zero, `n` characters lead to a state of at most `4 - n` bytes only if all of them are zero. */
  lemma {:induction false} FewCharacters(d: seq<Byte>, v: bv32, k: nat)
    requires |d| + k <= 4 && Below(v, k) && Fold(DivideCharacter, 0, d) == v
    ensures v == 0 && Zeros(d)
  {
    if d != [] {
      var n := |d| - 1;
      var u, c := Fold(DivideCharacter, 0, d[..n]), d[n];
      Before(u, v, c, k);
      BelowShifts(v, c, k);
      FewCharacters(d[..n], u, k + 1);
    }
  }

  /** All differences between the names lie within four characters from position `i`. */
  ghost predicate Close(a: seq<Byte>, b: seq<Byte>, i: nat)
  {
    |a| == |b| && forall k :: 0 <= k < |a| && a[k] != b[k] ==> i <= k < i + 4
  }

  lemma CharactersKeepApart()
    ensures KeepsApart(DivideCharacter)
  {
    forall s, t, c | DivideCharacter(s, c) == DivideCharacter(t, c) ensures s == t { CharacterKeepsApart(s, t, c); }
  }

  lemma XorZero(a: Byte, b: Byte)
    ensures XorBytes(a, b) == 0 <==> a == b
  {
  }

  /** Nothing but zeros divides to zero if all other characters are close together. */
  lemma WindowDivides(d: seq<Byte>, i: nat, j: nat)
    requires i <= j <= |d| && j - i <= 4 && Zeros(d[..i]) && Zeros(d[j..])
    requires Fold(DivideCharacter, 0, d) == 0
    ensures Zeros(d)
  {
    var window := Fold(DivideCharacter, 0, d[..j]);
    assert d == d[..j] + d[j..] && d[..j] == d[..i] + d[i..j];
    FoldJoin(DivideCharacter, 0, d[..j], d[j..]);
    FoldJoin(DivideCharacter, 0, d[..i], d[i..j]);
    ZerosStay(d[..i]);
    ZerosStay(d[j..]);
    CharactersKeepApart();
    FoldKeepsApart(DivideCharacter, window, 0, d[j..]);
    FewCharacters(d[i..j], 0, 0);
    forall k | 0 <= k < |d| ensures d[k] == 0 {
      assert d[k] == if k < i then d[..i][k] else if k < j then d[i..j][k - i] else d[j..][k - j];
    }
  }

  /** Names of the same length whose differences lie within four characters collide only if equal. */
  lemma CloseNamesCollideIff(a: seq<Byte>, b: seq<Byte>, i: nat)
    requires Close(a, b, i)
    ensures Crc(a) == Crc(b) <==> a == b
  {
    var d, n := Zipped(XorBytes, a, b), |a|;
    var from, to := if i < n then i else n, if i + 4 < n then i + 4 else n;
    forall k | 0 <= k < n ensures d[k] == 0 <==> a[k] == b[k] { XorZero(a[k], b[k]); }
    CollideIff(a, b);
    if Crc(a) == Crc(b) { WindowDivides(d, from, to); }
  }

  // ---------------------------------------------------------------- use by the dispatch

  function CrcNumber(name: seq<Byte>): (r: int)
    ensures 0 <= r <= 0xffff_ffff
  {
    Crc(name) as int
  }

  lemma NumbersApart(x: bv32, y: bv32)
    requires x as int == y as int
    ensures x == y
  {
    assert (x as int) as bv32 == x && (y as int) as bv32 == y;
  }

  /** Enumerators whose names have one length and differ only within the same four characters are
      dispatched on by CRC-32, whatever the secondary hash is. */
  lemma CloseNamesKeepPrimary(names: seq<seq<Byte>>, i: nat, primary: Hash<seq<Byte>>, secondary: Hash<seq<Byte>>)
    requires primary.of == CrcNumber
    requires forall j, k :: 0 <= j < k < |names| ==> names[j] != names[k] && Close(names[j], names[k], i)
    ensures ChosenHash(names, primary, secondary) == primary
  {
    var hashed := Hashed(names, primary.of);
    forall j, k | 0 <= j < k < |hashed| ensures hashed[j] != hashed[k] {
      CloseNamesCollideIff(names[j], names[k], i);
      if hashed[j] == hashed[k] { NumbersApart(Crc(names[j]), Crc(names[k])); }
    }
  }

  /** `cmp_equal` with the default predicate, which the casts from names pass. */
  predicate SameName(a: seq<Byte>, b: seq<Byte>)
  {
    |a| == |b| && forall i :: 0 <= i < |a| ==> a[i] == b[i]
  }

  lemma SameNameIsEquality()
    ensures IsEquality(SameName)
  {
    forall a, b ensures SameName(a, b) <==> a == b {}
  }

  /** The hashed cast from a name is the search through the names, or does not compile. */
  lemma NameCastIsSearch(names: seq<seq<Byte>>, primary: Hash<seq<Byte>>, secondary: Hash<seq<Byte>>,
                         searched: seq<Byte>, r: Outcome)
    requires primary.Sound(names) && secondary.Sound(names)
    requires Answers(names, primary, secondary, SameName, searched, r)
    ensures r == if Compiles(names, primary, secondary, 0) then LinearSearch(names, SameName, searched) else Rejected
  {
    SameNameIsEquality();
    SwitchIsSearch(names, primary, secondary, SameName, searched, r);
  }

  /** Names with distinct CRC-32s, none of which lies shortly above the last one of its page, are found as
      the search finds them; otherwise the same holds of the secondary hash. */
  lemma NamesAccepted(names: seq<seq<Byte>>, primary: Hash<seq<Byte>>, secondary: Hash<seq<Byte>>, hash: Hash<seq<Byte>>,
                      searched: seq<Byte>, r: Outcome)
    requires primary.of == CrcNumber && primary.t == HashType(0, 0xffff_ffff)
    requires primary.Sound(names) && secondary.Sound(names) && IsChosen(names, primary, secondary, hash)
    requires Distinct(Hashed(names, hash.of))
    requires AllRoomy(Hashed(names, hash.of), 0, hash.t) && AllClear(Hashed(names, hash.of), 0)
    requires Answers(names, primary, secondary, SameName, searched, r)
    ensures r == LinearSearch(names, SameName, searched)
  {
    SameNameIsEquality();
    AcceptedIsSearch(names, primary, secondary, hash, SameName, searched, r);
  }

  // ---------------------------------------------------------------- names that do not compile

  /** The names `jwkg` and `b`. */
  function CollidingNames(): (n: seq<seq<Byte>>)
    ensures |n| == 2
  {
    [[0x6a, 0x77, 0x6b, 0x67], [0x62]]
  }

  lemma LongNameStates()
    ensures DivideCharacter(0xffffffff, 0x6a) == 0x809a9834 && DivideCharacter(0x809a9834, 0x77) == 0xef558ab2
    ensures DivideCharacter(0xef558ab2, 0x6b) == 0xffe03ffa && DivideCharacter(0xffe03ffa, 0x67) == 0x8e410fc6
  {
  }

  lemma ShortNameState()
    ensures DivideCharacter(0xffffffff, 0x62) == 0x8e411006
  {
  }

  lemma FoldSnoc<S, C>(step: (S, C) -> S, s: S, a: seq<C>, c: C)
    ensures Fold(step, s, a + [c]) == step(Fold(step, s, a), c)
  {
    assert (a + [c])[..|a|] == a;
  }

  lemma FoldFour<S, C>(step: (S, C) -> S, s: S, c: C, d: C, e: C, f: C)
    ensures Fold(step, s, [c]) == step(s, c)
    ensures Fold(step, s, [c, d, e, f]) == step(step(step(step(s, c), d), e), f)
  {
    assert [] + [c] == [c] && [c] + [d] == [c, d] && [c, d] + [e] == [c, d, e] && [c, d, e] + [f] == [c, d, e, f];
    FoldSnoc(step, s, [], c);
    FoldSnoc(step, s, [c], d);
    FoldSnoc(step, s, [c, d], e);
    FoldSnoc(step, s, [c, d, e], f);
  }

  lemma Inverted()
    ensures Xor(0x8e410fc6, 0xffffffff) == 0x71bef039 && Xor(0x8e411006, 0xffffffff) == 0x71beeff9
  {
  }

  lemma CollidingHashes()
    ensures Crc(CollidingNames()[0]) == 0x71bef039 && Crc(CollidingNames()[1]) == 0x71beeff9
  {
    LongNameStates();
    ShortNameState();
    FoldFour(DivideCharacter, 0xffffffff, 0x6a, 0x77, 0x6b, 0x67);
    FoldFour(DivideCharacter, 0xffffffff, 0x62, 0, 0, 0);
    Inverted();
  }

  lemma CollidingNumbers()
    ensures CrcNumber(CollidingNames()[0]) == 0x71bef039 && CrcNumber(CollidingNames()[1]) == 0x71beeff9
  {
    CollidingHashes();
  }

  /** The dispatch over an enum of these two names does not compile, although their hashes differ. */
  lemma CollidingNamesRejected(primary: Hash<seq<Byte>>, secondary: Hash<seq<Byte>>)
    requires primary.of == CrcNumber && primary.t == HashType(0, 0xffff_ffff)
    requires primary.Sound(CollidingNames()) && secondary.Sound(CollidingNames())
    ensures Distinct(Hashed(CollidingNames(), CrcNumber)) && !Compiles(CollidingNames(), primary, secondary, 0)
  {
    CollidingNumbers();
    FirstAboveSecondRejected(CollidingNames(), primary, secondary);
  }

  // ---------------------------------------------------------------- names that do

  /** The names `a` and `b`, whose hashes fall. */
  function FallingNames(): (n: seq<seq<Byte>>)
    ensures |n| == 2
  {
    [[0x61], [0x62]]
  }

  lemma ShortStates()
    ensures DivideCharacter(0xffffffff, 0x61) == 0x174841bc && Xor(0x174841bc, 0xffffffff) == 0xe8b7be43
  {
  }

  lemma FallingHashes()
    ensures Crc(FallingNames()[0]) == 0xe8b7be43 && Crc(FallingNames()[1]) == 0x71beeff9
  {
    ShortStates();
    ShortNameState();
    Inverted();
    FoldFour(DivideCharacter, 0xffffffff, 0x61, 0, 0, 0);
    FoldFour(DivideCharacter, 0xffffffff, 0x62, 0, 0, 0);
  }

  lemma FallingNumbers()
    ensures CrcNumber(FallingNames()[0]) == 0xe8b7be43 && CrcNumber(FallingNames()[1]) == 0x71beeff9
  {
    FallingHashes();
  }

  /** An enum of these two names compiles although its hashes are not sorted, and `a` is found. */
  lemma FallingNamesFound(primary: Hash<seq<Byte>>, secondary: Hash<seq<Byte>>, r: Outcome)
    requires primary.of == CrcNumber && primary.t == HashType(0, 0xffff_ffff)
    requires primary.Sound(FallingNames()) && secondary.Sound(FallingNames())
    requires Answers(FallingNames(), primary, secondary, SameName, [0x61], r)
    ensures r == Selected(0)
  {
    FallingNumbers();
    SameNameIsEquality();
    TwoAccepted(FallingNames(), primary, secondary, SameName, [0x61], r);
  }
}
