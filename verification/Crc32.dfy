/** CRC-32 (section 8 of RFC 1952), computed bit by bit and with a table. */
module Crc32 {
  import opened Base

  type Word = bv32

  const POLYNOMIAL: Word := 0xEDB88320
  const ALL_ONES: Word := 0xFFFFFFFF

  /** The 256 table entries, in rows of eight. */
  const CRC_32_TAB: seq<seq<Word>> :=
    [ [0x00000000, 0x77073096, 0xee0e612c, 0x990951ba, 0x076dc419, 0x706af48f, 0xe963a535, 0x9e6495a3],
      [0x0edb8832, 0x79dcb8a4, 0xe0d5e91e, 0x97d2d988, 0x09b64c2b, 0x7eb17cbd, 0xe7b82d07, 0x90bf1d91],
      [0x1db71064, 0x6ab020f2, 0xf3b97148, 0x84be41de, 0x1adad47d, 0x6ddde4eb, 0xf4d4b551, 0x83d385c7],
      [0x136c9856, 0x646ba8c0, 0xfd62f97a, 0x8a65c9ec, 0x14015c4f, 0x63066cd9, 0xfa0f3d63, 0x8d080df5],
      [0x3b6e20c8, 0x4c69105e, 0xd56041e4, 0xa2677172, 0x3c03e4d1, 0x4b04d447, 0xd20d85fd, 0xa50ab56b],
      [0x35b5a8fa, 0x42b2986c, 0xdbbbc9d6, 0xacbcf940, 0x32d86ce3, 0x45df5c75, 0xdcd60dcf, 0xabd13d59],
      [0x26d930ac, 0x51de003a, 0xc8d75180, 0xbfd06116, 0x21b4f4b5, 0x56b3c423, 0xcfba9599, 0xb8bda50f],
      [0x2802b89e, 0x5f058808, 0xc60cd9b2, 0xb10be924, 0x2f6f7c87, 0x58684c11, 0xc1611dab, 0xb6662d3d],
      [0x76dc4190, 0x01db7106, 0x98d220bc, 0xefd5102a, 0x71b18589, 0x06b6b51f, 0x9fbfe4a5, 0xe8b8d433],
      [0x7807c9a2, 0x0f00f934, 0x9609a88e, 0xe10e9818, 0x7f6a0dbb, 0x086d3d2d, 0x91646c97, 0xe6635c01],
      [0x6b6b51f4, 0x1c6c6162, 0x856530d8, 0xf262004e, 0x6c0695ed, 0x1b01a57b, 0x8208f4c1, 0xf50fc457],
      [0x65b0d9c6, 0x12b7e950, 0x8bbeb8ea, 0xfcb9887c, 0x62dd1ddf, 0x15da2d49, 0x8cd37cf3, 0xfbd44c65],
      [0x4db26158, 0x3ab551ce, 0xa3bc0074, 0xd4bb30e2, 0x4adfa541, 0x3dd895d7, 0xa4d1c46d, 0xd3d6f4fb],
      [0x4369e96a, 0x346ed9fc, 0xad678846, 0xda60b8d0, 0x44042d73, 0x33031de5, 0xaa0a4c5f, 0xdd0d7cc9],
      [0x5005713c, 0x270241aa, 0xbe0b1010, 0xc90c2086, 0x5768b525, 0x206f85b3, 0xb966d409, 0xce61e49f],
      [0x5edef90e, 0x29d9c998, 0xb0d09822, 0xc7d7a8b4, 0x59b33d17, 0x2eb40d81, 0xb7bd5c3b, 0xc0ba6cad],
      [0xedb88320, 0x9abfb3b6, 0x03b6e20c, 0x74b1d29a, 0xead54739, 0x9dd277af, 0x04db2615, 0x73dc1683],
      [0xe3630b12, 0x94643b84, 0x0d6d6a3e, 0x7a6a5aa8, 0xe40ecf0b, 0x9309ff9d, 0x0a00ae27, 0x7d079eb1],
      [0xf00f9344, 0x8708a3d2, 0x1e01f268, 0x6906c2fe, 0xf762575d, 0x806567cb, 0x196c3671, 0x6e6b06e7],
      [0xfed41b76, 0x89d32be0, 0x10da7a5a, 0x67dd4acc, 0xf9b9df6f, 0x8ebeeff9, 0x17b7be43, 0x60b08ed5],
      [0xd6d6a3e8, 0xa1d1937e, 0x38d8c2c4, 0x4fdff252, 0xd1bb67f1, 0xa6bc5767, 0x3fb506dd, 0x48b2364b],
      [0xd80d2bda, 0xaf0a1b4c, 0x36034af6, 0x41047a60, 0xdf60efc3, 0xa867df55, 0x316e8eef, 0x4669be79],
      [0xcb61b38c, 0xbc66831a, 0x256fd2a0, 0x5268e236, 0xcc0c7795, 0xbb0b4703, 0x220216b9, 0x5505262f],
      [0xc5ba3bbe, 0xb2bd0b28, 0x2bb45a92, 0x5cb36a04, 0xc2d7ffa7, 0xb5d0cf31, 0x2cd99e8b, 0x5bdeae1d],
      [0x9b64c2b0, 0xec63f226, 0x756aa39c, 0x026d930a, 0x9c0906a9, 0xeb0e363f, 0x72076785, 0x05005713],
      [0x95bf4a82, 0xe2b87a14, 0x7bb12bae, 0x0cb61b38, 0x92d28e9b, 0xe5d5be0d, 0x7cdcefb7, 0x0bdbdf21],
      [0x86d3d2d4, 0xf1d4e242, 0x68ddb3f8, 0x1fda836e, 0x81be16cd, 0xf6b9265b, 0x6fb077e1, 0x18b74777],
      [0x88085ae6, 0xff0f6a70, 0x66063bca, 0x11010b5c, 0x8f659eff, 0xf862ae69, 0x616bffd3, 0x166ccf45],
      [0xa00ae278, 0xd70dd2ee, 0x4e048354, 0x3903b3c2, 0xa7672661, 0xd06016f7, 0x4969474d, 0x3e6e77db],
      [0xaed16a4a, 0xd9d65adc, 0x40df0b66, 0x37d83bf0, 0xa9bcae53, 0xdebb9ec5, 0x47b2cf7f, 0x30b5ffe9],
      [0xbdbdf21c, 0xcabac28a, 0x53b39330, 0x24b4a3a6, 0xbad03605, 0xcdd70693, 0x54de5729, 0x23d967bf],
      [0xb3667a2e, 0xc4614ab8, 0x5d681b02, 0x2a6f2b94, 0xb40bbe37, 0xc30c8ea1, 0x5a05df1b, 0x2d02ef8d] ]

  // -------------------------------------------------------------------------
  // Words as polynomials: sum, shift and lowest coefficient
  // -------------------------------------------------------------------------

  function Xor(a: Word, b: Word): Word { a ^ b }

  function Half(a: Word): Word { a >> 1 }

  predicate Odd(a: Word) { a & 1 == 1 }

  function LowByte(a: Word): Word { a & 0xFF }

  function ShiftByte(a: Word): Word { a >> 8 }

  function Widen(octet: Byte): Word { octet as Word }

  lemma XorCommutes(a: Word, b: Word)
    ensures Xor(a, b) == Xor(b, a)
  {
  }

  lemma XorAssociates(a: Word, b: Word, c: Word)
    ensures Xor(Xor(a, b), c) == Xor(a, Xor(b, c))
  {
    assert (a ^ b) ^ c == a ^ (b ^ c);
  }

  lemma XorCancels(a: Word, b: Word)
    ensures Xor(Xor(a, b), b) == a
  {
  }

  lemma HalfOfXor(a: Word, b: Word)
    ensures Half(Xor(a, b)) == Xor(Half(a), Half(b))
    ensures Odd(Xor(a, b)) <==> Odd(a) != Odd(b)
  {
  }

  lemma HalvesTell(a: Word, b: Word)
    requires Half(a) == Half(b) && Odd(a) == Odd(b)
    ensures a == b
  {
  }

  lemma TopBitTells(a: Word, b: Word)
    ensures Half(a) != Xor(Half(b), POLYNOMIAL)
  {
    assert Half(a) & 0x80000000 == 0;
    assert (Half(b) ^ POLYNOMIAL) & 0x80000000 == 0x80000000;
  }

  // -------------------------------------------------------------------------
  // One byte at a time
  // -------------------------------------------------------------------------

  /** One conditional shift. */
  function Shift(r: Word): Word {
    if Odd(r) then Xor(Half(r), POLYNOMIAL) else Half(r)
  }

  function Shifts(r: Word, n: nat): Word {
    if n == 0 then r else Shift(Shifts(r, n - 1))
  }

  lemma ShiftLinear(a: Word, b: Word)
    ensures Shift(Xor(a, b)) == Xor(Shift(a), Shift(b))
  {
    hide Xor, Half, Odd;
    HalfOfXor(a, b);
    var x, y := Half(a), Half(b);
    XorAssociates(x, y, POLYNOMIAL);
    XorAssociates(x, POLYNOMIAL, y);
    XorCommutes(y, POLYNOMIAL);
    XorAssociates(x, POLYNOMIAL, Xor(y, POLYNOMIAL));
    XorCommutes(POLYNOMIAL, Xor(y, POLYNOMIAL));
    XorCancels(y, POLYNOMIAL);
  }

  lemma {:induction false} ShiftsLinear(a: Word, b: Word, n: nat)
    ensures Shifts(Xor(a, b), n) == Xor(Shifts(a, n), Shifts(b, n))
  {
    hide Xor, Shift;
    if n > 0 {
      ShiftsLinear(a, b, n - 1);
      ShiftLinear(Shifts(a, n - 1), Shifts(b, n - 1));
    }
  }

  lemma ShiftInjective(a: Word, b: Word)
    requires Shift(a) == Shift(b)
    ensures a == b
  {
    hide Xor, Half, Odd;
    TopBitTells(a, b);
    TopBitTells(b, a);
    XorCancels(Half(a), POLYNOMIAL);
    XorCancels(Half(b), POLYNOMIAL);
    HalvesTell(a, b);
  }

  lemma {:induction false} ShiftsInjective(a: Word, b: Word, n: nat)
    requires Shifts(a, n) == Shifts(b, n)
    ensures a == b
  {
    hide Shift;
    if n > 0 {
      ShiftInjective(Shifts(a, n - 1), Shifts(b, n - 1));
      ShiftsInjective(a, b, n - 1);
    }
  }

  lemma {:induction false} ShiftsAdd(r: Word, m: nat, n: nat)
    ensures Shifts(r, m + n) == Shifts(Shifts(r, m), n)
  {
    hide Shift;
    if n > 0 {
      ShiftsAdd(r, m, n - 1);
    }
  }

  function Shift8(r: Word): Word {
    Shift(Shift(Shift(Shift(Shift(Shift(Shift(Shift(r))))))))
  }

  lemma Shift8IsShifts(r: Word)
    ensures Shift8(r) == Shifts(r, 8)
  {
    hide Shift;
    assert Shifts(r, 0) == r && Shifts(r, 1) == Shift(Shifts(r, 0)) && Shifts(r, 2) == Shift(Shifts(r, 1));
    assert Shifts(r, 3) == Shift(Shifts(r, 2)) && Shifts(r, 4) == Shift(Shifts(r, 3));
    assert Shifts(r, 5) == Shift(Shifts(r, 4)) && Shifts(r, 6) == Shift(Shifts(r, 5));
    assert Shifts(r, 7) == Shift(Shifts(r, 6)) && Shifts(r, 8) == Shift(Shifts(r, 7));
  }

  lemma LowBitsClear(h: Word)
    requires LowByte(h) == 0
    ensures h & 1 == 0 && (h >> 1) & 1 == 0 && (h >> 2) & 1 == 0 && (h >> 3) & 1 == 0
    ensures (h >> 4) & 1 == 0 && (h >> 5) & 1 == 0 && (h >> 6) & 1 == 0 && (h >> 7) & 1 == 0
  {
  }

  lemma EvenShift8(h: Word)
    requires h & 1 == 0 && (h >> 1) & 1 == 0 && (h >> 2) & 1 == 0 && (h >> 3) & 1 == 0
    requires (h >> 4) & 1 == 0 && (h >> 5) & 1 == 0 && (h >> 6) & 1 == 0 && (h >> 7) & 1 == 0
    ensures Shift8(h) == h >> 8
  {
    assert Shift(h) == h >> 1;
    assert Shift(h >> 1) == h >> 2;
    assert Shift(h >> 2) == h >> 3;
    assert Shift(h >> 3) == h >> 4;
    assert Shift(h >> 4) == h >> 5;
    assert Shift(h >> 5) == h >> 6;
    assert Shift(h >> 6) == h >> 7;
    assert Shift(h >> 7) == h >> 8;
  }

  /** With its low byte clear, a word loses that byte in eight shifts and nothing else happens. */
  lemma ClearByteDropped(h: Word)
    requires LowByte(h) == 0
    ensures Shift8(h) == ShiftByte(h)
  {
    hide Shift8;
    LowBitsClear(h);
    EvenShift8(h);
  }

  lemma Shift8Linear(a: Word, b: Word)
    ensures Shift8(Xor(a, b)) == Xor(Shift8(a), Shift8(b))
  {
    hide Xor, Shift8;
    ShiftsLinear(a, b, 8);
    Shift8IsShifts(a);
    Shift8IsShifts(b);
    Shift8IsShifts(Xor(a, b));
  }

  lemma LowAndHigh(r: Word) returns (high: Word, low: Word)
    ensures low == LowByte(r) && r == Xor(high, low)
    ensures LowByte(high) == 0 && ShiftByte(high) == ShiftByte(r)
  {
    high, low := r & 0xFFFFFF00, r & 0xFF;
  }

  lemma SplitShift8(r: Word, high: Word, low: Word, dropped: Word)
    requires r == Xor(high, low) && Shift8(high) == dropped
    ensures Shift8(r) == Xor(dropped, Shift8(low))
  {
    hide Xor, Shift8;
    Shift8Linear(high, low);
  }

  /** Eight conditional shifts of a word are a byte shift and eight conditional shifts of its low byte. */
  lemma ByteStep(r: Word)
    ensures Shift8(r) == Xor(ShiftByte(r), Shift8(LowByte(r)))
  {
    hide Xor, Shift8, LowByte, ShiftByte;
    var high, low := LowAndHigh(r);
    ClearByteDropped(high);
    SplitShift8(r, high, low, ShiftByte(r));
  }

  // -------------------------------------------------------------------------
  // The table
  // -------------------------------------------------------------------------

  /** Along a row the entries differ from its first one as they do along the first row. */
  ghost predicate RowFromHead(row: seq<Word>) {
    |row| == 8 && forall j | 0 <= j < 8 :: row[j] == Xor(row[0], CRC_32_TAB[0][j])
  }

  lemma RowsFromHeads()
    ensures |CRC_32_TAB| == 32 && forall k | 0 <= k < 32 :: RowFromHead(CRC_32_TAB[k])
  {
  }

  lemma FirstRow(j: Word)
    requires j < 8
    ensures |CRC_32_TAB| == 32 && |CRC_32_TAB[0]| == 8
    ensures j as nat < 8 && CRC_32_TAB[0][j as nat] == Shift8(j)
  {
  }

  lemma Heads0To7(k: Word)
    requires 0 <= k < 8
    ensures k as nat < |CRC_32_TAB| && |CRC_32_TAB[k as nat]| == 8 && CRC_32_TAB[k as nat][0] == Shift8(k << 3)
  {
  }

  lemma Heads8To15(k: Word)
    requires 8 <= k < 16
    ensures k as nat < |CRC_32_TAB| && |CRC_32_TAB[k as nat]| == 8 && CRC_32_TAB[k as nat][0] == Shift8(k << 3)
  {
  }

  lemma Heads16To23(k: Word)
    requires 16 <= k < 24
    ensures k as nat < |CRC_32_TAB| && |CRC_32_TAB[k as nat]| == 8 && CRC_32_TAB[k as nat][0] == Shift8(k << 3)
  {
  }

  lemma Heads24To31(k: Word)
    requires 24 <= k < 32
    ensures k as nat < |CRC_32_TAB| && |CRC_32_TAB[k as nat]| == 8 && CRC_32_TAB[k as nat][0] == Shift8(k << 3)
  {
  }

  lemma HeadAt(k: Word)
    requires k < 32
    ensures k as nat < |CRC_32_TAB| && |CRC_32_TAB[k as nat]| == 8 && CRC_32_TAB[k as nat][0] == Shift8(k << 3)
  {
    hide Shift8;
    if k < 8 {
      Heads0To7(k);
    } else if k < 16 {
      Heads8To15(k);
    } else if k < 24 {
      Heads16To23(k);
    } else {
      Heads24To31(k);
    }
  }

  lemma RowAndColumn(i: Word) returns (k: Word, j: Word)
    requires i < 256
    ensures k == i >> 3 && j == i & 7 && k < 32 && j < 8 && i == Xor(k << 3, j)
  {
    k, j := i >> 3, i & 7;
  }

  /** The table lookup. */
  function Entry(i: Word): Word
    requires i < 256
  {
    HeadAt(i >> 3);
    FirstRow(i & 7);
    CRC_32_TAB[(i >> 3) as nat][(i & 7) as nat]
  }

  /** Every table entry is what eight conditional shifts make of its index. */
  lemma EntryIsShift8(i: Word)
    requires i < 256
    ensures Entry(i) == Shift8(i)
  {
    hide Xor, Shift8, CRC_32_TAB;
    var k, j := RowAndColumn(i);
    HeadAt(k);
    FirstRow(j);
    RowsFromHeads();
    assert RowFromHead(CRC_32_TAB[k as nat]);
    Shift8Linear(k << 3, j);
  }

  // -------------------------------------------------------------------------
  // The checksum
  // -------------------------------------------------------------------------

  /** The register after feeding data into r. */
  function Fed(r: Word, data: seq<Byte>): Word {
    if data == [] then r else Shift8(Xor(Fed(r, data[..|data| - 1]), Widen(data[|data| - 1])))
  }

  function Crc(data: seq<Byte>): Word {
    Xor(Fed(ALL_ONES, data), ALL_ONES)
  }

  lemma LowByteBound(r: Word)
    ensures LowByte(r) < 256
  {
  }

  /** The update macro: one table lookup and one byte shift. */
  function Updc32(octet: Byte, crc: Word): Word {
    LowByteBound(Xor(crc, Widen(octet)));
    Xor(Entry(LowByte(Xor(crc, Widen(octet)))), ShiftByte(crc))
  }

  lemma HighBytesUntouched(octet: Byte, crc: Word)
    ensures ShiftByte(Xor(crc, Widen(octet))) == ShiftByte(crc)
  {
  }

  /** The update macro is one byte of the bit-by-bit checksum. */
  lemma UpdateIsShift8(octet: Byte, crc: Word)
    ensures Updc32(octet, crc) == Shift8(Xor(crc, Widen(octet)))
  {
    hide Shift8, Entry, Xor, LowByte, ShiftByte, Widen;
    var r := Xor(crc, Widen(octet));
    ByteStep(r);
    LowByteBound(r);
    EntryIsShift8(LowByte(r));
    HighBytesUntouched(octet, crc);
    XorCommutes(ShiftByte(crc), Shift8(LowByte(r)));
  }

  lemma FedNext(r: Word, data: seq<Byte>, i: nat)
    requires i < |data|
    ensures Fed(r, data[..i + 1]) == Shift8(Xor(Fed(r, data[..i]), Widen(data[i])))
  {
    hide Shift8, Xor, Widen;
    assert data[..i + 1][..i] == data[..i];
  }

  /** The statement the table-driven checksums repeat for every byte. */
  function NextByte(crc: Word, octet: Byte): (r: Word)
    ensures r == Shift8(Xor(crc, Widen(octet)))
  {
    LowByteBound(Xor(crc, Widen(octet)));
    UpdateIsShift8(octet, crc);
    XorCommutes(ShiftByte(crc), Entry(LowByte(Xor(crc, Widen(octet)))));
    Xor(ShiftByte(crc), Entry(LowByte(Xor(crc, Widen(octet)))))
  }

  /** The table-driven build. */
  method GetCrc32(data: seq<Byte>) returns (crc: Word)
    ensures crc == Crc(data)
  {
    hide Shift8, Xor, Widen;
    crc := ALL_ONES;
    var i := 0;
    while i < |data|
      invariant 0 <= i <= |data| && crc == Fed(ALL_ONES, data[..i])
    {
      FedNext(ALL_ONES, data, i);
      crc := NextByte(crc, data[i]);
      i := i + 1;
    }
    assert data[..i] == data;
    crc := Xor(crc, ALL_ONES);
  }

  /** The size-optimised build. */
  method GetCrc32BitByBit(data: seq<Byte>) returns (r: Word)
    ensures r == Crc(data)
  {
    hide Shift8, Xor, Half, Odd, Widen;
    r := ALL_ONES;
    for i := 0 to |data|
      invariant r == Fed(ALL_ONES, data[..i])
    {
      FedNext(ALL_ONES, data, i);
      r := Xor(r, Widen(data[i]));
      ghost var fed := r;
      for b := 0 to 8
        invariant r == Shifts(fed, b)
      {
        if Odd(r) {
          r := Xor(Half(r), POLYNOMIAL);
        } else {
          r := Half(r);
        }
      }
      Shift8IsShifts(fed);
    }
    assert data[..|data|] == data;
    r := Xor(r, ALL_ONES);
  }

  /** The unrolled checksum of one 32-bit word, given as its four bytes in memory order. */
  method Crc32Int(d: seq<Byte>) returns (crc: Word)
    requires |d| == 4
    ensures crc == Crc(d)
  {
    hide Shift8, Xor, Widen;
    crc := ALL_ONES;
    assert d[..0] == [] && d[..4] == d;
    FedNext(ALL_ONES, d, 0);
    FedNext(ALL_ONES, d, 1);
    FedNext(ALL_ONES, d, 2);
    FedNext(ALL_ONES, d, 3);
    crc := NextByte(crc, d[0]);
    crc := NextByte(crc, d[1]);
    crc := NextByte(crc, d[2]);
    crc := Xor(NextByte(crc, d[3]), ALL_ONES);
  }

  /** Checksumming by iterated updates, as the self-test does it. */
  method ByUpdates(data: seq<Byte>) returns (crc: Word)
    ensures crc == Crc(data)
  {
    hide Shift8, Xor, Widen, Updc32;
    crc := ALL_ONES;
    for i := 0 to |data|
      invariant crc == Fed(ALL_ONES, data[..i])
    {
      FedNext(ALL_ONES, data, i);
      UpdateIsShift8(data[i], crc);
      crc := Updc32(data[i], crc);
    }
    assert data[..|data|] == data;
    crc := Xor(crc, ALL_ONES);
  }

  // -------------------------------------------------------------------------
  // What the checksum detects
  // -------------------------------------------------------------------------

  lemma {:induction false} FedSplit(r: Word, a: seq<Byte>, b: seq<Byte>)
    ensures Fed(r, a + b) == Fed(Fed(r, a), b)
  {
    hide Shift8, Xor, Widen;
    if b == [] {
      assert a + b == a;
    } else {
      var n := |b| - 1;
      FedSplit(r, a, b[..n]);
      assert (a + b)[..|a| + n] == a + b[..n];
    }
  }

  /** Different register contents stay different whatever the same data does to them. */
  lemma {:induction false} FedInjective(r: Word, s: Word, data: seq<Byte>)
    requires Fed(r, data) == Fed(s, data)
    ensures r == s
  {
    hide Shift8, Xor, Widen;
    if data != [] {
      var n := |data| - 1;
      var octet := Widen(data[n]);
      var x, y := Fed(r, data[..n]), Fed(s, data[..n]);
      Shift8IsShifts(Xor(x, octet));
      Shift8IsShifts(Xor(y, octet));
      ShiftsInjective(Xor(x, octet), Xor(y, octet), 8);
      XorCancels(x, octet);
      XorCancels(y, octet);
      FedInjective(r, s, data[..n]);
    }
  }

  /** A byte in the k-th place of a word. */
  function Placed(octet: Byte, k: nat): Word
    requires k < 4
  {
    if k == 0 then Widen(octet)
    else if k == 1 then (octet as Word) << 8
    else if k == 2 then (octet as Word) << 16
    else (octet as Word) << 24
  }

  lemma PlacedDown(octet: Byte, k: nat)
    requires 0 < k < 4
    ensures Shift8(Placed(octet, k)) == Placed(octet, k - 1)
  {
    hide Shift8;
    PlacedIsClear(octet, k);
    ClearByteDropped(Placed(octet, k));
  }

  lemma PlacedIsClear(octet: Byte, k: nat)
    requires 0 < k < 4
    ensures LowByte(Placed(octet, k)) == 0 && ShiftByte(Placed(octet, k)) == Placed(octet, k - 1)
  {
  }

  /** At most four bytes read as one little-endian word. */
  function WordOf(m: seq<Byte>): Word
    requires |m| <= 4
  {
    if m == [] then 0 else Xor(WordOf(m[..|m| - 1]), Placed(m[|m| - 1], |m| - 1))
  }

  lemma {:induction false} PlacedShifts(octet: Byte, k: nat)
    requires k < 4
    ensures Shifts(Placed(octet, k), 8 * k) == Widen(octet)
  {
    hide Shift, Placed;
    if k == 0 {
      PlacedFirst(octet);
    } else {
      PlacedDown(octet, k);
      Shift8IsShifts(Placed(octet, k));
      ShiftsAdd(Placed(octet, k), 8, 8 * (k - 1));
      PlacedShifts(octet, k - 1);
    }
  }

  lemma PlacedFirst(octet: Byte)
    ensures Placed(octet, 0) == Widen(octet)
  {
  }

  /** Feeding up to four bytes is adding them as one word and shifting by their width. */
  lemma {:induction false} FedIsWord(r: Word, m: seq<Byte>)
    requires |m| <= 4
    ensures Fed(r, m) == Shifts(Xor(r, WordOf(m)), 8 * |m|)
  {
    hide Shift, Shift8, Xor, Placed, Widen;
    if m == [] {
      assert WordOf(m) == 0;
      XorZero(r);
    } else {
      var n := |m| - 1;
      var w, p := WordOf(m[..n]), Placed(m[n], n);
      FedIsWord(r, m[..n]);
      PlacedShifts(m[n], n);
      ShiftsLinear(Xor(r, w), p, 8 * n);
      XorAssociates(r, w, p);
      Shift8IsShifts(Shifts(Xor(r, WordOf(m)), 8 * n));
      ShiftsAdd(Xor(r, WordOf(m)), 8 * n, 8);
    }
  }

  lemma XorZero(r: Word)
    ensures Xor(r, 0) == r
  {
  }

  /** The word has nothing in its bytes from the k-th on. */
  predicate Below(w: Word, k: nat)
    requires k <= 4
  {
    if k == 0 then w == 0
    else if k == 1 then w >> 8 == 0
    else if k == 2 then w >> 16 == 0
    else if k == 3 then w >> 24 == 0
    else true
  }

  function ByteAt(w: Word, k: nat): Word
    requires k < 4
  {
    (if k == 0 then w else if k == 1 then w >> 8 else if k == 2 then w >> 16 else w >> 24) & 0xFF
  }

  lemma PlacedReadBack(v: Word, x: Byte, k: nat)
    requires k < 4 && Below(v, k)
    ensures ByteAt(Xor(v, Placed(x, k)), k) == Widen(x)
  {
  }

  lemma PlacedStaysBelow(v: Word, x: Byte, k: nat)
    requires k < 4 && Below(v, k)
    ensures Below(Xor(v, Placed(x, k)), k + 1)
  {
  }

  lemma WidenTells(x: Byte, y: Byte)
    requires Widen(x) == Widen(y)
    ensures x == y
  {
  }

  lemma PlacedTells(v: Word, w: Word, x: Byte, y: Byte, k: nat)
    requires k < 4 && Below(v, k) && Below(w, k)
    requires Xor(v, Placed(x, k)) == Xor(w, Placed(y, k))
    ensures v == w && x == y
  {
    hide Xor, Placed, Below, ByteAt, Widen;
    PlacedReadBack(v, x, k);
    PlacedReadBack(w, y, k);
    WidenTells(x, y);
    XorCancels(v, Placed(x, k));
    XorCancels(w, Placed(y, k));
  }

  /** The bytes can be read back from the word. */
  lemma {:induction false} WordTellsBytes(a: seq<Byte>, b: seq<Byte>)
    requires |a| == |b| <= 4
    ensures Below(WordOf(a), |a|)
    ensures WordOf(a) == WordOf(b) ==> a == b
    decreases |a|
  {
    hide *;
    if a == [] {
      ZeroBelow();
    } else {
      var n := |a| - 1;
      WordTellsBytes(a[..n], b[..n]);
      WordTellsBytes(b[..n], b[..n]);
      WordUnfolds(a);
      WordUnfolds(b);
      PlacedStaysBelow(WordOf(a[..n]), a[n], n);
      if WordOf(a) == WordOf(b) {
        PlacedTells(WordOf(a[..n]), WordOf(b[..n]), a[n], b[n], n);
      }
      assert a == a[..n] + [a[n]] && b == b[..n] + [b[n]];
    }
  }

  lemma WordUnfolds(m: seq<Byte>)
    requires 1 <= |m| <= 4
    ensures WordOf(m) == Xor(WordOf(m[..|m| - 1]), Placed(m[|m| - 1], |m| - 1))
  {
    hide Xor, Placed;
  }

  lemma ZeroBelow()
    ensures WordOf([]) == 0 && Below(WordOf([]), 0)
  {
  }

  /** Once the register contents differ behind two messages, the checksums of all continuations do. */
  lemma DifferenceStays(before: seq<Byte>, m: seq<Byte>, m': seq<Byte>, after: seq<Byte>)
    requires Fed(Fed(ALL_ONES, before), m) != Fed(Fed(ALL_ONES, before), m')
    ensures Crc(before + m + after) != Crc(before + m' + after)
  {
    hide Xor, Fed;
    var x, y := Fed(Fed(ALL_ONES, before), m), Fed(Fed(ALL_ONES, before), m');
    FedSplit(ALL_ONES, before + m, after);
    FedSplit(ALL_ONES, before, m);
    FedSplit(ALL_ONES, before + m', after);
    FedSplit(ALL_ONES, before, m');
    if Fed(x, after) == Fed(y, after) {
      FedInjective(x, y, after);
    }
    XorCancels(Fed(x, after), ALL_ONES);
    XorCancels(Fed(y, after), ALL_ONES);
  }

  /** Data of the same length that differ only within four consecutive bytes never have the same checksum. */
  lemma BurstDetected(before: seq<Byte>, m: seq<Byte>, m': seq<Byte>, after: seq<Byte>)
    requires |m| == |m'| <= 4 && m != m'
    ensures Crc(before + m + after) != Crc(before + m' + after)
  {
    hide Xor, Shift, Crc, Fed, Placed;
    var r := Fed(ALL_ONES, before);
    FedIsWord(r, m);
    FedIsWord(r, m');
    if Fed(r, m) == Fed(r, m') {
      ShiftsInjective(Xor(r, WordOf(m)), Xor(r, WordOf(m')), 8 * |m|);
      XorCommutes(r, WordOf(m));
      XorCommutes(r, WordOf(m'));
      XorCancels(WordOf(m), r);
      XorCancels(WordOf(m'), r);
      WordTellsBytes(m, m');
    }
    DifferenceStays(before, m, m', after);
  }

  // -------------------------------------------------------------------------
  // The values themselves
  // -------------------------------------------------------------------------

  lemma EightShiftsOfOnes()
    ensures Shift8(0xFFFFFFFF) == 0x2DFD1072 && Shift8(0x2DFD1072) == 0xBE26ED00
    ensures Shift8(0xBE26ED00) == 0x00BE26ED && Shift8(0x00BE26ED) == 0xDEBB20E3
  {
  }

  lemma ShiftsOfOnes()
    ensures Shifts(0xFFFFFFFF, 32) == 0xDEBB20E3
  {
    hide Shift8, Shifts;
    EightShiftsOfOnes();
    Shift8IsShifts(0xFFFFFFFF);
    Shift8IsShifts(0x2DFD1072);
    Shift8IsShifts(0xBE26ED00);
    Shift8IsShifts(0x00BE26ED);
    ShiftsAdd(0xFFFFFFFF, 8, 8);
    ShiftsAdd(0xFFFFFFFF, 16, 8);
    ShiftsAdd(0xFFFFFFFF, 24, 8);
  }

  /** Every message followed by its own checksum, lowest byte first, has the same checksum. */
  lemma OwnChecksumBehind(data: seq<Byte>, sum: seq<Byte>)
    requires |sum| == 4 && WordOf(sum) == Crc(data)
    ensures Crc(data + sum) == 0x2144DF1C
  {
    hide Shift8, Shifts, Fed, Xor;
    var r := Fed(ALL_ONES, data);
    FedSplit(ALL_ONES, data, sum);
    FedIsWord(r, sum);
    SelfCancels(r, ALL_ONES);
    ShiftsOfOnes();
    assert Xor(0xDEBB20E3, 0xFFFFFFFF) == 0x2144DF1C by { ComplementOfOnes(); }
  }

  lemma ComplementOfOnes()
    ensures Xor(0xDEBB20E3, 0xFFFFFFFF) == 0x2144DF1C
  {
  }

  /** The checksums of no byte and of one zero byte. */
  lemma FirstValues()
    ensures Crc([]) == 0 && Crc([0]) == 0xD202EF8D
  {
    hide Shift8;
    var none: seq<Byte> := [];
    assert Fed(ALL_ONES, none) == 0xFFFFFFFF;
    FedNext(ALL_ONES, [0], 0);
    assert [0 as Byte][..0] == none && [0 as Byte][..1] == [0 as Byte];
    assert Xor(0xFFFFFFFF, Widen(0)) == 0xFFFFFFFF;
    EightShiftsOfOnes();
    assert Xor(0x2DFD1072, 0xFFFFFFFF) == 0xD202EF8D;
  }

  // -------------------------------------------------------------------------
  // Bursts of 32 bits that begin and end within a byte
  // -------------------------------------------------------------------------

  /** The s lowest bits of a word. */
  function LowBits(w: Word, s: nat): Word
    requires s <= 8
  {
    And(w, Mask(s))
  }

  function And(a: Word, b: Word): Word { a & b }

  function Mask(s: nat): Word
    requires s <= 8
  {
    if s == 0 then 0
    else if s == 1 then 0x1
    else if s == 2 then 0x3
    else if s == 3 then 0x7
    else if s == 4 then 0xf
    else if s == 5 then 0x1f
    else if s == 6 then 0x3f
    else if s == 7 then 0x7f
    else 0xff
  }

  /** A word without its s lowest bits. */
  function Down(w: Word, s: nat): Word
    requires s <= 8
  {
    if s == 0 then w
    else if s == 1 then w >> 1
    else if s == 2 then w >> 2
    else if s == 3 then w >> 3
    else if s == 4 then w >> 4
    else if s == 5 then w >> 5
    else if s == 6 then w >> 6
    else if s == 7 then w >> 7
    else w >> 8
  }

  /** The s lowest bits of a byte as its highest ones. */
  function Up(z: Byte, s: nat): Byte
    requires s < 8
  {
    if s == 0 then z << 8
    else if s == 1 then z << 7
    else if s == 2 then z << 6
    else if s == 3 then z << 5
    else if s == 4 then z << 4
    else if s == 5 then z << 3
    else if s == 6 then z << 2
    else z << 1
  }

  lemma OneDown(w: Word, s: nat)
    requires 0 < s <= 8 && LowBits(w, s) == 0
    ensures !Odd(w) && LowBits(Half(w), s - 1) == 0 && Down(Half(w), s - 1) == Down(w, s)
  {
  }

  /** Low bits that are clear are all that a word loses in as many conditional shifts. */
  lemma {:induction false} ClearBitsDropped(w: Word, s: nat)
    requires s <= 8 && LowBits(w, s) == 0
    ensures Shifts(w, s) == Down(w, s)
    decreases s
  {
    hide LowBits, Odd, Half, Xor;
    if s > 0 {
      OneDown(w, s);
      assert Shifts(w, 1) == Shift(Shifts(w, 0)) == Half(w);
      ShiftsAdd(w, 1, s - 1);
      ClearBitsDropped(Half(w), s - 1);
    }
  }

  lemma AndAlike(a: Word, b: Word, mask: Word)
    requires And(Xor(a, b), mask) == 0
    ensures And(a, mask) == And(b, mask)
  {
  }

  lemma AndOfAlike(a: Word, b: Word, mask: Word)
    requires And(a, mask) == And(b, mask)
    ensures And(Xor(a, b), mask) == 0
  {
  }

  lemma AndSkips(a: Word, b: Word, mask: Word)
    requires And(b, mask) == 0
    ensures And(Xor(a, b), mask) == And(a, mask)
  {
  }

  lemma PlacedAbove(octet: Byte, k: nat, s: nat)
    requires 0 < k < 4 && s <= 8
    ensures LowBits(Placed(octet, k), s) == 0
  {
  }

  lemma {:induction false} LowBitsOfWord(m: seq<Byte>, s: nat)
    requires 1 <= |m| <= 4 && s <= 8
    ensures LowBits(WordOf(m), s) == LowBits(Widen(m[0]), s)
  {
    hide And, Mask, Xor, Placed, Widen;
    var n := |m| - 1;
    if n == 0 {
      assert WordOf(m[..0]) == 0;
      XorCommutes(0, Placed(m[0], 0));
      XorZero(Placed(m[0], 0));
      PlacedFirst(m[0]);
    } else {
      PlacedAbove(m[n], n, s);
      LowBitsOfWord(m[..n], s);
      AndSkips(WordOf(m[..n]), Placed(m[n], n), Mask(s));
    }
  }

  lemma Raised(z: Byte, s: nat)
    requires s < 8 && Down(Widen(z), s) == 0
    ensures LowBits(Widen(Up(z, s)), 8 - s) == 0 && Down(Widen(Up(z, s)), 8 - s) == Widen(z)
  {
  }

  /** What is left of a word without its low bits, and the low bits of a byte placed on top, have no bit in common. */
  lemma NothingInCommon(d: Word, z: Byte, s: nat)
    requires s < 8 && LowBits(d, s) == 0 && Down(Widen(z), s) == 0 && Down(d, s) == Placed(Up(z, s), 3)
    ensures d == 0 && z == 0
  {
  }

  /** A word that 32 conditional shifts take to a small one is zero when it begins as late as the small one ends. */
  lemma NoSuchWord(d: Word, z: Byte, s: nat)
    requires s < 8 && LowBits(d, s) == 0 && Down(Widen(z), s) == 0
    requires Shifts(d, 32) == Widen(z)
    ensures d == 0 && z == 0
  {
    hide LowBits, Down, Up, Placed, Widen, Shift, Shifts;
    var top := Placed(Up(z, s), 3);
    ClearBitsDropped(d, s);
    ShiftsAdd(d, s, 32 - s);
    Raised(z, s);
    PlacedShifts(Up(z, s), 3);
    ShiftsAdd(top, 24, 8 - s);
    ClearBitsDropped(Widen(Up(z, s)), 8 - s);
    ShiftsInjective(Down(d, s), top, 32 - s);
    NothingInCommon(d, z, s);
  }

  /** The bits in which two bytes differ. */
  function Difference(x: Byte, y: Byte): Byte {
    x ^ y
  }

  /**
   * Five bytes that differ only in 32 bits in a row, bits counted from the lowest of each byte as the
   * checksum takes them: not in the s lowest of the first byte, and in no other than those of the last.
   */
  predicate BurstFrom(m: seq<Byte>, m': seq<Byte>, s: nat)
    requires |m| == |m'| == 5 && s < 8
  {
    LowBits(Widen(Difference(m[0], m'[0])), s) == 0 && Down(Widen(Difference(m[4], m'[4])), s) == 0
  }

  lemma WidenDifference(x: Byte, y: Byte)
    ensures Widen(Difference(x, y)) == Xor(Widen(x), Widen(y))
    ensures Difference(x, y) == 0 <==> x == y
  {
  }

  /** Equal sums with two bytes tell the sum of the words. */
  lemma MovedAcross(a: Word, b: Word, x: Word, y: Word)
    requires Xor(a, x) == Xor(b, y)
    ensures Xor(a, b) == Xor(x, y)
  {
    hide Xor;
    XorCancels(a, x);
    XorAssociates(b, y, x);
    XorCommutes(a, b);
    SelfCancels(b, Xor(y, x));
    XorCommutes(y, x);
  }

  lemma SelfCancels(b: Word, x: Word)
    ensures Xor(b, Xor(b, x)) == x
  {
    assert b ^ (b ^ x) == x;
  }

  lemma CommonCancels(r: Word, v: Word, w: Word)
    ensures Xor(Xor(r, v), Xor(r, w)) == Xor(v, w)
    ensures Xor(v, w) == 0 <==> v == w
  {
    XorIsZero(v, w);
    hide Xor;
    XorCommutes(r, v);
    XorAssociates(v, r, Xor(r, w));
    SelfCancels(r, w);
  }

  lemma XorIsZero(v: Word, w: Word)
    ensures Xor(v, w) == 0 <==> v == w
  {
    hide Xor;
    XorCancels(v, w);
    XorCommutes(0, w);
    XorZero(w);
    XorSelf(w);
  }

  lemma XorSelf(w: Word)
    ensures Xor(w, w) == 0
  {
  }

  /** Registers that are equal behind two messages tie the difference of the first four bytes to that of the fifth. */
  lemma SameRegister(r: Word, m: seq<Byte>, m': seq<Byte>)
    requires |m| == |m'| == 5 && Fed(r, m) == Fed(r, m')
    ensures Shifts(Xor(WordOf(m[..4]), WordOf(m'[..4])), 32) == Widen(Difference(m[4], m'[4]))
  {
    hide Shift, Shift8, Xor, Widen, Difference, WordOf;
    var v, w := WordOf(m[..4]), WordOf(m'[..4]);
    var x, y := Fed(r, m[..4]), Fed(r, m'[..4]);
    Shift8IsShifts(Xor(x, Widen(m[4])));
    Shift8IsShifts(Xor(y, Widen(m'[4])));
    ShiftsInjective(Xor(x, Widen(m[4])), Xor(y, Widen(m'[4])), 8);
    MovedAcross(x, y, Widen(m[4]), Widen(m'[4]));
    WidenDifference(m[4], m'[4]);
    FedIsWord(r, m[..4]);
    FedIsWord(r, m'[..4]);
    ShiftsLinear(Xor(r, v), Xor(r, w), 32);
    CommonCancels(r, v, w);
  }

  /** The first four bytes differ in nothing below the start of the burst. */
  lemma BurstStartsLate(m: seq<Byte>, m': seq<Byte>, s: nat)
    requires |m| == |m'| == 5 && s < 8 && BurstFrom(m, m', s)
    ensures LowBits(Xor(WordOf(m[..4]), WordOf(m'[..4])), s) == 0
  {
    hide Xor, Widen, And, Mask, Down, Difference, WordOf;
    LowBitsOfWord(m[..4], s);
    LowBitsOfWord(m'[..4], s);
    WidenDifference(m[0], m'[0]);
    AndAlike(Widen(m[0]), Widen(m'[0]), Mask(s));
    AndOfAlike(WordOf(m[..4]), WordOf(m'[..4]), Mask(s));
  }

  lemma SameRegisterSameMessage(r: Word, m: seq<Byte>, m': seq<Byte>, s: nat)
    requires |m| == |m'| == 5 && s < 8 && BurstFrom(m, m', s) && Fed(r, m) == Fed(r, m')
    ensures m == m'
  {
    hide Shifts, Fed, Xor, Widen, LowBits, Down, Difference, WordOf;
    var v, w := WordOf(m[..4]), WordOf(m'[..4]);
    SameRegister(r, m, m');
    BurstStartsLate(m, m', s);
    NoSuchWord(Xor(v, w), Difference(m[4], m'[4]), s);
    XorIsZero(v, w);
    WordTellsBytes(m[..4], m'[..4]);
    WidenDifference(m[4], m'[4]);
    assert m == m[..4] + [m[4]] && m' == m'[..4] + [m'[4]];
  }

  /** Every burst of up to 32 bits is detected, wherever in a byte it begins. */
  lemma StraddlingBurstDetected(before: seq<Byte>, m: seq<Byte>, m': seq<Byte>, after: seq<Byte>, s: nat)
    requires |m| == |m'| == 5 && m != m' && s < 8 && BurstFrom(m, m', s)
    ensures Crc(before + m + after) != Crc(before + m' + after)
  {
    hide BurstFrom, Crc, Fed;
    if Fed(Fed(ALL_ONES, before), m) == Fed(Fed(ALL_ONES, before), m') {
      SameRegisterSameMessage(Fed(ALL_ONES, before), m, m', s);
    }
    DifferenceStays(before, m, m', after);
  }
}
