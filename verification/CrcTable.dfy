/** The checksum table of the source and the shift register it must agree with. */
module CrcTable {

  type Word = bv32

  /** The polynomial of section 8 of RFC 1952 and section 8.1.1.6.2 of ITU-T V.42,
      with its bits reflected: bit 31 is the constant term, bit 0 the power 31. */
  const POLYNOMIAL: Word := 0xEDB88320

  /** One clock of the reflected shift register with no input. */
  function Shift(r: Word): Word {
    (r >> 1) ^ (if r & 1 == 1 then POLYNOMIAL else 0)
  }

  function ShiftMany(r: Word, n: nat): Word
    decreases n
  {
    if n == 0 then r else ShiftMany(Shift(r), n - 1)
  }

  function Shift8(r: Word): Word {
    Shift(Shift(Shift(Shift(Shift(Shift(Shift(Shift(r))))))))
  }

  const ROW_0: seq<Word> := [
    0x00000000, 0x77073096, 0xee0e612c, 0x990951ba, 0x076dc419, 0x706af48f, 0xe963a535, 0x9e6495a3,
    0x0edb8832, 0x79dcb8a4, 0xe0d5e91e, 0x97d2d988, 0x09b64c2b, 0x7eb17cbd, 0xe7b82d07, 0x90bf1d91]
  const ROW_1: seq<Word> := [
    0x1db71064, 0x6ab020f2, 0xf3b97148, 0x84be41de, 0x1adad47d, 0x6ddde4eb, 0xf4d4b551, 0x83d385c7,
    0x136c9856, 0x646ba8c0, 0xfd62f97a, 0x8a65c9ec, 0x14015c4f, 0x63066cd9, 0xfa0f3d63, 0x8d080df5]
  const ROW_2: seq<Word> := [
    0x3b6e20c8, 0x4c69105e, 0xd56041e4, 0xa2677172, 0x3c03e4d1, 0x4b04d447, 0xd20d85fd, 0xa50ab56b,
    0x35b5a8fa, 0x42b2986c, 0xdbbbc9d6, 0xacbcf940, 0x32d86ce3, 0x45df5c75, 0xdcd60dcf, 0xabd13d59]
  const ROW_3: seq<Word> := [
    0x26d930ac, 0x51de003a, 0xc8d75180, 0xbfd06116, 0x21b4f4b5, 0x56b3c423, 0xcfba9599, 0xb8bda50f,
    0x2802b89e, 0x5f058808, 0xc60cd9b2, 0xb10be924, 0x2f6f7c87, 0x58684c11, 0xc1611dab, 0xb6662d3d]
  const ROW_4: seq<Word> := [
    0x76dc4190, 0x01db7106, 0x98d220bc, 0xefd5102a, 0x71b18589, 0x06b6b51f, 0x9fbfe4a5, 0xe8b8d433,
    0x7807c9a2, 0x0f00f934, 0x9609a88e, 0xe10e9818, 0x7f6a0dbb, 0x086d3d2d, 0x91646c97, 0xe6635c01]
  const ROW_5: seq<Word> := [
    0x6b6b51f4, 0x1c6c6162, 0x856530d8, 0xf262004e, 0x6c0695ed, 0x1b01a57b, 0x8208f4c1, 0xf50fc457,
    0x65b0d9c6, 0x12b7e950, 0x8bbeb8ea, 0xfcb9887c, 0x62dd1ddf, 0x15da2d49, 0x8cd37cf3, 0xfbd44c65]
  const ROW_6: seq<Word> := [
    0x4db26158, 0x3ab551ce, 0xa3bc0074, 0xd4bb30e2, 0x4adfa541, 0x3dd895d7, 0xa4d1c46d, 0xd3d6f4fb,
    0x4369e96a, 0x346ed9fc, 0xad678846, 0xda60b8d0, 0x44042d73, 0x33031de5, 0xaa0a4c5f, 0xdd0d7cc9]
  const ROW_7: seq<Word> := [
    0x5005713c, 0x270241aa, 0xbe0b1010, 0xc90c2086, 0x5768b525, 0x206f85b3, 0xb966d409, 0xce61e49f,
    0x5edef90e, 0x29d9c998, 0xb0d09822, 0xc7d7a8b4, 0x59b33d17, 0x2eb40d81, 0xb7bd5c3b, 0xc0ba6cad]
  const ROW_8: seq<Word> := [
    0xedb88320, 0x9abfb3b6, 0x03b6e20c, 0x74b1d29a, 0xead54739, 0x9dd277af, 0x04db2615, 0x73dc1683,
    0xe3630b12, 0x94643b84, 0x0d6d6a3e, 0x7a6a5aa8, 0xe40ecf0b, 0x9309ff9d, 0x0a00ae27, 0x7d079eb1]
  const ROW_9: seq<Word> := [
    0xf00f9344, 0x8708a3d2, 0x1e01f268, 0x6906c2fe, 0xf762575d, 0x806567cb, 0x196c3671, 0x6e6b06e7,
    0xfed41b76, 0x89d32be0, 0x10da7a5a, 0x67dd4acc, 0xf9b9df6f, 0x8ebeeff9, 0x17b7be43, 0x60b08ed5]
  const ROW_A: seq<Word> := [
    0xd6d6a3e8, 0xa1d1937e, 0x38d8c2c4, 0x4fdff252, 0xd1bb67f1, 0xa6bc5767, 0x3fb506dd, 0x48b2364b,
    0xd80d2bda, 0xaf0a1b4c, 0x36034af6, 0x41047a60, 0xdf60efc3, 0xa867df55, 0x316e8eef, 0x4669be79]
  const ROW_B: seq<Word> := [
    0xcb61b38c, 0xbc66831a, 0x256fd2a0, 0x5268e236, 0xcc0c7795, 0xbb0b4703, 0x220216b9, 0x5505262f,
    0xc5ba3bbe, 0xb2bd0b28, 0x2bb45a92, 0x5cb36a04, 0xc2d7ffa7, 0xb5d0cf31, 0x2cd99e8b, 0x5bdeae1d]
  const ROW_C: seq<Word> := [
    0x9b64c2b0, 0xec63f226, 0x756aa39c, 0x026d930a, 0x9c0906a9, 0xeb0e363f, 0x72076785, 0x05005713,
    0x95bf4a82, 0xe2b87a14, 0x7bb12bae, 0x0cb61b38, 0x92d28e9b, 0xe5d5be0d, 0x7cdcefb7, 0x0bdbdf21]
  const ROW_D: seq<Word> := [
    0x86d3d2d4, 0xf1d4e242, 0x68ddb3f8, 0x1fda836e, 0x81be16cd, 0xf6b9265b, 0x6fb077e1, 0x18b74777,
    0x88085ae6, 0xff0f6a70, 0x66063bca, 0x11010b5c, 0x8f659eff, 0xf862ae69, 0x616bffd3, 0x166ccf45]
  const ROW_E: seq<Word> := [
    0xa00ae278, 0xd70dd2ee, 0x4e048354, 0x3903b3c2, 0xa7672661, 0xd06016f7, 0x4969474d, 0x3e6e77db,
    0xaed16a4a, 0xd9d65adc, 0x40df0b66, 0x37d83bf0, 0xa9bcae53, 0xdebb9ec5, 0x47b2cf7f, 0x30b5ffe9]
  const ROW_F: seq<Word> := [
    0xbdbdf21c, 0xcabac28a, 0x53b39330, 0x24b4a3a6, 0xbad03605, 0xcdd70693, 0x54de5729, 0x23d967bf,
    0xb3667a2e, 0xc4614ab8, 0x5d681b02, 0x2a6f2b94, 0xb40bbe37, 0xc30c8ea1, 0x5a05df1b, 0x2d02ef8d]

  /** Row `h` of the literal table, sixteen entries. */
  function Row(h: nat): (row: seq<Word>)
    requires h < 16
    ensures |row| == 16
  {
    if h < 8 then
      if h < 4 then if h == 0 then ROW_0 else if h == 1 then ROW_1 else if h == 2 then ROW_2 else ROW_3
      else if h == 4 then ROW_4 else if h == 5 then ROW_5 else if h == 6 then ROW_6 else ROW_7
    else
      if h < 12 then if h == 8 then ROW_8 else if h == 9 then ROW_9 else if h == 10 then ROW_A else ROW_B
      else if h == 12 then ROW_C else if h == 13 then ROW_D else if h == 14 then ROW_E else ROW_F
  }

  /** The 256 entries of the source. */
  const CRC32_TABLE: seq<Word> := seq(256, i requires 0 <= i < 256 => Row(i / 16)[i % 16])

  lemma XorHalves(x: Word, y: Word)
    ensures (x ^ y) >> 1 == (x >> 1) ^ (y >> 1)
  {}

  lemma XorLowBit(x: Word, y: Word)
    ensures (x ^ y) & 1 == (x & 1) ^ (y & 1)
    ensures x & 1 == 0 || x & 1 == 1
    ensures y & 1 == 0 || y & 1 == 1
  {}

  /** Addition of register contents over GF(2). */
  function Add(x: Word, y: Word): Word {
    x ^ y
  }

  lemma ShiftXor(x: Word, y: Word)
    ensures Shift(x ^ y) == Shift(x) ^ Shift(y)
  {
    XorHalves(x, y);
    XorLowBit(x, y);
    if x & 1 == 1 {
      if y & 1 == 1 {
      } else {
      }
    } else if y & 1 == 1 {
    } else {
    }
  }

  lemma ShiftAdd(x: Word, y: Word)
    ensures Shift(Add(x, y)) == Add(Shift(x), Shift(y))
  {
    hide Shift;
    ShiftXor(x, y);
  }

  /** The register is linear for any number of clocks. */
  lemma {:induction false} ShiftManyAdd(x: Word, y: Word, n: nat)
    ensures ShiftMany(Add(x, y), n) == Add(ShiftMany(x, n), ShiftMany(y, n))
    decreases n
  {
    hide Shift, Add;
    if n == 0 {
    } else {
      ShiftAdd(x, y);
      ShiftManyAdd(Shift(x), Shift(y), n - 1);
    }
  }

  lemma Shift8Add(x: Word, y: Word)
    ensures Shift8(Add(x, y)) == Add(Shift8(x), Shift8(y))
  {
    Shift8IsMany(x);
    Shift8IsMany(y);
    Shift8IsMany(Add(x, y));
    ShiftManyAdd(x, y, 8);
  }

  lemma Shift8IsMany(r: Word)
    ensures Shift8(r) == ShiftMany(r, 8)
  {
    hide Shift;
    assert ShiftMany(r, 8) == ShiftMany(Shift(Shift(Shift(Shift(r)))), 4);
  }

  lemma LowNibble(k: Word)
    requires k < 16
    ensures Row(0)[k as int] == Shift8(k)
  {
    assert k == 0 || k == 1 || k == 2 || k == 3 || k == 4 || k == 5 || k == 6 || k == 7 || k == 8
           || k == 9 || k == 10 || k == 11 || k == 12 || k == 13 || k == 14 || k == 15;
  }

  lemma HighNibble(h: Word)
    requires h < 16
    ensures Row(h as int)[0] == Shift8(h << 4)
  {
    assert h == 0 || h == 1 || h == 2 || h == 3 || h == 4 || h == 5 || h == 6 || h == 7 || h == 8
           || h == 9 || h == 10 || h == 11 || h == 12 || h == 13 || h == 14 || h == 15;
  }

  lemma Row0(k: nat) requires k < 16 ensures Row(0)[k] == Add(Row(0)[k], Row(0)[0]) {}
  lemma Row1(k: nat) requires k < 16 ensures Row(1)[k] == Add(Row(0)[k], Row(1)[0]) {}
  lemma Row2(k: nat) requires k < 16 ensures Row(2)[k] == Add(Row(0)[k], Row(2)[0]) {}
  lemma Row3(k: nat) requires k < 16 ensures Row(3)[k] == Add(Row(0)[k], Row(3)[0]) {}
  lemma Row4(k: nat) requires k < 16 ensures Row(4)[k] == Add(Row(0)[k], Row(4)[0]) {}
  lemma Row5(k: nat) requires k < 16 ensures Row(5)[k] == Add(Row(0)[k], Row(5)[0]) {}
  lemma Row6(k: nat) requires k < 16 ensures Row(6)[k] == Add(Row(0)[k], Row(6)[0]) {}
  lemma Row7(k: nat) requires k < 16 ensures Row(7)[k] == Add(Row(0)[k], Row(7)[0]) {}
  lemma Row8(k: nat) requires k < 16 ensures Row(8)[k] == Add(Row(0)[k], Row(8)[0]) {}
  lemma Row9(k: nat) requires k < 16 ensures Row(9)[k] == Add(Row(0)[k], Row(9)[0]) {}
  lemma RowA(k: nat) requires k < 16 ensures Row(10)[k] == Add(Row(0)[k], Row(10)[0]) {}
  lemma RowB(k: nat) requires k < 16 ensures Row(11)[k] == Add(Row(0)[k], Row(11)[0]) {}
  lemma RowC(k: nat) requires k < 16 ensures Row(12)[k] == Add(Row(0)[k], Row(12)[0]) {}
  lemma RowD(k: nat) requires k < 16 ensures Row(13)[k] == Add(Row(0)[k], Row(13)[0]) {}
  lemma RowE(k: nat) requires k < 16 ensures Row(14)[k] == Add(Row(0)[k], Row(14)[0]) {}
  lemma RowF(k: nat) requires k < 16 ensures Row(15)[k] == Add(Row(0)[k], Row(15)[0]) {}

  /** Every row is the first row with the row's own first entry added to each column. */
  lemma RowOffset(h: nat, k: nat)
    requires h < 16 && k < 16
    ensures Row(h)[k] == Add(Row(0)[k], Row(h)[0])
  {
    hide Add, Row;
    match h {
      case 0 => Row0(k);
      case 1 => Row1(k);
      case 2 => Row2(k);
      case 3 => Row3(k);
      case 4 => Row4(k);
      case 5 => Row5(k);
      case 6 => Row6(k);
      case 7 => Row7(k);
      case 8 => Row8(k);
      case 9 => Row9(k);
      case 10 => RowA(k);
      case 11 => RowB(k);
      case 12 => RowC(k);
      case 13 => RowD(k);
      case 14 => RowE(k);
      case _ => RowF(k);
    }
  }

  lemma Nibbles(i: Word)
    requires i < 256
    ensures i >> 4 < 16 && i & 15 < 16
    ensures i as int == 16 * ((i >> 4) as int) + (i & 15) as int
    ensures i == Add(i & 15, (i >> 4) << 4)
  {
  }

  /** Every entry of the literal table is its index run through eight clocks of the register. */
  lemma TableEntry(i: Word)
    requires i < 256
    ensures |CRC32_TABLE| == 256
    ensures CRC32_TABLE[i as int] == Shift8(i)
  {
    hide Shift8, Row, Add;
    var h, k := i >> 4, i & 15;
    Nibbles(i);
    RowOffset(h as int, k as int);
    LowNibble(k);
    HighNibble(h);
    Shift8Add(k, h << 4);
  }
}
