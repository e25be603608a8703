/** The CRC-32 of a file, read in batches and computed with a table (section 8 of RFC 1952). */
module Crc32 {
  import opened Bytes

  const POLYNOMIAL: bv32 := 0xEDB88320
  const ALL_ONES: bv32 := 0xFFFFFFFF

  // ---- bit by bit ----

  /** One step of division by the reversed polynomial. */
  function Shift(x: bv32): bv32 {
    if x & 1 == 1 then (x >> 1) ^ POLYNOMIAL else x >> 1
  }

  /** As many steps. */
  function Divide(x: bv32, steps: nat): bv32
    decreases steps
  {
    if steps == 0 then x else Divide(Shift(x), steps - 1)
  }

  /** The register after one more byte. */
  function Step(crc: bv32, b: bv8): bv32 {
    Divide(crc ^ (b as bv32), 8)
  }

  function Feed(crc: bv32, bytes: seq<bv8>): bv32
    decreases |bytes|
  {
    if bytes == [] then crc else Feed(Step(crc, bytes[0]), bytes[1..])
  }

  /** The CRC, by definition. */
  function Crc(bytes: seq<bv8>): bv32 {
    Feed(ALL_ONES, bytes) ^ ALL_ONES
  }

  // ---- the table ----

  const ROW_0: seq<bv32> := [
    0x00000000, 0x77073096, 0xee0e612c, 0x990951ba,
    0x076dc419, 0x706af48f, 0xe963a535, 0x9e6495a3,
    0x0edb8832, 0x79dcb8a4, 0xe0d5e91e, 0x97d2d988,
    0x09b64c2b, 0x7eb17cbd, 0xe7b82d07, 0x90bf1d91]
  const ROW_1: seq<bv32> := [
    0x1db71064, 0x6ab020f2, 0xf3b97148, 0x84be41de,
    0x1adad47d, 0x6ddde4eb, 0xf4d4b551, 0x83d385c7,
    0x136c9856, 0x646ba8c0, 0xfd62f97a, 0x8a65c9ec,
    0x14015c4f, 0x63066cd9, 0xfa0f3d63, 0x8d080df5]
  const ROW_2: seq<bv32> := [
    0x3b6e20c8, 0x4c69105e, 0xd56041e4, 0xa2677172,
    0x3c03e4d1, 0x4b04d447, 0xd20d85fd, 0xa50ab56b,
    0x35b5a8fa, 0x42b2986c, 0xdbbbc9d6, 0xacbcf940,
    0x32d86ce3, 0x45df5c75, 0xdcd60dcf, 0xabd13d59]
  const ROW_3: seq<bv32> := [
    0x26d930ac, 0x51de003a, 0xc8d75180, 0xbfd06116,
    0x21b4f4b5, 0x56b3c423, 0xcfba9599, 0xb8bda50f,
    0x2802b89e, 0x5f058808, 0xc60cd9b2, 0xb10be924,
    0x2f6f7c87, 0x58684c11, 0xc1611dab, 0xb6662d3d]
  const ROW_4: seq<bv32> := [
    0x76dc4190, 0x01db7106, 0x98d220bc, 0xefd5102a,
    0x71b18589, 0x06b6b51f, 0x9fbfe4a5, 0xe8b8d433,
    0x7807c9a2, 0x0f00f934, 0x9609a88e, 0xe10e9818,
    0x7f6a0dbb, 0x086d3d2d, 0x91646c97, 0xe6635c01]
  const ROW_5: seq<bv32> := [
    0x6b6b51f4, 0x1c6c6162, 0x856530d8, 0xf262004e,
    0x6c0695ed, 0x1b01a57b, 0x8208f4c1, 0xf50fc457,
    0x65b0d9c6, 0x12b7e950, 0x8bbeb8ea, 0xfcb9887c,
    0x62dd1ddf, 0x15da2d49, 0x8cd37cf3, 0xfbd44c65]
  const ROW_6: seq<bv32> := [
    0x4db26158, 0x3ab551ce, 0xa3bc0074, 0xd4bb30e2,
    0x4adfa541, 0x3dd895d7, 0xa4d1c46d, 0xd3d6f4fb,
    0x4369e96a, 0x346ed9fc, 0xad678846, 0xda60b8d0,
    0x44042d73, 0x33031de5, 0xaa0a4c5f, 0xdd0d7cc9]
  const ROW_7: seq<bv32> := [
    0x5005713c, 0x270241aa, 0xbe0b1010, 0xc90c2086,
    0x5768b525, 0x206f85b3, 0xb966d409, 0xce61e49f,
    0x5edef90e, 0x29d9c998, 0xb0d09822, 0xc7d7a8b4,
    0x59b33d17, 0x2eb40d81, 0xb7bd5c3b, 0xc0ba6cad]
  const ROW_8: seq<bv32> := [
    0xedb88320, 0x9abfb3b6, 0x03b6e20c, 0x74b1d29a,
    0xead54739, 0x9dd277af, 0x04db2615, 0x73dc1683,
    0xe3630b12, 0x94643b84, 0x0d6d6a3e, 0x7a6a5aa8,
    0xe40ecf0b, 0x9309ff9d, 0x0a00ae27, 0x7d079eb1]
  const ROW_9: seq<bv32> := [
    0xf00f9344, 0x8708a3d2, 0x1e01f268, 0x6906c2fe,
    0xf762575d, 0x806567cb, 0x196c3671, 0x6e6b06e7,
    0xfed41b76, 0x89d32be0, 0x10da7a5a, 0x67dd4acc,
    0xf9b9df6f, 0x8ebeeff9, 0x17b7be43, 0x60b08ed5]
  const ROW_A: seq<bv32> := [
    0xd6d6a3e8, 0xa1d1937e, 0x38d8c2c4, 0x4fdff252,
    0xd1bb67f1, 0xa6bc5767, 0x3fb506dd, 0x48b2364b,
    0xd80d2bda, 0xaf0a1b4c, 0x36034af6, 0x41047a60,
    0xdf60efc3, 0xa867df55, 0x316e8eef, 0x4669be79]
  const ROW_B: seq<bv32> := [
    0xcb61b38c, 0xbc66831a, 0x256fd2a0, 0x5268e236,
    0xcc0c7795, 0xbb0b4703, 0x220216b9, 0x5505262f,
    0xc5ba3bbe, 0xb2bd0b28, 0x2bb45a92, 0x5cb36a04,
    0xc2d7ffa7, 0xb5d0cf31, 0x2cd99e8b, 0x5bdeae1d]
  const ROW_C: seq<bv32> := [
    0x9b64c2b0, 0xec63f226, 0x756aa39c, 0x026d930a,
    0x9c0906a9, 0xeb0e363f, 0x72076785, 0x05005713,
    0x95bf4a82, 0xe2b87a14, 0x7bb12bae, 0x0cb61b38,
    0x92d28e9b, 0xe5d5be0d, 0x7cdcefb7, 0x0bdbdf21]
  const ROW_D: seq<bv32> := [
    0x86d3d2d4, 0xf1d4e242, 0x68ddb3f8, 0x1fda836e,
    0x81be16cd, 0xf6b9265b, 0x6fb077e1, 0x18b74777,
    0x88085ae6, 0xff0f6a70, 0x66063bca, 0x11010b5c,
    0x8f659eff, 0xf862ae69, 0x616bffd3, 0x166ccf45]
  const ROW_E: seq<bv32> := [
    0xa00ae278, 0xd70dd2ee, 0x4e048354, 0x3903b3c2,
    0xa7672661, 0xd06016f7, 0x4969474d, 0x3e6e77db,
    0xaed16a4a, 0xd9d65adc, 0x40df0b66, 0x37d83bf0,
    0xa9bcae53, 0xdebb9ec5, 0x47b2cf7f, 0x30b5ffe9]
  const ROW_F: seq<bv32> := [
    0xbdbdf21c, 0xcabac28a, 0x53b39330, 0x24b4a3a6,
    0xbad03605, 0xcdd70693, 0x54de5729, 0x23d967bf,
    0xb3667a2e, 0xc4614ab8, 0x5d681b02, 0x2a6f2b94,
    0xb40bbe37, 0xc30c8ea1, 0x5a05df1b, 0x2d02ef8d]

  const CRC_TABLE: seq<seq<bv32>> := [
    ROW_0, ROW_1, ROW_2, ROW_3, ROW_4, ROW_5, ROW_6, ROW_7,
    ROW_8, ROW_9, ROW_A, ROW_B, ROW_C, ROW_D, ROW_E, ROW_F]

  /** `CRCTable[i]` */
  function Entry(i: bv8): bv32 {
    CRC_TABLE[(i >> 4) as int][(i & 15) as int]
  }

  // ---- division is linear, and loses nothing ----

  lemma BothOdd(x: bv32, y: bv32)
    requires x & 1 == 1 && y & 1 == 1
    ensures Shift(x ^ y) == Shift(x) ^ Shift(y)
  {
  }

  lemma BothEven(x: bv32, y: bv32)
    requires x & 1 == 0 && y & 1 == 0
    ensures Shift(x ^ y) == Shift(x) ^ Shift(y)
  {
  }

  lemma OddEven(x: bv32, y: bv32)
    requires x & 1 == 1 && y & 1 == 0
    ensures Shift(x ^ y) == Shift(x) ^ Shift(y)
    ensures Shift(y ^ x) == Shift(y) ^ Shift(x)
  {
  }

  lemma ShiftLinear(x: bv32, y: bv32)
    ensures Shift(x ^ y) == Shift(x) ^ Shift(y)
  {
    hide Shift;
    assert (x & 1 == 0 || x & 1 == 1) && (y & 1 == 0 || y & 1 == 1);
    if x & 1 == 1 {
      if y & 1 == 1 { BothOdd(x, y); } else { OddEven(x, y); }
    } else {
      if y & 1 == 1 { OddEven(y, x); } else { BothEven(x, y); }
    }
  }

  function Xor(x: bv32, y: bv32): bv32 {
    x ^ y
  }

  lemma ShiftXor(x: bv32, y: bv32)
    ensures Shift(Xor(x, y)) == Xor(Shift(x), Shift(y))
  {
    hide Shift;
    ShiftLinear(x, y);
  }

  /** Dividing a sum is dividing its terms. */
  lemma {:induction false} DivideLinear(x: bv32, y: bv32, steps: nat)
    ensures Divide(Xor(x, y), steps) == Xor(Divide(x, steps), Divide(y, steps))
    decreases steps
  {
    hide Shift, Xor;
    if steps > 0 {
      ShiftXor(x, y);
      DivideLinear(Shift(x), Shift(y), steps - 1);
    }
  }

  lemma ShiftInjective(x: bv32, y: bv32)
    requires Shift(x) == Shift(y)
    ensures x == y
  {
  }

  lemma {:induction false} DivideInjective(x: bv32, y: bv32, steps: nat)
    requires Divide(x, steps) == Divide(y, steps)
    ensures x == y
    decreases steps
  {
    hide Shift;
    if steps > 0 {
      DivideInjective(Shift(x), Shift(y), steps - 1);
      ShiftInjective(x, y);
    }
  }

  lemma {:induction false} DivideMore(x: bv32, m: nat, n: nat)
    ensures Divide(Divide(x, m), n) == Divide(x, m + n)
    decreases m
  {
    hide Shift;
    if m > 0 { DivideMore(Shift(x), m - 1, n); }
  }

  lemma EightShifts(x: bv32)
    ensures Divide(x, 8) == Shift(Shift(Shift(Shift(Shift(Shift(Shift(Shift(x))))))))
  {
    hide Shift;
  }

  lemma ShiftsMove(x: bv32)
    requires x & 0xFF == 0
    ensures Shift(Shift(Shift(Shift(Shift(Shift(Shift(Shift(x)))))))) == x >> 8
  {
  }

  /** Bits above the lowest eight are only moved. */
  lemma DivideMoves(x: bv32)
    requires x & 0xFF == 0
    ensures Divide(x, 8) == x >> 8
  {
    hide Shift, Divide;
    EightShifts(x);
    ShiftsMove(x);
  }

  // ---- the table holds the divisions ----

  lemma BitDivisions()
    ensures Divide(0, 8) == 0
    ensures Divide(1, 8) == 0x77073096 && Divide(2, 8) == 0xee0e612c && Divide(4, 8) == 0x076dc419 && Divide(8, 8) == 0x0edb8832
    ensures Divide(16, 8) == 0x1db71064 && Divide(32, 8) == 0x3b6e20c8 && Divide(64, 8) == 0x76dc4190 && Divide(128, 8) == 0xedb88320
  {
  }

  function Bit(i: bv8, mask: bv8): bv32 {
    (i & mask) as bv32
  }

  /** The division of a byte, put together from those of its bits. */
  function FromBits(i: bv8): bv32 {
    Xor(Xor(Xor(Term(i, 1, 0x77073096), Term(i, 2, 0xee0e612c)), Xor(Term(i, 4, 0x076dc419), Term(i, 8, 0x0edb8832))),
        Xor(Xor(Term(i, 16, 0x1db71064), Term(i, 32, 0x3b6e20c8)), Xor(Term(i, 64, 0x76dc4190), Term(i, 128, 0xedb88320))))
  }

  function Term(i: bv8, mask: bv8, value: bv32): bv32 {
    if i & mask == 0 then 0 else value
  }

  lemma Bits(i: bv8)
    ensures i as bv32 ==
            Xor(Xor(Xor(Bit(i, 1), Bit(i, 2)), Xor(Bit(i, 4), Bit(i, 8))),
                Xor(Xor(Bit(i, 16), Bit(i, 32)), Xor(Bit(i, 64), Bit(i, 128))))
  {
  }

  lemma OneTerm(i: bv8, mask: bv8, value: bv32)
    requires mask in {1, 2, 4, 8, 16, 32, 64, 128} && Divide(mask as bv32, 8) == value
    ensures Divide(Bit(i, mask), 8) == Term(i, mask, value)
  {
    hide Divide;
    BitDivisions();
    assert i & mask == 0 || i & mask == mask;
  }

  lemma ByteDivision(i: bv8)
    ensures Divide(i as bv32, 8) == FromBits(i)
  {
    hide Divide, Xor, Bit, Term;
    BitDivisions();
    OneTerm(i, 1, 0x77073096);
    OneTerm(i, 2, 0xee0e612c);
    OneTerm(i, 4, 0x076dc419);
    OneTerm(i, 8, 0x0edb8832);
    OneTerm(i, 16, 0x1db71064);
    OneTerm(i, 32, 0x3b6e20c8);
    OneTerm(i, 64, 0x76dc4190);
    OneTerm(i, 128, 0xedb88320);
    Bits(i);
    var b1, b2, b3, b4 := Bit(i, 1), Bit(i, 2), Bit(i, 4), Bit(i, 8);
    var b5, b6, b7, b8 := Bit(i, 16), Bit(i, 32), Bit(i, 64), Bit(i, 128);
    DivideLinear(b1, b2, 8);
    DivideLinear(b3, b4, 8);
    DivideLinear(b5, b6, 8);
    DivideLinear(b7, b8, 8);
    DivideLinear(Xor(b1, b2), Xor(b3, b4), 8);
    DivideLinear(Xor(b5, b6), Xor(b7, b8), 8);
    DivideLinear(Xor(Xor(b1, b2), Xor(b3, b4)), Xor(Xor(b5, b6), Xor(b7, b8)), 8);
  }

  lemma Rows0(k: bv8)
    requires k < 16
    ensures ROW_0[k as int] == FromBits(0x00 | k)
    ensures ROW_1[k as int] == FromBits(0x10 | k)
    ensures ROW_2[k as int] == FromBits(0x20 | k)
    ensures ROW_3[k as int] == FromBits(0x30 | k)
  {
  }

  lemma Rows1(k: bv8)
    requires k < 16
    ensures ROW_4[k as int] == FromBits(0x40 | k)
    ensures ROW_5[k as int] == FromBits(0x50 | k)
    ensures ROW_6[k as int] == FromBits(0x60 | k)
    ensures ROW_7[k as int] == FromBits(0x70 | k)
  {
  }

  lemma Rows2(k: bv8)
    requires k < 16
    ensures ROW_8[k as int] == FromBits(0x80 | k)
    ensures ROW_9[k as int] == FromBits(0x90 | k)
    ensures ROW_A[k as int] == FromBits(0xa0 | k)
    ensures ROW_B[k as int] == FromBits(0xb0 | k)
  {
  }

  lemma Rows3(k: bv8)
    requires k < 16
    ensures ROW_C[k as int] == FromBits(0xc0 | k)
    ensures ROW_D[k as int] == FromBits(0xd0 | k)
    ensures ROW_E[k as int] == FromBits(0xe0 | k)
    ensures ROW_F[k as int] == FromBits(0xf0 | k)
  {
  }

  /** Every entry of the table is the division of its index by the polynomial. */
  lemma TableIsDivision(i: bv8)
    ensures Entry(i) == Divide(i as bv32, 8)
  {
    hide FromBits, Divide;
    var k := i & 15;
    Rows0(k);
    Rows1(k);
    Rows2(k);
    Rows3(k);
    ByteDivision(i);
    RowOf(i);
  }

  lemma RowOf(i: bv8)
    ensures (i >> 4) < 16 && i == ((i >> 4) << 4) | (i & 15)
  {
  }

  // ---- the loops ----

  /** A `char` as it takes part in an expression, where `char` is signed. */
  function Promote(b: bv8): bv32 {
    if b >= 128 then 0xFFFFFF00 | (b as bv32) else b as bv32
  }

  lemma PromotionMasked(crc: bv32, b: bv8)
    ensures (crc ^ Promote(b)) & 0xFF == (crc ^ (b as bv32)) & 0xFF
    ensures (crc ^ (b as bv32)) >> 8 == crc >> 8
  {
  }

  function HighPart(x: bv32): bv32 { x & 0xFFFFFF00 }
  function LowPart(x: bv32): bv8 { (x & 0xFF) as bv8 }

  lemma LowAndHigh(x: bv32)
    ensures Xor(HighPart(x), LowPart(x) as bv32) == x && HighPart(x) & 0xFF == 0 && HighPart(x) >> 8 == x >> 8
  {
  }

  lemma DivideByte(x: bv32)
    ensures Divide(x, 8) == Xor(x >> 8, Entry(LowPart(x)))
  {
    hide Divide, Entry, Xor, HighPart, LowPart;
    LowAndHigh(x);
    TableIsDivision(LowPart(x));
    DivideMoves(HighPart(x));
    DivideLinear(HighPart(x), LowPart(x) as bv32, 8);
  }

  /** The body of the loop. */
  function TableStep(crc: bv32, b: bv8): bv32 {
    var lookupIndex := (crc ^ Promote(b)) & 0xFF;
    (crc >> 8) ^ Entry(lookupIndex as bv8)
  }

  /** One turn of the table-driven loop is the eight bitwise steps. */
  lemma TableStepExact(crc: bv32, b: bv8)
    ensures TableStep(crc, b) == Step(crc, b)
  {
    hide Divide, Entry;
    PromotionMasked(crc, b);
    DivideByte(crc ^ (b as bv32));
  }

  lemma {:induction false} FeedConcat(crc: bv32, a: seq<bv8>, b: seq<bv8>)
    ensures Feed(crc, a + b) == Feed(Feed(crc, a), b)
    decreases |a|
  {
    hide Step;
    if a == [] {
      assert a + b == b;
    } else {
      assert (a + b)[1..] == a[1..] + b;
      FeedConcat(Step(crc, a[0]), a[1..], b);
    }
  }

  lemma FeedOne(crc: bv32, bytes: seq<bv8>, j: nat)
    requires j < |bytes|
    ensures Feed(crc, bytes[..j + 1]) == Step(Feed(crc, bytes[..j]), bytes[j])
  {
    hide Step;
    assert bytes[..j + 1] == bytes[..j] + [bytes[j]];
    FeedConcat(crc, bytes[..j], [bytes[j]]);
    assert Feed(Feed(crc, bytes[..j]), [bytes[j]]) == Feed(Step(Feed(crc, bytes[..j]), bytes[j]), []);
  }

  /** The loop over one mapped part of the file. */
  method UpdateFrom(crc0: bv32, mapped: seq<bv8>) returns (crc: bv32)
    ensures crc == Feed(crc0, mapped)
  {
    hide TableStep, Step, Feed;
    NothingFed(crc0);
    assert mapped[..0] == [];
    crc := crc0;
    var j := 0;
    while j < |mapped|
      invariant 0 <= j <= |mapped| && crc == Feed(crc0, mapped[..j])
    {
      TableStepExact(crc, mapped[j]);
      FeedOne(crc0, mapped, j);
      crc := TableStep(crc, mapped[j]);
      j := j + 1;
    }
    assert mapped[..j] == mapped;
  }

  /** The file in whole batches, and what remains; a part of no bytes can be mapped only if `mapsNothing`. */
  method CrcOfFile(file: seq<bv8>, batchLen: nat, mapsNothing: bool) returns (r: Option<bv32>)
    requires batchLen > 0
    ensures r == if |file| % batchLen == 0 && !mapsNothing then None else Some(Crc(file))
  {
    hide Feed;
    var crc := ALL_ONES;
    var offset := 0;
    var batchCount := |file| / batchLen;
    NothingFed(ALL_ONES);
    assert file[..0] == [];
    var i := 0;
    while i < batchCount
      invariant 0 <= i <= batchCount && offset == i * batchLen && offset <= |file|
      invariant crc == Feed(ALL_ONES, file[..offset])
    {
      BatchWithin(i, batchCount, batchLen, |file|);
      FeedConcat(ALL_ONES, file[..offset], file[offset..offset + batchLen]);
      assert file[..offset] + file[offset..offset + batchLen] == file[..offset + batchLen];
      crc := UpdateFrom(crc, file[offset..offset + batchLen]);
      offset := offset + batchLen;
      i := i + 1;
    }
    var remainder := |file| - offset;
    assert remainder == |file| % batchLen;
    if remainder == 0 && !mapsNothing { return None; }
    FeedConcat(ALL_ONES, file[..offset], file[offset..]);
    assert file[..offset] + file[offset..] == file;
    crc := UpdateFrom(crc, file[offset..]);
    r := Some(crc ^ ALL_ONES);
  }

  lemma NothingFed(crc: bv32)
    ensures Feed(crc, []) == crc
  {
  }

  lemma BatchWithin(i: nat, count: nat, batchLen: nat, size: nat)
    requires batchLen > 0 && i < count == size / batchLen
    ensures (i + 1) * batchLen == i * batchLen + batchLen <= size
  {
    assert count * batchLen <= size;
    assert (i + 1) * batchLen <= count * batchLen by { assert (count - i - 1) * batchLen >= 0; }
  }

  // ---- what the CRC detects ----

  lemma {:induction false} FeedInjective(c: bv32, d: bv32, bytes: seq<bv8>)
    requires Feed(c, bytes) == Feed(d, bytes)
    ensures c == d
    decreases |bytes|
  {
    if bytes != [] {
      FeedInjective(Step(c, bytes[0]), Step(d, bytes[0]), bytes[1..]);
      StepInjective(c, d, bytes[0]);
    }
  }

  lemma StepInjective(c: bv32, d: bv32, b: bv8)
    requires Step(c, b) == Step(d, b)
    ensures c == d
  {
    hide Divide;
    DivideInjective(c ^ (b as bv32), d ^ (b as bv32), 8);
  }

  lemma StepSeparates(c: bv32, x: bv8, y: bv8)
    requires Step(c, x) == Step(c, y)
    ensures x == y
  {
    hide Divide;
    DivideInjective(c ^ (x as bv32), c ^ (y as bv32), 8);
  }

  /** Files of one length that differ in a single byte have different CRCs. */
  lemma OneByteDetected(front: seq<bv8>, x: bv8, y: bv8, back: seq<bv8>)
    requires x != y
    ensures Crc(front + ([x] + back)) != Crc(front + ([y] + back))
  {
    hide Step, Feed;
    var c := Feed(ALL_ONES, front);
    FeedConcat(ALL_ONES, front, [x] + back);
    FeedConcat(ALL_ONES, front, [y] + back);
    FeedHead(c, x, back);
    FeedHead(c, y, back);
    if Feed(c, [x] + back) == Feed(c, [y] + back) {
      FeedInjective(Step(c, x), Step(c, y), back);
      StepSeparates(c, x, y);
    }
  }

  lemma FeedHead(c: bv32, x: bv8, back: seq<bv8>)
    ensures Feed(c, [x] + back) == Feed(Step(c, x), back)
  {
    hide Step;
    assert ([x] + back)[1..] == back;
  }

  /** A byte moved up by whole bytes comes down again. */
  lemma ByteComesDown(b: bv8)
    ensures Divide((b as bv32) << 8, 8) == b as bv32
    ensures Divide((b as bv32) << 16, 16) == b as bv32
    ensures Divide((b as bv32) << 24, 24) == b as bv32
  {
    hide Divide;
    MovedUp(b);
    DivideMoves((b as bv32) << 8);
    DivideMoves((b as bv32) << 16);
    DivideMoves((b as bv32) << 24);
    DivideMore((b as bv32) << 16, 8, 8);
    DivideMore((b as bv32) << 24, 8, 16);
  }

  lemma MovedUp(b: bv8)
    ensures ((b as bv32) << 8) & 0xFF == 0 && ((b as bv32) << 8) >> 8 == b as bv32
    ensures ((b as bv32) << 16) & 0xFF == 0 && ((b as bv32) << 16) >> 8 == (b as bv32) << 8
    ensures ((b as bv32) << 24) & 0xFF == 0 && ((b as bv32) << 24) >> 8 == (b as bv32) << 16
  {
  }

  /** A register to which a byte is added after some steps: the byte could have been added, moved up, before them. */
  lemma AddLater(x: bv32, b: bv8, up: bv32, steps: nat)
    requires Divide(up, steps) == b as bv32
    ensures Step(Divide(x, steps), b) == Divide(Xor(x, up), steps + 8)
  {
    hide Divide;
    DivideLinear(x, up, steps);
    DivideMore(Xor(x, up), steps, 8);
  }

  /** Four bytes, the first lowest. */
  function Packed(a: bv8, b: bv8, c: bv8, d: bv8): bv32 {
    Xor(Xor(a as bv32, (b as bv32) << 8), Xor((c as bv32) << 16, (d as bv32) << 24))
  }

  function Word(w: seq<bv8>): bv32
    requires |w| == 4
  {
    Packed(w[0], w[1], w[2], w[3])
  }

  lemma FeedWord(c: bv32, w: seq<bv8>)
    requires |w| == 4
    ensures Feed(c, w) == Divide(Xor(c, Word(w)), 32)
  {
    hide Divide, Step, Xor;
    var b0, b1, b2, b3 := w[0], w[1], w[2], w[3];
    var x0 := Xor(c, b0 as bv32);
    var x1 := Xor(x0, (b1 as bv32) << 8);
    var x2 := Xor(x1, (b2 as bv32) << 16);
    var x3 := Xor(x2, (b3 as bv32) << 24);
    FirstStep(c, b0);
    ByteComesDown(b1);
    ByteComesDown(b2);
    ByteComesDown(b3);
    AddLater(x0, b1, (b1 as bv32) << 8, 8);
    AddLater(x1, b2, (b2 as bv32) << 16, 16);
    AddLater(x2, b3, (b3 as bv32) << 24, 24);
    FeedFour(c, w);
    Gather(c, b0 as bv32, (b1 as bv32) << 8, (b2 as bv32) << 16, (b3 as bv32) << 24);
  }

  lemma FirstStep(c: bv32, b: bv8)
    ensures Step(c, b) == Divide(Xor(c, b as bv32), 8)
  {
    hide Divide;
  }

  lemma FeedFour(c: bv32, w: seq<bv8>)
    requires |w| == 4
    ensures Feed(c, w) == Step(Step(Step(Step(c, w[0]), w[1]), w[2]), w[3])
  {
    hide Step;
    var c1 := Step(c, w[0]);
    var c2 := Step(c1, w[1]);
    var c3 := Step(c2, w[2]);
    assert w == [w[0]] + ([w[1]] + ([w[2]] + ([w[3]] + [])));
    FeedHead(c, w[0], [w[1]] + ([w[2]] + ([w[3]] + [])));
    FeedHead(c1, w[1], [w[2]] + ([w[3]] + []));
    FeedHead(c2, w[2], [w[3]] + []);
    FeedHead(c3, w[3], []);
  }

  lemma Gather(c: bv32, a: bv32, b: bv32, d: bv32, e: bv32)
    ensures Xor(Xor(Xor(Xor(c, a), b), d), e) == Xor(c, Xor(Xor(a, b), Xor(d, e)))
  {
    hide Xor;
    XorAssociates(c, a, b);
    XorAssociates(Xor(c, Xor(a, b)), d, e);
    XorAssociates(c, Xor(a, b), Xor(d, e));
  }

  lemma XorAssociates(a: bv32, b: bv32, c: bv32)
    ensures Xor(Xor(a, b), c) == Xor(a, Xor(b, c))
  {
  }

  lemma WordInjective(c: bv32, w: seq<bv8>, v: seq<bv8>)
    requires |w| == |v| == 4 && Xor(c, Word(w)) == Xor(c, Word(v))
    ensures w == v
  {
    hide Xor, Packed;
    XorCancels(c, Word(w), Word(v));
    Bytes4(w[0], w[1], w[2], w[3], v[0], v[1], v[2], v[3]);
  }

  lemma XorCancels(c: bv32, a: bv32, b: bv32)
    requires Xor(c, a) == Xor(c, b)
    ensures a == b
  {
  }

  lemma Bytes4(a0: bv8, a1: bv8, a2: bv8, a3: bv8, b0: bv8, b1: bv8, b2: bv8, b3: bv8)
    requires Packed(a0, a1, a2, a3) == Packed(b0, b1, b2, b3)
    ensures a0 == b0 && a1 == b1 && a2 == b2 && a3 == b3
  {
  }

  /** Files of one length that differ only within four neighbouring bytes have different CRCs. */
  lemma BurstDetected(front: seq<bv8>, w: seq<bv8>, v: seq<bv8>, back: seq<bv8>)
    requires |w| == |v| == 4 && w != v
    ensures Crc(front + (w + back)) != Crc(front + (v + back))
  {
    hide Step, Feed, Divide, Xor, Word;
    var c := Feed(ALL_ONES, front);
    FeedConcat(ALL_ONES, front, w + back);
    FeedConcat(ALL_ONES, front, v + back);
    FeedConcat(c, w, back);
    FeedConcat(c, v, back);
    FeedWord(c, w);
    FeedWord(c, v);
    if Feed(Feed(c, w), back) == Feed(Feed(c, v), back) {
      FeedInjective(Feed(c, w), Feed(c, v), back);
      DivideInjective(Xor(c, Word(w)), Xor(c, Word(v)), 32);
      WordInjective(c, w, v);
    }
  }

  // ---- the check value ----

  /** One step, looked up. */
  lemma Stepped(crc: bv32, b: bv8, next: bv32)
    requires TableStep(crc, b) == next
    ensures Step(crc, b) == next
  {
    hide Divide, Entry;
    TableStepExact(crc, b);
  }

  lemma FirstThree()
    ensures TableStep(0xFFFFFFFF, 0x31) == 0x7C231048 && TableStep(0x7C231048, 0x32) == 0xB0ACBB32 && TableStep(0xB0ACBB32, 0x33) == 0x77B79C2D
  {
  }

  lemma MiddleThree()
    ensures TableStep(0x77B79C2D, 0x34) == 0x641C1F5C && TableStep(0x641C1F5C, 0x35) == 0x340AC5E3 && TableStep(0x340AC5E3, 0x36) == 0xF68D2C9E
  {
  }

  lemma LastThree()
    ensures TableStep(0xF68D2C9E, 0x37) == 0xAFFC9660 && TableStep(0xAFFC9660, 0x38) == 0x651F2550 && TableStep(0x651F2550, 0x39) == 0x340BC6D9
  {
  }

  lemma FeedAt(crc: bv32, bytes: seq<bv8>, k: nat, next: bv32)
    requires k < |bytes| && TableStep(crc, bytes[k]) == next
    ensures Feed(crc, bytes[k..]) == Feed(next, bytes[k + 1..])
  {
    hide Step, TableStep;
    Stepped(crc, bytes[k], next);
    assert bytes[k..][0] == bytes[k] && bytes[k..][1..] == bytes[k + 1..];
  }

  /** The CRC of the nine characters "123456789", by which implementations are compared. */
  lemma CheckValue()
    ensures Crc([0x31, 0x32, 0x33, 0x34, 0x35, 0x36, 0x37, 0x38, 0x39]) == 0xCBF43926
  {
    hide Step, TableStep, Feed;
    FirstThree();
    MiddleThree();
    LastThree();
    var nine: seq<bv8> := [0x31, 0x32, 0x33, 0x34, 0x35, 0x36, 0x37, 0x38, 0x39];
    FeedAt(0xFFFFFFFF, nine, 0, 0x7C231048);
    FeedAt(0x7C231048, nine, 1, 0xB0ACBB32);
    FeedAt(0xB0ACBB32, nine, 2, 0x77B79C2D);
    FeedAt(0x77B79C2D, nine, 3, 0x641C1F5C);
    FeedAt(0x641C1F5C, nine, 4, 0x340AC5E3);
    FeedAt(0x340AC5E3, nine, 5, 0xF68D2C9E);
    FeedAt(0xF68D2C9E, nine, 6, 0xAFFC9660);
    FeedAt(0xAFFC9660, nine, 7, 0x651F2550);
    FeedAt(0x651F2550, nine, 8, 0x340BC6D9);
    NothingFed(0x340BC6D9);
    assert nine[0..] == nine && nine[9..] == [];
  }
}
