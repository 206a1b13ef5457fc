/** The table-driven CRC of package/mkpimage/mkpimage.c: the generator polynomial 0x04C11DB7 of section 3.2.9 of
    IEEE 802.3, most significant bit first. */
module Crc {
  import opened Lfsr

  const POLY: bv32 := 0x04c1_1db7

  /** Eight consecutive entries of the table. */
  datatype Row = Row(c0: bv32, c1: bv32, c2: bv32, c3: bv32, c4: bv32, c5: bv32, c6: bv32, c7: bv32) {
    function Get(k: bv32): bv32 {
      if k == 0 then c0 else if k == 1 then c1 else if k == 2 then c2 else if k == 3 then c3
      else if k == 4 then c4 else if k == 5 then c5 else if k == 6 then c6 else c7
    }
  }

  /** crc_table, as 32 rows of eight entries. */
  function Rows0(k: bv32): Row {
    if k == 0 then Row(0x00000000, 0x04c11db7, 0x09823b6e, 0x0d4326d9,
                       0x130476dc, 0x17c56b6b, 0x1a864db2, 0x1e475005)
    else if k == 1 then Row(0x2608edb8, 0x22c9f00f, 0x2f8ad6d6, 0x2b4bcb61,
                            0x350c9b64, 0x31cd86d3, 0x3c8ea00a, 0x384fbdbd)
    else if k == 2 then Row(0x4c11db70, 0x48d0c6c7, 0x4593e01e, 0x4152fda9,
                            0x5f15adac, 0x5bd4b01b, 0x569796c2, 0x52568b75)
    else Row(0x6a1936c8, 0x6ed82b7f, 0x639b0da6, 0x675a1011,
             0x791d4014, 0x7ddc5da3, 0x709f7b7a, 0x745e66cd)
  }

  function Rows1(k: bv32): Row {
    if k == 0 then Row(0x9823b6e0, 0x9ce2ab57, 0x91a18d8e, 0x95609039,
                       0x8b27c03c, 0x8fe6dd8b, 0x82a5fb52, 0x8664e6e5)
    else if k == 1 then Row(0xbe2b5b58, 0xbaea46ef, 0xb7a96036, 0xb3687d81,
                            0xad2f2d84, 0xa9ee3033, 0xa4ad16ea, 0xa06c0b5d)
    else if k == 2 then Row(0xd4326d90, 0xd0f37027, 0xddb056fe, 0xd9714b49,
                            0xc7361b4c, 0xc3f706fb, 0xceb42022, 0xca753d95)
    else Row(0xf23a8028, 0xf6fb9d9f, 0xfbb8bb46, 0xff79a6f1,
             0xe13ef6f4, 0xe5ffeb43, 0xe8bccd9a, 0xec7dd02d)
  }

  function Rows2(k: bv32): Row {
    if k == 0 then Row(0x34867077, 0x30476dc0, 0x3d044b19, 0x39c556ae,
                       0x278206ab, 0x23431b1c, 0x2e003dc5, 0x2ac12072)
    else if k == 1 then Row(0x128e9dcf, 0x164f8078, 0x1b0ca6a1, 0x1fcdbb16,
                            0x018aeb13, 0x054bf6a4, 0x0808d07d, 0x0cc9cdca)
    else if k == 2 then Row(0x7897ab07, 0x7c56b6b0, 0x71159069, 0x75d48dde,
                            0x6b93dddb, 0x6f52c06c, 0x6211e6b5, 0x66d0fb02)
    else Row(0x5e9f46bf, 0x5a5e5b08, 0x571d7dd1, 0x53dc6066,
             0x4d9b3063, 0x495a2dd4, 0x44190b0d, 0x40d816ba)
  }

  function Rows3(k: bv32): Row {
    if k == 0 then Row(0xaca5c697, 0xa864db20, 0xa527fdf9, 0xa1e6e04e,
                       0xbfa1b04b, 0xbb60adfc, 0xb6238b25, 0xb2e29692)
    else if k == 1 then Row(0x8aad2b2f, 0x8e6c3698, 0x832f1041, 0x87ee0df6,
                            0x99a95df3, 0x9d684044, 0x902b669d, 0x94ea7b2a)
    else if k == 2 then Row(0xe0b41de7, 0xe4750050, 0xe9362689, 0xedf73b3e,
                            0xf3b06b3b, 0xf771768c, 0xfa325055, 0xfef34de2)
    else Row(0xc6bcf05f, 0xc27dede8, 0xcf3ecb31, 0xcbffd686,
             0xd5b88683, 0xd1799b34, 0xdc3abded, 0xd8fba05a)
  }

  function Rows4(k: bv32): Row {
    if k == 0 then Row(0x690ce0ee, 0x6dcdfd59, 0x608edb80, 0x644fc637,
                       0x7a089632, 0x7ec98b85, 0x738aad5c, 0x774bb0eb)
    else if k == 1 then Row(0x4f040d56, 0x4bc510e1, 0x46863638, 0x42472b8f,
                            0x5c007b8a, 0x58c1663d, 0x558240e4, 0x51435d53)
    else if k == 2 then Row(0x251d3b9e, 0x21dc2629, 0x2c9f00f0, 0x285e1d47,
                            0x36194d42, 0x32d850f5, 0x3f9b762c, 0x3b5a6b9b)
    else Row(0x0315d626, 0x07d4cb91, 0x0a97ed48, 0x0e56f0ff,
             0x1011a0fa, 0x14d0bd4d, 0x19939b94, 0x1d528623)
  }

  function Rows5(k: bv32): Row {
    if k == 0 then Row(0xf12f560e, 0xf5ee4bb9, 0xf8ad6d60, 0xfc6c70d7,
                       0xe22b20d2, 0xe6ea3d65, 0xeba91bbc, 0xef68060b)
    else if k == 1 then Row(0xd727bbb6, 0xd3e6a601, 0xdea580d8, 0xda649d6f,
                            0xc423cd6a, 0xc0e2d0dd, 0xcda1f604, 0xc960ebb3)
    else if k == 2 then Row(0xbd3e8d7e, 0xb9ff90c9, 0xb4bcb610, 0xb07daba7,
                            0xae3afba2, 0xaafbe615, 0xa7b8c0cc, 0xa379dd7b)
    else Row(0x9b3660c6, 0x9ff77d71, 0x92b45ba8, 0x9675461f,
             0x8832161a, 0x8cf30bad, 0x81b02d74, 0x857130c3)
  }

  function Rows6(k: bv32): Row {
    if k == 0 then Row(0x5d8a9099, 0x594b8d2e, 0x5408abf7, 0x50c9b640,
                       0x4e8ee645, 0x4a4ffbf2, 0x470cdd2b, 0x43cdc09c)
    else if k == 1 then Row(0x7b827d21, 0x7f436096, 0x7200464f, 0x76c15bf8,
                            0x68860bfd, 0x6c47164a, 0x61043093, 0x65c52d24)
    else if k == 2 then Row(0x119b4be9, 0x155a565e, 0x18197087, 0x1cd86d30,
                            0x029f3d35, 0x065e2082, 0x0b1d065b, 0x0fdc1bec)
    else Row(0x3793a651, 0x3352bbe6, 0x3e119d3f, 0x3ad08088,
             0x2497d08d, 0x2056cd3a, 0x2d15ebe3, 0x29d4f654)
  }

  function Rows7(k: bv32): Row {
    if k == 0 then Row(0xc5a92679, 0xc1683bce, 0xcc2b1d17, 0xc8ea00a0,
                       0xd6ad50a5, 0xd26c4d12, 0xdf2f6bcb, 0xdbee767c)
    else if k == 1 then Row(0xe3a1cbc1, 0xe760d676, 0xea23f0af, 0xeee2ed18,
                            0xf0a5bd1d, 0xf464a0aa, 0xf9278673, 0xfde69bc4)
    else if k == 2 then Row(0x89b8fd09, 0x8d79e0be, 0x803ac667, 0x84fbdbd0,
                            0x9abc8bd5, 0x9e7d9662, 0x933eb0bb, 0x97ffad0c)
    else Row(0xafb010b1, 0xab710d06, 0xa6322bdf, 0xa2f33668,
             0xbcb4666d, 0xb8757bda, 0xb5365d03, 0xb1f740b4)
  }

  function TableRow(k: bv32): Row {
    if k < 16 then
      if k < 8 then if k < 4 then Rows0(k & 3) else Rows1(k & 3)
      else if k < 12 then Rows2(k & 3) else Rows3(k & 3)
    else
      if k < 24 then if k < 20 then Rows4(k & 3) else Rows5(k & 3)
      else if k < 28 then Rows6(k & 3) else Rows7(k & 3)
  }

  function Table(k: bv32): bv32 {
    TableRow(k >> 3).Get(k & 7)
  }

  /** The index into the table: the top byte of the register with the next byte added. */
  function Index(crc: bv32, b: bv8): bv32 {
    ((crc >> 24) ^ (b as bv32)) & 0xff
  }

  /** The body of the loop, for one byte, with the given table. */
  function Step(table: bv32 -> bv32, crc: bv32, b: bv8): bv32 {
    Xor(crc << 8, table(Index(crc, b)))
  }

  function CrcByte(crc: bv32, b: bv8): bv32 {
    Step(Table, crc, b)
  }

  function Crc(crc: bv32, buf: seq<bv8>): bv32
    decreases |buf|
  {
    if buf == [] then crc else Crc(CrcByte(crc, buf[0]), buf[1..])
  }

  method Crc32(start: bv32, buf: seq<bv8>) returns (crc: bv32)
    ensures crc == Crc(start, buf)
  {
    crc := start;
    var i := 0;
    while i < |buf|
      invariant 0 <= i <= |buf|
      invariant Crc(crc, buf[i..]) == Crc(start, buf)
    {
      assert buf[i..][1..] == buf[i + 1..];
      crc := CrcByte(crc, buf[i]);
      i := i + 1;
    }
  }

  // ---------------------------------------------------------------------------------------------------------
  // One bit at a time
  // ---------------------------------------------------------------------------------------------------------

  predicate Top(r: bv32) {
    r & 0x8000_0000 != 0
  }

  /** Multiplication by x modulo the generator. */
  function Shift(r: bv32): bv32 {
    if Top(r) then (r << 1) ^ POLY else r << 1
  }

  function Xor(a: bv32, b: bv32): bv32 {
    a ^ b
  }

  function Shift4(r: bv32): bv32 {
    Shift(Shift(Shift(Shift(r))))
  }

  function Shift8(r: bv32): bv32 {
    Shift4(Shift4(r))
  }

  lemma TableChunk0(k: bv32)
    requires 0 <= k < 32
    ensures Table(k) == Shift8(k << 24)
  {
  }

  lemma TableChunk1(k: bv32)
    requires 32 <= k < 64
    ensures Table(k) == Shift8(k << 24)
  {
  }

  lemma TableChunk2(k: bv32)
    requires 64 <= k < 96
    ensures Table(k) == Shift8(k << 24)
  {
  }

  lemma TableChunk3(k: bv32)
    requires 96 <= k < 128
    ensures Table(k) == Shift8(k << 24)
  {
  }

  lemma TableChunk4(k: bv32)
    requires 128 <= k < 160
    ensures Table(k) == Shift8(k << 24)
  {
  }

  lemma TableChunk5(k: bv32)
    requires 160 <= k < 192
    ensures Table(k) == Shift8(k << 24)
  {
  }

  lemma TableChunk6(k: bv32)
    requires 192 <= k < 224
    ensures Table(k) == Shift8(k << 24)
  {
  }

  lemma TableChunk7(k: bv32)
    requires 224 <= k < 256
    ensures Table(k) == Shift8(k << 24)
  {
  }

  /** Every entry of the table is its index, taken as a byte at the top of the register, shifted out. */
  lemma TableCorrect(k: bv32)
    requires k <= 255
    ensures Table(k) == Shift8(k << 24)
  {
    if k < 32 {
      TableChunk0(k);
    } else if k < 64 {
      TableChunk1(k);
    } else if k < 96 {
      TableChunk2(k);
    } else if k < 128 {
      TableChunk3(k);
    } else if k < 160 {
      TableChunk4(k);
    } else if k < 192 {
      TableChunk5(k);
    } else if k < 224 {
      TableChunk6(k);
    } else {
      TableChunk7(k);
    }
  }

  // ---------------------------------------------------------------------------------------------------------
  // The register as a linear, injective machine
  // ---------------------------------------------------------------------------------------------------------

  lemma XorAlgebra()
    ensures Algebra(Xor, 0)
  {
    forall a, b, c ensures Xor(Xor(a, b), c) == Xor(a, Xor(b, c)) {
      XorAssociates(a, b, c);
    }
    forall a, b ensures Xor(a, b) == Xor(b, a) {
      XorCommutes(a, b);
    }
    forall a ensures Xor(a, 0) == a && Xor(a, a) == 0 {
      XorCancels(a);
    }
  }

  lemma XorAssociates(a: bv32, b: bv32, c: bv32)
    ensures Xor(Xor(a, b), c) == Xor(a, Xor(b, c))
  {
  }

  lemma XorCommutes(a: bv32, b: bv32)
    ensures a ^ b == b ^ a
  {
  }

  lemma XorCancels(a: bv32)
    ensures Xor(a, 0) == a && Xor(a, a) == 0
  {
  }

  lemma TopXor(a: bv32, b: bv32)
    ensures Top(a ^ b) == (Top(a) != Top(b))
  {
  }

  lemma ShiftXorNone(a: bv32, b: bv32)
    requires !Top(a) && !Top(b)
    ensures Shift(a ^ b) == Shift(a) ^ Shift(b)
  {
    TopXor(a, b);
  }

  lemma ShiftXorOne(a: bv32, b: bv32)
    requires Top(a) && !Top(b)
    ensures Shift(a ^ b) == Shift(a) ^ Shift(b)
  {
    TopXor(a, b);
  }

  lemma ShiftXorBoth(a: bv32, b: bv32)
    requires Top(a) && Top(b)
    ensures Shift(a ^ b) == Shift(a) ^ Shift(b)
  {
    TopXor(a, b);
  }

  lemma ShiftXor(a: bv32, b: bv32)
    ensures Shift(Xor(a, b)) == Xor(Shift(a), Shift(b))
  {
    if Top(a) && Top(b) {
      ShiftXorBoth(a, b);
    } else if Top(a) {
      ShiftXorOne(a, b);
    } else if Top(b) {
      ShiftXorOne(b, a);
      XorCommutes(a, b);
      XorCommutes(Shift(a), Shift(b));
    } else {
      ShiftXorNone(a, b);
    }
  }

  lemma ShiftLinear()
    ensures Linear(Shift, Xor)
  {
    forall a, b ensures Shift(Xor(a, b)) == Xor(Shift(a), Shift(b)) {
      ShiftXor(a, b);
    }
  }

  /** Division by x modulo the generator. */
  function Unshift(r: bv32): bv32 {
    if r & 1 == 0 then r >> 1 else ((r ^ POLY) >> 1) | 0x8000_0000
  }

  lemma UnshiftTop(a: bv32)
    requires Top(a)
    ensures Unshift(Shift(a)) == a
  {
  }

  lemma UnshiftLow(a: bv32)
    requires !Top(a)
    ensures Unshift(Shift(a)) == a
  {
  }

  lemma ShiftInjective()
    ensures Injective(Shift)
  {
    forall a, b | Shift(a) == Shift(b) ensures a == b {
      if Top(a) { UnshiftTop(a); } else { UnshiftLow(a); }
      if Top(b) { UnshiftTop(b); } else { UnshiftLow(b); }
    }
  }

  lemma IterFour<T>(f: T -> T, x: T)
    ensures Iter(f, 4, x) == f(f(f(f(x))))
  {
    assert Iter(f, 1, f(f(f(x)))) == Iter(f, 0, f(f(f(f(x)))));
    assert Iter(f, 3, f(x)) == Iter(f, 2, f(f(x)));
  }

  lemma IterIsShift8(r: bv32)
    ensures Iter(Shift, 8, r) == Shift8(r)
  {
    IterSum(Shift, 4, 4, r);
    IterFour(Shift, r);
    IterFour(Shift, Shift4(r));
  }

  lemma Shift8Low(a: bv32)
    ensures Shift8(a & 0x00ff_ffff) == a << 8
  {
  }

  lemma SplitByte(crc: bv32, b: bv8)
    ensures crc ^ ((b as bv32) << 24) == Xor(Index(crc, b) << 24, crc & 0x00ff_ffff)
  {
  }

  lemma TableIter(k: bv32, n: nat)
    requires k <= 255 && n == 8
    ensures Table(k) == Iter(Shift, n, k << 24)
  {
    TableCorrect(k);
    IterIsShift8(k << 24);
  }

  lemma LowIter(crc: bv32, n: nat)
    requires n == 8
    ensures Iter(Shift, n, crc & 0x00ff_ffff) == crc << 8
  {
    Shift8Low(crc);
    IterIsShift8(crc & 0x00ff_ffff);
  }

  lemma StepIsIter(f: bv32 -> bv32, table: bv32 -> bv32, crc: bv32, b: bv8, n: nat)
    requires Linear(f, Xor) && Algebra(Xor, 0)
    requires table(Index(crc, b)) == Iter(f, n, Index(crc, b) << 24)
    requires Iter(f, n, crc & 0x00ff_ffff) == crc << 8
    ensures Step(table, crc, b) == Iter(f, n, crc ^ ((b as bv32) << 24))
  {
    SplitByte(crc, b);
    IterParts(f, Xor, 0, n, crc ^ ((b as bv32) << 24), Index(crc, b) << 24, crc & 0x00ff_ffff);
  }

  lemma IndexIsByte(crc: bv32, b: bv8)
    ensures Index(crc, b) <= 255
  {
  }

  /** The table step is eight single-bit steps on the register with the byte added at its top. */
  lemma CrcByteIsIter(crc: bv32, b: bv8, n: nat)
    requires n == 8
    ensures CrcByte(crc, b) == Iter(Shift, n, crc ^ ((b as bv32) << 24))
  {
    IndexIsByte(crc, b);
    TableIter(Index(crc, b), n);
    LowIter(crc, n);
    ShiftLinear();
    XorAlgebra();
    StepIsIter(Shift, Table, crc, b, n);
  }

  // ---------------------------------------------------------------------------------------------------------
  // The CRC as a remainder of polynomials
  // ---------------------------------------------------------------------------------------------------------

  function Bit(b: bool): bv32 {
    if b then 1 else 0
  }

  function TopBit(b: bool): bv32 {
    if b then 0x8000_0000 else 0
  }

  /** The bits of a byte, most significant first. */
  function ByteBits(b: bv8): seq<bool> {
    [b & 0x80 != 0, b & 0x40 != 0, b & 0x20 != 0, b & 0x10 != 0,
     b & 0x08 != 0, b & 0x04 != 0, b & 0x02 != 0, b & 0x01 != 0]
  }

  function Bits(buf: seq<bv8>): seq<bool> {
    if buf == [] then [] else ByteBits(buf[0]) + Bits(buf[1..])
  }

  /** The CRC register fed one bit at a time. */
  function Serial(crc: bv32, bits: seq<bool>): bv32 {
    FeedTop(Shift, Xor, TopBit, crc, bits)
  }

  /** The remainder of the polynomial r * x^|bits| + bits on division by the generator, by long division: one bit
      of the dividend after the other is brought down, and the generator subtracted whenever it goes. */
  function Remainder(r: bv32, bits: seq<bool>): bv32 {
    FeedLow(Shift, Xor, Bit, r, bits)
  }

  function Zeros(n: nat): seq<bool> {
    seq(n, _ => false)
  }

  lemma Shift8Small(x: bv32)
    requires x <= 0x00ff_ffff
    ensures Shift8(x) == x << 8
  {
    assert x == x & 0x00ff_ffff;
    Shift8Low(x);
  }

  lemma ShiftedByte(x: bv32)
    requires x <= 0xff
    ensures Iter(Shift, 24, x) == x << 24
  {
    IterSum(Shift, 8, 16, x);
    IterSum(Shift, 8, 8, x << 8);
    IterIsShift8(x);
    IterIsShift8(x << 8);
    IterIsShift8(x << 16);
    Shift8Small(x);
    Shift8Small(x << 8);
    Shift8Small(x << 16);
    assert (x << 8) << 8 == x << 16 && (x << 16) << 8 == x << 24;
  }

  /** One bit added at the top is one added at the bottom 32 positions earlier. */
  lemma TopIsLow(b: bool)
    ensures Shift(TopBit(b)) == Iter(Shift, 32, Bit(b))
  {
    if b {
      ShiftedByte(1);
      IterSum(Shift, 24, 8, 1);
      IterIsShift8(1 << 24);
      assert (1 as bv32) << 24 == 0x0100_0000;
      assert Shift4(0x0100_0000) == 0x1000_0000;
      assert Shift(Shift(Shift(0x1000_0000))) == 0x8000_0000;
    } else {
      assert Shift(0) == 0;
      IterZero(Shift, 32, 0);
    }
  }

  /** Bringing down one bit of a small dividend. */
  lemma BringDown(r: bv32, bits: seq<bool>, i: nat, r': bv32)
    requires i < |bits| && r <= 0x7f && r' == (r << 1) ^ Bit(bits[i])
    ensures Remainder(r, bits[i..]) == Remainder(r', bits[i + 1..])
  {
    assert bits[i..][0] == bits[i] && bits[i..][1..] == bits[i + 1..];
    assert Xor(Shift(r), Bit(bits[i])) == r';
  }

  lemma HighNibble(x: bv32)
    requires x <= 0xff
    ensures x >> 7 == Bit(x & 0x80 != 0)
    ensures x >> 6 == ((x >> 7) << 1) ^ Bit(x & 0x40 != 0)
    ensures x >> 5 == ((x >> 6) << 1) ^ Bit(x & 0x20 != 0)
    ensures x >> 4 == ((x >> 5) << 1) ^ Bit(x & 0x10 != 0)
    ensures x >> 7 <= 0x7f && x >> 6 <= 0x7f && x >> 5 <= 0x7f && x >> 4 <= 0x7f
  {
  }

  lemma LowNibble(x: bv32)
    requires x <= 0xff
    ensures x >> 3 == ((x >> 4) << 1) ^ Bit(x & 0x08 != 0)
    ensures x >> 2 == ((x >> 3) << 1) ^ Bit(x & 0x04 != 0)
    ensures x >> 1 == ((x >> 2) << 1) ^ Bit(x & 0x02 != 0)
    ensures x == ((x >> 1) << 1) ^ Bit(x & 0x01 != 0)
    ensures x >> 3 <= 0x7f && x >> 2 <= 0x7f && x >> 1 <= 0x7f
  {
  }

  lemma ByteValue(b: bv8)
    ensures Remainder(0, ByteBits(b)) == b as bv32
  {
    var x, s := b as bv32, ByteBits(b);
    HighBits(b, x, s);
    LowBits(b, x, s);
    HighHalf(x, s);
    LowHalf(x, s);
    assert s[0..] == s && s[8..] == [];
  }

  lemma HighBits(b: bv8, x: bv32, s: seq<bool>)
    requires s == ByteBits(b) && x == b as bv32
    ensures x <= 0xff && |s| == 8
    ensures s[0] == (x & 0x80 != 0) && s[1] == (x & 0x40 != 0) && s[2] == (x & 0x20 != 0) && s[3] == (x & 0x10 != 0)
  {
  }

  lemma LowBits(b: bv8, x: bv32, s: seq<bool>)
    requires s == ByteBits(b) && x == b as bv32
    ensures |s| == 8
    ensures s[4] == (x & 0x08 != 0) && s[5] == (x & 0x04 != 0) && s[6] == (x & 0x02 != 0) && s[7] == (x & 0x01 != 0)
  {
  }

  lemma HighHalf(x: bv32, s: seq<bool>)
    requires x <= 0xff && |s| == 8
    requires s[0] == (x & 0x80 != 0) && s[1] == (x & 0x40 != 0) && s[2] == (x & 0x20 != 0) && s[3] == (x & 0x10 != 0)
    ensures Remainder(0, s[0..]) == Remainder(x >> 4, s[4..])
  {
    HighNibble(x);
    BringDownFour(0, s, 0, x >> 7, x >> 6, x >> 5, x >> 4);
  }

  lemma LowHalf(x: bv32, s: seq<bool>)
    requires x <= 0xff && |s| == 8
    requires s[4] == (x & 0x08 != 0) && s[5] == (x & 0x04 != 0) && s[6] == (x & 0x02 != 0) && s[7] == (x & 0x01 != 0)
    ensures Remainder(x >> 4, s[4..]) == Remainder(x, s[8..])
  {
    HighNibble(x);
    LowNibble(x);
    BringDownFour(x >> 4, s, 4, x >> 3, x >> 2, x >> 1, x);
  }

  lemma BringDownFour(r: bv32, s: seq<bool>, i: nat, r1: bv32, r2: bv32, r3: bv32, r4: bv32)
    requires i + 4 <= |s| && r <= 0x7f && r1 <= 0x7f && r2 <= 0x7f && r3 <= 0x7f
    requires r1 == (r << 1) ^ Bit(s[i]) && r2 == (r1 << 1) ^ Bit(s[i + 1])
    requires r3 == (r2 << 1) ^ Bit(s[i + 2]) && r4 == (r3 << 1) ^ Bit(s[i + 3])
    ensures Remainder(r, s[i..]) == Remainder(r4, s[i + 4..])
  {
    BringDown(r, s, i, r1);
    BringDown(r1, s, i + 1, r2);
    BringDown(r2, s, i + 2, r3);
    BringDown(r3, s, i + 3, r4);
  }

  lemma ShiftMachine()
    ensures Machine(Shift, Xor, TopBit, Bit, 0, 32)
  {
    XorAlgebra();
    ShiftLinear();
    TopIsLow(false);
    TopIsLow(true);
  }

  lemma SerialByte(crc: bv32, bits: seq<bool>, x: bv32)
    requires |bits| == 8 && x == Iter(Shift, 24, Remainder(0, bits))
    ensures Serial(crc, bits) == Iter(Shift, |bits|, Xor(crc, x))
  {
    ShiftMachine();
    FeedWord(Shift, Xor, TopBit, Bit, 0, 32, crc, x, bits);
  }

  lemma CrcByteIsSerial(crc: bv32, b: bv8)
    ensures CrcByte(crc, b) == Serial(crc, ByteBits(b))
  {
    ByteValue(b);
    IsByte(b);
    ShiftedByte(b as bv32);
    SerialByte(crc, ByteBits(b), (b as bv32) << 24);
    CrcByteIsIter(crc, b, |ByteBits(b)|);
  }

  lemma IsByte(b: bv8)
    ensures b as bv32 <= 0xff
  {
  }

  /** The table-driven loop computes what the bit-at-a-time register computes, for every buffer and start value. */
  lemma {:induction false} CrcIsSerial(crc: bv32, buf: seq<bv8>)
    ensures Crc(crc, buf) == Serial(crc, Bits(buf))
    decreases |buf|
  {
    if buf != [] {
      CrcByteIsSerial(crc, buf[0]);
      FeedTopAppend(Shift, Xor, TopBit, crc, ByteBits(buf[0]), Bits(buf[1..]));
      CrcIsSerial(CrcByte(crc, buf[0]), buf[1..]);
    }
  }

  /** ... which is the remainder of start * x^(8n) + buffer * x^32 on division by the generator. */
  lemma CrcIsRemainder(crc: bv32, buf: seq<bv8>)
    ensures Crc(crc, buf) == Remainder(crc, Zeros(8 * |buf|)) ^ Remainder(0, Bits(buf) + Zeros(32))
  {
    CrcIsSerial(crc, buf);
    BitsLength(buf);
    SerialIsRemainder(crc, Bits(buf));
  }

  lemma SerialIsRemainder(crc: bv32, bits: seq<bool>)
    ensures Serial(crc, bits) == Xor(Remainder(crc, Zeros(|bits|)), Remainder(0, bits + Zeros(32)))
  {
    ShiftMachine();
    FeedIsRemainder(Shift, Xor, TopBit, Bit, 0, 32, crc, bits);
    assert Zeros(|bits|) == seq(|bits|, _ => false);
    assert Zeros(32) == seq(32, _ => false);
  }

  lemma {:induction false} BitsLength(buf: seq<bv8>)
    ensures |Bits(buf)| == 8 * |buf|
  {
    if buf != [] {
      BitsLength(buf[1..]);
    }
  }

  // ---------------------------------------------------------------------------------------------------------
  // Error detection
  // ---------------------------------------------------------------------------------------------------------

  function Left(x: bv32): bv32 {
    x << 1
  }

  /** x^k for k below 32, as a register. */
  function Power(k: nat): bv32 {
    Iter(Left, k, 1)
  }

  lemma PowerSteps(x: bv32)
    ensures Iter(Left, 4, x) == x << 4
  {
    IterFour(Left, x);
    assert (((x << 1) << 1) << 1) << 1 == x << 4;
  }

  lemma PowerOf31()
    ensures Power(31) == 0x8000_0000
  {
    PowerSteps(1); PowerSteps(0x10); PowerSteps(0x100); PowerSteps(0x1000);
    PowerSteps(0x1_0000); PowerSteps(0x10_0000); PowerSteps(0x100_0000);
    IterSum(Left, 4, 4, 1); IterSum(Left, 8, 4, 1); IterSum(Left, 12, 4, 1);
    IterSum(Left, 16, 4, 1); IterSum(Left, 20, 4, 1); IterSum(Left, 24, 4, 1);
    IterSum(Left, 28, 3, 1);
    assert Iter(Left, 3, 0x1000_0000) == Iter(Left, 2, 0x2000_0000);
    assert Iter(Left, 2, 0x2000_0000) == Iter(Left, 1, 0x4000_0000);
    assert Iter(Left, 1, 0x4000_0000) == Iter(Left, 0, 0x8000_0000);
  }

  predicate OneHot(x: bv32) {
    x & (x - 1) == 0
  }

  lemma OneHotLeft(x: bv32)
    requires OneHot(x)
    ensures OneHot(x << 1)
    ensures Top(x) ==> x << 1 == 0
  {
  }

  lemma {:induction false} PowerIsOneHot(k: nat)
    ensures OneHot(Power(k)) && Power(k + 1) == Power(k) << 1
  {
    if k == 0 {
      assert Iter(Left, 1, 1) == Iter(Left, 0, 2);
    } else {
      PowerIsOneHot(k - 1);
      OneHotLeft(Power(k - 1));
    }
    IterSum(Left, k, 1, 1);
    assert Iter(Left, 1, Power(k)) == Iter(Left, 0, Power(k) << 1);
  }

  lemma PowerBelowTop(k: nat)
    requires k <= 30
    ensures !Top(Power(k))
  {
    PowerIsOneHot(k);
    OneHotLeft(Power(k));
    if Top(Power(k)) {
      PowerOf31();
      IterSum(Left, k + 1, 30 - k, 1);
      IterZero(Left, 30 - k, 0);
      assert false;
    }
  }

  lemma BelowPower(x: bv32, p: bv32, b: bool)
    requires x < p && !Top(p)
    ensures !Top(x) && (x << 1) ^ Bit(b) < p << 1
  {
  }

  lemma LowBitsOfShift(x: bv32, y: bv32, a: bool, b: bool)
    requires !Top(x) && !Top(y) && Xor(Shift(x), Bit(a)) == Xor(Shift(y), Bit(b))
    ensures x == y && a == b
  {
  }

  /** Up to 31 bits nothing is subtracted: the remainder is the dividend. */
  lemma {:induction false} RemainderBound(bits: seq<bool>)
    requires |bits| <= 31
    ensures Remainder(0, bits) < Power(|bits|) && !Top(Remainder(0, bits))
    decreases |bits|
  {
    if bits != [] {
      var k := |bits| - 1;
      RemainderBound(bits[..k]);
      SnocRemainder(bits[..k], bits[k]);
      assert bits[..k] + [bits[k]] == bits;
      PowerBelowTop(k);
      PowerIsOneHot(k);
      BelowPower(Remainder(0, bits[..k]), Power(k), bits[k]);
      if k == 30 {
        PowerOf31();
        BelowTop(Remainder(0, bits));
      } else {
        PowerBelowTop(k + 1);
        BelowPower(Remainder(0, bits), Power(k + 1), false);
      }
    }
  }

  lemma BelowTop(x: bv32)
    requires x < 0x8000_0000
    ensures !Top(x)
  {
  }

  lemma SnocRemainder(bits: seq<bool>, b: bool)
    ensures Remainder(0, bits + [b]) == Xor(Shift(Remainder(0, bits)), Bit(b))
  {
    FeedLowAppend(Shift, Xor, Bit, 0, bits, [b]);
    assert [b][1..] == [];
  }

  /** Stretches of up to 32 bits are told apart by their remainders. */
  lemma {:induction false} RemainderInjective(u: seq<bool>, v: seq<bool>)
    requires |u| == |v| <= 32 && Remainder(0, u) == Remainder(0, v)
    ensures u == v
    decreases |u|
  {
    if u != [] {
      var k := |u| - 1;
      assert u == u[..k] + [u[k]] && v == v[..k] + [v[k]];
      SnocRemainder(u[..k], u[k]);
      SnocRemainder(v[..k], v[k]);
      RemainderBound(u[..k]);
      RemainderBound(v[..k]);
      LowBitsOfShift(Remainder(0, u[..k]), Remainder(0, v[..k]), u[k], v[k]);
      RemainderInjective(u[..k], v[..k]);
    }
  }

  lemma {:induction false} BitsInjective(a: seq<bv8>, b: seq<bv8>)
    requires Bits(a) == Bits(b)
    ensures a == b
    decreases |a|
  {
    BitsLength(a);
    BitsLength(b);
    if a != [] {
      assert ByteBits(a[0]) == Bits(a)[..8] && ByteBits(b[0]) == Bits(b)[..8];
      ByteValue(a[0]);
      ByteValue(b[0]);
      assert a[0] == (a[0] as bv32) as bv8 && b[0] == (b[0] as bv32) as bv8;
      assert Bits(a[1..]) == Bits(a)[8..] && Bits(b[1..]) == Bits(b)[8..];
      BitsInjective(a[1..], b[1..]);
    }
  }

  /** Bit sequences that differ in a stretch of at most 32 bits leave different registers. */
  lemma SerialStretch(crc: bv32, before: seq<bool>, u: seq<bool>, v: seq<bool>, after: seq<bool>)
    requires |u| == |v| <= 32
    requires Serial(crc, before + u + after) == Serial(crc, before + v + after)
    ensures u == v
  {
    ShiftMachine();
    ShiftInjective();
    StretchMatters(Shift, Xor, TopBit, Bit, 0, 32, crc, before, u, v, after);
    RemainderInjective(u, v);
  }

  /** Two sequences that agree outside 32 positions from i on, cut at these positions. */
  lemma CutAround(x: seq<bool>, y: seq<bool>, i: nat) returns (p: seq<bool>, u: seq<bool>, v: seq<bool>, s: seq<bool>)
    requires |x| == |y| && forall j | 0 <= j < |x| && !(i <= j < i + 32) :: x[j] == y[j]
    ensures x == p + u + s && y == p + v + s && |u| == |v| <= 32
  {
    var from := if i <= |x| then i else |x|;
    var to := if i + 32 <= |x| then i + 32 else |x|;
    p, u, v, s := x[..from], x[from..to], y[from..to], x[to..];
  }

  lemma BurstInBits(crc: bv32, x: seq<bool>, y: seq<bool>, i: nat)
    requires |x| == |y| && forall j | 0 <= j < |x| && !(i <= j < i + 32) :: x[j] == y[j]
    requires Serial(crc, x) == Serial(crc, y)
    ensures x == y
  {
    var p, u, v, s := CutAround(x, y, i);
    SerialStretch(crc, p, u, v, s);
  }

  /** Every burst of up to 32 bits is detected: two buffers of equal length whose bits agree outside 32 consecutive
      positions have equal CRCs, for whatever start value, only if they are equal. */
  lemma BurstDetected(crc: bv32, a: seq<bv8>, b: seq<bv8>, i: nat)
    requires |a| == |b|
    requires forall j | 0 <= j < |Bits(a)| && j < |Bits(b)| && !(i <= j < i + 32) :: Bits(a)[j] == Bits(b)[j]
    ensures Crc(crc, a) == Crc(crc, b) <==> a == b
  {
    BitsLength(a);
    BitsLength(b);
    CrcIsSerial(crc, a);
    CrcIsSerial(crc, b);
    if Serial(crc, Bits(a)) == Serial(crc, Bits(b)) {
      BurstInBits(crc, Bits(a), Bits(b), i);
      BitsInjective(a, b);
    }
  }
}
