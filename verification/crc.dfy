/** The CRC hash: a table of 256 words against long division of polynomials over GF(2). */
module Crc {

  /** x^26 + x^23 + x^22 + x^16 + x^12 + x^11 + x^10 + x^8 + x^7 + x^5 + x^4 + x^2 + x + 1, the generator of
      section 3.2.9 of IEEE 802.3 without its leading term, most significant bit first. */
  const POLY: bv32 := 0x04c1_1db7

  /** Eight consecutive entries of crc32_table. */
  function Row(r: nat): (row: seq<bv32>)
    requires r < 32
    ensures |row| == 8
  {
    match r
    case 0 => [0x0000_0000, 0x04c1_1db7, 0x0982_3b6e, 0x0d43_26d9, 0x1304_76dc, 0x17c5_6b6b, 0x1a86_4db2, 0x1e47_5005]
    case 1 => [0x2608_edb8, 0x22c9_f00f, 0x2f8a_d6d6, 0x2b4b_cb61, 0x350c_9b64, 0x31cd_86d3, 0x3c8e_a00a, 0x384f_bdbd]
    case 2 => [0x4c11_db70, 0x48d0_c6c7, 0x4593_e01e, 0x4152_fda9, 0x5f15_adac, 0x5bd4_b01b, 0x5697_96c2, 0x5256_8b75]
    case 3 => [0x6a19_36c8, 0x6ed8_2b7f, 0x639b_0da6, 0x675a_1011, 0x791d_4014, 0x7ddc_5da3, 0x709f_7b7a, 0x745e_66cd]
    case 4 => [0x9823_b6e0, 0x9ce2_ab57, 0x91a1_8d8e, 0x9560_9039, 0x8b27_c03c, 0x8fe6_dd8b, 0x82a5_fb52, 0x8664_e6e5]
    case 5 => [0xbe2b_5b58, 0xbaea_46ef, 0xb7a9_6036, 0xb368_7d81, 0xad2f_2d84, 0xa9ee_3033, 0xa4ad_16ea, 0xa06c_0b5d]
    case 6 => [0xd432_6d90, 0xd0f3_7027, 0xddb0_56fe, 0xd971_4b49, 0xc736_1b4c, 0xc3f7_06fb, 0xceb4_2022, 0xca75_3d95]
    case 7 => [0xf23a_8028, 0xf6fb_9d9f, 0xfbb8_bb46, 0xff79_a6f1, 0xe13e_f6f4, 0xe5ff_eb43, 0xe8bc_cd9a, 0xec7d_d02d]
    case 8 => [0x3486_7077, 0x3047_6dc0, 0x3d04_4b19, 0x39c5_56ae, 0x2782_06ab, 0x2343_1b1c, 0x2e00_3dc5, 0x2ac1_2072]
    case 9 => [0x128e_9dcf, 0x164f_8078, 0x1b0c_a6a1, 0x1fcd_bb16, 0x018a_eb13, 0x054b_f6a4, 0x0808_d07d, 0x0cc9_cdca]
    case 10 => [0x7897_ab07, 0x7c56_b6b0, 0x7115_9069, 0x75d4_8dde, 0x6b93_dddb, 0x6f52_c06c, 0x6211_e6b5, 0x66d0_fb02]
    case 11 => [0x5e9f_46bf, 0x5a5e_5b08, 0x571d_7dd1, 0x53dc_6066, 0x4d9b_3063, 0x495a_2dd4, 0x4419_0b0d, 0x40d8_16ba]
    case 12 => [0xaca5_c697, 0xa864_db20, 0xa527_fdf9, 0xa1e6_e04e, 0xbfa1_b04b, 0xbb60_adfc, 0xb623_8b25, 0xb2e2_9692]
    case 13 => [0x8aad_2b2f, 0x8e6c_3698, 0x832f_1041, 0x87ee_0df6, 0x99a9_5df3, 0x9d68_4044, 0x902b_669d, 0x94ea_7b2a]
    case 14 => [0xe0b4_1de7, 0xe475_0050, 0xe936_2689, 0xedf7_3b3e, 0xf3b0_6b3b, 0xf771_768c, 0xfa32_5055, 0xfef3_4de2]
    case 15 => [0xc6bc_f05f, 0xc27d_ede8, 0xcf3e_cb31, 0xcbff_d686, 0xd5b8_8683, 0xd179_9b34, 0xdc3a_bded, 0xd8fb_a05a]
    case 16 => [0x690c_e0ee, 0x6dcd_fd59, 0x608e_db80, 0x644f_c637, 0x7a08_9632, 0x7ec9_8b85, 0x738a_ad5c, 0x774b_b0eb]
    case 17 => [0x4f04_0d56, 0x4bc5_10e1, 0x4686_3638, 0x4247_2b8f, 0x5c00_7b8a, 0x58c1_663d, 0x5582_40e4, 0x5143_5d53]
    case 18 => [0x251d_3b9e, 0x21dc_2629, 0x2c9f_00f0, 0x285e_1d47, 0x3619_4d42, 0x32d8_50f5, 0x3f9b_762c, 0x3b5a_6b9b]
    case 19 => [0x0315_d626, 0x07d4_cb91, 0x0a97_ed48, 0x0e56_f0ff, 0x1011_a0fa, 0x14d0_bd4d, 0x1993_9b94, 0x1d52_8623]
    case 20 => [0xf12f_560e, 0xf5ee_4bb9, 0xf8ad_6d60, 0xfc6c_70d7, 0xe22b_20d2, 0xe6ea_3d65, 0xeba9_1bbc, 0xef68_060b]
    case 21 => [0xd727_bbb6, 0xd3e6_a601, 0xdea5_80d8, 0xda64_9d6f, 0xc423_cd6a, 0xc0e2_d0dd, 0xcda1_f604, 0xc960_ebb3]
    case 22 => [0xbd3e_8d7e, 0xb9ff_90c9, 0xb4bc_b610, 0xb07d_aba7, 0xae3a_fba2, 0xaafb_e615, 0xa7b8_c0cc, 0xa379_dd7b]
    case 23 => [0x9b36_60c6, 0x9ff7_7d71, 0x92b4_5ba8, 0x9675_461f, 0x8832_161a, 0x8cf3_0bad, 0x81b0_2d74, 0x8571_30c3]
    case 24 => [0x5d8a_9099, 0x594b_8d2e, 0x5408_abf7, 0x50c9_b640, 0x4e8e_e645, 0x4a4f_fbf2, 0x470c_dd2b, 0x43cd_c09c]
    case 25 => [0x7b82_7d21, 0x7f43_6096, 0x7200_464f, 0x76c1_5bf8, 0x6886_0bfd, 0x6c47_164a, 0x6104_3093, 0x65c5_2d24]
    case 26 => [0x119b_4be9, 0x155a_565e, 0x1819_7087, 0x1cd8_6d30, 0x029f_3d35, 0x065e_2082, 0x0b1d_065b, 0x0fdc_1bec]
    case 27 => [0x3793_a651, 0x3352_bbe6, 0x3e11_9d3f, 0x3ad0_8088, 0x2497_d08d, 0x2056_cd3a, 0x2d15_ebe3, 0x29d4_f654]
    case 28 => [0xc5a9_2679, 0xc168_3bce, 0xcc2b_1d17, 0xc8ea_00a0, 0xd6ad_50a5, 0xd26c_4d12, 0xdf2f_6bcb, 0xdbee_767c]
    case 29 => [0xe3a1_cbc1, 0xe760_d676, 0xea23_f0af, 0xeee2_ed18, 0xf0a5_bd1d, 0xf464_a0aa, 0xf927_8673, 0xfde6_9bc4]
    case 30 => [0x89b8_fd09, 0x8d79_e0be, 0x803a_c667, 0x84fb_dbd0, 0x9abc_8bd5, 0x9e7d_9662, 0x933e_b0bb, 0x97ff_ad0c]
    case _ => [0xafb0_10b1, 0xab71_0d06, 0xa632_2bdf, 0xa2f3_3668, 0xbcb4_666d, 0xb875_7bda, 0xb536_5d03, 0xb1f7_40b4]
  }

  function Entry(i: bv8): bv32 {
    Row(i as nat / 8)[i as nat % 8]
  }

  // ----- the shift register -----

  predicate Top(c: bv32) {
    c & 0x8000_0000 != 0
  }

  function Xor(x: bv32, y: bv32): bv32 {
    x ^ y
  }

  function Double(x: bv32): bv32 {
    x << 1
  }

  /** One step of the register without input. */
  function Shift1(c: bv32): bv32 {
    if Top(c) then Xor(Double(c), POLY) else Double(c)
  }

  /** One step taking in one message bit at the top. */
  function Feed(c: bv32, bit: bool): bv32 {
    if Top(c) != bit then Xor(Double(c), POLY) else Double(c)
  }

  function FeedAll(c: bv32, bits: seq<bool>): bv32
    decreases bits
  {
    if bits == [] then c else FeedAll(Feed(c, bits[0]), bits[1..])
  }

  function Shift(c: bv32, n: nat): bv32
    decreases n
  {
    if n == 0 then c else Shift(Shift1(c), n - 1)
  }

  /** n bits of w from the top. */
  function Bits(w: bv32, n: nat): (b: seq<bool>)
    ensures |b| == n
    decreases n
  {
    if n == 0 then [] else [Top(w)] + Bits(Double(w), n - 1)
  }

  function Byte(b: bv8): bv32 {
    (b as bv32) << 24
  }

  function MessageBits(key: seq<bv8>): (b: seq<bool>)
    ensures |b| == 8 * |key|
  {
    if key == [] then [] else Bits(Byte(key[0]), 8) + MessageBits(key[1..])
  }

  // ----- the algebra -----

  lemma XorTop(x: bv32, y: bv32)
    ensures Top(Xor(x, y)) == (Top(x) != Top(y))
    ensures Double(Xor(x, y)) == Xor(Double(x), Double(y))
  {
    TopOfXor(x, y);
    DoubleOfXor(x, y);
  }

  lemma TopOfXor(x: bv32, y: bv32)
    ensures Top(Xor(x, y)) == (Top(x) != Top(y))
  {
    assert x & 0x8000_0000 == 0 || x & 0x8000_0000 == 0x8000_0000;
    assert y & 0x8000_0000 == 0 || y & 0x8000_0000 == 0x8000_0000;
    assert (x ^ y) & 0x8000_0000 == (x & 0x8000_0000) ^ (y & 0x8000_0000);
  }

  lemma DoubleOfXor(x: bv32, y: bv32)
    ensures Double(Xor(x, y)) == Xor(Double(x), Double(y))
  {
  }

  lemma XorAssoc(a: bv32, b: bv32, c: bv32)
    ensures Xor(Xor(a, b), c) == Xor(a, Xor(b, c))
  {
  }

  lemma XorComm(a: bv32, b: bv32)
    ensures Xor(a, b) == Xor(b, a)
  {
  }

  lemma XorZero(x: bv32)
    ensures Xor(x, 0) == x && Xor(0, x) == x && Xor(x, x) == 0
  {
  }

  lemma XorGroup(a: bv32, b: bv32, p: bv32)
    ensures Xor(Xor(a, b), p) == Xor(Xor(a, p), b)
    ensures Xor(Xor(a, b), p) == Xor(a, Xor(b, p))
  {
    hide Xor;
    XorAssoc(a, b, p);
    XorAssoc(a, p, b);
    XorComm(b, p);
  }

  lemma XorCancel(a: bv32, b: bv32, p: bv32)
    ensures Xor(a, b) == Xor(Xor(a, p), Xor(b, p))
  {
    hide Xor;
    XorAssoc(a, p, Xor(b, p));
    XorComm(b, p);
    XorAssoc(p, p, b);
    XorZero(p);
    XorZero(b);
  }

  lemma Shift1Linear(x: bv32, y: bv32)
    ensures Shift1(Xor(x, y)) == Xor(Shift1(x), Shift1(y))
  {
    hide Xor, Top, Double;
    XorTop(x, y);
    XorGroup(Double(x), Double(y), POLY);
    XorCancel(Double(x), Double(y), POLY);
  }

  lemma {:induction false} ShiftLinear(x: bv32, y: bv32, n: nat)
    ensures Shift(Xor(x, y), n) == Xor(Shift(x, n), Shift(y, n))
    decreases n
  {
    hide Shift1, Xor;
    if n > 0 {
      Shift1Linear(x, y);
      ShiftLinear(Shift1(x), Shift1(y), n - 1);
    }
  }

  lemma {:induction false} ShiftSnoc(x: bv32, n: nat)
    ensures Shift(x, n + 1) == Shift1(Shift(x, n))
    decreases n
  {
    hide Shift1;
    if n > 0 { ShiftSnoc(Shift1(x), n - 1); }
  }

  // ----- the table -----

  /** A word with n zero bits on top is only moved. */
  lemma ShiftEight(x: bv32)
    ensures Shift(x, 8) == Shift1(Shift1(Shift1(Shift1(Shift1(Shift1(Shift1(Shift1(x))))))))
  {
    var x1 := Shift1(x);
    var x2 := Shift1(x1);
    var x3 := Shift1(x2);
    var x4 := Shift1(x3);
    assert Shift(x, 8) == Shift(x1, 7) == Shift(x2, 6) == Shift(x3, 5) == Shift(x4, 4);
    var x5 := Shift1(x4);
    var x6 := Shift1(x5);
    var x7 := Shift1(x6);
    assert Shift(x4, 4) == Shift(x5, 3) == Shift(x6, 2) == Shift(x7, 1) == Shift1(x7);
  }

  lemma OneMove(x: bv32, y: bv32, n: nat)
    requires !Top(x) && y == Double(x)
    ensures Shift(x, n + 1) == Shift(y, n)
  {
  }

  lemma LowBitsClear(y: bv32)
    requires y & 0xff00_0000 == 0
    ensures !Top(y) && !Top(y << 1) && !Top(y << 2) && !Top(y << 3)
    ensures !Top(y << 4) && !Top(y << 5) && !Top(y << 6) && !Top(y << 7)
  {
  }

  lemma DoubleShifts(y: bv32)
    ensures Double(y) == y << 1 && Double(y << 1) == y << 2 && Double(y << 2) == y << 3 && Double(y << 3) == y << 4
    ensures Double(y << 4) == y << 5 && Double(y << 5) == y << 6 && Double(y << 6) == y << 7 && Double(y << 7) == y << 8
  {
  }

  lemma MaskedOff(x: bv32)
    ensures (x & 0x00ff_ffff) & 0xff00_0000 == 0 && (x & 0x00ff_ffff) << 8 == x << 8
  {
  }

  lemma LowBitsMove(x: bv32)
    ensures Shift(x & 0x00ff_ffff, 8) == x << 8
  {
    hide Top, Double, Shift;
    var y := x & 0x00ff_ffff;
    MaskedOff(x);
    LowBitsClear(y);
    DoubleShifts(y);
    OneMove(y, y << 1, 7);
    OneMove(y << 1, y << 2, 6);
    OneMove(y << 2, y << 3, 5);
    OneMove(y << 3, y << 4, 4);
    OneMove(y << 4, y << 5, 3);
    OneMove(y << 5, y << 6, 2);
    OneMove(y << 6, y << 7, 1);
    OneMove(y << 7, y << 8, 0);
    NoShift(y << 8);
  }

  lemma NoShift(x: bv32)
    ensures Shift(x, 0) == x
  {
  }

  /** Entries 2m and 2m+1 of the table, from entry m. */
  predicate Twins(x: bv32, even: bv32, odd: bv32) {
    even == Shift1(x) && odd == Xor(even, POLY)
  }

  predicate Doubled(r: nat)
    requires r < 16
  {
    var t, lo, hi := Row(r), Row(2 * r), Row(2 * r + 1);
    && Twins(t[0], lo[0], lo[1]) && Twins(t[1], lo[2], lo[3]) && Twins(t[2], lo[4], lo[5]) && Twins(t[3], lo[6], lo[7])
    && Twins(t[4], hi[0], hi[1]) && Twins(t[5], hi[2], hi[3]) && Twins(t[6], hi[4], hi[5]) && Twins(t[7], hi[6], hi[7])
  }

  lemma Rows0() ensures Doubled(0) && Doubled(1) {}
  lemma Rows1() ensures Doubled(2) && Doubled(3) {}
  lemma Rows2() ensures Doubled(4) && Doubled(5) {}
  lemma Rows3() ensures Doubled(6) && Doubled(7) {}
  lemma Rows4() ensures Doubled(8) && Doubled(9) {}
  lemma Rows5() ensures Doubled(10) && Doubled(11) {}
  lemma Rows6() ensures Doubled(12) && Doubled(13) {}
  lemma Rows7() ensures Doubled(14) && Doubled(15) {}

  lemma TableDoubles(r: nat)
    requires r < 16
    ensures Doubled(r)
  {
    hide Doubled, Row;
    match r / 2
    case 0 => Rows0();
    case 1 => Rows1();
    case 2 => Rows2();
    case 3 => Rows3();
    case 4 => Rows4();
    case 5 => Rows5();
    case 6 => Rows6();
    case _ => Rows7();
  }

  lemma HalfIndex(i: bv8)
    ensures (i as nat) == 2 * ((i >> 1) as nat) + ((i & 1) as nat)
  {
  }

  lemma OddIndex(i: bv8)
    ensures i & 1 == 0 || i & 1 == 1
    ensures Byte(i) == Xor(Double(Byte(i >> 1)), Byte(i & 1))
    ensures !Top(Byte(i >> 1))
    ensures Byte(0) == 0 && Byte(1) == 0x0100_0000
    ensures i >> 1 <= 127
    ensures i != 0 ==> i >> 1 < i
  {
  }

  lemma HalfOfRow(m: nat, b: nat)
    requires m < 128 && b <= 1
    ensures (2 * m + b) / 8 == if m % 8 < 4 then 2 * (m / 8) else 2 * (m / 8) + 1
    ensures (2 * m + b) % 8 == if m % 8 < 4 then 2 * (m % 8) + b else 2 * (m % 8) + b - 8
  {
  }

  lemma EntryFromHalf(m: nat, b: nat)
    requires m < 128 && b <= 1 && Doubled(m / 8)
    ensures var x := Row(m / 8)[m % 8];
            Row((2 * m + b) / 8)[(2 * m + b) % 8] == if b == 1 then Xor(Shift1(x), POLY) else Shift1(x)
  {
    hide Row, Shift1, Xor;
    HalfOfRow(m, b);
    var r, j := m / 8, m % 8;
    var row := if j < 4 then Row(2 * r) else Row(2 * r + 1);
    var k := if j < 4 then 2 * j else 2 * j - 8;
    assert Twins(Row(r)[j], row[k], row[k + 1]);
  }

  /** Entry(i) from entry i >> 1. */
  lemma EntryDoubles(i: bv8)
    ensures Entry(i) == if i & 1 == 1 then Xor(Shift1(Entry(i >> 1)), POLY) else Shift1(Entry(i >> 1))
  {
    hide Row, Shift1, Xor, Top, Double, Byte, Doubled;
    OddIndex(i);
    HalfIndex(i);
    var m := (i >> 1) as nat;
    TableDoubles(m / 8);
    EntryFromHalf(m, (i & 1) as nat);
  }

  lemma ShiftFirst(x: bv32)
    requires !Top(x)
    ensures Shift(Double(x), 8) == Shift(x, 9)
  {
    hide Double;
    assert Shift1(x) == Double(x);
  }

  lemma ShiftZeroOne()
    ensures Shift(0, 8) == 0 && Shift(0x0100_0000, 8) == POLY
  {
    ShiftEight(0);
    ShiftEight(0x0100_0000);
  }

  /** Eight steps on an index, from eight steps on its half. */
  lemma ShiftOfIndex(i: bv8)
    ensures Shift(Byte(i), 8) ==
            if i & 1 == 1 then Xor(Shift1(Shift(Byte(i >> 1), 8)), POLY) else Shift1(Shift(Byte(i >> 1), 8))
  {
    hide Shift, Xor, Top, Double, Byte, Shift1;
    OddIndex(i);
    ShiftLinear(Double(Byte(i >> 1)), Byte(i & 1), 8);
    ShiftSnoc(Byte(i >> 1), 8);
    ShiftFirst(Byte(i >> 1));
    ShiftZeroOne();
    XorZero(Shift(Double(Byte(i >> 1)), 8));
  }

  lemma FirstEntry()
    ensures Entry(0) == 0 && Shift(Byte(0), 8) == 0
  {
    ShiftZeroOne();
    OddIndex(0);
  }

  /** Every entry of the table is eight register steps. */
  lemma {:induction false} TableIsSerial(i: bv8)
    ensures Entry(i) == Shift(Byte(i), 8)
    decreases i
  {
    hide Entry, Shift, Shift1, Xor, Byte;
    if i == 0 {
      FirstEntry();
    } else {
      OddIndex(i);
      TableIsSerial(i >> 1);
      EntryDoubles(i);
      ShiftOfIndex(i);
    }
  }

  // ----- bytes at once, and bits one by one -----

  /** One turn of the loop of ght_crc_hash. */
  function TableStep(c: bv32, b: bv8): bv32 {
    Xor(c << 8, Entry(((c >> 24) as bv8) ^ b))
  }

  function Register(c: bv32, key: seq<bv8>): bv32
    decreases key
  {
    if key == [] then c else Register(TableStep(c, key[0]), key[1..])
  }

  lemma ByteXor(a: bv8, b: bv8)
    ensures Byte(a ^ b) == Xor(Byte(a), Byte(b))
  {
  }

  lemma TopByte(c: bv32)
    ensures Byte((c >> 24) as bv8) == c & 0xff00_0000
  {
  }

  lemma TwoParts(c: bv32)
    ensures c == Xor(c & 0x00ff_ffff, c & 0xff00_0000)
  {
  }

  lemma SplitRegister(c: bv32, b: bv8)
    ensures Xor(c, Byte(b)) == Xor(c & 0x00ff_ffff, Byte(((c >> 24) as bv8) ^ b))
  {
    hide Xor, Byte;
    ByteXor((c >> 24) as bv8, b);
    TopByte(c);
    TwoParts(c);
    XorAssoc(c & 0x00ff_ffff, c & 0xff00_0000, Byte(b));
  }

  lemma ByteStep(c: bv32, b: bv8)
    ensures TableStep(c, b) == Shift(Xor(c, Byte(b)), 8)
  {
    hide Entry, Shift, Byte, Shift1, Xor;
    var i := ((c >> 24) as bv8) ^ b;
    SplitRegister(c, b);
    ShiftLinear(c & 0x00ff_ffff, Byte(i), 8);
    LowBitsMove(c);
    TableIsSerial(i);
  }

  lemma FeedIsShift(c: bv32, y: bv32)
    ensures Shift1(Xor(c, y)) == Xor(Feed(c, Top(y)), Double(y))
  {
    hide Xor, Top, Double;
    XorTop(c, y);
    XorGroup(Double(c), Double(y), POLY);
  }

  function Left(y: bv32, n: nat): bv32
    decreases n
  {
    if n == 0 then y else Left(Double(y), n - 1)
  }

  lemma {:induction false} FeedBits(c: bv32, y: bv32, n: nat)
    ensures Shift(Xor(c, y), n) == Xor(FeedAll(c, Bits(y, n)), Left(y, n))
    decreases n
  {
    hide Shift1, Feed, Top, Double, Xor;
    if n > 0 {
      FeedIsShift(c, y);
      FeedBits(Feed(c, Top(y)), Double(y), n - 1);
      assert Bits(y, n)[1..] == Bits(Double(y), n - 1);
    }
  }

  lemma LeftStep(y: bv32, z: bv32, n: nat)
    requires z == Double(y)
    ensures Left(y, n + 1) == Left(z, n)
  {
  }

  lemma LeftEight(y: bv32, n: nat)
    ensures Left(y, n + 8) == Left(y << 8, n)
  {
    hide Double, Left;
    DoubleShifts(y);
    LeftStep(y, y << 1, n + 7);
    LeftStep(y << 1, y << 2, n + 6);
    LeftStep(y << 2, y << 3, n + 5);
    LeftStep(y << 3, y << 4, n + 4);
    LeftStep(y << 4, y << 5, n + 3);
    LeftStep(y << 5, y << 6, n + 2);
    LeftStep(y << 6, y << 7, n + 1);
    LeftStep(y << 7, y << 8, n);
  }

  lemma ByteVanishes(b: bv8)
    ensures Left(Byte(b), 8) == 0
  {
    LeftEight(Byte(b), 0);
  }

  lemma {:induction false} FeedConcat(c: bv32, a: seq<bool>, b: seq<bool>)
    ensures FeedAll(c, a + b) == FeedAll(FeedAll(c, a), b)
    decreases a
  {
    hide Feed;
    if a == [] {
      assert a + b == b;
    } else {
      assert (a + b)[0] == a[0] && (a + b)[1..] == a[1..] + b;
      FeedConcat(Feed(c, a[0]), a[1..], b);
    }
  }

  lemma ByteIsSerial(c: bv32, b: bv8)
    ensures TableStep(c, b) == FeedAll(c, Bits(Byte(b), 8))
  {
    hide TableStep, Shift, Byte, Xor, FeedAll;
    ByteStep(c, b);
    FeedBits(c, Byte(b), 8);
    ByteVanishes(b);
    XorZero(FeedAll(c, Bits(Byte(b), 8)));
  }

  /** The table-driven register equals the bit-serial one, for every key. */
  lemma {:induction false} RegisterIsSerial(c: bv32, key: seq<bv8>)
    ensures Register(c, key) == FeedAll(c, MessageBits(key))
    decreases key
  {
    hide TableStep, Byte, FeedAll, Bits;
    if key == [] {
      NoBits(c);
    } else {
      ByteIsSerial(c, key[0]);
      FeedConcat(c, Bits(Byte(key[0]), 8), MessageBits(key[1..]));
      RegisterIsSerial(TableStep(c, key[0]), key[1..]);
    }
  }

  lemma NoBits(c: bv32)
    ensures FeedAll(c, []) == c
  {
  }

  // ----- long division -----

  /** a with the bits of b added modulo 2 to its first |b| places. */
  function AddPrefix(a: seq<bool>, b: seq<bool>): (r: seq<bool>)
    requires |b| <= |a|
    ensures |r| == |a|
  {
    seq(|a|, i requires 0 <= i < |a| => if i < |b| then a[i] != b[i] else a[i])
  }

  /** Remainder of a polynomial over GF(2), highest coefficient first, after division by the
      generator: while there are more than 32 coefficients, the leading one is cancelled. */
  function Remainder(a: seq<bool>): (r: seq<bool>)
    ensures |a| >= 32 ==> |r| == 32
    decreases |a|
  {
    if |a| <= 32 then a
    else if a[0] then Remainder(AddPrefix(a[1..], Bits(POLY, 32)))
    else Remainder(a[1..])
  }

  function Zeros(n: nat): (z: seq<bool>)
    ensures |z| == n
  {
    seq(n, _ => false)
  }

  function Not(a: seq<bool>): (r: seq<bool>)
    ensures |r| == |a|
  {
    seq(|a|, i requires 0 <= i < |a| => !a[i])
  }

  lemma {:induction false} BitsXor(x: bv32, y: bv32, n: nat)
    ensures forall i :: 0 <= i < n ==> Bits(Xor(x, y), n)[i] == (Bits(x, n)[i] != Bits(y, n)[i])
    decreases n
  {
    hide Xor, Top, Double;
    if n > 0 {
      XorTop(x, y);
      BitsXor(Double(x), Double(y), n - 1);
    }
  }

  lemma BitsCons(w: bv32, n: nat)
    ensures Bits(w, n + 1) == [Top(w)] + Bits(Double(w), n)
  {
  }

  lemma {:induction false} BitsSnoc(w: bv32, n: nat)
    ensures Bits(w, n + 1) == Bits(w, n) + [Top(Left(w, n))]
    decreases n
  {
    BitsCons(w, n);
    if n > 0 {
      BitsCons(w, n - 1);
      LeftStep(w, Double(w), n - 1);
      hide Top, Double, Bits, Left;
      BitsSnoc(Double(w), n - 1);
    }
  }

  lemma FourBytes(w: bv32)
    ensures w << 8 << 8 << 8 << 8 == 0
  {
  }

  lemma NoneLeft()
    ensures Left(0, 0) == 0
  {
  }

  lemma ShiftedOut(w: bv32)
    ensures Left(w, 32) == 0
  {
    hide *;
    FourBytes(w);
    NoneLeft();
    LeftEight(w, 24);
    LeftEight(w << 8, 16);
    LeftEight(w << 8 << 8, 8);
    LeftEight(w << 8 << 8 << 8, 0);
  }

  lemma BitsDouble(c: bv32)
    ensures Bits(c, 32)[0] == Top(c)
    ensures Bits(Double(c), 32) == Bits(c, 32)[1..] + [false]
  {
    assert !Top(0);
    hide Bits, Top, Left;
    BitsSnoc(Double(c), 31);
    ShiftedOut(c);
    LeftStep(c, Double(c), 31);
    BitsCons(c, 31);
  }

  lemma AddPrefixXor(a: seq<bool>, x: bv32, y: bv32)
    requires |a| >= 32
    ensures AddPrefix(AddPrefix(a, Bits(x, 32)), Bits(y, 32)) == AddPrefix(a, Bits(Xor(x, y), 32))
  {
    hide Bits, Xor;
    BitsXor(x, y, 32);
  }

  /** One step of the division is one step of the register. */
  lemma DivisionStep(c: bv32, bit: bool, rest: seq<bool>)
    requires |rest| >= 32
    ensures Remainder(AddPrefix([bit] + rest, Bits(c, 32))) == Remainder(AddPrefix(rest, Bits(Feed(c, bit), 32)))
  {
    hide Top, Double, Xor, Bits;
    var a := AddPrefix([bit] + rest, Bits(c, 32));
    BitsDouble(c);
    assert a[0] == (bit != Top(c));
    assert a[1..] == AddPrefix(rest, Bits(Double(c), 32));
    AddPrefixXor(rest, Double(c), POLY);
  }

  lemma {:induction false} DivisionIsRegister(c: bv32, m: seq<bool>)
    ensures Remainder(AddPrefix(m + Zeros(32), Bits(c, 32))) == Bits(FeedAll(c, m), 32)
    decreases m
  {
    hide Feed, Bits;
    if m == [] {
      assert AddPrefix(m + Zeros(32), Bits(c, 32)) == Bits(c, 32);
    } else {
      assert m + Zeros(32) == [m[0]] + (m[1..] + Zeros(32));
      DivisionStep(c, m[0], m[1..] + Zeros(32));
      DivisionIsRegister(Feed(c, m[0]), m[1..]);
    }
  }

  lemma OneBit(w: bv32, v: bv32, n: nat)
    requires Top(w) && v == Double(w)
    ensures Bits(w, n + 1) == [true] + Bits(v, n)
  {
  }

  lemma HighBitsSet(w: bv32)
    requires w & 0xff00_0000 == 0xff00_0000
    ensures Top(w) && Top(w << 1) && Top(w << 2) && Top(w << 3)
    ensures Top(w << 4) && Top(w << 5) && Top(w << 6) && Top(w << 7)
  {
  }

  lemma OnesByte(w: bv32, n: nat)
    requires w & 0xff00_0000 == 0xff00_0000
    ensures Bits(w, n + 8) == seq(8, _ => true) + Bits(w << 8, n)
  {
    hide Top, Double, Bits;
    HighBitsSet(w);
    DoubleShifts(w);
    OneBit(w, w << 1, n + 7);
    OneBit(w << 1, w << 2, n + 6);
    OneBit(w << 2, w << 3, n + 5);
    OneBit(w << 3, w << 4, n + 4);
    OneBit(w << 4, w << 5, n + 3);
    OneBit(w << 5, w << 6, n + 2);
    OneBit(w << 6, w << 7, n + 1);
    OneBit(w << 7, w << 8, n);
  }

  lemma AllOnes()
    ensures Bits(0xffff_ffff, 32) == Not(Zeros(32))
  {
    hide Bits;
    OnesByte(0xffff_ffff, 24);
    OnesByte(0xffff_ff00, 16);
    OnesByte(0xffff_0000, 8);
    OnesByte(0xff00_0000, 0);
    assert Bits(0, 0) == [];
  }

  /** The C operator ~. */
  function Complement(w: bv32): bv32 {
    !w
  }

  /** Complementing the register complements its bits. */
  lemma BitsNot(w: bv32)
    ensures Bits(Complement(w), 32) == Not(Bits(w, 32))
  {
    assert Complement(w) == Xor(w, 0xffff_ffff);
    hide Bits, Xor;
    BitsXor(w, 0xffff_ffff, 32);
    AllOnes();
  }

  /** The checksum as IEEE 802.3 defines it for the non-reflected bit order: 32 zeros are appended to
      the message, its first 32 bits are complemented, and the remainder is complemented. */
  function Checksum(key: seq<bv8>): seq<bool> {
    Not(Remainder(AddPrefix(MessageBits(key) + Zeros(32), Not(Zeros(32)))))
  }

  /** For every byte string the table-driven hash is the complemented remainder of long division. */
  lemma HashIsChecksum(key: seq<bv8>)
    ensures Bits(Complement(Register(0xffff_ffff, key)), 32) == Checksum(key)
  {
    hide Bits, Register, FeedAll;
    AllOnes();
    RegisterIsSerial(0xffff_ffff, key);
    DivisionIsRegister(0xffff_ffff, MessageBits(key));
    BitsNot(FeedAll(0xffff_ffff, MessageBits(key)));
  }

  /** The check value of this checksum: the key "123456789" gives fc891918. */
  lemma CheckValue()
    ensures Complement(Register(0xffff_ffff, [0x31, 0x32, 0x33, 0x34, 0x35, 0x36, 0x37, 0x38, 0x39])) == 0xfc89_1918
  {
    var key: seq<bv8> := [0x31, 0x32, 0x33, 0x34, 0x35, 0x36, 0x37, 0x38, 0x39];
    hide Register, Xor, TableStep;
    CheckStep0();
    RegisterHead(0xffff_ffff, key, 0);
    CheckStep1();
    RegisterHead(0x9efb_cf93, key, 1);
    CheckStep2();
    RegisterHead(0x3fec_5e6a, key, 2);
    CheckStep3();
    RegisterHead(0xd952_f164, key, 3);
    CheckStep4();
    RegisterHead(0xa695_c4aa, key, 4);
    CheckStep5();
    RegisterHead(0xbd9a_b747, key, 5);
    CheckStep6();
    RegisterHead(0xd8f0_6c8f, key, 6);
    CheckStep7();
    RegisterHead(0x0d8a_14c4, key, 7);
    CheckStep8();
    RegisterHead(0x49e3_c2fb, key, 8);
    assert key[0..] == key && key[9..] == [];
    RegisterEnd(0x0376_e6e7);
  }

  lemma CheckStep0() ensures TableStep(0xffff_ffff, 0x31) == 0x9efb_cf93 {}
  lemma CheckStep1() ensures TableStep(0x9efb_cf93, 0x32) == 0x3fec_5e6a {}
  lemma CheckStep2() ensures TableStep(0x3fec_5e6a, 0x33) == 0xd952_f164 {}
  lemma CheckStep3() ensures TableStep(0xd952_f164, 0x34) == 0xa695_c4aa {}
  lemma CheckStep4() ensures TableStep(0xa695_c4aa, 0x35) == 0xbd9a_b747 {}
  lemma CheckStep5() ensures TableStep(0xbd9a_b747, 0x36) == 0xd8f0_6c8f {}
  lemma CheckStep6() ensures TableStep(0xd8f0_6c8f, 0x37) == 0x0d8a_14c4 {}
  lemma CheckStep7() ensures TableStep(0x0d8a_14c4, 0x38) == 0x49e3_c2fb {}
  lemma CheckStep8() ensures TableStep(0x49e3_c2fb, 0x39) == 0x0376_e6e7 {}

  lemma RegisterHead(c: bv32, key: seq<bv8>, i: nat)
    requires i < |key|
    ensures Register(c, key[i..]) == Register(TableStep(c, key[i]), key[i + 1..])
  {
    hide TableStep;
    assert key[i..][1..] == key[i + 1..];
  }

  lemma RegisterEnd(c: bv32)
    ensures Register(c, []) == c
  {
  }

  lemma RegisterStep(key: seq<bv8>, i: nat)
    requires i < |key|
    ensures Register(0xffff_ffff, key[..i + 1]) == TableStep(Register(0xffff_ffff, key[..i]), key[i])
  {
    assert key[..i + 1] == key[..i] + [key[i]];
    RegisterSnoc(0xffff_ffff, key[..i], key[i]);
  }

  lemma {:induction false} RegisterSnoc(c: bv32, key: seq<bv8>, b: bv8)
    ensures Register(c, key + [b]) == TableStep(Register(c, key), b)
    decreases key
  {
    hide TableStep;
    if key == [] {
      assert (key + [b])[1..] == [];
    } else {
      assert (key + [b])[0] == key[0] && (key + [b])[1..] == key[1..] + [b];
      RegisterSnoc(TableStep(c, key[0]), key[1..], b);
    }
  }

  lemma RegisterOfNothing()
    ensures Register(0xffff_ffff, []) == 0xffff_ffff
  {
  }

  /** crc = (crc << 8) ^ crc32_table[(crc >> 24) ^ *(p++)]. */
  method Update(crc: bv32, byte: bv8) returns (next: bv32)
    ensures next == TableStep(crc, byte)
  {
    hide Entry, Xor;
    next := Xor(crc << 8, Entry(((crc >> 24) as bv8) ^ byte));
  }

  method RegisterLoop(key: seq<bv8>) returns (crc: bv32)
    ensures crc == Register(0xffff_ffff, key)
  {
    hide *;
    crc := 0xffff_ffff;
    RegisterOfNothing();
    assert key[..0] == [];
    var p := 0;
    while p < |key|
      invariant 0 <= p <= |key|
      invariant crc == Register(0xffff_ffff, key[..p])
    {
      RegisterStep(key, p);
      crc := Update(crc, key[p]);
      p := p + 1;
    }
    assert key[..p] == key;
  }

  /** ght_crc_hash: the loop computes the checksum. */
  method CrcHash(key: seq<bv8>) returns (h: bv32)
    ensures Bits(h, 32) == Checksum(key)
  {
    hide *;
    var crc := RegisterLoop(key);
    HashIsChecksum(key);
    h := Complement(crc);
  }
}
