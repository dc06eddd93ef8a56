/**
 * The CRC-32 engine of src/stm32crc.c: the STM32 hardware-CRC defaults,
 * polynomial 0x04C11DB7, initial value 0xFFFFFFFF, most significant bit
 * first, no reflection and no final XOR (the CRC-32 of ISO/IEC 13818-1,
 * annex A, also known as CRC-32/MPEG-2).
 *
 * Pure functions give the meaning (CrcNext, CrcFold, CrcCalc, and the
 * table-free BitwiseFold); class Engine is the C file's static state, a
 * lazily filled 256-entry table, and its three routines.
 */
module Stm32Crc {
  import opened Options

  /** CRC_START_32 of stm32crc.h (not part of this model), fixed by the test vector. */
  const CrcStart32: bv32 := 0xFFFF_FFFF
  /** CRC_POLY_32 of stm32crc.h. */
  const CrcPoly32: bv32 := 0x04C1_1DB7

  // -- The bitwise definition -- //

  /** One step of MSB-first polynomial division: shift left, and XOR in the
      polynomial when the bit shifted out was set. */
  function PolyStep(crc: bv32): bv32 {
    (crc << 1) ^ (if crc & 0x8000_0000 != 0 then CrcPoly32 else 0)
  }

  /** The step as stm32crc_init writes it, multiplying the polynomial by the
      bit shifted out, is the same step. */
  lemma PolyStepAsWritten(crc: bv32)
    ensures (crc << 1) ^ (((crc >> 31) & 1) * CrcPoly32) == PolyStep(crc)
  {
    if crc & 0x8000_0000 != 0 {
      assert (crc >> 31) & 1 == 1;
    } else {
      assert (crc >> 31) & 1 == 0;
    }
  }

  /** k division steps. */
  function PolySteps(crc: bv32, k: nat): bv32 {
    if k == 0 then crc else PolyStep(PolySteps(crc, k - 1))
  }

  /** The eight division steps of one byte. */
  function ByteSteps(x: bv32): bv32 {
    PolySteps(x, 8)
  }

  /** A byte placed in the top eight bits of the register. */
  function Placed(b: bv8): bv32 {
    (b as bv32) << 24
  }

  /** The textbook byte step: XOR the byte into the top of the register and
      divide eight times. */
  function BitwiseNext(crc: bv32, c: bv8): bv32 {
    ByteSteps(crc ^ Placed(c))
  }

  function BitwiseFold(crc: bv32, s: seq<bv8>): bv32
    decreases |s|
  {
    if s == [] then crc else BitwiseNext(BitwiseFold(crc, s[..|s| - 1]), s[|s| - 1])
  }

  // -- The table-driven definition -- //

  /** Entry i of crc_tab32: i << 24 divided eight times. */
  function TableEntry(i: bv8): bv32 {
    ByteSteps(Placed(i))
  }

  function Table(): (t: seq<bv32>)
    ensures |t| == 256
  {
    seq(256, i requires 0 <= i < 256 => TableEntry(i as bv8))
  }

  /** The table index of stm32crc_next: the top byte of the register XOR the input byte. */
  function TableIndex(crc: bv32, c: bv8): bv8 {
    ((crc >> 24) as bv8) ^ c
  }

  /** The index as the C code computes it, in 32 bits and masked to a byte. */
  lemma TableIndexMasked(crc: bv32, c: bv8)
    ensures ((crc >> 24) ^ (c as bv32)) & 0xFF == TableIndex(crc, c) as bv32
  {
  }

  /** stm32crc_next over a filled table. */
  function CrcNext(crc: bv32, c: bv8): bv32 {
    Shl8(crc) ^ TableEntry(TableIndex(crc, c))
  }

  /** CrcNext folded over s, first byte first. */
  function CrcFold(crc: bv32, s: seq<bv8>): bv32
    decreases |s|
  {
    if s == [] then crc else CrcNext(CrcFold(crc, s[..|s| - 1]), s[|s| - 1])
  }

  /** The one-shot CRC of s. */
  function CrcCalc(s: seq<bv8>): bv32 {
    CrcFold(CrcStart32, s)
  }

  // -- The table step is the bitwise step -- //

  /** The eight steps of one byte, written out. */
  function EightSteps(x: bv32): bv32 {
    PolyStep(PolyStep(PolyStep(PolyStep(PolyStep(PolyStep(PolyStep(PolyStep(x))))))))
  }

  lemma PolyStepsEight(x: bv32)
    ensures PolySteps(x, 8) == EightSteps(x)
  {
    assert PolySteps(x, 8) == PolyStep(PolySteps(x, 7));
    assert PolySteps(x, 7) == PolyStep(PolySteps(x, 6));
    assert PolySteps(x, 6) == PolyStep(PolySteps(x, 5));
    assert PolySteps(x, 5) == PolyStep(PolySteps(x, 4));
    assert PolySteps(x, 4) == PolyStep(PolySteps(x, 3));
    assert PolySteps(x, 3) == PolyStep(PolySteps(x, 2));
    assert PolySteps(x, 2) == PolyStep(PolySteps(x, 1));
  }

  lemma TopXor(a: bv32, b: bv32)
    ensures ((a ^ b) & 0x8000_0000 != 0) == ((a & 0x8000_0000 != 0) != (b & 0x8000_0000 != 0))
  {
  }

  lemma ShlXor(a: bv32, b: bv32)
    ensures (a ^ b) << 1 == (a << 1) ^ (b << 1)
  {
  }

  lemma XorSwap(u: bv32, v: bv32, pa: bv32, pb: bv32)
    ensures (u ^ v) ^ (pa ^ pb) == (u ^ pa) ^ (v ^ pb)
  {
  }

  lemma XorShl(a: bv32, b: bv32, pa: bv32, pb: bv32, p: bv32)
    requires p == pa ^ pb
    ensures ((a ^ b) << 1) ^ p == ((a << 1) ^ pa) ^ ((b << 1) ^ pb)
  {
    ShlXor(a, b);
    XorSwap(a << 1, b << 1, pa, pb);
  }

  /** A division step is linear over XOR. */
  lemma PolyStepXor(a: bv32, b: bv32)
    ensures PolyStep(a ^ b) == PolyStep(a) ^ PolyStep(b)
  {
    TopXor(a, b);
    var pa: bv32 := if a & 0x8000_0000 != 0 then CrcPoly32 else 0;
    var pb: bv32 := if b & 0x8000_0000 != 0 then CrcPoly32 else 0;
    var p: bv32 := if (a ^ b) & 0x8000_0000 != 0 then CrcPoly32 else 0;
    assert p == pa ^ pb;
    XorShl(a, b, pa, pb, p);
  }

  /** k division steps are linear over XOR. */
  lemma {:induction false} PolyStepsXor(a: bv32, b: bv32, k: nat)
    ensures PolySteps(a ^ b, k) == PolySteps(a, k) ^ PolySteps(b, k)
  {
    if k > 0 {
      PolyStepsXor(a, b, k - 1);
      PolyStepXor(PolySteps(a, k - 1), PolySteps(b, k - 1));
    }
  }

  /** While the top bit is clear a step is a plain shift; m tracks the bits known to be clear. */
  lemma PolyStepShifts(y: bv32, m: bv32)
    requires y & m == 0 && m & 0x8000_0000 != 0
    ensures PolyStep(y) == y << 1 && PolyStep(y) & (m << 1) == 0
  {
  }

  /** A register whose top byte is clear is only shifted by eight steps. */
  lemma EightStepsLow(lo: bv32)
    requires lo & 0xFF00_0000 == 0
    ensures EightSteps(lo) == lo << 8
  {
    var y := lo;
    PolyStepShifts(y, 0xFF00_0000); y := PolyStep(y);
    PolyStepShifts(y, 0xFE00_0000); y := PolyStep(y);
    PolyStepShifts(y, 0xFC00_0000); y := PolyStep(y);
    PolyStepShifts(y, 0xF800_0000); y := PolyStep(y);
    PolyStepShifts(y, 0xF000_0000); y := PolyStep(y);
    PolyStepShifts(y, 0xE000_0000); y := PolyStep(y);
    PolyStepShifts(y, 0xC000_0000); y := PolyStep(y);
    PolyStepShifts(y, 0x8000_0000);
  }

  /** The register shifted by one byte, `crc << 8` of the C code. */
  function Shl8(x: bv32): bv32 {
    x << 8
  }

  lemma ByteStepsLow(lo: bv32)
    requires lo & 0xFF00_0000 == 0
    ensures ByteSteps(lo) == Shl8(lo)
  {
    PolyStepsEight(lo);
    EightStepsLow(lo);
  }

  lemma XorComm(u: bv32, v: bv32)
    ensures u ^ v == v ^ u
  {
  }

  lemma ByteStepsXor(a: bv32, b: bv32)
    ensures ByteSteps(a ^ b) == ByteSteps(b) ^ ByteSteps(a)
  {
    PolyStepsXor(a, b, 8);
    XorComm(PolySteps(a, 8), PolySteps(b, 8));
  }

  /** Equality chained through a middle term, stated over plain values. */
  lemma Trans32(a: bv32, b: bv32, c: bv32)
    requires a == b
    requires b == c
    ensures a == c
  {
  }

  /** Eight steps of h ^ lo, where lo steps to s, are eight steps of h over s. */
  lemma DivideAtH(h: bv32, lo: bv32, s: bv32)
    requires ByteSteps(lo) == s
    ensures ByteSteps(h ^ lo) == s ^ ByteSteps(h)
  {
    ByteStepsXor(h, lo);
  }

  lemma DivideAt(i: bv8, lo: bv32, s: bv32)
    requires ByteSteps(lo) == s
    ensures ByteSteps(Placed(i) ^ lo) == s ^ ByteSteps(Placed(i))
  {
    DivideAtH(Placed(i), lo, s);
  }

  /** The register with the byte XORed in is the table index in the top
      byte over the low 24 bits of the register, which shift like the register. */
  lemma LowSplit(crc: bv32, c: bv8) returns (lo: bv32)
    ensures crc ^ Placed(c) == Placed(TableIndex(crc, c)) ^ lo
    ensures lo & 0xFF00_0000 == 0
    ensures Shl8(lo) == Shl8(crc)
  {
    lo := crc & 0x00FF_FFFF;
  }

  lemma ByteStepsCongr(a: bv32, b: bv32)
    requires a == b
    ensures ByteSteps(a) == ByteSteps(b)
  {
  }

  lemma ByteStepsLowShl(lo: bv32, crc: bv32)
    requires lo & 0xFF00_0000 == 0
    requires Shl8(lo) == Shl8(crc)
    ensures ByteSteps(lo) == Shl8(crc)
  {
    ByteStepsLow(lo);
  }

  lemma SplitByte(crc: bv32, c: bv8) returns (lo: bv32)
    ensures ByteSteps(crc ^ Placed(c)) == ByteSteps(Placed(TableIndex(crc, c)) ^ lo)
    ensures ByteSteps(lo) == Shl8(crc)
  {
    lo := LowSplit(crc, c);
    ByteStepsCongr(crc ^ Placed(c), Placed(TableIndex(crc, c)) ^ lo);
    ByteStepsLowShl(lo, crc);
  }

  lemma NextSplit(crc: bv32, c: bv8)
    ensures ByteSteps(crc ^ Placed(c)) == Shl8(crc) ^ ByteSteps(Placed(TableIndex(crc, c)))
  {
    var lo := SplitByte(crc, c);
    DivideAt(TableIndex(crc, c), lo, Shl8(crc));
    Trans32(ByteSteps(crc ^ Placed(c)), ByteSteps(Placed(TableIndex(crc, c)) ^ lo), Shl8(crc) ^ ByteSteps(Placed(TableIndex(crc, c))));
  }

  lemma EntryXor(s: bv32, i: bv8)
    ensures s ^ ByteSteps(Placed(i)) == s ^ TableEntry(i)
  {
  }

  /** The table step is the bitwise definition. */
  lemma CrcNextIsBitwise(crc: bv32, c: bv8)
    ensures CrcNext(crc, c) == BitwiseNext(crc, c)
  {
    NextSplit(crc, c);
    EntryXor(Shl8(crc), TableIndex(crc, c));
  }

  /** The table-driven CRC of any message equals the bitwise CRC. */
  lemma {:induction false} CrcFoldIsBitwise(crc: bv32, s: seq<bv8>)
    ensures CrcFold(crc, s) == BitwiseFold(crc, s)
    decreases |s|
  {
    if s != [] {
      CrcFoldIsBitwise(crc, s[..|s| - 1]);
      CrcNextIsBitwise(CrcFold(crc, s[..|s| - 1]), s[|s| - 1]);
    }
  }

  /** One byte of CrcNext with its table entry written out, for concrete inputs. */
  lemma CrcNextUnfolded(crc: bv32, c: bv8)
    ensures CrcNext(crc, c) == Shl8(crc) ^ EightSteps(Placed(TableIndex(crc, c)))
  {
    PolyStepsEight(Placed(TableIndex(crc, c)));
  }

  lemma CrcFoldSnoc(crc: bv32, s: seq<bv8>, b: bv8)
    ensures CrcFold(crc, s + [b]) == CrcNext(CrcFold(crc, s), b)
  {
    assert (s + [b])[..|s|] == s;
  }

  /** Folding over a concatenation folds over the second part from the
      result of the first: the streaming session depends on this. */
  lemma {:induction false} CrcFoldAppend(crc: bv32, a: seq<bv8>, b: seq<bv8>)
    ensures CrcFold(crc, a + b) == CrcFold(CrcFold(crc, a), b)
    decreases |b|
  {
    if b == [] {
      assert a + b == a;
    } else {
      var b' := b[..|b| - 1];
      assert (a + b)[..|a + b| - 1] == a + b';
      CrcFoldAppend(crc, a, b');
    }
  }

  /** The one-shot CRC of a ++ b is the one-shot CRC of a, continued over b. */
  lemma CrcCalcAppend(a: seq<bv8>, b: seq<bv8>)
    ensures CrcCalc(a + b) == CrcFold(CrcCalc(a), b)
  {
    CrcFoldAppend(CrcStart32, a, b);
  }

  // -- The regression vector of bench/stm32crc_tb.c -- //

  /** A character that fits in one byte, as that byte. */
  function Byte(ch: char): bv8
    requires ch as int < 256
  {
    ch as int as bv8
  }

  /** The bytes of a string whose characters all fit in one byte. */
  function Ascii(t: string): (r: seq<bv8>)
    requires forall i :: 0 <= i < |t| ==> t[i] as int < 256
    ensures |r| == |t|
  {
    seq(|t|, i requires 0 <= i < |t| => Byte(t[i]))
  }

  lemma AsciiAppend(s: string, t: string)
    requires forall i :: 0 <= i < |s| ==> s[i] as int < 256
    requires forall i :: 0 <= i < |t| ==> t[i] as int < 256
    ensures Ascii(s + t) == Ascii(s) + Ascii(t)
  {
    assert forall i :: 0 <= i < |s + t| ==> Ascii(s + t)[i] == (Ascii(s) + Ascii(t))[i];
  }

  const TestText0: string := "A test-"
  const TestText1: string := "string "
  const TestText2: string := "for CRC"
  const TestText3: string := "32 chec"
  const TestText4: string := "king\n"

  /** The message of the regression test, "A test-string for CRC32 checking\n". */
  const TestText: string := TestText0 + TestText1 + TestText2 + TestText3 + TestText4

  lemma TestChunk0()
    ensures Ascii(TestText0) == TestBytes0
  {
    var t := TestText0;
    assert Byte(t[0]) == 0x41 && Byte(t[1]) == 0x20 && Byte(t[2]) == 0x74 && Byte(t[3]) == 0x65;
    assert Byte(t[4]) == 0x73 && Byte(t[5]) == 0x74 && Byte(t[6]) == 0x2D;
  }

  lemma TestChunk1()
    ensures Ascii(TestText1) == TestBytes1
  {
    var t := TestText1;
    assert Byte(t[0]) == 0x73 && Byte(t[1]) == 0x74 && Byte(t[2]) == 0x72 && Byte(t[3]) == 0x69;
    assert Byte(t[4]) == 0x6E && Byte(t[5]) == 0x67 && Byte(t[6]) == 0x20;
  }

  lemma TestChunk2()
    ensures Ascii(TestText2) == TestBytes2
  {
    var t := TestText2;
    assert Byte(t[0]) == 0x66 && Byte(t[1]) == 0x6F && Byte(t[2]) == 0x72 && Byte(t[3]) == 0x20;
    assert Byte(t[4]) == 0x43 && Byte(t[5]) == 0x52 && Byte(t[6]) == 0x43;
  }

  lemma TestChunk3()
    ensures Ascii(TestText3) == TestBytes3
  {
    var t := TestText3;
    assert Byte(t[0]) == 0x33 && Byte(t[1]) == 0x32 && Byte(t[2]) == 0x20 && Byte(t[3]) == 0x63;
    assert Byte(t[4]) == 0x68 && Byte(t[5]) == 0x65 && Byte(t[6]) == 0x63;
  }

  lemma TestChunk4()
    ensures Ascii(TestText4) == TestBytes4
  {
    var t := TestText4;
    assert Byte(t[0]) == 0x6B && Byte(t[1]) == 0x69 && Byte(t[2]) == 0x6E && Byte(t[3]) == 0x67;
    assert Byte(t[4]) == 0x0A;
  }

  const TestBytes0: seq<bv8> := [0x41, 0x20, 0x74, 0x65, 0x73, 0x74, 0x2D]

  lemma TestVectorPart0()
    ensures CrcFold(0xFFFF_FFFF, [0x41, 0x20, 0x74, 0x65, 0x73, 0x74, 0x2D]) == 0xC0D1_0235
  {
    var p: seq<bv8> := [];
    CrcFoldSnoc(0xFFFF_FFFF, p, 0x41); CrcNextUnfolded(0xFFFF_FFFF, 0x41);
    p := p + [0x41];
    assert CrcFold(0xFFFF_FFFF, p) == 0x7E4F_D274;
    CrcFoldSnoc(0xFFFF_FFFF, p, 0x20); CrcNextUnfolded(0x7E4F_D274, 0x20);
    p := p + [0x20];
    assert CrcFold(0xFFFF_FFFF, p) == 0x0BCB_7F0D;
    CrcFoldSnoc(0xFFFF_FFFF, p, 0x74); CrcNextUnfolded(0x0BCB_7F0D, 0x74);
    p := p + [0x74];
    assert CrcFold(0xFFFF_FFFF, p) == 0x1384_AD5A;
    CrcFoldSnoc(0xFFFF_FFFF, p, 0x65); CrcNextUnfolded(0x1384_AD5A, 0x65);
    p := p + [0x65];
    assert CrcFold(0xFFFF_FFFF, p) == 0x7E9F_0A55;
    CrcFoldSnoc(0xFFFF_FFFF, p, 0x73); CrcNextUnfolded(0x7E9F_0A55, 0x73);
    p := p + [0x73];
    assert CrcFold(0xFFFF_FFFF, p) == 0xAEC7_D3D3;
    CrcFoldSnoc(0xFFFF_FFFF, p, 0x74); CrcNextUnfolded(0xAEC7_D3D3, 0x74);
    p := p + [0x74];
    assert CrcFold(0xFFFF_FFFF, p) == 0xF9C2_4E3F;
    CrcFoldSnoc(0xFFFF_FFFF, p, 0x2D); CrcNextUnfolded(0xF9C2_4E3F, 0x2D);
    p := p + [0x2D];
    assert CrcFold(0xFFFF_FFFF, p) == 0xC0D1_0235;
    assert p == [0x41, 0x20, 0x74, 0x65, 0x73, 0x74, 0x2D];
  }

  const TestBytes1: seq<bv8> := [0x73, 0x74, 0x72, 0x69, 0x6E, 0x67, 0x20]

  lemma TestVectorPart1()
    ensures CrcFold(0xC0D1_0235, [0x73, 0x74, 0x72, 0x69, 0x6E, 0x67, 0x20]) == 0xC43A_11D9
  {
    var p: seq<bv8> := [];
    CrcFoldSnoc(0xC0D1_0235, p, 0x73); CrcNextUnfolded(0xC0D1_0235, 0x73);
    p := p + [0x73];
    assert CrcFold(0xC0D1_0235, p) == 0x617F_9EA7;
    CrcFoldSnoc(0xC0D1_0235, p, 0x74); CrcNextUnfolded(0x617F_9EA7, 0x74);
    p := p + [0x74];
    assert CrcFold(0xC0D1_0235, p) == 0x244A_171B;
    CrcFoldSnoc(0xC0D1_0235, p, 0x72); CrcNextUnfolded(0x244A_171B, 0x72);
    p := p + [0x72];
    assert CrcFold(0xC0D1_0235, p) == 0x2806_FDB5;
    CrcFoldSnoc(0xC0D1_0235, p, 0x69); CrcNextUnfolded(0x2806_FDB5, 0x69);
    p := p + [0x69];
    assert CrcFold(0xC0D1_0235, p) == 0x36BA_D8C0;
    CrcFoldSnoc(0xC0D1_0235, p, 0x6E); CrcNextUnfolded(0x36BA_D8C0, 0x6E);
    p := p + [0x6E];
    assert CrcFold(0xC0D1_0235, p) == 0xE447_86BF;
    CrcFoldSnoc(0xC0D1_0235, p, 0x67); CrcNextUnfolded(0xE447_86BF, 0x67);
    p := p + [0x67];
    assert CrcFold(0xC0D1_0235, p) == 0x23C9_7937;
    CrcFoldSnoc(0xC0D1_0235, p, 0x20); CrcNextUnfolded(0x23C9_7937, 0x20);
    p := p + [0x20];
    assert CrcFold(0xC0D1_0235, p) == 0xC43A_11D9;
    assert p == [0x73, 0x74, 0x72, 0x69, 0x6E, 0x67, 0x20];
  }

  const TestBytes2: seq<bv8> := [0x66, 0x6F, 0x72, 0x20, 0x43, 0x52, 0x43]

  lemma TestVectorPart2()
    ensures CrcFold(0xC43A_11D9, [0x66, 0x6F, 0x72, 0x20, 0x43, 0x52, 0x43]) == 0x4743_A803
  {
    var p: seq<bv8> := [];
    CrcFoldSnoc(0xC43A_11D9, p, 0x66); CrcNextUnfolded(0xC43A_11D9, 0x66);
    p := p + [0x66];
    assert CrcFold(0xC43A_11D9, p) == 0xC2BC_B460;
    CrcFoldSnoc(0xC43A_11D9, p, 0x6F); CrcNextUnfolded(0xC2BC_B460, 0x6F);
    p := p + [0x6F];
    assert CrcFold(0xC43A_11D9, p) == 0x7C56_B0DD;
    CrcFoldSnoc(0xC43A_11D9, p, 0x72); CrcNextUnfolded(0x7C56_B0DD, 0x72);
    p := p + [0x72];
    assert CrcFold(0xC43A_11D9, p) == 0x6A3E_7D0A;
    CrcFoldSnoc(0xC43A_11D9, p, 0x20); CrcNextUnfolded(0x6A3E_7D0A, 0x20);
    p := p + [0x20];
    assert CrcFold(0xC43A_11D9, p) == 0x2571_ACA1;
    CrcFoldSnoc(0xC43A_11D9, p, 0x43); CrcNextUnfolded(0x2571_ACA1, 0x43);
    p := p + [0x43];
    assert CrcFold(0xC43A_11D9, p) == 0xC78F_2A25;
    CrcFoldSnoc(0xC43A_11D9, p, 0x52); CrcNextUnfolded(0xC78F_2A25, 0x52);
    p := p + [0x52];
    assert CrcFold(0xC43A_11D9, p) == 0xBDF2_75F5;
    CrcFoldSnoc(0xC43A_11D9, p, 0x43); CrcNextUnfolded(0xBDF2_75F5, 0x43);
    p := p + [0x43];
    assert CrcFold(0xC43A_11D9, p) == 0x4743_A803;
    assert p == [0x66, 0x6F, 0x72, 0x20, 0x43, 0x52, 0x43];
  }

  const TestBytes3: seq<bv8> := [0x33, 0x32, 0x20, 0x63, 0x68, 0x65, 0x63]

  lemma TestVectorPart3()
    ensures CrcFold(0x4743_A803, [0x33, 0x32, 0x20, 0x63, 0x68, 0x65, 0x63]) == 0xF5AE_448A
  {
    var p: seq<bv8> := [];
    CrcFoldSnoc(0x4743_A803, p, 0x33); CrcNextUnfolded(0x4743_A803, 0x33);
    p := p + [0x33];
    assert CrcFold(0x4743_A803, p) == 0xB018_683B;
    CrcFoldSnoc(0x4743_A803, p, 0x32); CrcNextUnfolded(0xB018_683B, 0x32);
    p := p + [0x32];
    assert CrcFold(0x4743_A803, p) == 0x78E6_E080;
    CrcFoldSnoc(0x4743_A803, p, 0x20); CrcNextUnfolded(0x78E6_E080, 0x20);
    p := p + [0x20];
    assert CrcFold(0x4743_A803, p) == 0xB87F_C6BF;
    CrcFoldSnoc(0x4743_A803, p, 0x63); CrcNextUnfolded(0xB87F_C6BF, 0x63);
    p := p + [0x63];
    assert CrcFold(0x4743_A803, p) == 0x4516_3F88;
    CrcFoldSnoc(0x4743_A803, p, 0x68); CrcNextUnfolded(0x4516_3F88, 0x68);
    p := p + [0x68];
    assert CrcFold(0x4743_A803, p) == 0xBFD1_B833;
    CrcFoldSnoc(0x4743_A803, p, 0x65); CrcNextUnfolded(0xBFD1_B833, 0x65);
    p := p + [0x65];
    assert CrcFold(0x4743_A803, p) == 0xEFA9_AE3F;
    CrcFoldSnoc(0x4743_A803, p, 0x63); CrcNextUnfolded(0xEFA9_AE3F, 0x63);
    p := p + [0x63];
    assert CrcFold(0x4743_A803, p) == 0xF5AE_448A;
    assert p == [0x33, 0x32, 0x20, 0x63, 0x68, 0x65, 0x63];
  }

  const TestBytes4: seq<bv8> := [0x6B, 0x69, 0x6E, 0x67, 0x0A]

  lemma TestVectorPart4()
    ensures CrcFold(0xF5AE_448A, [0x6B, 0x69, 0x6E, 0x67, 0x0A]) == 0xF1C1_4AD9
  {
    var p: seq<bv8> := [];
    CrcFoldSnoc(0xF5AE_448A, p, 0x6B); CrcNextUnfolded(0xF5AE_448A, 0x6B);
    p := p + [0x6B];
    assert CrcFold(0xF5AE_448A, p) == 0xB7D7_1194;
    CrcFoldSnoc(0xF5AE_448A, p, 0x69); CrcNextUnfolded(0xB7D7_1194, 0x69);
    p := p + [0x69];
    assert CrcFold(0xF5AE_448A, p) == 0xFA04_7FE3;
    CrcFoldSnoc(0xF5AE_448A, p, 0x6E); CrcNextUnfolded(0xFA04_7FE3, 0x6E);
    p := p + [0x6E];
    assert CrcFold(0xF5AE_448A, p) == 0x3266_AE42;
    CrcFoldSnoc(0xF5AE_448A, p, 0x67); CrcNextUnfolded(0x3266_AE42, 0x67);
    p := p + [0x67];
    assert CrcFold(0xF5AE_448A, p) == 0x09FC_826C;
    CrcFoldSnoc(0xF5AE_448A, p, 0x0A); CrcNextUnfolded(0x09FC_826C, 0x0A);
    p := p + [0x0A];
    assert CrcFold(0xF5AE_448A, p) == 0xF1C1_4AD9;
    assert p == [0x6B, 0x69, 0x6E, 0x67, 0x0A];
  }

  /** Two folds in a row are one fold over the concatenation. */
  lemma CrcFoldJoin(crc: bv32, a: seq<bv8>, b: seq<bv8>, v: bv32, w: bv32)
    requires CrcFold(crc, a) == v
    requires CrcFold(v, b) == w
    ensures CrcFold(crc, a + b) == w
  {
    CrcFoldAppend(crc, a, b);
  }

  lemma TestVectorFold()
    ensures CrcFold(CrcStart32, TestBytes0 + TestBytes1 + TestBytes2 + TestBytes3 + TestBytes4) == 0xF1C1_4AD9
  {
    TestVectorPart0();
    TestVectorPart1();
    CrcFoldJoin(CrcStart32, TestBytes0, TestBytes1, 0xC0D1_0235, 0xC43A_11D9);
    TestVectorPart2();
    CrcFoldJoin(CrcStart32, TestBytes0 + TestBytes1, TestBytes2, 0xC43A_11D9, 0x4743_A803);
    TestVectorPart3();
    CrcFoldJoin(CrcStart32, TestBytes0 + TestBytes1 + TestBytes2, TestBytes3, 0x4743_A803, 0xF5AE_448A);
    TestVectorPart4();
    CrcFoldJoin(CrcStart32, TestBytes0 + TestBytes1 + TestBytes2 + TestBytes3, TestBytes4, 0xF5AE_448A, 0xF1C1_4AD9);
  }

  lemma TestVectorBytes()
    ensures Ascii(TestText) == TestBytes0 + TestBytes1 + TestBytes2 + TestBytes3 + TestBytes4
  {
    TestChunk0(); TestChunk1(); TestChunk2(); TestChunk3(); TestChunk4();
    AsciiAppend(TestText0, TestText1);
    AsciiAppend(TestText0 + TestText1, TestText2);
    AsciiAppend(TestText0 + TestText1 + TestText2, TestText3);
    AsciiAppend(TestText0 + TestText1 + TestText2 + TestText3, TestText4);
  }

  /** calc("A test-string for CRC32 checking\n", 33) == 0xF1C14AD9. */
  lemma TestVector()
    ensures |TestText| == 33
    ensures CrcCalc(Ascii(TestText)) == 0xF1C1_4AD9
  {
    TestVectorBytes();
    TestVectorFold();
  }

  /** The table slot the C code reads: `tmp & 0xff` as an array index. */
  lemma IndexAsWritten(crc: bv32, c: bv8)
    ensures (((crc >> 24) ^ (c as bv32)) & 0xFF) as int == TableIndex(crc, c) as int
  {
    TableIndexMasked(crc, c);
  }

  lemma TableAt(t: seq<bv32>, i: bv8)
    requires t == Table()
    ensures t[i as int] == TableEntry(i)
  {
  }

  lemma Shl8AsWritten(crc: bv32)
    ensures crc << 8 == Shl8(crc)
  {
  }

  /** The two halves of a table step, computed separately, combine into it. */
  lemma NextFromParts(crc: bv32, c: bv8, hi: bv32, e: bv32)
    requires hi == Shl8(crc)
    requires e == TableEntry(TableIndex(crc, c))
    ensures hi ^ e == CrcNext(crc, c)
  {
  }

  lemma EntryAsSteps(b: bv8)
    ensures TableEntry(b) == PolySteps(Placed(b), 8)
  {
  }

  lemma PolyStepsNext(x: bv32, j: nat)
    ensures PolySteps(x, j + 1) == PolyStep(PolySteps(x, j))
  {
  }

  lemma CrcFoldPrefix(crc: bv32, s: seq<bv8>, a: nat)
    requires a < |s|
    ensures CrcFold(crc, s[..a + 1]) == CrcNext(CrcFold(crc, s[..a]), s[a])
  {
    assert s[..a + 1] == s[..a] + [s[a]];
    CrcFoldSnoc(crc, s[..a], s[a]);
  }

  // -- The imperative engine -- //

  /** The static state of src/stm32crc.c: crc_tab32 and crc_tab32_init. */
  class Engine {
    var crcTab32: array<bv32>
    var crcTab32Init: bool

    ghost predicate Valid()
      reads this, crcTab32
    {
      crcTab32.Length == 256 &&
      (crcTab32Init ==> crcTab32[..] == Table())
    }

    /** Program start: a zeroed table, not yet initialised. */
    constructor ()
      ensures Valid() && !crcTab32Init && fresh(crcTab32)
    {
      crcTab32 := new bv32[256](_ => 0);
      crcTab32Init := false;
    }

    /** stm32crc_init: fill the table and set the flag. The result does not
        depend on the previous contents, so a second call changes nothing. */
    method Init()
      requires Valid()
      modifies this`crcTab32Init, crcTab32
      ensures Valid() && crcTab32Init
      ensures crcTab32[..] == Table()
    {
      var i := 0;
      while i < 256
        invariant 0 <= i <= 256
        invariant forall t :: 0 <= t < i ==> crcTab32[t] == TableEntry(t as bv8)
      {
        var crc: bv32 := Placed(i as bv8);
        var j := 0;
        while j < 8
          invariant 0 <= j <= 8
          invariant crc == PolySteps(Placed(i as bv8), j)
          modifies {}
        {
          PolyStepAsWritten(crc);
          PolyStepsNext(Placed(i as bv8), j);
          crc := (crc << 1) ^ (((crc >> 31) & 1) * CrcPoly32);
          j := j + 1;
        }
        EntryAsSteps(i as bv8);
        crcTab32[i] := crc;
        i := i + 1;
      }
      crcTab32Init := true;
      assert forall t :: 0 <= t < 256 ==> crcTab32[..][t] == Table()[t];
    }

    /** stm32crc_calc: the one-shot CRC of the first numBytes bytes of input;
        a NULL input gives the start value. */
    method Calc(input: Option<seq<bv8>>, numBytes: nat) returns (crc: bv32)
      requires Valid()
      requires input.Some? ==> numBytes <= |input.value|
      modifies this`crcTab32Init, crcTab32
      ensures Valid() && crcTab32Init && crcTab32[..] == Table()
      ensures old(crcTab32Init) ==> unchanged(crcTab32)
      ensures crc == if input.None? then CrcStart32 else CrcCalc(input.value[..numBytes])
    {
      if !crcTab32Init {
        Init();
      }
      crc := CrcStart32;
      if input.Some? {
        var buf := input.value;
        var a := 0;
        while a < numBytes
          invariant 0 <= a <= numBytes
          modifies {}
          invariant crc == CrcFold(CrcStart32, buf[..a])
        {
          var tmp := (crc >> 24) ^ (buf[a] as bv32);
          IndexAsWritten(crc, buf[a]);
          TableAt(crcTab32[..], TableIndex(crc, buf[a]));
          var e := crcTab32[(tmp & 0xFF) as int];
          var hi := crc << 8;
          Shl8AsWritten(crc);
          NextFromParts(crc, buf[a], hi, e);
          CrcFoldPrefix(CrcStart32, buf, a);
          crc := hi ^ e;
          a := a + 1;
        }
      }
    }

    /** stm32crc_next: one table-driven byte step. */
    method Next(crc: bv32, c: bv8) returns (r: bv32)
      requires Valid()
      modifies this`crcTab32Init, crcTab32
      ensures Valid() && crcTab32Init && crcTab32[..] == Table()
      ensures old(crcTab32Init) ==> unchanged(crcTab32)
      ensures r == CrcNext(crc, c)
    {
      if !crcTab32Init {
        Init();
      }
      var tmp := (crc >> 24) ^ (c as bv32);
      IndexAsWritten(crc, c);
      TableAt(crcTab32[..], TableIndex(crc, c));
      var e := crcTab32[(tmp & 0xFF) as int];
      var hi := crc << 8;
      Shl8AsWritten(crc);
      NextFromParts(crc, c, hi, e);
      r := hi ^ e;
    }
  }
}
