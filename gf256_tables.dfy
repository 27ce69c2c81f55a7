/** The logarithm and exponential tables of GF(2^8) (crates/shamir/src/gf256.rs, lines 8-66),
  * written row by row as the source lays them out, and the two facts about them that the field
  * arithmetic relies on:
  *   - `LogInverse`: for every nonzero byte a, GF256_EXP[GF256_LOG[a]] == a with GF256_LOG[a] < 255;
  *   - `ExpStep`: every entry of GF256_EXP is 0x03 times the entry before it.
  * Each fact is proved one 16-entry row at a time and carried over to the whole table by lemmas
  * about `Flatten` that hold for any rows. */
module GF256Tables {
  /** An entry of the logarithm table: an exponent, used as an index into the exponential table. */
  newtype uint8 = x: int | 0 <= x < 0x100

  /** A logarithm table: one entry per byte. */
  type LogTable = s: seq<uint8> | |s| == 256 witness seq(256, _ => 0)

  /** The powers of the generator, one cycle. */
  type ExpCycle = s: seq<bv8> | |s| == 255 witness seq(255, _ => 0)

  /** An exponential table: the cycle twice. */
  type ExpTable = s: seq<bv8> | |s| == 510 witness seq(510, _ => 0)

  const LOG_ROW_0: seq<uint8> := [0xff, 0x00, 0x19, 0x01, 0x32, 0x02, 0x1a, 0xc6, 0x4b, 0xc7, 0x1b, 0x68, 0x33, 0xee, 0xdf, 0x03]
  const LOG_ROW_1: seq<uint8> := [0x64, 0x04, 0xe0, 0x0e, 0x34, 0x8d, 0x81, 0xef, 0x4c, 0x71, 0x08, 0xc8, 0xf8, 0x69, 0x1c, 0xc1]
  const LOG_ROW_2: seq<uint8> := [0x7d, 0xc2, 0x1d, 0xb5, 0xf9, 0xb9, 0x27, 0x6a, 0x4d, 0xe4, 0xa6, 0x72, 0x9a, 0xc9, 0x09, 0x78]
  const LOG_ROW_3: seq<uint8> := [0x65, 0x2f, 0x8a, 0x05, 0x21, 0x0f, 0xe1, 0x24, 0x12, 0xf0, 0x82, 0x45, 0x35, 0x93, 0xda, 0x8e]
  const LOG_ROW_4: seq<uint8> := [0x96, 0x8f, 0xdb, 0xbd, 0x36, 0xd0, 0xce, 0x94, 0x13, 0x5c, 0xd2, 0xf1, 0x40, 0x46, 0x83, 0x38]
  const LOG_ROW_5: seq<uint8> := [0x66, 0xdd, 0xfd, 0x30, 0xbf, 0x06, 0x8b, 0x62, 0xb3, 0x25, 0xe2, 0x98, 0x22, 0x88, 0x91, 0x10]
  const LOG_ROW_6: seq<uint8> := [0x7e, 0x6e, 0x48, 0xc3, 0xa3, 0xb6, 0x1e, 0x42, 0x3a, 0x6b, 0x28, 0x54, 0xfa, 0x85, 0x3d, 0xba]
  const LOG_ROW_7: seq<uint8> := [0x2b, 0x79, 0x0a, 0x15, 0x9b, 0x9f, 0x5e, 0xca, 0x4e, 0xd4, 0xac, 0xe5, 0xf3, 0x73, 0xa7, 0x57]
  const LOG_ROW_8: seq<uint8> := [0xaf, 0x58, 0xa8, 0x50, 0xf4, 0xea, 0xd6, 0x74, 0x4f, 0xae, 0xe9, 0xd5, 0xe7, 0xe6, 0xad, 0xe8]
  const LOG_ROW_9: seq<uint8> := [0x2c, 0xd7, 0x75, 0x7a, 0xeb, 0x16, 0x0b, 0xf5, 0x59, 0xcb, 0x5f, 0xb0, 0x9c, 0xa9, 0x51, 0xa0]
  const LOG_ROW_10: seq<uint8> := [0x7f, 0x0c, 0xf6, 0x6f, 0x17, 0xc4, 0x49, 0xec, 0xd8, 0x43, 0x1f, 0x2d, 0xa4, 0x76, 0x7b, 0xb7]
  const LOG_ROW_11: seq<uint8> := [0xcc, 0xbb, 0x3e, 0x5a, 0xfb, 0x60, 0xb1, 0x86, 0x3b, 0x52, 0xa1, 0x6c, 0xaa, 0x55, 0x29, 0x9d]
  const LOG_ROW_12: seq<uint8> := [0x97, 0xb2, 0x87, 0x90, 0x61, 0xbe, 0xdc, 0xfc, 0xbc, 0x95, 0xcf, 0xcd, 0x37, 0x3f, 0x5b, 0xd1]
  const LOG_ROW_13: seq<uint8> := [0x53, 0x39, 0x84, 0x3c, 0x41, 0xa2, 0x6d, 0x47, 0x14, 0x2a, 0x9e, 0x5d, 0x56, 0xf2, 0xd3, 0xab]
  const LOG_ROW_14: seq<uint8> := [0x44, 0x11, 0x92, 0xd9, 0x23, 0x20, 0x2e, 0x89, 0xb4, 0x7c, 0xb8, 0x26, 0x77, 0x99, 0xe3, 0xa5]
  const LOG_ROW_15: seq<uint8> := [0x67, 0x4a, 0xed, 0xde, 0xc5, 0x31, 0xfe, 0x18, 0x0d, 0x63, 0x8c, 0x80, 0xc0, 0xf7, 0x70, 0x07]

  /** The rows of `GF256_LOG`, in order. */
  const LOG_ROWS: seq<seq<uint8>> := [
    LOG_ROW_0, LOG_ROW_1, LOG_ROW_2, LOG_ROW_3, LOG_ROW_4, LOG_ROW_5, LOG_ROW_6, LOG_ROW_7,
    LOG_ROW_8, LOG_ROW_9, LOG_ROW_10, LOG_ROW_11, LOG_ROW_12, LOG_ROW_13, LOG_ROW_14, LOG_ROW_15]

  /** `GF256_LOG` (source lines 10-27): entry a is the exponent e with 0x03^e == a; entry 0, which
    * has no logarithm, holds 0xff. */
  const GF256_LOG: LogTable := (LogWidths(); FlattenLength(LOG_ROWS); Flatten(LOG_ROWS))

  const EXP_ROW_0: seq<bv8> := [0x01, 0x03, 0x05, 0x0f, 0x11, 0x33, 0x55, 0xff, 0x1a, 0x2e, 0x72, 0x96, 0xa1, 0xf8, 0x13, 0x35]
  const EXP_ROW_1: seq<bv8> := [0x5f, 0xe1, 0x38, 0x48, 0xd8, 0x73, 0x95, 0xa4, 0xf7, 0x02, 0x06, 0x0a, 0x1e, 0x22, 0x66, 0xaa]
  const EXP_ROW_2: seq<bv8> := [0xe5, 0x34, 0x5c, 0xe4, 0x37, 0x59, 0xeb, 0x26, 0x6a, 0xbe, 0xd9, 0x70, 0x90, 0xab, 0xe6, 0x31]
  const EXP_ROW_3: seq<bv8> := [0x53, 0xf5, 0x04, 0x0c, 0x14, 0x3c, 0x44, 0xcc, 0x4f, 0xd1, 0x68, 0xb8, 0xd3, 0x6e, 0xb2, 0xcd]
  const EXP_ROW_4: seq<bv8> := [0x4c, 0xd4, 0x67, 0xa9, 0xe0, 0x3b, 0x4d, 0xd7, 0x62, 0xa6, 0xf1, 0x08, 0x18, 0x28, 0x78, 0x88]
  const EXP_ROW_5: seq<bv8> := [0x83, 0x9e, 0xb9, 0xd0, 0x6b, 0xbd, 0xdc, 0x7f, 0x81, 0x98, 0xb3, 0xce, 0x49, 0xdb, 0x76, 0x9a]
  const EXP_ROW_6: seq<bv8> := [0xb5, 0xc4, 0x57, 0xf9, 0x10, 0x30, 0x50, 0xf0, 0x0b, 0x1d, 0x27, 0x69, 0xbb, 0xd6, 0x61, 0xa3]
  const EXP_ROW_7: seq<bv8> := [0xfe, 0x19, 0x2b, 0x7d, 0x87, 0x92, 0xad, 0xec, 0x2f, 0x71, 0x93, 0xae, 0xe9, 0x20, 0x60, 0xa0]
  const EXP_ROW_8: seq<bv8> := [0xfb, 0x16, 0x3a, 0x4e, 0xd2, 0x6d, 0xb7, 0xc2, 0x5d, 0xe7, 0x32, 0x56, 0xfa, 0x15, 0x3f, 0x41]
  const EXP_ROW_9: seq<bv8> := [0xc3, 0x5e, 0xe2, 0x3d, 0x47, 0xc9, 0x40, 0xc0, 0x5b, 0xed, 0x2c, 0x74, 0x9c, 0xbf, 0xda, 0x75]
  const EXP_ROW_10: seq<bv8> := [0x9f, 0xba, 0xd5, 0x64, 0xac, 0xef, 0x2a, 0x7e, 0x82, 0x9d, 0xbc, 0xdf, 0x7a, 0x8e, 0x89, 0x80]
  const EXP_ROW_11: seq<bv8> := [0x9b, 0xb6, 0xc1, 0x58, 0xe8, 0x23, 0x65, 0xaf, 0xea, 0x25, 0x6f, 0xb1, 0xc8, 0x43, 0xc5, 0x54]
  const EXP_ROW_12: seq<bv8> := [0xfc, 0x1f, 0x21, 0x63, 0xa5, 0xf4, 0x07, 0x09, 0x1b, 0x2d, 0x77, 0x99, 0xb0, 0xcb, 0x46, 0xca]
  const EXP_ROW_13: seq<bv8> := [0x45, 0xcf, 0x4a, 0xde, 0x79, 0x8b, 0x86, 0x91, 0xa8, 0xe3, 0x3e, 0x42, 0xc6, 0x51, 0xf3, 0x0e]
  const EXP_ROW_14: seq<bv8> := [0x12, 0x36, 0x5a, 0xee, 0x29, 0x7b, 0x8d, 0x8c, 0x8f, 0x8a, 0x85, 0x94, 0xa7, 0xf2, 0x0d, 0x17]
  const EXP_ROW_15: seq<bv8> := [0x39, 0x4b, 0xdd, 0x7c, 0x84, 0x97, 0xa2, 0xfd, 0x1c, 0x24, 0x6c, 0xb4, 0xc7, 0x52, 0xf6]

  /** The rows of one cycle of `GF256_EXP`, in order; the last row has 15 entries. */
  const EXP_ROWS: seq<seq<bv8>> := [
    EXP_ROW_0, EXP_ROW_1, EXP_ROW_2, EXP_ROW_3, EXP_ROW_4, EXP_ROW_5, EXP_ROW_6, EXP_ROW_7,
    EXP_ROW_8, EXP_ROW_9, EXP_ROW_10, EXP_ROW_11, EXP_ROW_12, EXP_ROW_13, EXP_ROW_14, EXP_ROW_15]

  /** The first half of `GF256_EXP` (source lines 33-48): 0x03 raised to the powers 0..254. */
  const EXP_CYCLE: ExpCycle := (ExpWidths(); FlattenLength(EXP_ROWS); Flatten(EXP_ROWS))

  /** `GF256_EXP` (source lines 31-66): the 255 powers of 0x03 listed twice, so that the sum of two
    * logarithms indexes it without a reduction modulo 255. */
  const GF256_EXP: ExpTable := EXP_CYCLE + EXP_CYCLE

  /** Multiplication by x (the byte 0x02) modulo x^8 + x^4 + x^3 + x + 1: `xtime` of FIPS 197,
    * section 4.2.1. */
  function XTime(b: bv8): bv8 {
    if b & 0x80 == 0 then b << 1 else (b << 1) ^ 0x1b
  }

  /** Multiplication by the generator 0x03 = x + 1. */
  function Times3(b: bv8): bv8 {
    b ^ XTime(b)
  }

  // ---------------------------------------------------------------------------------------
  // The facts the field arithmetic uses

  /** Every nonzero byte has a logarithm below 255, and 0x03 raised to it is the byte again. */
  lemma LogInverse(a: bv8)
    requires a != 0
    ensures GF256_LOG[a as int] < 255 && GF256_EXP[GF256_LOG[a as int]] == a
  {
    var e := LogInverseInCycle(a);
    AppendLeft(EXP_CYCLE, EXP_CYCLE, e);
  }

  /** Each entry of the exponential table is 0x03 times the entry before it; in particular the
    * table holds the powers of 0x03 in order. */
  lemma ExpStep(i: int)
    requires 0 <= i < 509
    ensures GF256_EXP[i + 1] == Times3(GF256_EXP[i])
  {
    if i < 254 {
      CycleStep(i);
      AppendLeft(EXP_CYCLE, EXP_CYCLE, i);
      AppendLeft(EXP_CYCLE, EXP_CYCLE, i + 1);
    } else if i == 254 {
      CycleWraps();
      AppendLeft(EXP_CYCLE, EXP_CYCLE, 254);
      AppendRight(EXP_CYCLE, EXP_CYCLE, 255);
    } else {
      CycleStep(i - 255);
      AppendRight(EXP_CYCLE, EXP_CYCLE, i);
      AppendRight(EXP_CYCLE, EXP_CYCLE, i + 1);
    }
  }

  /** The second half of the exponential table repeats the first. */
  lemma ExpPeriodic(i: int)
    requires 0 <= i < 255
    ensures GF256_EXP[i + 255] == GF256_EXP[i]
  {
    AppendLeft(EXP_CYCLE, EXP_CYCLE, i);
    AppendRight(EXP_CYCLE, EXP_CYCLE, i + 255);
  }

  /** The exponential table starts at 0x03^0 == 1. */
  lemma ExpZero()
    ensures GF256_EXP[0] == 1
  {
    ExpRowAt0(0);
    AppendLeft(EXP_CYCLE, EXP_CYCLE, 0);
  }

  // ---------------------------------------------------------------------------------------
  // Rows

  /** The entries of the rows, row after row. */
  function Flatten<T>(rows: seq<seq<T>>): seq<T> {
    if |rows| == 0 then [] else rows[0] + Flatten(rows[1..])
  }

  /** In rows of 16 entries, entry c of row k lies at 16 * k + c. */
  lemma {:induction false} FlattenAt<T>(rows: seq<seq<T>>, k: nat, c: nat)
    requires k < |rows| && c < |rows[k]|
    requires forall j | 0 <= j < k :: |rows[j]| == 16
    ensures 16 * k + c < |Flatten(rows)| && Flatten(rows)[16 * k + c] == rows[k][c]
    decreases k
  {
    if k > 0 {
      assert rows[1..][k - 1] == rows[k];
      FlattenAt(rows[1..], k - 1, c);
    }
  }

  /** Rows of 16 entries but for the last make 16 entries per row and the last row's. */
  lemma {:induction false} FlattenLength<T>(rows: seq<seq<T>>)
    requires 0 < |rows| && forall j | 0 <= j < |rows| - 1 :: |rows[j]| == 16
    ensures |Flatten(rows)| == 16 * (|rows| - 1) + |rows[|rows| - 1]|
    decreases |rows|
  {
    if |rows| > 1 {
      FlattenLength(rows[1..]);
    }
  }

  lemma AppendLeft<T>(s: seq<T>, t: seq<T>, i: int)
    requires 0 <= i < |s|
    ensures (s + t)[i] == s[i]
  {
  }

  lemma AppendRight<T>(s: seq<T>, t: seq<T>, i: int)
    requires |s| <= i < |s| + |t|
    ensures (s + t)[i] == t[i - |s|]
  {
  }

  lemma LogWidths()
    ensures |LOG_ROWS| == 16 && forall j | 0 <= j < 16 :: |LOG_ROWS[j]| == 16
  {
  }

  lemma ExpWidths()
    ensures |EXP_ROWS| == 16 && |EXP_ROWS[15]| == 15 && forall j | 0 <= j < 15 :: |EXP_ROWS[j]| == 16
  {
  }

  lemma LogRowAt0(i: int)
    requires 0 <= i < 16
    ensures GF256_LOG[i] == LOG_ROW_0[i - 0]
  {
    LogWidths();
    assert LOG_ROWS[0] == LOG_ROW_0;
    FlattenAt(LOG_ROWS, 0, i - 0);
  }

  lemma LogRowAt1(i: int)
    requires 16 <= i < 32
    ensures GF256_LOG[i] == LOG_ROW_1[i - 16]
  {
    LogWidths();
    assert LOG_ROWS[1] == LOG_ROW_1;
    FlattenAt(LOG_ROWS, 1, i - 16);
  }

  lemma LogRowAt2(i: int)
    requires 32 <= i < 48
    ensures GF256_LOG[i] == LOG_ROW_2[i - 32]
  {
    LogWidths();
    assert LOG_ROWS[2] == LOG_ROW_2;
    FlattenAt(LOG_ROWS, 2, i - 32);
  }

  lemma LogRowAt3(i: int)
    requires 48 <= i < 64
    ensures GF256_LOG[i] == LOG_ROW_3[i - 48]
  {
    LogWidths();
    assert LOG_ROWS[3] == LOG_ROW_3;
    FlattenAt(LOG_ROWS, 3, i - 48);
  }

  lemma LogRowAt4(i: int)
    requires 64 <= i < 80
    ensures GF256_LOG[i] == LOG_ROW_4[i - 64]
  {
    LogWidths();
    assert LOG_ROWS[4] == LOG_ROW_4;
    FlattenAt(LOG_ROWS, 4, i - 64);
  }

  lemma LogRowAt5(i: int)
    requires 80 <= i < 96
    ensures GF256_LOG[i] == LOG_ROW_5[i - 80]
  {
    LogWidths();
    assert LOG_ROWS[5] == LOG_ROW_5;
    FlattenAt(LOG_ROWS, 5, i - 80);
  }

  lemma LogRowAt6(i: int)
    requires 96 <= i < 112
    ensures GF256_LOG[i] == LOG_ROW_6[i - 96]
  {
    LogWidths();
    assert LOG_ROWS[6] == LOG_ROW_6;
    FlattenAt(LOG_ROWS, 6, i - 96);
  }

  lemma LogRowAt7(i: int)
    requires 112 <= i < 128
    ensures GF256_LOG[i] == LOG_ROW_7[i - 112]
  {
    LogWidths();
    assert LOG_ROWS[7] == LOG_ROW_7;
    FlattenAt(LOG_ROWS, 7, i - 112);
  }

  lemma LogRowAt8(i: int)
    requires 128 <= i < 144
    ensures GF256_LOG[i] == LOG_ROW_8[i - 128]
  {
    LogWidths();
    assert LOG_ROWS[8] == LOG_ROW_8;
    FlattenAt(LOG_ROWS, 8, i - 128);
  }

  lemma LogRowAt9(i: int)
    requires 144 <= i < 160
    ensures GF256_LOG[i] == LOG_ROW_9[i - 144]
  {
    LogWidths();
    assert LOG_ROWS[9] == LOG_ROW_9;
    FlattenAt(LOG_ROWS, 9, i - 144);
  }

  lemma LogRowAt10(i: int)
    requires 160 <= i < 176
    ensures GF256_LOG[i] == LOG_ROW_10[i - 160]
  {
    LogWidths();
    assert LOG_ROWS[10] == LOG_ROW_10;
    FlattenAt(LOG_ROWS, 10, i - 160);
  }

  lemma LogRowAt11(i: int)
    requires 176 <= i < 192
    ensures GF256_LOG[i] == LOG_ROW_11[i - 176]
  {
    LogWidths();
    assert LOG_ROWS[11] == LOG_ROW_11;
    FlattenAt(LOG_ROWS, 11, i - 176);
  }

  lemma LogRowAt12(i: int)
    requires 192 <= i < 208
    ensures GF256_LOG[i] == LOG_ROW_12[i - 192]
  {
    LogWidths();
    assert LOG_ROWS[12] == LOG_ROW_12;
    FlattenAt(LOG_ROWS, 12, i - 192);
  }

  lemma LogRowAt13(i: int)
    requires 208 <= i < 224
    ensures GF256_LOG[i] == LOG_ROW_13[i - 208]
  {
    LogWidths();
    assert LOG_ROWS[13] == LOG_ROW_13;
    FlattenAt(LOG_ROWS, 13, i - 208);
  }

  lemma LogRowAt14(i: int)
    requires 224 <= i < 240
    ensures GF256_LOG[i] == LOG_ROW_14[i - 224]
  {
    LogWidths();
    assert LOG_ROWS[14] == LOG_ROW_14;
    FlattenAt(LOG_ROWS, 14, i - 224);
  }

  lemma LogRowAt15(i: int)
    requires 240 <= i < 256
    ensures GF256_LOG[i] == LOG_ROW_15[i - 240]
  {
    LogWidths();
    assert LOG_ROWS[15] == LOG_ROW_15;
    FlattenAt(LOG_ROWS, 15, i - 240);
  }

  lemma ExpRowAt0(i: int)
    requires 0 <= i < 16
    ensures EXP_CYCLE[i] == EXP_ROW_0[i - 0]
  {
    ExpWidths();
    assert EXP_ROWS[0] == EXP_ROW_0;
    FlattenAt(EXP_ROWS, 0, i - 0);
  }

  lemma ExpRowAt1(i: int)
    requires 16 <= i < 32
    ensures EXP_CYCLE[i] == EXP_ROW_1[i - 16]
  {
    ExpWidths();
    assert EXP_ROWS[1] == EXP_ROW_1;
    FlattenAt(EXP_ROWS, 1, i - 16);
  }

  lemma ExpRowAt2(i: int)
    requires 32 <= i < 48
    ensures EXP_CYCLE[i] == EXP_ROW_2[i - 32]
  {
    ExpWidths();
    assert EXP_ROWS[2] == EXP_ROW_2;
    FlattenAt(EXP_ROWS, 2, i - 32);
  }

  lemma ExpRowAt3(i: int)
    requires 48 <= i < 64
    ensures EXP_CYCLE[i] == EXP_ROW_3[i - 48]
  {
    ExpWidths();
    assert EXP_ROWS[3] == EXP_ROW_3;
    FlattenAt(EXP_ROWS, 3, i - 48);
  }

  lemma ExpRowAt4(i: int)
    requires 64 <= i < 80
    ensures EXP_CYCLE[i] == EXP_ROW_4[i - 64]
  {
    ExpWidths();
    assert EXP_ROWS[4] == EXP_ROW_4;
    FlattenAt(EXP_ROWS, 4, i - 64);
  }

  lemma ExpRowAt5(i: int)
    requires 80 <= i < 96
    ensures EXP_CYCLE[i] == EXP_ROW_5[i - 80]
  {
    ExpWidths();
    assert EXP_ROWS[5] == EXP_ROW_5;
    FlattenAt(EXP_ROWS, 5, i - 80);
  }

  lemma ExpRowAt6(i: int)
    requires 96 <= i < 112
    ensures EXP_CYCLE[i] == EXP_ROW_6[i - 96]
  {
    ExpWidths();
    assert EXP_ROWS[6] == EXP_ROW_6;
    FlattenAt(EXP_ROWS, 6, i - 96);
  }

  lemma ExpRowAt7(i: int)
    requires 112 <= i < 128
    ensures EXP_CYCLE[i] == EXP_ROW_7[i - 112]
  {
    ExpWidths();
    assert EXP_ROWS[7] == EXP_ROW_7;
    FlattenAt(EXP_ROWS, 7, i - 112);
  }

  lemma ExpRowAt8(i: int)
    requires 128 <= i < 144
    ensures EXP_CYCLE[i] == EXP_ROW_8[i - 128]
  {
    ExpWidths();
    assert EXP_ROWS[8] == EXP_ROW_8;
    FlattenAt(EXP_ROWS, 8, i - 128);
  }

  lemma ExpRowAt9(i: int)
    requires 144 <= i < 160
    ensures EXP_CYCLE[i] == EXP_ROW_9[i - 144]
  {
    ExpWidths();
    assert EXP_ROWS[9] == EXP_ROW_9;
    FlattenAt(EXP_ROWS, 9, i - 144);
  }

  lemma ExpRowAt10(i: int)
    requires 160 <= i < 176
    ensures EXP_CYCLE[i] == EXP_ROW_10[i - 160]
  {
    ExpWidths();
    assert EXP_ROWS[10] == EXP_ROW_10;
    FlattenAt(EXP_ROWS, 10, i - 160);
  }

  lemma ExpRowAt11(i: int)
    requires 176 <= i < 192
    ensures EXP_CYCLE[i] == EXP_ROW_11[i - 176]
  {
    ExpWidths();
    assert EXP_ROWS[11] == EXP_ROW_11;
    FlattenAt(EXP_ROWS, 11, i - 176);
  }

  lemma ExpRowAt12(i: int)
    requires 192 <= i < 208
    ensures EXP_CYCLE[i] == EXP_ROW_12[i - 192]
  {
    ExpWidths();
    assert EXP_ROWS[12] == EXP_ROW_12;
    FlattenAt(EXP_ROWS, 12, i - 192);
  }

  lemma ExpRowAt13(i: int)
    requires 208 <= i < 224
    ensures EXP_CYCLE[i] == EXP_ROW_13[i - 208]
  {
    ExpWidths();
    assert EXP_ROWS[13] == EXP_ROW_13;
    FlattenAt(EXP_ROWS, 13, i - 208);
  }

  lemma ExpRowAt14(i: int)
    requires 224 <= i < 240
    ensures EXP_CYCLE[i] == EXP_ROW_14[i - 224]
  {
    ExpWidths();
    assert EXP_ROWS[14] == EXP_ROW_14;
    FlattenAt(EXP_ROWS, 14, i - 224);
  }

  lemma ExpRowAt15(i: int)
    requires 240 <= i < 255
    ensures EXP_CYCLE[i] == EXP_ROW_15[i - 240]
  {
    ExpWidths();
    assert EXP_ROWS[15] == EXP_ROW_15;
    FlattenAt(EXP_ROWS, 15, i - 240);
  }

  // ---------------------------------------------------------------------------------------
  // Steps of the exponential table

  /** From position i on, every entry of `row` is 0x03 times the entry before it. */
  predicate RowSteps(row: seq<bv8>, i: nat)
    decreases |row| - i
  {
    i + 1 >= |row| || (row[i + 1] == Times3(row[i]) && RowSteps(row, i + 1))
  }

  lemma {:induction false} RowStepAt(row: seq<bv8>, i: nat, j: nat)
    requires RowSteps(row, i) && i <= j && j + 1 < |row|
    ensures row[j + 1] == Times3(row[j])
    decreases j - i
  {
    if i < j {
      RowStepAt(row, i + 1, j);
    }
  }

  /** `b` starts with 0x03 times entry 15 of `a`. */
  predicate Joins(a: seq<bv8>, b: seq<bv8>) {
    15 < |a| && 0 < |b| && b[0] == Times3(a[15])
  }

  /** From row k on, each row steps by 0x03 and the next row starts where it leaves off. */
  predicate Chained(rows: seq<seq<bv8>>, k: nat)
    decreases |rows| - k
  {
    k >= |rows| ||
    (RowSteps(rows[k], 0) && (k + 1 < |rows| ==> Joins(rows[k], rows[k + 1])) && Chained(rows, k + 1))
  }

  lemma {:induction false} ChainedAt(rows: seq<seq<bv8>>, k: nat, j: nat)
    requires Chained(rows, k) && k <= j < |rows|
    ensures RowSteps(rows[j], 0) && (j + 1 < |rows| ==> Joins(rows[j], rows[j + 1]))
    decreases j - k
  {
    if k < j {
      ChainedAt(rows, k + 1, j);
    }
  }

  /** Chained rows of 16 entries, the last of at most 16, flatten to a sequence stepping by
    * 0x03. */
  lemma FlattenSteps(rows: seq<seq<bv8>>, i: nat)
    requires 0 < |rows| && |rows[|rows| - 1]| <= 16
    requires forall j | 0 <= j < |rows| - 1 :: |rows[j]| == 16
    requires Chained(rows, 0)
    requires i + 1 < |Flatten(rows)|
    ensures Flatten(rows)[i + 1] == Times3(Flatten(rows)[i])
  {
    FlattenLength(rows);
    var k, c := i / 16, i % 16;
    ChainedAt(rows, 0, k);
    FlattenAt(rows, k, c);
    if c + 1 < |rows[k]| {
      FlattenAt(rows, k, c + 1);
      RowStepAt(rows[k], 0, c);
    } else {
      FlattenAt(rows, k + 1, 0);
    }
  }

  lemma CycleStep(i: int)
    requires 0 <= i < 254
    ensures EXP_CYCLE[i + 1] == Times3(EXP_CYCLE[i])
  {
    ExpWidths();
    ExpChained0();
    FlattenSteps(EXP_ROWS, i);
  }

  /** 0x03 times the last power of the cycle is the first. */
  lemma CycleWraps()
    ensures EXP_CYCLE[0] == Times3(EXP_CYCLE[254])
  {
    ExpRowAt0(0);
    ExpRowAt15(254);
  }

  lemma ExpRowSteps0()
    ensures RowSteps(EXP_ROW_0, 0)
  {
  }

  lemma ExpRowSteps1()
    ensures RowSteps(EXP_ROW_1, 0)
  {
  }

  lemma ExpRowSteps2()
    ensures RowSteps(EXP_ROW_2, 0)
  {
  }

  lemma ExpRowSteps3()
    ensures RowSteps(EXP_ROW_3, 0)
  {
  }

  lemma ExpRowSteps4()
    ensures RowSteps(EXP_ROW_4, 0)
  {
  }

  lemma ExpRowSteps5()
    ensures RowSteps(EXP_ROW_5, 0)
  {
  }

  lemma ExpRowSteps6()
    ensures RowSteps(EXP_ROW_6, 0)
  {
  }

  lemma ExpRowSteps7()
    ensures RowSteps(EXP_ROW_7, 0)
  {
  }

  lemma ExpRowSteps8()
    ensures RowSteps(EXP_ROW_8, 0)
  {
  }

  lemma ExpRowSteps9()
    ensures RowSteps(EXP_ROW_9, 0)
  {
  }

  lemma ExpRowSteps10()
    ensures RowSteps(EXP_ROW_10, 0)
  {
  }

  lemma ExpRowSteps11()
    ensures RowSteps(EXP_ROW_11, 0)
  {
  }

  lemma ExpRowSteps12()
    ensures RowSteps(EXP_ROW_12, 0)
  {
  }

  lemma ExpRowSteps13()
    ensures RowSteps(EXP_ROW_13, 0)
  {
  }

  lemma ExpRowSteps14()
    ensures RowSteps(EXP_ROW_14, 0)
  {
  }

  lemma ExpRowSteps15()
    ensures RowSteps(EXP_ROW_15, 0)
  {
  }

  lemma ExpRowsJoin0()
    ensures Joins(EXP_ROW_0, EXP_ROW_1)
  {
  }

  lemma ExpRowsJoin1()
    ensures Joins(EXP_ROW_1, EXP_ROW_2)
  {
  }

  lemma ExpRowsJoin2()
    ensures Joins(EXP_ROW_2, EXP_ROW_3)
  {
  }

  lemma ExpRowsJoin3()
    ensures Joins(EXP_ROW_3, EXP_ROW_4)
  {
  }

  lemma ExpRowsJoin4()
    ensures Joins(EXP_ROW_4, EXP_ROW_5)
  {
  }

  lemma ExpRowsJoin5()
    ensures Joins(EXP_ROW_5, EXP_ROW_6)
  {
  }

  lemma ExpRowsJoin6()
    ensures Joins(EXP_ROW_6, EXP_ROW_7)
  {
  }

  lemma ExpRowsJoin7()
    ensures Joins(EXP_ROW_7, EXP_ROW_8)
  {
  }

  lemma ExpRowsJoin8()
    ensures Joins(EXP_ROW_8, EXP_ROW_9)
  {
  }

  lemma ExpRowsJoin9()
    ensures Joins(EXP_ROW_9, EXP_ROW_10)
  {
  }

  lemma ExpRowsJoin10()
    ensures Joins(EXP_ROW_10, EXP_ROW_11)
  {
  }

  lemma ExpRowsJoin11()
    ensures Joins(EXP_ROW_11, EXP_ROW_12)
  {
  }

  lemma ExpRowsJoin12()
    ensures Joins(EXP_ROW_12, EXP_ROW_13)
  {
  }

  lemma ExpRowsJoin13()
    ensures Joins(EXP_ROW_13, EXP_ROW_14)
  {
  }

  lemma ExpRowsJoin14()
    ensures Joins(EXP_ROW_14, EXP_ROW_15)
  {
  }

  lemma ExpChained15()
    ensures Chained(EXP_ROWS, 15)
  {
    ExpWidths();
    ExpRowSteps15();
    assert EXP_ROWS[15] == EXP_ROW_15;
  }

  lemma ExpChained14()
    ensures Chained(EXP_ROWS, 14)
  {
    ExpChained15();
    ExpRowSteps14();
    ExpRowsJoin14();
    assert EXP_ROWS[14] == EXP_ROW_14 && EXP_ROWS[15] == EXP_ROW_15;
  }

  lemma ExpChained13()
    ensures Chained(EXP_ROWS, 13)
  {
    ExpChained14();
    ExpRowSteps13();
    ExpRowsJoin13();
    assert EXP_ROWS[13] == EXP_ROW_13 && EXP_ROWS[14] == EXP_ROW_14;
  }

  lemma ExpChained12()
    ensures Chained(EXP_ROWS, 12)
  {
    ExpChained13();
    ExpRowSteps12();
    ExpRowsJoin12();
    assert EXP_ROWS[12] == EXP_ROW_12 && EXP_ROWS[13] == EXP_ROW_13;
  }

  lemma ExpChained11()
    ensures Chained(EXP_ROWS, 11)
  {
    ExpChained12();
    ExpRowSteps11();
    ExpRowsJoin11();
    assert EXP_ROWS[11] == EXP_ROW_11 && EXP_ROWS[12] == EXP_ROW_12;
  }

  lemma ExpChained10()
    ensures Chained(EXP_ROWS, 10)
  {
    ExpChained11();
    ExpRowSteps10();
    ExpRowsJoin10();
    assert EXP_ROWS[10] == EXP_ROW_10 && EXP_ROWS[11] == EXP_ROW_11;
  }

  lemma ExpChained9()
    ensures Chained(EXP_ROWS, 9)
  {
    ExpChained10();
    ExpRowSteps9();
    ExpRowsJoin9();
    assert EXP_ROWS[9] == EXP_ROW_9 && EXP_ROWS[10] == EXP_ROW_10;
  }

  lemma ExpChained8()
    ensures Chained(EXP_ROWS, 8)
  {
    ExpChained9();
    ExpRowSteps8();
    ExpRowsJoin8();
    assert EXP_ROWS[8] == EXP_ROW_8 && EXP_ROWS[9] == EXP_ROW_9;
  }

  lemma ExpChained7()
    ensures Chained(EXP_ROWS, 7)
  {
    ExpChained8();
    ExpRowSteps7();
    ExpRowsJoin7();
    assert EXP_ROWS[7] == EXP_ROW_7 && EXP_ROWS[8] == EXP_ROW_8;
  }

  lemma ExpChained6()
    ensures Chained(EXP_ROWS, 6)
  {
    ExpChained7();
    ExpRowSteps6();
    ExpRowsJoin6();
    assert EXP_ROWS[6] == EXP_ROW_6 && EXP_ROWS[7] == EXP_ROW_7;
  }

  lemma ExpChained5()
    ensures Chained(EXP_ROWS, 5)
  {
    ExpChained6();
    ExpRowSteps5();
    ExpRowsJoin5();
    assert EXP_ROWS[5] == EXP_ROW_5 && EXP_ROWS[6] == EXP_ROW_6;
  }

  lemma ExpChained4()
    ensures Chained(EXP_ROWS, 4)
  {
    ExpChained5();
    ExpRowSteps4();
    ExpRowsJoin4();
    assert EXP_ROWS[4] == EXP_ROW_4 && EXP_ROWS[5] == EXP_ROW_5;
  }

  lemma ExpChained3()
    ensures Chained(EXP_ROWS, 3)
  {
    ExpChained4();
    ExpRowSteps3();
    ExpRowsJoin3();
    assert EXP_ROWS[3] == EXP_ROW_3 && EXP_ROWS[4] == EXP_ROW_4;
  }

  lemma ExpChained2()
    ensures Chained(EXP_ROWS, 2)
  {
    ExpChained3();
    ExpRowSteps2();
    ExpRowsJoin2();
    assert EXP_ROWS[2] == EXP_ROW_2 && EXP_ROWS[3] == EXP_ROW_3;
  }

  lemma ExpChained1()
    ensures Chained(EXP_ROWS, 1)
  {
    ExpChained2();
    ExpRowSteps1();
    ExpRowsJoin1();
    assert EXP_ROWS[1] == EXP_ROW_1 && EXP_ROWS[2] == EXP_ROW_2;
  }

  lemma ExpChained0()
    ensures Chained(EXP_ROWS, 0)
  {
    ExpChained1();
    ExpRowSteps0();
    ExpRowsJoin0();
    assert EXP_ROWS[0] == EXP_ROW_0 && EXP_ROWS[1] == EXP_ROW_1;
  }

  // ---------------------------------------------------------------------------------------
  // Logarithms

  lemma LogInverseInCycle(a: bv8) returns (e: int)
    requires a != 0
    ensures e == GF256_LOG[a as int] as int && e < 255 && EXP_CYCLE[e] == a
  {
    if a as int < 16 {
      LogRowAt0(a as int);
      LogRowInverse0(a);
    } else if a as int < 32 {
      LogRowAt1(a as int);
      LogRowInverse1(a);
    } else if a as int < 48 {
      LogRowAt2(a as int);
      LogRowInverse2(a);
    } else if a as int < 64 {
      LogRowAt3(a as int);
      LogRowInverse3(a);
    } else if a as int < 80 {
      LogRowAt4(a as int);
      LogRowInverse4(a);
    } else if a as int < 96 {
      LogRowAt5(a as int);
      LogRowInverse5(a);
    } else if a as int < 112 {
      LogRowAt6(a as int);
      LogRowInverse6(a);
    } else if a as int < 128 {
      LogRowAt7(a as int);
      LogRowInverse7(a);
    } else if a as int < 144 {
      LogRowAt8(a as int);
      LogRowInverse8(a);
    } else if a as int < 160 {
      LogRowAt9(a as int);
      LogRowInverse9(a);
    } else if a as int < 176 {
      LogRowAt10(a as int);
      LogRowInverse10(a);
    } else if a as int < 192 {
      LogRowAt11(a as int);
      LogRowInverse11(a);
    } else if a as int < 208 {
      LogRowAt12(a as int);
      LogRowInverse12(a);
    } else if a as int < 224 {
      LogRowAt13(a as int);
      LogRowInverse13(a);
    } else if a as int < 240 {
      LogRowAt14(a as int);
      LogRowInverse14(a);
    } else {
      LogRowAt15(a as int);
      LogRowInverse15(a);
    }
    e := GF256_LOG[a as int] as int;
  }

  lemma LogRowInverse0(a: bv8)
    requires 1 <= a as int < 16
    ensures LOG_ROW_0[a as int - 0] < 255 && EXP_CYCLE[LOG_ROW_0[a as int - 0]] == a
  {
    var n := a as int;
    if n == 1 {
      ExpRowAt0(0);
    } else if n == 2 {
      ExpRowAt1(25);
    } else if n == 3 {
      ExpRowAt0(1);
    } else if n == 4 {
      ExpRowAt3(50);
    } else if n == 5 {
      ExpRowAt0(2);
    } else if n == 6 {
      ExpRowAt1(26);
    } else if n == 7 {
      ExpRowAt12(198);
    } else if n == 8 {
      ExpRowAt4(75);
    } else if n == 9 {
      ExpRowAt12(199);
    } else if n == 10 {
      ExpRowAt1(27);
    } else if n == 11 {
      ExpRowAt6(104);
    } else if n == 12 {
      ExpRowAt3(51);
    } else if n == 13 {
      ExpRowAt14(238);
    } else if n == 14 {
      ExpRowAt13(223);
    } else {
      ExpRowAt0(3);
    }
  }

  lemma LogRowInverse1(a: bv8)
    requires 16 <= a as int < 32
    ensures LOG_ROW_1[a as int - 16] < 255 && EXP_CYCLE[LOG_ROW_1[a as int - 16]] == a
  {
    var n := a as int;
    if n == 16 {
      ExpRowAt6(100);
    } else if n == 17 {
      ExpRowAt0(4);
    } else if n == 18 {
      ExpRowAt14(224);
    } else if n == 19 {
      ExpRowAt0(14);
    } else if n == 20 {
      ExpRowAt3(52);
    } else if n == 21 {
      ExpRowAt8(141);
    } else if n == 22 {
      ExpRowAt8(129);
    } else if n == 23 {
      ExpRowAt14(239);
    } else if n == 24 {
      ExpRowAt4(76);
    } else if n == 25 {
      ExpRowAt7(113);
    } else if n == 26 {
      ExpRowAt0(8);
    } else if n == 27 {
      ExpRowAt12(200);
    } else if n == 28 {
      ExpRowAt15(248);
    } else if n == 29 {
      ExpRowAt6(105);
    } else if n == 30 {
      ExpRowAt1(28);
    } else {
      ExpRowAt12(193);
    }
  }

  lemma LogRowInverse2(a: bv8)
    requires 32 <= a as int < 48
    ensures LOG_ROW_2[a as int - 32] < 255 && EXP_CYCLE[LOG_ROW_2[a as int - 32]] == a
  {
    var n := a as int;
    if n == 32 {
      ExpRowAt7(125);
    } else if n == 33 {
      ExpRowAt12(194);
    } else if n == 34 {
      ExpRowAt1(29);
    } else if n == 35 {
      ExpRowAt11(181);
    } else if n == 36 {
      ExpRowAt15(249);
    } else if n == 37 {
      ExpRowAt11(185);
    } else if n == 38 {
      ExpRowAt2(39);
    } else if n == 39 {
      ExpRowAt6(106);
    } else if n == 40 {
      ExpRowAt4(77);
    } else if n == 41 {
      ExpRowAt14(228);
    } else if n == 42 {
      ExpRowAt10(166);
    } else if n == 43 {
      ExpRowAt7(114);
    } else if n == 44 {
      ExpRowAt9(154);
    } else if n == 45 {
      ExpRowAt12(201);
    } else if n == 46 {
      ExpRowAt0(9);
    } else {
      ExpRowAt7(120);
    }
  }

  lemma LogRowInverse3(a: bv8)
    requires 48 <= a as int < 64
    ensures LOG_ROW_3[a as int - 48] < 255 && EXP_CYCLE[LOG_ROW_3[a as int - 48]] == a
  {
    var n := a as int;
    if n == 48 {
      ExpRowAt6(101);
    } else if n == 49 {
      ExpRowAt2(47);
    } else if n == 50 {
      ExpRowAt8(138);
    } else if n == 51 {
      ExpRowAt0(5);
    } else if n == 52 {
      ExpRowAt2(33);
    } else if n == 53 {
      ExpRowAt0(15);
    } else if n == 54 {
      ExpRowAt14(225);
    } else if n == 55 {
      ExpRowAt2(36);
    } else if n == 56 {
      ExpRowAt1(18);
    } else if n == 57 {
      ExpRowAt15(240);
    } else if n == 58 {
      ExpRowAt8(130);
    } else if n == 59 {
      ExpRowAt4(69);
    } else if n == 60 {
      ExpRowAt3(53);
    } else if n == 61 {
      ExpRowAt9(147);
    } else if n == 62 {
      ExpRowAt13(218);
    } else {
      ExpRowAt8(142);
    }
  }

  lemma LogRowInverse4(a: bv8)
    requires 64 <= a as int < 80
    ensures LOG_ROW_4[a as int - 64] < 255 && EXP_CYCLE[LOG_ROW_4[a as int - 64]] == a
  {
    var n := a as int;
    if n == 64 {
      ExpRowAt9(150);
    } else if n == 65 {
      ExpRowAt8(143);
    } else if n == 66 {
      ExpRowAt13(219);
    } else if n == 67 {
      ExpRowAt11(189);
    } else if n == 68 {
      ExpRowAt3(54);
    } else if n == 69 {
      ExpRowAt13(208);
    } else if n == 70 {
      ExpRowAt12(206);
    } else if n == 71 {
      ExpRowAt9(148);
    } else if n == 72 {
      ExpRowAt1(19);
    } else if n == 73 {
      ExpRowAt5(92);
    } else if n == 74 {
      ExpRowAt13(210);
    } else if n == 75 {
      ExpRowAt15(241);
    } else if n == 76 {
      ExpRowAt4(64);
    } else if n == 77 {
      ExpRowAt4(70);
    } else if n == 78 {
      ExpRowAt8(131);
    } else {
      ExpRowAt3(56);
    }
  }

  lemma LogRowInverse5(a: bv8)
    requires 80 <= a as int < 96
    ensures LOG_ROW_5[a as int - 80] < 255 && EXP_CYCLE[LOG_ROW_5[a as int - 80]] == a
  {
    var n := a as int;
    if n == 80 {
      ExpRowAt6(102);
    } else if n == 81 {
      ExpRowAt13(221);
    } else if n == 82 {
      ExpRowAt15(253);
    } else if n == 83 {
      ExpRowAt3(48);
    } else if n == 84 {
      ExpRowAt11(191);
    } else if n == 85 {
      ExpRowAt0(6);
    } else if n == 86 {
      ExpRowAt8(139);
    } else if n == 87 {
      ExpRowAt6(98);
    } else if n == 88 {
      ExpRowAt11(179);
    } else if n == 89 {
      ExpRowAt2(37);
    } else if n == 90 {
      ExpRowAt14(226);
    } else if n == 91 {
      ExpRowAt9(152);
    } else if n == 92 {
      ExpRowAt2(34);
    } else if n == 93 {
      ExpRowAt8(136);
    } else if n == 94 {
      ExpRowAt9(145);
    } else {
      ExpRowAt1(16);
    }
  }

  lemma LogRowInverse6(a: bv8)
    requires 96 <= a as int < 112
    ensures LOG_ROW_6[a as int - 96] < 255 && EXP_CYCLE[LOG_ROW_6[a as int - 96]] == a
  {
    var n := a as int;
    if n == 96 {
      ExpRowAt7(126);
    } else if n == 97 {
      ExpRowAt6(110);
    } else if n == 98 {
      ExpRowAt4(72);
    } else if n == 99 {
      ExpRowAt12(195);
    } else if n == 100 {
      ExpRowAt10(163);
    } else if n == 101 {
      ExpRowAt11(182);
    } else if n == 102 {
      ExpRowAt1(30);
    } else if n == 103 {
      ExpRowAt4(66);
    } else if n == 104 {
      ExpRowAt3(58);
    } else if n == 105 {
      ExpRowAt6(107);
    } else if n == 106 {
      ExpRowAt2(40);
    } else if n == 107 {
      ExpRowAt5(84);
    } else if n == 108 {
      ExpRowAt15(250);
    } else if n == 109 {
      ExpRowAt8(133);
    } else if n == 110 {
      ExpRowAt3(61);
    } else {
      ExpRowAt11(186);
    }
  }

  lemma LogRowInverse7(a: bv8)
    requires 112 <= a as int < 128
    ensures LOG_ROW_7[a as int - 112] < 255 && EXP_CYCLE[LOG_ROW_7[a as int - 112]] == a
  {
    var n := a as int;
    if n == 112 {
      ExpRowAt2(43);
    } else if n == 113 {
      ExpRowAt7(121);
    } else if n == 114 {
      ExpRowAt0(10);
    } else if n == 115 {
      ExpRowAt1(21);
    } else if n == 116 {
      ExpRowAt9(155);
    } else if n == 117 {
      ExpRowAt9(159);
    } else if n == 118 {
      ExpRowAt5(94);
    } else if n == 119 {
      ExpRowAt12(202);
    } else if n == 120 {
      ExpRowAt4(78);
    } else if n == 121 {
      ExpRowAt13(212);
    } else if n == 122 {
      ExpRowAt10(172);
    } else if n == 123 {
      ExpRowAt14(229);
    } else if n == 124 {
      ExpRowAt15(243);
    } else if n == 125 {
      ExpRowAt7(115);
    } else if n == 126 {
      ExpRowAt10(167);
    } else {
      ExpRowAt5(87);
    }
  }

  lemma LogRowInverse8(a: bv8)
    requires 128 <= a as int < 144
    ensures LOG_ROW_8[a as int - 128] < 255 && EXP_CYCLE[LOG_ROW_8[a as int - 128]] == a
  {
    var n := a as int;
    if n == 128 {
      ExpRowAt10(175);
    } else if n == 129 {
      ExpRowAt5(88);
    } else if n == 130 {
      ExpRowAt10(168);
    } else if n == 131 {
      ExpRowAt5(80);
    } else if n == 132 {
      ExpRowAt15(244);
    } else if n == 133 {
      ExpRowAt14(234);
    } else if n == 134 {
      ExpRowAt13(214);
    } else if n == 135 {
      ExpRowAt7(116);
    } else if n == 136 {
      ExpRowAt4(79);
    } else if n == 137 {
      ExpRowAt10(174);
    } else if n == 138 {
      ExpRowAt14(233);
    } else if n == 139 {
      ExpRowAt13(213);
    } else if n == 140 {
      ExpRowAt14(231);
    } else if n == 141 {
      ExpRowAt14(230);
    } else if n == 142 {
      ExpRowAt10(173);
    } else {
      ExpRowAt14(232);
    }
  }

  lemma LogRowInverse9(a: bv8)
    requires 144 <= a as int < 160
    ensures LOG_ROW_9[a as int - 144] < 255 && EXP_CYCLE[LOG_ROW_9[a as int - 144]] == a
  {
    var n := a as int;
    if n == 144 {
      ExpRowAt2(44);
    } else if n == 145 {
      ExpRowAt13(215);
    } else if n == 146 {
      ExpRowAt7(117);
    } else if n == 147 {
      ExpRowAt7(122);
    } else if n == 148 {
      ExpRowAt14(235);
    } else if n == 149 {
      ExpRowAt1(22);
    } else if n == 150 {
      ExpRowAt0(11);
    } else if n == 151 {
      ExpRowAt15(245);
    } else if n == 152 {
      ExpRowAt5(89);
    } else if n == 153 {
      ExpRowAt12(203);
    } else if n == 154 {
      ExpRowAt5(95);
    } else if n == 155 {
      ExpRowAt11(176);
    } else if n == 156 {
      ExpRowAt9(156);
    } else if n == 157 {
      ExpRowAt10(169);
    } else if n == 158 {
      ExpRowAt5(81);
    } else {
      ExpRowAt10(160);
    }
  }

  lemma LogRowInverse10(a: bv8)
    requires 160 <= a as int < 176
    ensures LOG_ROW_10[a as int - 160] < 255 && EXP_CYCLE[LOG_ROW_10[a as int - 160]] == a
  {
    var n := a as int;
    if n == 160 {
      ExpRowAt7(127);
    } else if n == 161 {
      ExpRowAt0(12);
    } else if n == 162 {
      ExpRowAt15(246);
    } else if n == 163 {
      ExpRowAt6(111);
    } else if n == 164 {
      ExpRowAt1(23);
    } else if n == 165 {
      ExpRowAt12(196);
    } else if n == 166 {
      ExpRowAt4(73);
    } else if n == 167 {
      ExpRowAt14(236);
    } else if n == 168 {
      ExpRowAt13(216);
    } else if n == 169 {
      ExpRowAt4(67);
    } else if n == 170 {
      ExpRowAt1(31);
    } else if n == 171 {
      ExpRowAt2(45);
    } else if n == 172 {
      ExpRowAt10(164);
    } else if n == 173 {
      ExpRowAt7(118);
    } else if n == 174 {
      ExpRowAt7(123);
    } else {
      ExpRowAt11(183);
    }
  }

  lemma LogRowInverse11(a: bv8)
    requires 176 <= a as int < 192
    ensures LOG_ROW_11[a as int - 176] < 255 && EXP_CYCLE[LOG_ROW_11[a as int - 176]] == a
  {
    var n := a as int;
    if n == 176 {
      ExpRowAt12(204);
    } else if n == 177 {
      ExpRowAt11(187);
    } else if n == 178 {
      ExpRowAt3(62);
    } else if n == 179 {
      ExpRowAt5(90);
    } else if n == 180 {
      ExpRowAt15(251);
    } else if n == 181 {
      ExpRowAt6(96);
    } else if n == 182 {
      ExpRowAt11(177);
    } else if n == 183 {
      ExpRowAt8(134);
    } else if n == 184 {
      ExpRowAt3(59);
    } else if n == 185 {
      ExpRowAt5(82);
    } else if n == 186 {
      ExpRowAt10(161);
    } else if n == 187 {
      ExpRowAt6(108);
    } else if n == 188 {
      ExpRowAt10(170);
    } else if n == 189 {
      ExpRowAt5(85);
    } else if n == 190 {
      ExpRowAt2(41);
    } else {
      ExpRowAt9(157);
    }
  }

  lemma LogRowInverse12(a: bv8)
    requires 192 <= a as int < 208
    ensures LOG_ROW_12[a as int - 192] < 255 && EXP_CYCLE[LOG_ROW_12[a as int - 192]] == a
  {
    var n := a as int;
    if n == 192 {
      ExpRowAt9(151);
    } else if n == 193 {
      ExpRowAt11(178);
    } else if n == 194 {
      ExpRowAt8(135);
    } else if n == 195 {
      ExpRowAt9(144);
    } else if n == 196 {
      ExpRowAt6(97);
    } else if n == 197 {
      ExpRowAt11(190);
    } else if n == 198 {
      ExpRowAt13(220);
    } else if n == 199 {
      ExpRowAt15(252);
    } else if n == 200 {
      ExpRowAt11(188);
    } else if n == 201 {
      ExpRowAt9(149);
    } else if n == 202 {
      ExpRowAt12(207);
    } else if n == 203 {
      ExpRowAt12(205);
    } else if n == 204 {
      ExpRowAt3(55);
    } else if n == 205 {
      ExpRowAt3(63);
    } else if n == 206 {
      ExpRowAt5(91);
    } else {
      ExpRowAt13(209);
    }
  }

  lemma LogRowInverse13(a: bv8)
    requires 208 <= a as int < 224
    ensures LOG_ROW_13[a as int - 208] < 255 && EXP_CYCLE[LOG_ROW_13[a as int - 208]] == a
  {
    var n := a as int;
    if n == 208 {
      ExpRowAt5(83);
    } else if n == 209 {
      ExpRowAt3(57);
    } else if n == 210 {
      ExpRowAt8(132);
    } else if n == 211 {
      ExpRowAt3(60);
    } else if n == 212 {
      ExpRowAt4(65);
    } else if n == 213 {
      ExpRowAt10(162);
    } else if n == 214 {
      ExpRowAt6(109);
    } else if n == 215 {
      ExpRowAt4(71);
    } else if n == 216 {
      ExpRowAt1(20);
    } else if n == 217 {
      ExpRowAt2(42);
    } else if n == 218 {
      ExpRowAt9(158);
    } else if n == 219 {
      ExpRowAt5(93);
    } else if n == 220 {
      ExpRowAt5(86);
    } else if n == 221 {
      ExpRowAt15(242);
    } else if n == 222 {
      ExpRowAt13(211);
    } else {
      ExpRowAt10(171);
    }
  }

  lemma LogRowInverse14(a: bv8)
    requires 224 <= a as int < 240
    ensures LOG_ROW_14[a as int - 224] < 255 && EXP_CYCLE[LOG_ROW_14[a as int - 224]] == a
  {
    var n := a as int;
    if n == 224 {
      ExpRowAt4(68);
    } else if n == 225 {
      ExpRowAt1(17);
    } else if n == 226 {
      ExpRowAt9(146);
    } else if n == 227 {
      ExpRowAt13(217);
    } else if n == 228 {
      ExpRowAt2(35);
    } else if n == 229 {
      ExpRowAt2(32);
    } else if n == 230 {
      ExpRowAt2(46);
    } else if n == 231 {
      ExpRowAt8(137);
    } else if n == 232 {
      ExpRowAt11(180);
    } else if n == 233 {
      ExpRowAt7(124);
    } else if n == 234 {
      ExpRowAt11(184);
    } else if n == 235 {
      ExpRowAt2(38);
    } else if n == 236 {
      ExpRowAt7(119);
    } else if n == 237 {
      ExpRowAt9(153);
    } else if n == 238 {
      ExpRowAt14(227);
    } else {
      ExpRowAt10(165);
    }
  }

  lemma LogRowInverse15(a: bv8)
    requires 240 <= a as int < 256
    ensures LOG_ROW_15[a as int - 240] < 255 && EXP_CYCLE[LOG_ROW_15[a as int - 240]] == a
  {
    var n := a as int;
    if n == 240 {
      ExpRowAt6(103);
    } else if n == 241 {
      ExpRowAt4(74);
    } else if n == 242 {
      ExpRowAt14(237);
    } else if n == 243 {
      ExpRowAt13(222);
    } else if n == 244 {
      ExpRowAt12(197);
    } else if n == 245 {
      ExpRowAt3(49);
    } else if n == 246 {
      ExpRowAt15(254);
    } else if n == 247 {
      ExpRowAt1(24);
    } else if n == 248 {
      ExpRowAt0(13);
    } else if n == 249 {
      ExpRowAt6(99);
    } else if n == 250 {
      ExpRowAt8(140);
    } else if n == 251 {
      ExpRowAt8(128);
    } else if n == 252 {
      ExpRowAt12(192);
    } else if n == 253 {
      ExpRowAt15(247);
    } else if n == 254 {
      ExpRowAt7(112);
    } else {
      ExpRowAt0(7);
    }
  }

}
