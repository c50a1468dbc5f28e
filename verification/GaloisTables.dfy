/** The logarithm and exponential tables of GF(2^8), to the base 0xe5. */
module GaloisTables {
  const EXP_0: seq<bv8> := [
    0x01, 0xe5, 0x4c, 0xb5, 0xfb, 0x9f, 0xfc, 0x12, 0x03, 0x34, 0xd4, 0xc4, 0x16, 0xba, 0x1f, 0x36
  ]
  const EXP_1: seq<bv8> := [
    0x05, 0x5c, 0x67, 0x57, 0x3a, 0xd5, 0x21, 0x5a, 0x0f, 0xe4, 0xa9, 0xf9, 0x4e, 0x64, 0x63, 0xee
  ]
  const EXP_2: seq<bv8> := [
    0x11, 0x37, 0xe0, 0x10, 0xd2, 0xac, 0xa5, 0x29, 0x33, 0x59, 0x3b, 0x30, 0x6d, 0xef, 0xf4, 0x7b
  ]
  const EXP_3: seq<bv8> := [
    0x55, 0xeb, 0x4d, 0x50, 0xb7, 0x2a, 0x07, 0x8d, 0xff, 0x26, 0xd7, 0xf0, 0xc2, 0x7e, 0x09, 0x8c
  ]
  const EXP_4: seq<bv8> := [
    0x1a, 0x6a, 0x62, 0x0b, 0x5d, 0x82, 0x1b, 0x8f, 0x2e, 0xbe, 0xa6, 0x1d, 0xe7, 0x9d, 0x2d, 0x8a
  ]
  const EXP_5: seq<bv8> := [
    0x72, 0xd9, 0xf1, 0x27, 0x32, 0xbc, 0x77, 0x85, 0x96, 0x70, 0x08, 0x69, 0x56, 0xdf, 0x99, 0x94
  ]
  const EXP_6: seq<bv8> := [
    0xa1, 0x90, 0x18, 0xbb, 0xfa, 0x7a, 0xb0, 0xa7, 0xf8, 0xab, 0x28, 0xd6, 0x15, 0x8e, 0xcb, 0xf2
  ]
  const EXP_7: seq<bv8> := [
    0x13, 0xe6, 0x78, 0x61, 0x3f, 0x89, 0x46, 0x0d, 0x35, 0x31, 0x88, 0xa3, 0x41, 0x80, 0xca, 0x17
  ]
  const EXP_8: seq<bv8> := [
    0x5f, 0x53, 0x83, 0xfe, 0xc3, 0x9b, 0x45, 0x39, 0xe1, 0xf5, 0x9e, 0x19, 0x5e, 0xb6, 0xcf, 0x4b
  ]
  const EXP_9: seq<bv8> := [
    0x38, 0x04, 0xb9, 0x2b, 0xe2, 0xc1, 0x4a, 0xdd, 0x48, 0x0c, 0xd0, 0x7d, 0x3d, 0x58, 0xde, 0x7c
  ]
  const EXP_10: seq<bv8> := [
    0xd8, 0x14, 0x6b, 0x87, 0x47, 0xe8, 0x79, 0x84, 0x73, 0x3c, 0xbd, 0x92, 0xc9, 0x23, 0x8b, 0x97
  ]
  const EXP_11: seq<bv8> := [
    0x95, 0x44, 0xdc, 0xad, 0x40, 0x65, 0x86, 0xa2, 0xa4, 0xcc, 0x7f, 0xec, 0xc0, 0xaf, 0x91, 0xfd
  ]
  const EXP_12: seq<bv8> := [
    0xf7, 0x4f, 0x81, 0x2f, 0x5b, 0xea, 0xa8, 0x1c, 0x02, 0xd1, 0x98, 0x71, 0xed, 0x25, 0xe3, 0x24
  ]
  const EXP_13: seq<bv8> := [
    0x06, 0x68, 0xb3, 0x93, 0x2c, 0x6f, 0x3e, 0x6c, 0x0a, 0xb8, 0xce, 0xae, 0x74, 0xb1, 0x42, 0xb4
  ]
  const EXP_14: seq<bv8> := [
    0x1e, 0xd3, 0x49, 0xe9, 0x9c, 0xc8, 0xc6, 0xc7, 0x22, 0x6e, 0xdb, 0x20, 0xbf, 0x43, 0x51, 0x52
  ]
  const EXP_15: seq<bv8> := [
    0x66, 0xb2, 0x76, 0x60, 0xda, 0xc5, 0xf3, 0xf6, 0xaa, 0xcd, 0x9a, 0xa0, 0x75, 0x54, 0x0e, 0x01
  ]

  const LOG_0: seq<int> := [
    0x00, 0xff, 0xc8, 0x08, 0x91, 0x10, 0xd0, 0x36, 0x5a, 0x3e, 0xd8, 0x43, 0x99, 0x77, 0xfe, 0x18
  ]
  const LOG_1: seq<int> := [
    0x23, 0x20, 0x07, 0x70, 0xa1, 0x6c, 0x0c, 0x7f, 0x62, 0x8b, 0x40, 0x46, 0xc7, 0x4b, 0xe0, 0x0e
  ]
  const LOG_2: seq<int> := [
    0xeb, 0x16, 0xe8, 0xad, 0xcf, 0xcd, 0x39, 0x53, 0x6a, 0x27, 0x35, 0x93, 0xd4, 0x4e, 0x48, 0xc3
  ]
  const LOG_3: seq<int> := [
    0x2b, 0x79, 0x54, 0x28, 0x09, 0x78, 0x0f, 0x21, 0x90, 0x87, 0x14, 0x2a, 0xa9, 0x9c, 0xd6, 0x74
  ]
  const LOG_4: seq<int> := [
    0xb4, 0x7c, 0xde, 0xed, 0xb1, 0x86, 0x76, 0xa4, 0x98, 0xe2, 0x96, 0x8f, 0x02, 0x32, 0x1c, 0xc1
  ]
  const LOG_5: seq<int> := [
    0x33, 0xee, 0xef, 0x81, 0xfd, 0x30, 0x5c, 0x13, 0x9d, 0x29, 0x17, 0xc4, 0x11, 0x44, 0x8c, 0x80
  ]
  const LOG_6: seq<int> := [
    0xf3, 0x73, 0x42, 0x1e, 0x1d, 0xb5, 0xf0, 0x12, 0xd1, 0x5b, 0x41, 0xa2, 0xd7, 0x2c, 0xe9, 0xd5
  ]
  const LOG_7: seq<int> := [
    0x59, 0xcb, 0x50, 0xa8, 0xdc, 0xfc, 0xf2, 0x56, 0x72, 0xa6, 0x65, 0x2f, 0x9f, 0x9b, 0x3d, 0xba
  ]
  const LOG_8: seq<int> := [
    0x7d, 0xc2, 0x45, 0x82, 0xa7, 0x57, 0xb6, 0xa3, 0x7a, 0x75, 0x4f, 0xae, 0x3f, 0x37, 0x6d, 0x47
  ]
  const LOG_9: seq<int> := [
    0x61, 0xbe, 0xab, 0xd3, 0x5f, 0xb0, 0x58, 0xaf, 0xca, 0x5e, 0xfa, 0x85, 0xe4, 0x4d, 0x8a, 0x05
  ]
  const LOG_10: seq<int> := [
    0xfb, 0x60, 0xb7, 0x7b, 0xb8, 0x26, 0x4a, 0x67, 0xc6, 0x1a, 0xf8, 0x69, 0x25, 0xb3, 0xdb, 0xbd
  ]
  const LOG_11: seq<int> := [
    0x66, 0xdd, 0xf1, 0xd2, 0xdf, 0x03, 0x8d, 0x34, 0xd9, 0x92, 0x0d, 0x63, 0x55, 0xaa, 0x49, 0xec
  ]
  const LOG_12: seq<int> := [
    0xbc, 0x95, 0x3c, 0x84, 0x0b, 0xf5, 0xe6, 0xe7, 0xe5, 0xac, 0x7e, 0x6e, 0xb9, 0xf9, 0xda, 0x8e
  ]
  const LOG_13: seq<int> := [
    0x9a, 0xc9, 0x24, 0xe1, 0x0a, 0x15, 0x6b, 0x3a, 0xa0, 0x51, 0xf4, 0xea, 0xb2, 0x97, 0x9e, 0x5d
  ]
  const LOG_14: seq<int> := [
    0x22, 0x88, 0x94, 0xce, 0x19, 0x01, 0x71, 0x4c, 0xa5, 0xe3, 0xc5, 0x31, 0xbb, 0xcc, 0x1f, 0x2d
  ]
  const LOG_15: seq<int> := [
    0x3b, 0x52, 0x6f, 0xf6, 0x2e, 0x89, 0xf7, 0xc0, 0x68, 0x1b, 0x64, 0x04, 0x06, 0xbf, 0x83, 0x38
  ]

  function ExpRow(r: nat): (row: seq<bv8>)
    requires r < 16
    ensures |row| == 16
  {
    match r
    case 0 => EXP_0
    case 1 => EXP_1
    case 2 => EXP_2
    case 3 => EXP_3
    case 4 => EXP_4
    case 5 => EXP_5
    case 6 => EXP_6
    case 7 => EXP_7
    case 8 => EXP_8
    case 9 => EXP_9
    case 10 => EXP_10
    case 11 => EXP_11
    case 12 => EXP_12
    case 13 => EXP_13
    case 14 => EXP_14
    case _ => EXP_15
  }

  function LogRow(r: nat): (row: seq<int>)
    requires r < 16
    ensures |row| == 16
  {
    match r
    case 0 => LOG_0
    case 1 => LOG_1
    case 2 => LOG_2
    case 3 => LOG_3
    case 4 => LOG_4
    case 5 => LOG_5
    case 6 => LOG_6
    case 7 => LOG_7
    case 8 => LOG_8
    case 9 => LOG_9
    case 10 => LOG_10
    case 11 => LOG_11
    case 12 => LOG_12
    case 13 => LOG_13
    case 14 => LOG_14
    case _ => LOG_15
  }

  function ExpTable(i: nat): bv8
    requires i < 256
  {
    ExpRow(i / 16)[i % 16]
  }

  /** A number below 16 as an index. */
  function Index(j: bv8): (n: nat)
    requires j < 16
    ensures n < 16 && n as bv8 == j
  {
    j as int
  }

  function LogTable(x: bv8): int {
    LogRow(Index(x >> 4))[Index(x & 0x0f)]
  }

  /** Addition and subtraction in the field. */
  function Add(a: bv8, b: bv8): bv8 {
    a ^ b
  }

  /** Multiplication by the polynomial t modulo t^8 + t^4 + t^3 + t + 1. */
  function Xtime(x: bv8): bv8 {
    (x << 1) ^ ((x >> 7) * 0x1b)
  }

  /** Multiplication by the generator 0xe5 = t^7 + t^6 + t^5 + t^2 + 1. */
  function TimesGenerator(x: bv8): bv8 {
    var x2 := Xtime(Xtime(x));
    var x5 := Xtime(Xtime(Xtime(x2)));
    var x6 := Xtime(x5);
    Add(Add(Add(Add(x, x2), x5), x6), Xtime(x6))
  }

  lemma XtimeIsLinear(a: bv8, b: bv8)
    ensures Xtime(Add(a, b)) == Add(Xtime(a), Xtime(b))
  {
  }

  lemma AddSwaps(a: bv8, a': bv8, b: bv8, b': bv8)
    ensures Add(Add(a, a'), Add(b, b')) == Add(Add(a, b), Add(a', b'))
  {
    assert (a ^ a') ^ (b ^ b') == (a ^ b) ^ (a' ^ b');
  }

  lemma TimesGeneratorIsLinear(a: bv8, b: bv8)
    ensures TimesGenerator(Add(a, b)) == Add(TimesGenerator(a), TimesGenerator(b))
  {
    hide Xtime, Add;
    var a1, b1 := Xtime(a), Xtime(b);
    var a2, b2 := Xtime(a1), Xtime(b1);
    var a3, b3 := Xtime(a2), Xtime(b2);
    var a4, b4 := Xtime(a3), Xtime(b3);
    var a5, b5 := Xtime(a4), Xtime(b4);
    var a6, b6 := Xtime(a5), Xtime(b5);
    XtimeIsLinear(a, b);
    XtimeIsLinear(a1, b1);
    XtimeIsLinear(a2, b2);
    XtimeIsLinear(a3, b3);
    XtimeIsLinear(a4, b4);
    XtimeIsLinear(a5, b5);
    XtimeIsLinear(a6, b6);
    AddSwaps(a, b, a2, b2);
    AddSwaps(Add(a, a2), Add(b, b2), a5, b5);
    AddSwaps(Add(Add(a, a2), a5), Add(Add(b, b2), b5), a6, b6);
    AddSwaps(Add(Add(Add(a, a2), a5), a6), Add(Add(Add(b, b2), b5), b6), Xtime(a6), Xtime(b6));
  }

  /** Nothing but zero is mapped to zero. */
  lemma TimesGeneratorIsInjective(x: bv8)
    requires TimesGenerator(x) == 0
    ensures x == 0
  {
  }

  /** A row of the exponential table with the first entry of the next. */
  predicate Orbit(s: seq<bv8>, next: bv8) {
    |s| == 16 && next == TimesGenerator(s[15])
    && s[1] == TimesGenerator(s[0]) && s[2] == TimesGenerator(s[1]) && s[3] == TimesGenerator(s[2])
    && s[4] == TimesGenerator(s[3]) && s[5] == TimesGenerator(s[4])
    && s[6] == TimesGenerator(s[5]) && s[7] == TimesGenerator(s[6]) && s[8] == TimesGenerator(s[7])
    && s[9] == TimesGenerator(s[8]) && s[10] == TimesGenerator(s[9])
    && s[11] == TimesGenerator(s[10]) && s[12] == TimesGenerator(s[11]) && s[13] == TimesGenerator(s[12])
    && s[14] == TimesGenerator(s[13]) && s[15] == TimesGenerator(s[14])
  }

  lemma OrbitRows0To1()
    ensures Orbit(EXP_0, EXP_1[0])
    ensures Orbit(EXP_1, EXP_2[0])
  {
  }

  lemma OrbitRows2To3()
    ensures Orbit(EXP_2, EXP_3[0])
    ensures Orbit(EXP_3, EXP_4[0])
  {
  }

  lemma OrbitRows4To5()
    ensures Orbit(EXP_4, EXP_5[0])
    ensures Orbit(EXP_5, EXP_6[0])
  {
  }

  lemma OrbitRows6To7()
    ensures Orbit(EXP_6, EXP_7[0])
    ensures Orbit(EXP_7, EXP_8[0])
  {
  }

  lemma OrbitRows8To9()
    ensures Orbit(EXP_8, EXP_9[0])
    ensures Orbit(EXP_9, EXP_10[0])
  {
  }

  lemma OrbitRows10To11()
    ensures Orbit(EXP_10, EXP_11[0])
    ensures Orbit(EXP_11, EXP_12[0])
  {
  }

  lemma OrbitRows12To13()
    ensures Orbit(EXP_12, EXP_13[0])
    ensures Orbit(EXP_13, EXP_14[0])
  {
  }

  lemma OrbitRows14To15()
    ensures Orbit(EXP_14, EXP_15[0])
    ensures Orbit(EXP_15, 0xe5)
  {
  }

  lemma OrbitRow(r: nat)
    requires r < 16
    ensures Orbit(ExpRow(r), if r == 15 then 0xe5 else ExpRow(r + 1)[0])
  {
    hide *;
    ExpRows();
    if r < 2 {
      OrbitRows0To1();
    } else if r < 4 {
      OrbitRows2To3();
    } else if r < 6 {
      OrbitRows4To5();
    } else if r < 8 {
      OrbitRows6To7();
    } else if r < 10 {
      OrbitRows8To9();
    } else if r < 12 {
      OrbitRows10To11();
    } else if r < 14 {
      OrbitRows12To13();
    } else if r < 16 {
      OrbitRows14To15();
    }
  }

  /** Each entry of the exponential table but the last is followed by its product with the generator. */
  lemma ExpStep(i: nat)
    requires i < 255
    ensures ExpTable(i + 1) == TimesGenerator(ExpTable(i))
  {
    hide ExpRow, TimesGenerator;
    var r, j := i / 16, i % 16;
    OrbitRow(r);
    if j == 15 {
      assert (i + 1) / 16 == r + 1 && (i + 1) % 16 == 0;
    } else {
      assert (i + 1) / 16 == r && (i + 1) % 16 == j + 1;
    }
  }

  lemma ExpEnds()
    ensures ExpTable(0) == 1 && ExpTable(255) == 1
  {
    ExpRows();
    assert EXP_0[0] == 1 && EXP_15[15] == 1;
  }

  lemma ExpRows()
    ensures ExpRow(0) == EXP_0 && ExpRow(1) == EXP_1 && ExpRow(2) == EXP_2 && ExpRow(3) == EXP_3 && ExpRow(4) == EXP_4
      && ExpRow(5) == EXP_5 && ExpRow(6) == EXP_6 && ExpRow(7) == EXP_7
    ensures ExpRow(8) == EXP_8 && ExpRow(9) == EXP_9 && ExpRow(10) == EXP_10 && ExpRow(11) == EXP_11
      && ExpRow(12) == EXP_12 && ExpRow(13) == EXP_13 && ExpRow(14) == EXP_14 && ExpRow(15) == EXP_15
  {
  }

  lemma LogRows()
    ensures LogRow(0) == LOG_0 && LogRow(1) == LOG_1 && LogRow(2) == LOG_2 && LogRow(3) == LOG_3 && LogRow(4) == LOG_4
      && LogRow(5) == LOG_5 && LogRow(6) == LOG_6 && LogRow(7) == LOG_7
    ensures LogRow(8) == LOG_8 && LogRow(9) == LOG_9 && LogRow(10) == LOG_10 && LogRow(11) == LOG_11
      && LogRow(12) == LOG_12 && LogRow(13) == LOG_13 && LogRow(14) == LOG_14 && LogRow(15) == LOG_15
  {
  }

  /** l is the logarithm of x. */
  predicate IsLog(l: int, x: bv8) {
    0 <= l < 256 && ExpRow(l / 16)[l % 16] == x
  }

  predicate AreLogs(s: seq<int>, x: bv8) {
    |s| == 16 && (x == 0 || IsLog(s[0], x))
    && IsLog(s[1], x + 1) && IsLog(s[2], x + 2) && IsLog(s[3], x + 3) && IsLog(s[4], x + 4) && IsLog(s[5], x + 5)
    && IsLog(s[6], x + 6) && IsLog(s[7], x + 7) && IsLog(s[8], x + 8) && IsLog(s[9], x + 9) && IsLog(s[10], x + 10)
    && IsLog(s[11], x + 11) && IsLog(s[12], x + 12) && IsLog(s[13], x + 13) && IsLog(s[14], x + 14)
    && IsLog(s[15], x + 15)
  }

  lemma LogRow0()
    ensures AreLogs(LOG_0, 0)
  {
    ExpRows();
    hide ExpRow;
  }

  lemma LogRow1()
    ensures AreLogs(LOG_1, 16)
  {
    ExpRows();
    hide ExpRow;
  }

  lemma LogRow2()
    ensures AreLogs(LOG_2, 32)
  {
    ExpRows();
    hide ExpRow;
  }

  lemma LogRow3()
    ensures AreLogs(LOG_3, 48)
  {
    ExpRows();
    hide ExpRow;
  }

  lemma LogRow4()
    ensures AreLogs(LOG_4, 64)
  {
    ExpRows();
    hide ExpRow;
  }

  lemma LogRow5()
    ensures AreLogs(LOG_5, 80)
  {
    ExpRows();
    hide ExpRow;
  }

  lemma LogRow6()
    ensures AreLogs(LOG_6, 96)
  {
    ExpRows();
    hide ExpRow;
  }

  lemma LogRow7()
    ensures AreLogs(LOG_7, 112)
  {
    ExpRows();
    hide ExpRow;
  }

  lemma LogRow8()
    ensures AreLogs(LOG_8, 128)
  {
    ExpRows();
    hide ExpRow;
  }

  lemma LogRow9()
    ensures AreLogs(LOG_9, 144)
  {
    ExpRows();
    hide ExpRow;
  }

  lemma LogRow10()
    ensures AreLogs(LOG_10, 160)
  {
    ExpRows();
    hide ExpRow;
  }

  lemma LogRow11()
    ensures AreLogs(LOG_11, 176)
  {
    ExpRows();
    hide ExpRow;
  }

  lemma LogRow12()
    ensures AreLogs(LOG_12, 192)
  {
    ExpRows();
    hide ExpRow;
  }

  lemma LogRow13()
    ensures AreLogs(LOG_13, 208)
  {
    ExpRows();
    hide ExpRow;
  }

  lemma LogRow14()
    ensures AreLogs(LOG_14, 224)
  {
    ExpRows();
    hide ExpRow;
  }

  lemma LogRow15()
    ensures AreLogs(LOG_15, 240)
  {
    ExpRows();
    hide ExpRow;
  }

  lemma LogRowIsLogs(r: nat)
    requires r < 16
    ensures AreLogs(LogRow(r), (r as bv8) << 4)
  {
    hide *;
    LogRows();
    LogRow0();
    LogRow1();
    LogRow2();
    LogRow3();
    LogRow4();
    LogRow5();
    LogRow6();
    LogRow7();
    LogRow8();
    LogRow9();
    LogRow10();
    LogRow11();
    LogRow12();
    LogRow13();
    LogRow14();
    LogRow15();
  }

  function Nibble(j: bv8): (n: nat)
    ensures n < 16
  {
    if j == 0 then 0 else if j == 1 then 1 else if j == 2 then 2 else if j == 3 then 3 else if j == 4 then 4
    else if j == 5 then 5 else if j == 6 then 6 else if j == 7 then 7 else if j == 8 then 8 else if j == 9 then 9
    else if j == 10 then 10 else if j == 11 then 11 else if j == 12 then 12 else if j == 13 then 13
    else if j == 14 then 14 else 15
  }

  lemma IndexIsNibble(j: bv8)
    requires j < 16
    ensures Index(j) == Nibble(j)
  {
  }

  lemma LogEntry(s: seq<int>, x: bv8, j: bv8)
    requires AreLogs(s, x) && j < 16 && (x != 0 || j != 0)
    ensures IsLog(s[Nibble(j)], x + j)
  {
    hide IsLog;
  }

  /** A byte as row and column. */
  lemma Nibbles(x: bv8)
    ensures ((x >> 4) << 4) + (x & 0x0f) == x && (x >> 4) < 16 && (x & 0x0f) < 16
    ensures x != 0 ==> (x >> 4) << 4 != 0 || x & 0x0f != 0
  {
  }

  /** The exponential table undoes the logarithm table. */
  lemma ExpOfLog(x: bv8)
    requires x != 0
    ensures 0 <= LogTable(x) < 256 && ExpTable(LogTable(x)) == x
  {
    hide ExpRow, LogRow, AreLogs, Index, Nibble;
    Nibbles(x);
    var r, j := x >> 4, x & 0x0f;
    IndexIsNibble(j);
    LogRowIsLogs(Index(r));
    LogEntry(LogRow(Index(r)), r << 4, j);
  }
}
