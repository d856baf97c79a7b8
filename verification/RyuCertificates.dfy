/**
  Every row of the two tables delivers exact floors: for each row, the two neighbouring fractions that show it.
 */
module RyuCertificates {
  import opened Words
  import opened RyuIntrinsics
  import opened RyuPowers
  import opened RyuRows
  import opened RyuTables

  // ----- the powers that the rows are compared with

  /** 5^(49 * h + 7 * k + i), for digits h, k and i below 7 */
  function FiveAt(h: nat, k: nat, i: nat): nat
  {
    (if h == 0 then 0x1 else if h == 1 then 0x36bcfc1194751ed30f03375d97c45
     else if h == 2 then 0xbb445da9ca61281f2a8a6e45ae8edc979c2ea52a04fc967d8fb4cea99
     else if h == 3 then (0x36bcfc1194751ed30f03375d97c45
       * 0xbb445da9ca61281f2a8a6e45ae8edc979c2ea52a04fc967d8fb4cea99)
     else if h == 4 then (0xbb445da9ca61281f2a8a6e45ae8edc979c2ea52a04fc967d8fb4cea99
       * 0xbb445da9ca61281f2a8a6e45ae8edc979c2ea52a04fc967d8fb4cea99)
     else if h == 5 then (0xbb445da9ca61281f2a8a6e45ae8edc979c2ea52a04fc967d8fb4cea99
       * 0x280aaa5ac1b7ac3f7cb6e6ea842def5b151c0b748f4a9cbe4f5096bb41f9b381b0b2e10f4f6f1ac60e573d)
     else (0x280aaa5ac1b7ac3f7cb6e6ea842def5b151c0b748f4a9cbe4f5096bb41f9b381b0b2e10f4f6f1ac60e573d
       * 0x280aaa5ac1b7ac3f7cb6e6ea842def5b151c0b748f4a9cbe4f5096bb41f9b381b0b2e10f4f6f1ac60e573d))
    * (if k == 0 then 0x1 else if k == 1 then 0x1312d else if k == 2 then 0x16bcc41e9
       else if k == 3 then 0x1b1ae4d6e2ef5 else if k == 4 then 0x204fce5e3e2502611
       else if k == 5 then 0x2684c2e58e9b04570f1fd else 0x2deaf189c140c16b7c528f679)
    * (if i == 0 then 0x1 else if i == 1 then 0x5 else if i == 2 then 0x19 else if i == 3 then 0x7d
       else if i == 4 then 0x271 else if i == 5 then 0xc35 else 0x3d09)
  }

  /** 2^(100 * x + 10 * y + z), for digits y and z below 10 and x below 8 */
  function TwoAt(x: nat, y: nat, z: nat): nat
  {
    (if x == 0 then 0x1 else if x == 1 then 0x10000000000000000000000000
     else if x == 2 then 0x100000000000000000000000000000000000000000000000000
     else if x == 3 then 0x1000000000000000000000000000000000000000000000000000000000000000000000000000
     else if x == 4 then (0x100000000000000000000000000000000000000000000000000
       * 0x100000000000000000000000000000000000000000000000000)
     else if x == 5 then (0x100000000000000000000000000000000000000000000000000
       * 0x1000000000000000000000000000000000000000000000000000000000000000000000000000)
     else if x == 6 then (0x1000000000000000000000000000000000000000000000000000000000000000000000000000
       * 0x1000000000000000000000000000000000000000000000000000000000000000000000000000)
     else (0x100000000000000000000000000000000000000000000000000
       * 0x100000000000000000000000000000000000000000000000000
       * 0x1000000000000000000000000000000000000000000000000000000000000000000000000000))
    * (if y == 0 then 0x1 else if y == 1 then 0x400 else if y == 2 then 0x100000 else if y == 3 then 0x40000000
       else if y == 4 then 0x10000000000 else if y == 5 then 0x4000000000000 else if y == 6 then 0x1000000000000000
       else if y == 7 then 0x400000000000000000 else if y == 8 then 0x100000000000000000000
       else 0x40000000000000000000000)
    * (if z == 0 then 0x1 else if z == 1 then 0x2 else if z == 2 then 0x4 else if z == 3 then 0x8
       else if z == 4 then 0x10 else if z == 5 then 0x20 else if z == 6 then 0x40 else if z == 7 then 0x80
       else if z == 8 then 0x100 else 0x200)
  }

  /** Each entry follows from the one before. */
  lemma NextFive(i: nat)
    requires 0 < i < 7
    ensures FiveAt(0, 0, i) == 0x5 * FiveAt(0, 0, i - 1)
  {
    match i
    case 1 => case 2 => case 3 => case 4 => case 5 => case 6 =>
  }

  lemma NextSeven(i: nat)
    requires 0 < i < 7
    ensures FiveAt(0, i, 0) == 0x1312d * FiveAt(0, i - 1, 0)
  {
    match i
    case 1 => case 2 => case 3 => case 4 => case 5 => case 6 =>
  }

  lemma NextSquare(i: nat)
    requires 0 < i < 7
    ensures FiveAt(i, 0, 0) == 0x36bcfc1194751ed30f03375d97c45 * FiveAt(i - 1, 0, 0)
  {
    match i
    case 1 => case 2 => case 3 => case 4 => case 5 => case 6 =>
  }

  lemma NextTwo(i: nat)
    requires 0 < i < 10
    ensures TwoAt(0, 0, i) == 0x2 * TwoAt(0, 0, i - 1)
  {
    match i
    case 1 => case 2 => case 3 => case 4 => case 5 => case 6 => case 7 => case 8 => case 9 =>
  }

  lemma NextTen(i: nat)
    requires 0 < i < 10
    ensures TwoAt(0, i, 0) == 0x400 * TwoAt(0, i - 1, 0)
  {
    match i
    case 1 => case 2 => case 3 => case 4 => case 5 => case 6 => case 7 => case 8 => case 9 =>
  }

  lemma NextHundred(i: nat)
    requires 0 < i < 8
    ensures TwoAt(i, 0, 0) == 0x10000000000000000000000000 * TwoAt(i - 1, 0, 0)
  {
    match i
    case 1 => case 2 => case 3 => case 4 => case 5 => case 6 => case 7 =>
  }

  lemma FirstPowers()
    ensures FiveAt(0, 0, 0) == TwoAt(0, 0, 0) == Pow5(0) == Pow2(0) == 1
  {
  }

  lemma Digits(h: nat, k: nat, i: nat)
    ensures FiveAt(h, k, i) == FiveAt(h, 0, 0) * FiveAt(0, k, 0) * FiveAt(0, 0, i)
    ensures TwoAt(h, k, i) == TwoAt(h, 0, 0) * TwoAt(0, k, 0) * TwoAt(0, 0, i)
  {
  }

  lemma PowersDouble(i: nat)
    ensures Pow5(i + 1) == 5 * Pow5(i) && Pow2(i + 1) == 2 * Pow2(i)
  {
  }

  lemma {:induction false} FivesAre(i: nat)
    requires i < 7
    ensures FiveAt(0, 0, i) == Pow5(i)
  {
    hide *;
    FirstPowers();
    if i > 0 {
      FivesAre(i - 1);
      NextFive(i);
      PowersDouble(i - 1);
    }
  }

  lemma {:induction false} SevensAre(i: nat)
    requires i < 7
    ensures FiveAt(0, i, 0) == Pow5(7 * i)
  {
    hide *;
    FirstPowers();
    if i > 0 {
      SevensAre(i - 1);
      NextSeven(i);
      SevenFives();
      Pow5Add(7 * (i - 1), 7);
    }
  }

  lemma {:induction false} SquaresAre(i: nat)
    requires i < 7
    ensures FiveAt(i, 0, 0) == Pow5(49 * i)
  {
    hide *;
    FirstPowers();
    if i > 0 {
      SquaresAre(i - 1);
      NextSquare(i);
      SquareFives();
      Pow5Add(49 * (i - 1), 49);
    }
  }

  lemma {:induction false} TwosAre(i: nat)
    requires i < 10
    ensures TwoAt(0, 0, i) == Pow2(i)
  {
    hide *;
    FirstPowers();
    if i > 0 {
      TwosAre(i - 1);
      NextTwo(i);
      PowersDouble(i - 1);
    }
  }

  lemma {:induction false} TensAre(i: nat)
    requires i < 10
    ensures TwoAt(0, i, 0) == Pow2(10 * i)
  {
    hide *;
    FirstPowers();
    if i > 0 {
      TensAre(i - 1);
      NextTen(i);
      TwoTo12();
      Pow2Add(10 * (i - 1), 10);
    }
  }

  lemma {:induction false} HundredsAre(i: nat)
    requires i < 8
    ensures TwoAt(i, 0, 0) == Pow2(100 * i)
  {
    hide *;
    FirstPowers();
    if i > 0 {
      HundredsAre(i - 1);
      NextHundred(i);
      HundredTwos();
      Pow2Add(100 * (i - 1), 100);
    }
  }

  lemma SevenFives()
    ensures Pow5(7) == 0x1312d
  {
  }

  lemma SquareFives()
    ensures Pow5(49) == 0x36bcfc1194751ed30f03375d97c45
  {
    hide *;
    SevenFives();
    SevensAre(6);
    SixSevens();
    Pow5Add(42, 7);
  }

  lemma SixSevens()
    ensures FiveAt(0, 6, 0) == 0x2deaf189c140c16b7c528f679
  {
  }

  lemma HundredTwos()
    ensures Pow2(100) == 0x10000000000000000000000000
  {
    hide *;
    TwoTo64();
    TwoTo21();
    TwoTo12();
    Pow2Add(64, 20);
    Pow2Add(12, 4);
    Pow2Add(84, 16);
    Sixteen();
    WordIs();
  }

  lemma Sixteen()
    ensures Pow2(4) == 16
  {
  }

  lemma WordIs()
    ensures W64 == 0x1_0000_0000_0000_0000
  {
  }

  lemma PowersAre(h: nat, k: nat, i: nat, x: nat, y: nat, z: nat)
    requires h < 7 && k < 7 && i < 7 && x < 8 && y < 10 && z < 10
    ensures FiveAt(h, k, i) == Pow5(49 * h + 7 * k + i)
    ensures TwoAt(x, y, z) == Pow2(100 * x + 10 * y + z)
  {
    hide *;
    Digits(h, k, i);
    Digits(x, y, z);
    FivesAre(i);
    SevensAre(k);
    SquaresAre(h);
    TwosAre(z);
    TensAre(y);
    HundredsAre(x);
    Pow5Add(49 * h, 7 * k);
    Pow5Add(49 * h + 7 * k, i);
    Pow2Add(100 * x, 10 * y);
    Pow2Add(100 * x + 10 * y, z);
  }

  // ----- the rows

  /** The row stands for 2^(pow5bits(q) + 6) / 5^q. */
  ghost predicate InvAgrees(q: nat, row: Row)
  {
    q <= 341 && Agrees(row, Pow2(Pow5Bits(q) + 6), Pow5(q))
  }

  /** The row stands for 2^7 * 5^i / 2^pow5bits(i). */
  ghost predicate SplitAgrees(i: nat, row: Row)
  {
    i <= 325 && Agrees(row, 128 * Pow5(i), Pow2(Pow5Bits(i)))
  }

  lemma InvCase(row: Row, q: nat, s: nat, five: nat, two: nat, a: nat, b: nat, c: nat, d: nat)
    requires q <= 341 && Pow5Bits(q) + 6 == s && five == Pow5(q) && two == Pow2(s)
    requires Fits(row, two, five, a, b, c, d)
    ensures InvAgrees(q, row)
  {
    hide *;
    FitsAgrees(row, two, five, a, b, c, d);
    InvMeans(q, row);
  }

  lemma InvMeans(q: nat, row: Row)
    requires q <= 341
    ensures InvAgrees(q, row) <==> Agrees(row, Pow2(Pow5Bits(q) + 6), Pow5(q))
  {
  }

  lemma SplitCase(row: Row, i: nat, s: nat, five: nat, two: nat, a: nat, b: nat, c: nat, d: nat)
    requires i <= 325 && Pow5Bits(i) == s && five == Pow5(i) && two == Pow2(s)
    requires Fits(row, 128 * five, two, a, b, c, d)
    ensures SplitAgrees(i, row)
  {
    hide *;
    FitsAgrees(row, 128 * five, two, a, b, c, d);
    SplitMeans(i, row);
  }

  lemma SplitMeans(i: nat, row: Row)
    requires i <= 325
    ensures SplitAgrees(i, row) <==> Agrees(row, 128 * Pow5(i), Pow2(Pow5Bits(i)))
  {
  }

  lemma InvBlock0(i: Place)
    ensures InvAgrees(i, INV_0[i])
  {
    hide InvAgrees, SplitAgrees, Agrees, Cut, Pow2, Pow5;
    match i
    case 0 =>
      PowersAre(0, 0, 0, 0, 0, 7);
      InvCase(INV_0[0], 0, 7, FiveAt(0, 0, 0), TwoAt(0, 0, 7),
              128, 1, 4611686018427387777, 36028797018963967);
    case 1 =>
      PowersAre(0, 0, 1, 0, 0, 9);
      InvCase(INV_0[1], 1, 9, FiveAt(0, 0, 1), TwoAt(0, 0, 9),
              512, 5, 3689348814741910221, 36028797018963967);
    case 2 =>
      PowersAre(0, 0, 2, 0, 1, 1);
      InvCase(INV_0[2], 2, 11, FiveAt(0, 0, 2), TwoAt(0, 1, 1),
              2048, 25, 2951479051793527849, 36028797018963963);
    case 3 =>
      PowersAre(0, 0, 3, 0, 1, 3);
      InvCase(INV_0[3], 3, 13, FiveAt(0, 0, 3), TwoAt(0, 1, 3),
              8192, 125, 2361183241434814677, 36028797018963847);
    case 4 =>
      PowersAre(0, 0, 4, 0, 1, 6);
      InvCase(INV_0[4], 4, 16, FiveAt(0, 0, 4), TwoAt(0, 1, 6),
              65536, 625, 3777893186295660177, 36028797018963434);
    case 5 =>
      PowersAre(0, 0, 5, 0, 1, 8);
      InvCase(INV_0[5], 5, 18, FiveAt(0, 0, 5), TwoAt(0, 1, 8),
              262144, 3125, 3022314549036443165, 36028797018962421);
    case 6 =>
      PowersAre(0, 0, 6, 0, 2, 0);
      InvCase(INV_0[6], 6, 20, FiveAt(0, 0, 6), TwoAt(0, 2, 0),
              1048576, 15625, 2417851639228686649, 36028797018955449);
  }

  lemma InvBlock1(i: Place)
    ensures InvAgrees(7 + i, INV_1[i])
  {
    hide InvAgrees, SplitAgrees, Agrees, Cut, Pow2, Pow5;
    match i
    case 0 =>
      PowersAre(0, 1, 0, 0, 2, 3);
      InvCase(INV_1[0], 7, 23, FiveAt(0, 1, 0), TwoAt(0, 2, 3),
              8388608, 78125, 3868562622761485989, 36028797018914353);
    case 1 =>
      PowersAre(0, 1, 1, 0, 2, 5);
      InvCase(INV_1[1], 8, 25, FiveAt(0, 1, 1), TwoAt(0, 2, 5),
              33554432, 390625, 3094850098210344481, 36028797018927807);
    case 2 =>
      PowersAre(0, 1, 2, 0, 2, 7);
      InvCase(INV_1[2], 9, 27, FiveAt(0, 1, 2), TwoAt(0, 2, 7),
              134217728, 1953125, 2475880078512135277, 36028797018110858);
    case 3 =>
      PowersAre(0, 1, 3, 0, 3, 0);
      InvCase(INV_1[3], 10, 30, FiveAt(0, 1, 3), TwoAt(0, 3, 0),
              1073741824, 9765625, 3961408124897075017, 36028797011541201);
    case 4 =>
      PowersAre(0, 1, 4, 0, 3, 2);
      InvCase(INV_1[4], 11, 32, FiveAt(0, 1, 4), TwoAt(0, 3, 2),
              4294967296, 48828125, 3169126496708147573, 36028796975053269);
    case 5 =>
      PowersAre(0, 1, 5, 0, 3, 4);
      InvCase(INV_1[5], 12, 34, FiveAt(0, 1, 5), TwoAt(0, 3, 4),
              17179869184, 244140625, 2535301198099005105, 36028796985462536);
    case 6 =>
      PowersAre(0, 1, 6, 0, 3, 7);
      InvCase(INV_1[6], 13, 37, FiveAt(0, 1, 6), TwoAt(0, 3, 7),
              137438953472, 1220703125, 4056481823612682173, 36028796156385942);
  }

  lemma InvBlock2(i: Place)
    ensures InvAgrees(14 + i, INV_2[i])
  {
    hide InvAgrees, SplitAgrees, Agrees, Cut, Pow2, Pow5;
    match i
    case 0 =>
      PowersAre(0, 2, 0, 0, 3, 9);
      InvCase(INV_2[0], 14, 39, FiveAt(0, 2, 0), TwoAt(0, 3, 9),
              549755813888, 6103515625, 3245185364498884185, 36028795108432423);
    case 1 =>
      PowersAre(0, 2, 1, 0, 4, 1);
      InvCase(INV_2[1], 15, 41, FiveAt(0, 2, 1), TwoAt(0, 4, 1),
              2199023255552, 30517578125, 2596147371121320261, 36028782334237012);
    case 2 =>
      PowersAre(0, 2, 2, 0, 4, 4);
      InvCase(INV_2[2], 16, 44, FiveAt(0, 2, 2), TwoAt(0, 4, 4),
              17592186044416, 152587890625, 4153833165214556225, 36028759534943689);
    case 3 =>
      PowersAre(0, 2, 3, 0, 4, 6);
      InvCase(INV_2[3], 17, 46, FiveAt(0, 2, 3), TwoAt(0, 4, 6),
              70368744177664, 762939453125, 3323069222141370381, 36028788699653891);
    case 4 =>
      PowersAre(0, 2, 4, 0, 4, 8);
      InvCase(INV_2[4], 18, 48, FiveAt(0, 2, 4), TwoAt(0, 4, 8),
              281474976710656, 3814697265625, 2658315178218686057, 36026888642198629);
    case 5 =>
      PowersAre(0, 2, 5, 0, 5, 1);
      InvCase(INV_2[5], 19, 51, FiveAt(0, 2, 5), TwoAt(0, 5, 1),
              2251799813685248, 19073486328125, 4251805212837793301, 36014191005811938);
    case 6 =>
      PowersAre(0, 2, 6, 0, 5, 3);
      InvCase(INV_2[6], 20, 53, FiveAt(0, 2, 6), TwoAt(0, 5, 3),
              9007199254740992, 95367431640625, 3398497711733785297, 35982994162585797);
  }

  lemma InvBlock3(i: Place)
    ensures InvAgrees(21 + i, INV_3[i])
  {
    hide InvAgrees, SplitAgrees, Agrees, Cut, Pow2, Pow5;
    match i
    case 0 =>
      PowersAre(0, 3, 0, 0, 5, 5);
      InvCase(INV_3[0], 21, 55, FiveAt(0, 3, 0), TwoAt(0, 5, 5),
              36028797018963968, 476837158203125, 2695510735557791069, 35674787542111293);
    case 1 =>
      PowersAre(0, 3, 1, 0, 5, 8);
      InvCase(INV_3[1], 22, 58, FiveAt(0, 3, 1), TwoAt(0, 5, 8),
              288230376151711744, 2384185791015625, 4336537352910360441, 35870996239394771);
    case 2 =>
      PowersAre(0, 3, 2, 0, 6, 0);
      InvCase(INV_3[2], 23, 60, FiveAt(0, 3, 2), TwoAt(0, 6, 0),
              1152921504606846976, 11920928955078125, 3230796555026108389, 33405653417758849);
    case 3 =>
      PowersAre(0, 3, 3, 0, 6, 2);
      InvCase(INV_3[3], 24, 62, FiveAt(0, 3, 3), TwoAt(0, 6, 2),
              1429099397287102879, 18470676794486069, 1753487223853182146, 22663291186418487);
    case 4 =>
      PowersAre(0, 3, 4, 0, 6, 5);
      InvCase(INV_3[4], 25, 65, FiveAt(0, 3, 4), TwoAt(0, 6, 5),
              3806845616464240501, 30751453993375964, 1273034648456114010, 10283491995226139);
    case 5 =>
      PowersAre(0, 3, 5, 0, 6, 7);
      InvCase(INV_3[5], 26, 67, FiveAt(0, 3, 5), TwoAt(0, 6, 7),
              2788417897699349293, 28155825496493816, 1018427718764891208, 10283491995226139);
    case 6 =>
      PowersAre(0, 3, 6, 0, 6, 9);
      InvCase(INV_3[6], 27, 69, FiveAt(0, 3, 6), TwoAt(0, 6, 9),
              1372425754551782825, 17322448369349593, 2701285120507782007, 34095011606781102);
  }

  lemma InvBlock4(i: Place)
    ensures InvAgrees(28 + i, INV_4[i])
  {
    hide InvAgrees, SplitAgrees, Agrees, Cut, Pow2, Pow5;
    match i
    case 0 =>
      PowersAre(0, 4, 0, 0, 7, 2);
      InvCase(INV_4[0], 28, 72, FiveAt(0, 4, 0), TwoAt(0, 7, 2),
              2195881207282852520, 17322448369349593, 3250255422328495137, 25639994346575587);
    case 1 =>
      PowersAre(0, 4, 1, 0, 7, 4);
      InvCase(INV_4[1], 29, 74, FiveAt(0, 4, 1), TwoAt(0, 7, 4),
              1756704965826282016, 17322448369349593, 1932726697958783625, 19058156656207289);
    case 2 =>
      PowersAre(0, 4, 2, 0, 7, 6);
      InvCase(INV_4[2], 30, 76, FiveAt(0, 4, 2), TwoAt(0, 7, 6),
              1370159626234525291, 16888521297635169, 2916340984601552191, 35946677953842458);
    case 3 =>
      PowersAre(0, 4, 3, 0, 7, 8);
      InvCase(INV_4[3], 31, 78, FiveAt(0, 4, 3), TwoAt(0, 7, 8),
              2297868441254741431, 35404269114199428, 1236945086693621520, 19058156656207289);
    case 4 =>
      PowersAre(0, 4, 4, 0, 8, 1);
      InvCase(INV_4[4], 32, 81, FiveAt(0, 4, 4), TwoAt(0, 8, 1),
              1308312371899844215, 12598589868270998, 3287424510609638647, 31656746524478287);
    case 5 =>
      PowersAre(0, 4, 5, 0, 8, 3);
      InvCase(INV_4[5], 33, 83, FiveAt(0, 4, 5), TwoAt(0, 8, 3),
              523324948759937686, 6299294934135499, 2649911905519744649, 31897154305179475);
    case 6 =>
      PowersAre(0, 4, 6, 0, 8, 5);
      InvCase(INV_4[6], 34, 85, FiveAt(0, 4, 6), TwoAt(0, 8, 5),
              1681297268375811839, 25297349645167491, 1269294741711872934, 19098224619657487);
  }

  lemma InvBlock5(i: Place)
    ensures InvAgrees(35 + i, INV_5[i])
  {
    hide InvAgrees, SplitAgrees, Agrees, Cut, Pow2, Pow5;
    match i
    case 0 =>
      PowersAre(0, 5, 0, 0, 8, 8);
      InvCase(INV_5[0], 35, 88, FiveAt(0, 5, 0), TwoAt(0, 8, 8),
              164801010665575562, 1549781256377501, 3676370376190099459, 34572420869934959);
    case 1 =>
      PowersAre(0, 5, 1, 0, 9, 0);
      InvCase(INV_5[1], 36, 90, FiveAt(0, 5, 1), TwoAt(0, 9, 0),
              2986717448599334954, 35108694883308741, 1163756702968516353, 13679894300710618);
    case 2 =>
      PowersAre(0, 5, 2, 0, 9, 2);
      InvCase(INV_5[2], 37, 92, FiveAt(0, 5, 2), TwoAt(0, 9, 2),
              961935638846030711, 14134373866476716, 2327513405937032706, 34199735751776545);
    case 3 =>
      PowersAre(0, 5, 3, 0, 9, 5);
      InvCase(INV_5[3], 38, 95, FiveAt(0, 5, 3), TwoAt(0, 9, 5),
              1923871277692061422, 17667967333095895, 2054397852518832307, 18866664609197862);
    case 4 =>
      PowersAre(0, 5, 4, 0, 9, 7);
      InvCase(INV_5[4], 39, 97, FiveAt(0, 5, 4), TwoAt(0, 9, 7),
              1897765962726707245, 21785284847344377, 2002187222588123953, 22983982123446344);
    case 5 =>
      PowersAre(0, 5, 5, 0, 9, 9);
      InvCase(INV_5[5], 40, 99, FiveAt(0, 5, 5), TwoAt(0, 9, 9),
              1518212770181365796, 21785284847344377, 2002187222588123953, 28729977654307930);
    case 6 =>
      PowersAre(0, 5, 6, 1, 0, 2);
      InvCase(INV_5[6], 41, 102, FiveAt(0, 5, 6), TwoAt(1, 0, 2),
              2015445105180342218, 18075136837249171, 2996651892586076797, 26874903649260327);
  }

  lemma InvBlock6(i: Place)
    ensures InvAgrees(42 + i, INV_6[i])
  {
    hide InvAgrees, SplitAgrees, Agrees, Cut, Pow2, Pow5;
    match i
    case 0 =>
      PowersAre(0, 6, 0, 1, 0, 4);
      InvCase(INV_6[0], 42, 104, FiveAt(0, 6, 0), TwoAt(1, 0, 4),
              2004838799106567606, 22475020243254749, 2986045586512302185, 33474728758268694);
    case 1 =>
      PowersAre(0, 6, 1, 1, 0, 6);
      InvCase(INV_6[1], 43, 106, FiveAt(0, 6, 1), TwoAt(1, 0, 6),
              2218050246305753901, 31081504039435352, 1194418234604920874, 16737364379134347);
    case 2 =>
      PowersAre(0, 6, 2, 1, 0, 9);
      InvCase(INV_6[2], 44, 109, FiveAt(0, 6, 2), TwoAt(1, 0, 9),
              2218050246305753901, 19425940024647095, 3241899323151325739, 28392928393922604);
    case 3 =>
      PowersAre(0, 6, 3, 1, 1, 1);
      InvCase(INV_6[3], 45, 111, FiveAt(0, 6, 3), TwoAt(1, 1, 1),
              1126060332414337973, 12327707926166444, 3241899323151325739, 35491160492403255);
    case 4 =>
      PowersAre(0, 6, 4, 1, 1, 3);
      InvCase(INV_6[4], 46, 113, FiveAt(0, 6, 4), TwoAt(1, 1, 3),
              1126060332414337973, 15409634907708055, 2143095325555325402, 29327306529320033);
    case 5 =>
      PowersAre(0, 6, 5, 1, 1, 6);
      InvCase(INV_6[5], 47, 116, FiveAt(0, 6, 5), TwoAt(1, 1, 6),
              653831131593932675, 5592117679628511, 4068139972563949716, 34794179054029945);
    case 6 =>
      PowersAre(0, 6, 6, 1, 1, 8);
      InvCase(INV_6[6], 48, 118, FiveAt(0, 6, 6), TwoAt(1, 1, 8),
              523064905275146140, 5592117679628511, 3152776388332443971, 33706517878187537);
  }

  lemma InvBlock7(i: Place)
    ensures InvAgrees(49 + i, INV_7[i])
  {
    hide InvAgrees, SplitAgrees, Agrees, Cut, Pow2, Pow5;
    match i
    case 0 =>
      PowersAre(1, 0, 0, 1, 2, 0);
      InvCase(INV_7[0], 49, 120, FiveAt(1, 0, 0), TwoAt(1, 2, 0),
              418451924220116912, 5592117679628511, 2420485520947239375, 32346941408384527);
    case 1 =>
      PowersAre(1, 0, 1, 1, 2, 3);
      InvCase(INV_7[1], 50, 123, FiveAt(1, 0, 1), TwoAt(1, 2, 3),
              3347615393760935296, 27960588398142555, 1739452876849798611, 14528588325351524);
    case 2 =>
      PowersAre(1, 0, 2, 1, 2, 5);
      InvCase(INV_7[2], 51, 125, FiveAt(1, 0, 2), TwoAt(1, 2, 5),
              3025982890378707959, 31592735479480436, 1739452876849798611, 18160735406689405);
    case 3 =>
      PowersAre(1, 0, 3, 1, 2, 7);
      InvCase(INV_7[3], 52, 127, FiveAt(1, 0, 3), TwoAt(1, 2, 7),
              2239617166974610662, 29228367812531249, 786365723404097297, 10262551536819296);
    case 4 =>
      PowersAre(1, 0, 4, 1, 3, 0);
      InvCase(INV_7[4], 53, 130, FiveAt(1, 0, 4), TwoAt(1, 3, 0),
              3897933756521015978, 31794005696736073, 786365723404097297, 6414094710512060);
    case 5 =>
      PowersAre(1, 0, 5, 1, 3, 2);
      InvCase(INV_7[5], 54, 132, FiveAt(1, 0, 5), TwoAt(1, 3, 2),
              2961073860535993323, 30190482019108058, 786365723404097297, 8017618388140075);
    case 6 =>
      PowersAre(1, 0, 6, 1, 3, 4);
      InvCase(INV_7[6], 55, 134, FiveAt(1, 0, 6), TwoAt(1, 3, 4),
              1462098026959957075, 18634052320261006, 1535853640192115421, 19574048086987127);
  }

  lemma InvBlock8(i: Place)
    ensures InvAgrees(56 + i, INV_8[i])
  {
    hide InvAgrees, SplitAgrees, Agrees, Cut, Pow2, Pow5;
    match i
    case 0 =>
      PowersAre(1, 1, 0, 1, 3, 7);
      InvCase(INV_8[0], 56, 137, FiveAt(1, 1, 0), TwoAt(1, 3, 7),
              1169678421567965660, 9317026160130503, 3948966096560205087, 31455329728831786);
    case 1 =>
      PowersAre(1, 1, 1, 1, 3, 9);
      InvCase(INV_8[1], 57, 139, FiveAt(1, 1, 1), TwoAt(1, 3, 9),
              935742737254372528, 9317026160130503, 3481094727933018823, 34660649080974481);
    case 2 =>
      PowersAre(1, 1, 2, 1, 4, 1);
      InvCase(INV_8[2], 58, 141, FiveAt(1, 1, 2), TwoAt(1, 4, 1),
              2380555872644474315, 29628471130537252, 1018140796271458518, 12671811460421989);
    case 3 =>
      PowersAre(1, 1, 3, 1, 4, 3);
      InvCase(INV_8[3], 59, 143, FiveAt(1, 1, 3), TwoAt(1, 4, 3),
              476111174528894863, 7407117782634313, 2168118486970254620, 33730586171572693);
    case 4 =>
      PowersAre(1, 1, 4, 1, 4, 6);
      InvCase(INV_8[4], 60, 146, FiveAt(1, 1, 4), TwoAt(1, 4, 6),
              42487477134843939, 413125342699859, 3681426964826627087, 35796212885071988);
    case 5 =>
      PowersAre(1, 1, 5, 1, 4, 8);
      InvCase(INV_8[5], 61, 148, FiveAt(1, 1, 5), TwoAt(1, 4, 8),
              1506560767638525986, 18311231785235853, 2174866197188101101, 26434034321104132);
    case 6 =>
      PowersAre(1, 1, 6, 1, 5, 0);
      InvCase(INV_8[6], 62, 150, FiveAt(1, 1, 6), TwoAt(1, 5, 0),
              1105577509908780917, 16796937829643607, 1640221853548441009, 24919740365511886);
  }

  lemma InvBlock9(i: Place)
    ensures InvAgrees(63 + i, INV_9[i])
  {
    hide InvAgrees, SplitAgrees, Agrees, Cut, Pow2, Pow5;
    match i
    case 0 =>
      PowersAre(1, 2, 0, 1, 5, 3);
      InvCase(INV_9[0], 63, 153, FiveAt(1, 2, 0), TwoAt(1, 5, 3),
              114186633253824165, 1084266911721916, 3706221582848159911, 35192678120731815);
    case 1 =>
      PowersAre(1, 2, 1, 1, 5, 5);
      InvCase(INV_9[1], 64, 155, FiveAt(1, 2, 1), TwoAt(1, 5, 5),
              22837326650764833, 271066727930479, 3017988452947220983, 35821892263601432);
    case 2 =>
      PowersAre(1, 2, 2, 1, 5, 7);
      InvCase(INV_9[2], 65, 157, FiveAt(1, 2, 2), TwoAt(1, 5, 7),
              91349306603059332, 1355333639652395, 2357504377368183371, 34977878947226342);
    case 3 =>
      PowersAre(1, 2, 3, 1, 6, 0);
      InvCase(INV_9[3], 66, 160, FiveAt(1, 2, 3), TwoAt(1, 6, 0),
              3351107926405767861, 31074875330604112, 873437824527097735, 8099402377447379);
    case 4 =>
      PowersAre(1, 2, 4, 1, 6, 2);
      InvCase(INV_9[4], 67, 162, FiveAt(1, 2, 4), TwoAt(1, 6, 2),
              2652357666784089673, 30744191785807761, 698750259621678188, 8099402377447379);
    case 5 =>
      PowersAre(1, 2, 5, 1, 6, 4);
      InvCase(INV_9[5], 68, 164, FiveAt(1, 2, 5), TwoAt(1, 6, 4),
              781442962864964594, 11322394704180191, 1788222000675838673, 25909703295708543);
    case 6 =>
      PowersAre(1, 2, 6, 1, 6, 7);
      InvCase(INV_9[6], 69, 167, FiveAt(1, 2, 6), TwoAt(1, 6, 7),
              1653020355708292982, 14969221852062279, 2659799393519167061, 24086289721767499);
  }

  lemma InvBlock10(i: Place)
    ensures InvAgrees(70 + i, INV_10[i])
  {
    hide InvAgrees, SplitAgrees, Agrees, Cut, Pow2, Pow5;
    match i
    case 0 =>
      PowersAre(1, 3, 0, 1, 6, 9);
      InvCase(INV_10[0], 70, 169, FiveAt(1, 3, 0), TwoAt(1, 6, 9),
              2846188376695443587, 32217710671550863, 1926483707253158833, 21807022754341194);
    case 1 =>
      PowersAre(1, 3, 1, 1, 7, 1);
      InvCase(INV_10[1], 71, 171, FiveAt(1, 3, 1), TwoAt(1, 7, 1),
              2529437015303759926, 35790265407337721, 17414873673717865, 246411729980464);
    case 2 =>
      PowersAre(1, 3, 2, 1, 7, 4);
      InvCase(INV_10[2], 72, 174, FiveAt(1, 3, 2), TwoAt(1, 7, 4),
              4071010378485157115, 36001722181771927, 3482974734743573, 30801466247558);
    case 3 =>
      PowersAre(1, 3, 3, 1, 7, 6);
      InvCase(INV_10[3], 73, 176, FiveAt(1, 3, 3), TwoAt(1, 7, 6),
              3254953352519311437, 35981217012897946, 6965949469487146, 77003665618895);
    case 4 =>
      PowersAre(1, 3, 4, 1, 7, 8);
      InvCase(INV_10[4], 74, 178, FiveAt(1, 3, 4), TwoAt(1, 7, 8),
              2431487354904776805, 33597975418461439, 2459351152782725389, 33982993746555914);
    case 5 =>
      PowersAre(1, 3, 5, 1, 8, 1);
      InvCase(INV_10[5], 75, 181, FiveAt(1, 3, 5), TwoAt(1, 8, 1),
              3890379767847642888, 33597975418461439, 3431946094744636111, 29638864946212806);
    case 6 =>
      PowersAre(1, 3, 6, 1, 8, 3);
      InvCase(INV_10[6], 76, 183, FiveAt(1, 3, 6), TwoAt(1, 8, 3),
              869762688190129933, 9389271472677518, 2515078748538622557, 27150805002144425);
  }

  lemma InvBlock11(i: Place)
    ensures InvAgrees(77 + i, INV_11[i])
  {
    hide InvAgrees, SplitAgrees, Agrees, Cut, Pow2, Pow5;
    match i
    case 0 =>
      PowersAre(1, 4, 0, 1, 8, 5);
      InvCase(INV_11[0], 77, 185, FiveAt(1, 4, 0), TwoAt(1, 8, 5),
              1739525376380259866, 23473178681693795, 2223699262881630929, 30006627578257869);
    case 1 =>
      PowersAre(1, 4, 1, 1, 8, 8);
      InvCase(INV_11[1], 78, 188, FiveAt(1, 4, 1), TwoAt(1, 8, 8),
              792644927852378159, 6684975782493958, 3521985401710240570, 29703573806398101);
    case 2 =>
      PowersAre(1, 4, 2, 1, 9, 0);
      InvCase(INV_11[2], 79, 190, FiveAt(1, 4, 2), TwoAt(1, 9, 0),
              1585289855704756318, 16712439456234895, 2201439088536474387, 23208006631316498);
    case 3 =>
      PowersAre(1, 4, 3, 1, 9, 2);
      InvCase(INV_11[3], 80, 192, FiveAt(1, 4, 3), TwoAt(1, 9, 2),
              1655888133713020354, 21820875596811541, 2342635644553002459, 30870660842181467);
    case 4 =>
      PowersAre(1, 4, 4, 1, 9, 5);
      InvCase(INV_11[4], 81, 195, FiveAt(1, 4, 4), TwoAt(1, 9, 5),
              3998523778266022813, 32932210274370630, 549398008671985684, 4524892622684963);
    case 5 =>
      PowersAre(1, 4, 5, 1, 9, 7);
      InvCase(INV_11[5], 82, 197, FiveAt(1, 4, 5), TwoAt(1, 9, 7),
              579945552184410289, 5970606257250176, 3357483139056763314, 34565675627925167);
    case 6 =>
      PowersAre(1, 4, 6, 1, 9, 9);
      InvCase(INV_11[6], 83, 199, FiveAt(1, 4, 6), TwoAt(1, 9, 9),
              579945552184410289, 7463257821562720, 2222030069497882420, 28595069370674991);
  }

  lemma InvBlock12(i: Place)
    ensures InvAgrees(84 + i, INV_12[i])
  {
    hide InvAgrees, SplitAgrees, Agrees, Cut, Pow2, Pow5;
    match i
    case 0 =>
      PowersAre(1, 5, 0, 2, 0, 2);
      InvCase(INV_12[0], 84, 202, FiveAt(1, 5, 0), TwoAt(2, 0, 2),
              579945552184410289, 4664536138476700, 4135193663381022161, 33259605509151691);
    case 1 =>
      PowersAre(1, 5, 1, 2, 0, 4);
      InvCase(INV_12[1], 85, 204, FiveAt(1, 5, 1), TwoAt(2, 0, 4),
              579945552184410289, 5830670173095875, 3192165820267935671, 32093471474532516);
    case 2 =>
      PowersAre(1, 5, 2, 2, 0, 6);
      InvCase(INV_12[2], 86, 206, FiveAt(1, 5, 2), TwoAt(2, 0, 6),
              2494258931043700059, 31346048561016629, 2668735653349758962, 33538746256553883);
    case 3 =>
      PowersAre(1, 5, 3, 2, 0, 9);
      InvCase(INV_12[3], 87, 209, FiveAt(1, 5, 3), TwoAt(2, 0, 9),
              1925616455912536486, 15124849856624001, 3237378128480922535, 25428146904357569);
    case 4 =>
      PowersAre(1, 5, 4, 2, 1, 1);
      InvCase(INV_12[4], 88, 211, FiveAt(1, 5, 4), TwoAt(2, 1, 1),
              1278140830216351979, 12549025594690609, 2589902502784738028, 25428146904357569);
    case 5 =>
      PowersAre(1, 5, 5, 2, 1, 3);
      InvCase(INV_12[5], 89, 213, FiveAt(1, 5, 5), TwoAt(2, 1, 3),
              1284864998686758793, 15768805922107349, 2596626671255144842, 31867707559191049);
    case 6 =>
      PowersAre(1, 5, 6, 2, 1, 5);
      InvCase(INV_12[6], 90, 215, FiveAt(1, 5, 6), TwoAt(2, 1, 5),
              1793431663385136859, 27512886434943773, 1552596667976761454, 23818256740649199);
  }

  lemma InvBlock13(i: Place)
    ensures InvAgrees(91 + i, INV_13[i])
  {
    hide InvAgrees, SplitAgrees, Agrees, Cut, Pow2, Pow5;
    match i
    case 0 =>
      PowersAre(1, 6, 0, 2, 1, 8);
      InvCase(INV_13[0], 91, 218, FiveAt(1, 6, 0), TwoAt(2, 1, 8),
              3249694333198548151, 31158307061171964, 3057026336871847827, 29310992214024677);
    case 1 =>
      PowersAre(1, 6, 1, 2, 2, 0);
      InvCase(INV_13[1], 92, 220, FiveAt(1, 6, 1), TwoAt(2, 2, 0),
              2753889863620198780, 33005621908319251, 495804469578349371, 5942261918145704);
    case 2 =>
      PowersAre(1, 6, 2, 2, 2, 2);
      InvCase(INV_13[2], 93, 222, FiveAt(1, 6, 2), TwoAt(2, 2, 2),
              2203111890896159024, 33005621908319251, 495804469578349371, 7427827397682130);
    case 3 =>
      PowersAre(1, 6, 3, 2, 2, 5);
      InvCase(INV_13[3], 94, 225, FiveAt(1, 6, 3), TwoAt(2, 2, 5),
              583762074611453987, 5465970202949014, 3734504102147759445, 34967479103052367);
    case 4 =>
      PowersAre(1, 6, 4, 2, 2, 7);
      InvCase(INV_13[4], 95, 227, FiveAt(1, 6, 4), TwoAt(2, 2, 7),
              2077563715470557765, 24316202305212451, 2987603281718207556, 34967479103052367);
    case 5 =>
      PowersAre(1, 6, 5, 2, 2, 9);
      InvCase(INV_13[5], 96, 229, FiveAt(1, 6, 5), TwoAt(2, 2, 9),
              1662050972376446212, 24316202305212451, 910039566247649791, 13314095997299895);
    case 6 =>
      PowersAre(1, 6, 6, 2, 3, 2);
      InvCase(INV_13[6], 97, 232, FiveAt(1, 6, 6), TwoAt(2, 3, 2),
              3260890680705351076, 29817255459168729, 878433934223879117, 8032311287139017);
  }

  lemma InvBlock14(i: Place)
    ensures InvAgrees(98 + i, INV_14[i])
  {
    hide InvAgrees, SplitAgrees, Agrees, Cut, Pow2, Pow5;
    match i
    case 0 =>
      PowersAre(2, 0, 0, 2, 3, 4);
      InvCase(INV_14[0], 98, 234, FiveAt(2, 0, 0), TwoAt(2, 3, 4),
              2132221195267986469, 24371019416161301, 1881985644054500979, 21510858617285462);
    case 1 =>
      PowersAre(2, 0, 1, 2, 3, 6);
      InvCase(INV_14[1], 99, 236, FiveAt(2, 0, 1), TwoAt(2, 3, 6),
              1982079864539895175, 28318653671044747, 1781891423569106783, 25458492872168908);
    case 2 =>
      PowersAre(2, 0, 2, 2, 3, 9);
      InvCase(INV_14[2], 100, 239, FiveAt(2, 0, 2), TwoAt(2, 3, 9),
              3171327783263832280, 28318653671044747, 3367555315201022923, 30070884880627941);
    case 3 =>
      PowersAre(2, 0, 3, 2, 4, 1);
      InvCase(INV_14[3], 101, 241, FiveAt(2, 0, 3), TwoAt(2, 4, 1),
              2537062226611065824, 28318653671044747, 1464758645242723555, 16349615847501366);
    case 4 =>
      PowersAre(2, 0, 4, 2, 4, 3);
      InvCase(INV_14[4], 102, 243, FiveAt(2, 0, 4), TwoAt(2, 4, 3),
              2437558891785229249, 34009998520733794, 585903458097089422, 8174807923750683);
    case 5 =>
      PowersAre(2, 0, 5, 2, 4, 6);
      InvCase(INV_14[5], 103, 246, FiveAt(2, 0, 5), TwoAt(2, 4, 6),
              3103065017742987931, 27059663311838868, 2596764227506567769, 22644567643530761);
    case 6 =>
      PowersAre(2, 0, 6, 2, 4, 8);
      InvCase(INV_14[6], 104, 248, FiveAt(2, 0, 6), TwoAt(2, 4, 8),
              3103065017742987931, 33824579139798585, 1456798378456656629, 15879651815571044);
  }

  lemma InvBlock15(i: Place)
    ensures InvAgrees(105 + i, INV_15[i])
  {
    hide InvAgrees, SplitAgrees, Agrees, Cut, Pow2, Pow5;
    match i
    case 0 =>
      PowersAre(2, 1, 0, 2, 5, 0);
      InvCase(INV_15[0], 105, 250, FiveAt(2, 1, 0), TwoAt(2, 5, 0),
              2191092338503059019, 29854666185905824, 1456798378456656629, 19849564769463805);
    case 1 =>
      PowersAre(2, 1, 1, 2, 5, 3);
      InvCase(INV_15[1], 106, 253, FiveAt(2, 1, 1), TwoAt(2, 5, 3),
              2191092338503059019, 18659166366191140, 3207314340931874214, 27313231315940261);
    case 2 =>
      PowersAre(2, 1, 2, 2, 5, 5);
      InvCase(INV_15[2], 107, 255, FiveAt(2, 1, 2), TwoAt(2, 5, 5),
              2191092338503059019, 23323957957738925, 3004069940446111175, 31978022907488046);
    case 3 =>
      PowersAre(2, 1, 3, 2, 5, 7);
      InvCase(INV_15[3], 108, 257, FiveAt(2, 1, 3), TwoAt(2, 5, 7),
              2579742712738451333, 34326377713731278, 1201627976178444470, 15989011453744023);
    case 4 =>
      PowersAre(2, 1, 4, 2, 6, 0);
      InvCase(INV_15[4], 109, 260, FiveAt(2, 1, 4), TwoAt(2, 6, 0),
              4021696284152584697, 33445744661390066, 1922604761885511152, 15989011453744023);
    case 5 =>
      PowersAre(2, 1, 5, 2, 6, 2);
      InvCase(INV_15[5], 110, 262, FiveAt(2, 1, 5), TwoAt(2, 6, 2),
              3182059675245755279, 33078814222914561, 1502786457432096443, 15622081015268518);
    case 6 =>
      PowersAre(2, 1, 6, 2, 6, 4);
      InvCase(INV_15[6], 111, 264, FiveAt(2, 1, 6), TwoAt(2, 6, 4),
              972266578611882823, 12633886857640151, 2033306336252310063, 26421315680531144);
  }

  lemma InvBlock16(i: Place)
    ensures InvAgrees(112 + i, INV_16[i])
  {
    hide InvAgrees, SplitAgrees, Agrees, Cut, Pow2, Pow5;
    match i
    case 0 =>
      PowersAre(2, 2, 0, 2, 6, 7);
      InvCase(INV_16[0], 112, 267, FiveAt(2, 2, 0), TwoAt(2, 6, 7),
              2704591784307563021, 21965109255213909, 2368949060279936542, 19239215777772937);
    case 1 =>
      PowersAre(2, 2, 1, 2, 6, 9);
      InvCase(INV_16[1], 113, 269, FiveAt(2, 2, 1), TwoAt(2, 6, 9),
              2096544882640525121, 21283635885853666, 1760902158612898642, 17876269039052451);
    case 2 =>
      PowersAre(2, 2, 2, 2, 7, 1);
      InvCase(INV_16[2], 114, 271, FiveAt(2, 2, 2), TwoAt(2, 7, 1),
              1945750085334521280, 24691002732654881, 1123669839973264481, 14259043490989642);
    case 3 =>
      PowersAre(2, 2, 3, 2, 7, 4);
      InvCase(INV_16[3], 115, 274, FiveAt(2, 2, 3), TwoAt(2, 7, 4),
              4149309554053601955, 32908457228769299, 4494679359893057924, 35647608727474105);
    case 4 =>
      PowersAre(2, 2, 4, 2, 7, 6);
      InvCase(INV_16[4], 116, 276, FiveAt(2, 2, 4), TwoAt(2, 7, 6),
              3319447643242881564, 32908457228769299, 2005093627460896751, 19878167987765657);
    case 5 =>
      PowersAre(2, 2, 5, 2, 7, 8);
      InvCase(INV_16[5], 117, 278, FiveAt(2, 2, 5), TwoAt(2, 7, 8),
              2628708031563969626, 32575723102509105, 1064908254140755663, 13196656304133739);
    case 6 =>
      PowersAre(2, 2, 6, 2, 8, 0);
      InvCase(INV_16[6], 118, 280, FiveAt(2, 2, 6), TwoAt(2, 8, 0),
              1364243168110230643, 21132628250848394, 965129949484264003, 14950217756606767);
  }

  lemma InvBlock17(i: Place)
    ensures InvAgrees(119 + i, INV_17[i])
  {
    hide InvAgrees, SplitAgrees, Agrees, Cut, Pow2, Pow5;
    match i
    case 0 =>
      PowersAre(2, 3, 0, 2, 8, 3);
      InvCase(INV_17[0], 119, 283, FiveAt(2, 3, 0), TwoAt(2, 8, 3),
              3294503067078758649, 31895664852538705, 885307305759070675, 8571084786099026);
    case 1 =>
      PowersAre(2, 3, 1, 2, 8, 5);
      InvCase(INV_17[1], 120, 285, FiveAt(2, 3, 1), TwoAt(2, 8, 5),
              2870715449969420463, 34740967004326876, 354122922303628270, 4285542393049513);
    case 2 =>
      PowersAre(2, 3, 2, 2, 8, 7);
      InvCase(INV_17[2], 121, 287, FiveAt(2, 3, 2), TwoAt(2, 8, 7),
              2304118774283615231, 34855123969309569, 283298337842902616, 4285542393049513);
    case 3 =>
      PowersAre(2, 3, 3, 2, 9, 0);
      InvCase(INV_17[3], 122, 290, FiveAt(2, 3, 3), TwoAt(2, 9, 0),
              3478878964607648497, 32891305056345086, 3074714877319505974, 29070107359312579);
    case 4 =>
      PowersAre(2, 3, 4, 2, 9, 2);
      InvCase(INV_17[4], 123, 292, FiveAt(2, 3, 4), TwoAt(2, 9, 2),
              1925661743849332089, 22757879943742561, 2670550790031363451, 31561137077850090);
    case 5 =>
      PowersAre(2, 3, 5, 2, 9, 4);
      InvCase(INV_17[5], 124, 294, FiveAt(2, 3, 5), TwoAt(2, 9, 4),
              2012838474146385962, 29735191348560077, 832065776479085235, 12291912836516287);
    case 6 =>
      PowersAre(2, 3, 6, 2, 9, 7);
      InvCase(INV_17[6], 125, 297, FiveAt(2, 3, 6), TwoAt(2, 9, 7),
              2179251629442203009, 20120983697414584, 3510556871808739385, 32412896533930871);
  }

  lemma InvBlock18(i: Place)
    ensures InvAgrees(126 + i, INV_18[i])
  {
    hide InvAgrees, SplitAgrees, Agrees, Cut, Pow2, Pow5;
    match i
    case 0 =>
      PowersAre(2, 4, 0, 2, 9, 9);
      InvCase(INV_18[0], 126, 299, FiveAt(2, 4, 0), TwoAt(2, 9, 9),
              2179251629442203009, 25151229621768230, 2808445497446991508, 32412896533930871);
    case 1 =>
      PowersAre(2, 4, 1, 3, 0, 1);
      InvCase(INV_18[1], 127, 301, FiveAt(2, 4, 1), TwoAt(3, 0, 1),
              1240046209149931608, 17889562709605589, 1559228524867237205, 22494255672407493);
    case 2 =>
      PowersAre(2, 4, 2, 3, 0, 4);
      InvCase(INV_18[2], 128, 304, FiveAt(2, 4, 2), TwoAt(3, 0, 4),
              2175583324070273931, 19616322570656303, 2494765639787579528, 22494255672407493);
    case 3 =>
      PowersAre(2, 4, 3, 3, 0, 6);
      InvCase(INV_18[3], 129, 306, FiveAt(2, 4, 3), TwoAt(3, 0, 6),
              806396866484648453, 9088678009890354, 3057555230888556553, 34460866784049037);
    case 4 =>
      PowersAre(2, 4, 4, 3, 0, 8);
      InvCase(INV_18[4], 130, 308, FiveAt(2, 4, 4), TwoAt(3, 0, 8),
              1706860212246211693, 24046941899442284, 1800926691523126480, 25372188774158683);
    case 5 =>
      PowersAre(2, 4, 5, 3, 1, 1);
      InvCase(INV_18[5], 131, 311, FiveAt(2, 4, 5), TwoAt(3, 1, 1),
              3413720424492423386, 30058677374302855, 3147601565464712877, 27715433074230769);
    case 6 =>
      PowersAre(2, 4, 6, 3, 1, 3);
      InvCase(INV_18[6], 132, 313, FiveAt(2, 4, 6), TwoAt(3, 1, 3),
              2943871426816107116, 32401921674374941, 1205816854380343049, 13271905462097363);
  }

  lemma InvBlock19(i: Place)
    ensures InvAgrees(133 + i, INV_19[i])
  {
    hide InvAgrees, SplitAgrees, Agrees, Cut, Pow2, Pow5;
    match i
    case 0 =>
      PowersAre(2, 5, 0, 3, 1, 5);
      InvCase(INV_19[0], 133, 315, FiveAt(2, 5, 0), TwoAt(3, 1, 5),
              829937656239290033, 11418456784118076, 2333454448803502097, 32104156958132587);
    case 1 =>
      PowersAre(2, 5, 1, 3, 1, 8);
      InvCase(INV_19[1], 134, 318, FiveAt(2, 5, 1), TwoAt(3, 1, 8),
              1659875312478580066, 14273070980147595, 3360651340273523737, 28897842361199129);
    case 2 =>
      PowersAre(2, 5, 2, 3, 2, 0);
      InvCase(INV_19[2], 135, 320, FiveAt(2, 5, 2), TwoAt(3, 2, 0),
              1651695169415307345, 17753413624958509, 3336110911083705574, 35858527650820957);
    case 3 =>
      PowersAre(2, 5, 3, 3, 2, 2);
      InvCase(INV_19[3], 136, 322, FiveAt(2, 5, 3), TwoAt(3, 2, 2),
              1321356135532245876, 17753413624958509, 1684415741668398229, 22631392532328060);
    case 4 =>
      PowersAre(2, 5, 4, 3, 2, 5);
      InvCase(INV_19[4], 137, 325, FiveAt(2, 5, 4), TwoAt(3, 2, 5),
              720201760092117055, 6047782745938247, 4089033243428913513, 34337023411348322);
    case 5 =>
      PowersAre(2, 5, 5, 3, 2, 7);
      InvCase(INV_19[5], 138, 327, FiveAt(2, 5, 5), TwoAt(3, 2, 7),
              576161408073693644, 6047782745938247, 3224791131318373047, 33849605145278032);
    case 6 =>
      PowersAre(2, 5, 6, 3, 2, 9);
      InvCase(INV_19[6], 139, 329, FiveAt(2, 5, 6), TwoAt(3, 2, 9),
              2027745605640539355, 26605749524134249, 1750845578986304134, 22972585318577263);
  }

  lemma InvBlock20(i: Place)
    ensures InvAgrees(140 + i, INV_20[i])
  {
    hide InvAgrees, SplitAgrees, Agrees, Cut, Pow2, Pow5;
    match i
    case 0 =>
      PowersAre(2, 6, 0, 3, 3, 2);
      InvCase(INV_20[0], 140, 332, FiveAt(2, 6, 0), TwoAt(3, 3, 2),
              3778591184626843489, 30986459276694695, 4312789400228824010, 35367169029255141);
    case 1 =>
      PowersAre(2, 6, 1, 3, 3, 4);
      InvCase(INV_20[1], 141, 334, FiveAt(2, 6, 1), TwoAt(3, 3, 4),
              1190917544489549083, 12207697323927013, 3450231520183059208, 35367169029255141);
    case 2 =>
      PowersAre(2, 6, 2, 3, 3, 6);
      InvCase(INV_20[2], 142, 336, FiveAt(2, 6, 2), TwoAt(3, 3, 6),
              2504356202264686207, 32089146987974905, 451862795138702025, 5789867926332032);
    case 3 =>
      PowersAre(2, 6, 3, 3, 3, 9);
      InvCase(INV_20[3], 143, 339, FiveAt(2, 6, 3), TwoAt(3, 3, 9),
              4490769465346139996, 35963574523735837, 90372559027740405, 723733490791504);
    case 4 =>
      PowersAre(2, 6, 4, 3, 4, 1);
      InvCase(INV_20[4], 144, 341, FiveAt(2, 6, 4), TwoAt(3, 4, 1),
              3593840975973835589, 35975841323867765, 18074511805548081, 180933372697876);
    case 5 =>
      PowersAre(2, 6, 5, 3, 4, 3);
      InvCase(INV_20[5], 145, 343, FiveAt(2, 6, 5), TwoAt(3, 4, 3),
              2871457878417958855, 35930607980693296, 18074511805548081, 226166715872345);
    case 6 =>
      PowersAre(2, 6, 6, 3, 4, 6);
      InvCase(INV_20[6], 146, 346, FiveAt(2, 6, 6), TwoAt(3, 4, 6),
              4478386125681977267, 35023832640353237, 144596094444384648, 1130833579361725);
  }

  lemma InvBlock21(i: Place)
    ensures InvAgrees(147 + i, INV_21[i])
  {
    hide InvAgrees, SplitAgrees, Agrees, Cut, Pow2, Pow5;
    match i
    case 0 =>
      PowersAre(3, 0, 0, 3, 4, 8);
      InvCase(INV_21[0], 147, 348, FiveAt(3, 0, 0), TwoAt(3, 4, 8),
              3527326144024196047, 34482422090567553, 578384377777538592, 5654167896808625);
    case 1 =>
      PowersAre(3, 0, 1, 3, 5, 0);
      InvCase(INV_21[1], 148, 350, FiveAt(3, 0, 1), TwoAt(3, 5, 0),
              589788353249331491, 7207063548439732, 2903325864359485859, 35477903032482857);
    case 2 =>
      PowersAre(3, 0, 2, 3, 5, 2);
      InvCase(INV_21[2], 149, 352, FiveAt(3, 0, 2), TwoAt(3, 5, 2),
              589788353249331491, 9008829435549665, 2204703020837722389, 33676137145372924);
    case 3 =>
      PowersAre(3, 0, 3, 3, 5, 5);
      InvCase(INV_21[3], 150, 355, FiveAt(3, 0, 3), TwoAt(3, 5, 5),
              30890078431920715, 294897574603217, 3760714394605109763, 35902322365048598);
    case 4 =>
      PowersAre(3, 0, 4, 3, 5, 7);
      InvCase(INV_21[4], 151, 357, FiveAt(3, 0, 4), TwoAt(3, 5, 7),
              24712062745536572, 294897574603217, 3006996480866244317, 35883526930912629);
    case 5 =>
      PowersAre(3, 0, 5, 3, 5, 9);
      InvCase(INV_21[5], 152, 359, FiveAt(3, 0, 5), TwoAt(3, 5, 9),
              893001636570580413, 13320620958125608, 1687155022159014538, 25166754043235131);
    case 6 =>
      PowersAre(3, 0, 6, 3, 6, 2);
      InvCase(INV_21[6], 153, 362, FiveAt(3, 0, 6), TwoAt(3, 6, 2),
              893001636570580413, 8325388098828505, 3056648690082655426, 28496909282766533);
  }

  lemma InvBlock22(i: Place)
    ensures InvAgrees(154 + i, INV_22[i])
  {
    hide InvAgrees, SplitAgrees, Agrees, Cut, Pow2, Pow5;
    match i
    case 0 =>
      PowersAre(3, 1, 0, 3, 6, 4);
      InvCase(INV_22[0], 154, 364, FiveAt(3, 1, 0), TwoAt(3, 6, 4),
              2424875826323442319, 28258672099329513, 1147130719958879333, 13368268394813012);
    case 1 =>
      PowersAre(3, 1, 1, 3, 6, 6);
      InvCase(INV_22[1], 155, 366, FiveAt(3, 1, 1), TwoAt(3, 6, 6),
              1481048373075202122, 21574537901923007, 1147130719958879333, 16710335493516265);
    case 2 =>
      PowersAre(3, 1, 2, 3, 6, 9);
      InvCase(INV_22[2], 156, 369, FiveAt(3, 1, 2), TwoAt(3, 6, 9),
              525635818606816291, 4785609174429909, 3920687573602871754, 35695585723282235);
    case 3 =>
      PowersAre(3, 1, 3, 3, 7, 1);
      InvCase(INV_22[3], 157, 371, FiveAt(3, 1, 3), TwoAt(3, 7, 1),
              2102543274427265164, 23928045872149545, 2991807952869202773, 34048344596577581);
    case 4 =>
      PowersAre(3, 1, 4, 3, 7, 3);
      InvCase(INV_22[4], 158, 373, FiveAt(3, 1, 4), TwoAt(3, 7, 3),
              970622876788262044, 13807747147721509, 1859887555230199653, 26458120553256554);
    case 5 =>
      PowersAre(3, 1, 5, 3, 7, 6);
      InvCase(INV_22[5], 159, 376, FiveAt(3, 1, 5), TwoAt(3, 7, 6),
              16271639669264887, 144671717773308, 4038777530044437229, 35908912368520013);
    case 6 =>
      PowersAre(3, 1, 6, 3, 7, 8);
      InvCase(INV_22[6], 160, 378, FiveAt(3, 1, 6), TwoAt(3, 7, 8),
              16271639669264887, 180839647216635, 3237530679903255738, 35981248227406667);
  }

  lemma InvBlock23(i: Place)
    ensures InvAgrees(161 + i, INV_23[i])
  {
    hide InvAgrees, SplitAgrees, Agrees, Cut, Pow2, Pow5;
    match i
    case 0 =>
      PowersAre(3, 2, 0, 3, 8, 0);
      InvCase(INV_23[0], 161, 380, FiveAt(3, 2, 0), TwoAt(3, 8, 0),
              1203996212669510283, 16726206975362813, 2342905866661961018, 32548215714642451);
    case 1 =>
      PowersAre(3, 2, 1, 3, 8, 3);
      InvCase(INV_23[1], 162, 383, FiveAt(3, 2, 1), TwoAt(3, 8, 3),
              2635774356137510713, 22885509811613471, 3546902079331471301, 30796514181253290);
    case 2 =>
      PowersAre(3, 2, 2, 3, 8, 5);
      InvCase(INV_23[2], 163, 385, FiveAt(3, 2, 2), TwoAt(3, 8, 5),
              344929326588710025, 3743626360493413, 3299581566187132327, 35811395487705682);
    case 3 =>
      PowersAre(3, 2, 3, 3, 8, 7);
      InvCase(INV_23[3], 164, 387, FiveAt(3, 2, 3), TwoAt(3, 8, 7),
              275943461270968020, 3743626360493413, 2609722913009712277, 35405178458398570);
    case 4 =>
      PowersAre(3, 2, 4, 3, 9, 0);
      InvCase(INV_23[4], 165, 390, FiveAt(3, 2, 4), TwoAt(3, 9, 0),
              441509538033548832, 3743626360493413, 3823874142601971565, 32423209027855992);
    case 5 =>
      PowersAre(3, 2, 5, 3, 9, 2);
      InvCase(INV_23[5], 166, 392, FiveAt(3, 2, 5), TwoAt(3, 9, 2),
              2530812980654589641, 26823934059431063, 3295587809174983954, 34929736316395061);
    case 6 =>
      PowersAre(3, 2, 6, 3, 9, 4);
      InvCase(INV_23[6], 167, 394, FiveAt(3, 2, 6), TwoAt(3, 9, 4),
              1165280157965914719, 15438417593956531, 2694829815006703345, 35702923236366526);
  }

  lemma InvBlock24(i: Place)
    ensures InvAgrees(168 + i, INV_24[i])
  {
    hide InvAgrees, SplitAgrees, Agrees, Cut, Pow2, Pow5;
    match i
    case 0 =>
      PowersAre(3, 3, 0, 3, 9, 7);
      InvCase(INV_24[0], 168, 397, FiveAt(3, 3, 0), TwoAt(3, 9, 7),
              1791594352930488769, 14835156587899848, 3947458204935851445, 32686618206083111);
    case 1 =>
      PowersAre(3, 3, 1, 3, 9, 9);
      InvCase(INV_24[1], 169, 399, FiveAt(3, 3, 1), TwoAt(3, 9, 9),
              1791594352930488769, 18543945734874810, 3157966563948681156, 32686618206083111);
    case 2 =>
      PowersAre(3, 3, 2, 4, 0, 1);
      InvCase(INV_24[2], 170, 401, FiveAt(3, 3, 2), TwoAt(4, 0, 1),
              2642038636755081533, 34183115327759785, 188230013821179201, 2435349801885448);
    case 3 =>
      PowersAre(3, 3, 3, 4, 0, 4);
      InvCase(INV_24[3], 171, 404, FiveAt(3, 3, 3), TwoAt(4, 0, 4),
              4453137835393545494, 36009627679173871, 188230013821179201, 1522093626178405);
    case 4 =>
      PowersAre(3, 3, 4, 4, 0, 6);
      InvCase(INV_24[4], 172, 406, FiveAt(3, 3, 4), TwoAt(4, 0, 6),
              3537740764813551621, 35759259109906232, 2609467194970606682, 26376328783568163);
    case 5 =>
      PowersAre(3, 3, 5, 4, 0, 8);
      InvCase(INV_24[5], 173, 408, FiveAt(3, 3, 5), TwoAt(4, 0, 8),
              35070702911645627, 443115548861511, 2836326706580639081, 35836762910152570);
    case 6 =>
      PowersAre(3, 3, 6, 4, 1, 1);
      InvCase(INV_24[6], 174, 411, FiveAt(3, 3, 6), TwoAt(4, 1, 1),
              1443152868254737150, 11396326246276453, 3467599358990260367, 27383026743537355);
  }

  lemma InvBlock25(i: Place)
    ensures InvAgrees(175 + i, INV_25[i])
  {
    hide InvAgrees, SplitAgrees, Agrees, Cut, Pow2, Pow5;
    match i
    case 0 =>
      PowersAre(3, 4, 0, 4, 1, 3);
      InvCase(INV_25[0], 175, 413, FiveAt(3, 4, 0), TwoAt(4, 1, 3),
              1154522294603789720, 11396326246276453, 2601707638037418077, 25681538744714354);
    case 1 =>
      PowersAre(3, 4, 1, 4, 1, 5);
      InvCase(INV_25[1], 176, 415, FiveAt(3, 4, 1), TwoAt(4, 1, 5),
              923617835683031776, 11396326246276453, 2139898720195902189, 26403760307754716);
    case 2 =>
      PowersAre(3, 4, 2, 4, 1, 7);
      InvCase(INV_25[2], 177, 417, FiveAt(3, 4, 2), TwoAt(4, 1, 7),
              310914524507244983, 4795386169337774, 2139898720195902189, 33004700384693395);
    case 3 =>
      PowersAre(3, 4, 3, 4, 2, 0);
      InvCase(INV_25[3], 178, 420, FiveAt(3, 4, 3), TwoAt(4, 2, 0),
              3624987847559715569, 34943720898362816, 793776583176911879, 7651751825006127);
    case 4 =>
      PowersAre(3, 4, 4, 4, 2, 2);
      InvCase(INV_25[4], 179, 422, FiveAt(3, 4, 4), TwoAt(4, 2, 2),
              2264969011506242952, 27291969073356689, 1360018836053472617, 16387682049596831);
    case 5 =>
      PowersAre(3, 4, 5, 4, 2, 4);
      InvCase(INV_25[5], 180, 424, FiveAt(3, 4, 5), TwoAt(4, 2, 4),
              361980070181108134, 5452143511879929, 2177067566835283033, 32790989856172184);
    case 6 =>
      PowersAre(3, 4, 6, 4, 2, 7);
      InvCase(INV_25[6], 181, 427, FiveAt(3, 4, 6), TwoAt(4, 2, 7),
              1014581625656829621, 9551017243901452, 3191649192492112654, 30045385904009067);
  }

  lemma InvBlock26(i: Place)
    ensures InvAgrees(182 + i, INV_26[i])
  {
    hide InvAgrees, SplitAgrees, Agrees, Cut, Pow2, Pow5;
    match i
    case 0 =>
      PowersAre(3, 5, 0, 4, 2, 9);
      InvCase(INV_26[0], 182, 429, FiveAt(3, 5, 0), TwoAt(4, 2, 9),
              1014581625656829621, 11938771554876815, 2350403028862324199, 27657631593033704);
    case 1 =>
      PowersAre(3, 5, 1, 4, 3, 1);
      InvCase(INV_26[1], 183, 431, FiveAt(3, 5, 1), TwoAt(4, 3, 1),
              341584694752998857, 5024363656618389, 2350403028862324199, 34572039491292130);
    case 2 =>
      PowersAre(3, 5, 2, 4, 3, 4);
      InvCase(INV_26[2], 184, 434, FiveAt(3, 5, 2), TwoAt(4, 3, 4),
              3733017741637786747, 34318060349862702, 333446727871265297, 3065414022256919);
    case 3 =>
      PowersAre(3, 5, 3, 4, 3, 6);
      InvCase(INV_26[3], 185, 436, FiveAt(3, 5, 3), TwoAt(4, 3, 6),
              2026721861249139174, 23289858219445189, 1680254386367100181, 19308464165364892);
    case 4 =>
      PowersAre(3, 5, 4, 4, 3, 8);
      InvCase(INV_26[4], 186, 438, FiveAt(3, 5, 4), TwoAt(4, 3, 8),
              1285326611725891303, 18462742178103966, 1680254386367100181, 24135580206706115);
    case 5 =>
      PowersAre(3, 5, 5, 4, 4, 1);
      InvCase(INV_26[5], 187, 441, FiveAt(3, 5, 5), TwoAt(4, 4, 1),
              3499820300343800939, 31420165546569482, 1858334153784036666, 16683475647879049);
    case 6 =>
      PowersAre(3, 5, 6, 4, 4, 3);
      InvCase(INV_26[6], 188, 443, FiveAt(3, 5, 6), TwoAt(4, 4, 3),
              2929965044609604187, 32880254858460944, 1573406525916938290, 17656868522473357);
  }

  lemma InvBlock27(i: Place)
    ensures InvAgrees(189 + i, INV_27[i])
  {
    hide InvAgrees, SplitAgrees, Agrees, Cut, Pow2, Pow5;
    match i
    case 0 =>
      PowersAre(3, 6, 0, 4, 4, 5);
      InvCase(INV_27[0], 189, 445, FiveAt(3, 6, 0), TwoAt(4, 4, 5),
              1671239823876053555, 23443450050602823, 1258725220733550632, 17656868522473357);
    case 1 =>
      PowersAre(3, 6, 1, 4, 4, 8);
      InvCase(INV_27[1], 190, 448, FiveAt(3, 6, 1), TwoAt(4, 4, 8),
              2673983718201685688, 23443450050602823, 1592973185508761343, 13965974082871201);
    case 2 =>
      PowersAre(3, 6, 2, 4, 5, 0);
      InvCase(INV_27[2], 191, 450, FiveAt(3, 6, 2), TwoAt(4, 5, 0),
              432404213077169738, 4738737983865811, 2969744264478937817, 32545566215245097);
    case 3 =>
      PowersAre(3, 6, 3, 4, 5, 2);
      InvCase(INV_27[3], 192, 452, FiveAt(3, 6, 3), TwoAt(4, 5, 2),
              2410046547819900463, 33014765969106782, 680429695511221511, 9321076049777727);
    case 4 =>
      PowersAre(3, 6, 4, 4, 5, 5);
      InvCase(INV_27[4], 193, 455, FiveAt(3, 6, 4), TwoAt(4, 5, 5),
              3475899969813354741, 29759804883027097, 1967537594276417347, 16845575365861538);
    case 5 =>
      PowersAre(3, 6, 5, 4, 5, 7);
      InvCase(INV_27[5], 194, 457, FiveAt(3, 6, 5), TwoAt(4, 5, 7),
              996852469070058427, 10668508600048164, 2938222719482776267, 31445429814605681);
    case 6 =>
      PowersAre(3, 6, 6, 4, 5, 9);
      InvCase(INV_27[6], 195, 459, FiveAt(3, 6, 6), TwoAt(4, 5, 9),
              996852469070058427, 13335635750060205, 2549948669400232699, 34112556964617722);
  }

  lemma InvBlock28(i: Place)
    ensures InvAgrees(196 + i, INV_28[i])
  {
    hide InvAgrees, SplitAgrees, Agrees, Cut, Pow2, Pow5;
    match i
    case 0 =>
      PowersAre(4, 0, 0, 4, 6, 2);
      InvCase(INV_28[0], 196, 462, FiveAt(4, 0, 0), TwoAt(4, 6, 2),
              4303611126243702839, 35982876209249613, 111248746252023169, 930160683062164);
    case 1 =>
      PowersAre(4, 0, 1, 4, 6, 4);
      InvCase(INV_28[1], 197, 464, FiveAt(4, 0, 1), TwoAt(4, 6, 4),
              3353889903993343736, 35052715526187449, 111248746252023169, 1162700853827705);
    case 2 =>
      PowersAre(4, 0, 2, 4, 6, 6);
      InvCase(INV_28[2], 198, 466, FiveAt(4, 0, 2), TwoAt(4, 6, 6),
              1360520207561212395, 17774110498711576, 1805515192569305071, 23587614767850101);
    case 3 =>
      PowersAre(4, 0, 3, 4, 6, 9);
      InvCase(INV_28[3], 199, 469, FiveAt(4, 0, 3), TwoAt(4, 6, 9),
              272104041512242479, 2221763812338947, 4376272004601468845, 35732812782709466);
    case 4 =>
      PowersAre(4, 0, 4, 4, 7, 1);
      InvCase(INV_28[4], 200, 471, FiveAt(4, 0, 4), TwoAt(4, 7, 1),
              1088416166048969916, 11108819061694735, 2507878649993748643, 25596431788219469);
    case 5 =>
      PowersAre(4, 0, 5, 4, 7, 3);
      InvCase(INV_28[5], 201, 473, FiveAt(4, 0, 5), TwoAt(4, 7, 3),
              151473969630632221, 1932506349216184, 2687450998258925233, 34286525467095651);
    case 6 =>
      PowersAre(4, 0, 6, 4, 7, 6);
      InvCase(INV_28[6], 202, 476, FiveAt(4, 0, 6), TwoAt(4, 7, 6),
              151473969630632221, 1207816468260115, 4481690360771039038, 35735905229007789);
  }

  lemma InvBlock29(i: Place)
    ensures InvAgrees(203 + i, INV_29[i])
  {
    hide InvAgrees, SplitAgrees, Agrees, Cut, Pow2, Pow5;
    match i
    case 0 =>
      PowersAre(4, 1, 0, 4, 7, 8);
      InvCase(INV_29[0], 203, 478, FiveAt(4, 1, 0), TwoAt(4, 7, 8),
              1411349568898357359, 14067196297357436, 2216803259274185834, 22095310253414297);
    case 1 =>
      PowersAre(4, 1, 1, 4, 8, 0);
      InvCase(INV_29[1], 204, 480, FiveAt(4, 1, 1), TwoAt(4, 8, 0),
              1411349568898357359, 17583995371696795, 2055712521199020139, 25612109327753656);
    case 2 =>
      PowersAre(4, 1, 2, 4, 8, 2);
      InvCase(INV_29[2], 205, 482, FiveAt(4, 1, 2), TwoAt(4, 8, 2),
              1024731797517959691, 15958908747578348, 1540222159358489915, 23987022703635209);
    case 3 =>
      PowersAre(4, 1, 3, 4, 8, 5);
      InvCase(INV_29[3], 206, 485, FiveAt(4, 1, 3), TwoAt(4, 8, 5),
              2256909525004751623, 21967829319054072, 2464355454973583864, 23987022703635209);
    case 4 =>
      PowersAre(4, 1, 4, 4, 8, 7);
      InvCase(INV_29[4], 207, 487, FiveAt(4, 1, 4), TwoAt(4, 8, 7),
              2256909525004751623, 27459786648817590, 1068720553976966442, 13003108044108173);
    case 5 =>
      PowersAre(4, 1, 5, 4, 8, 9);
      InvCase(INV_29[5], 208, 489, FiveAt(4, 1, 5), TwoAt(4, 8, 9),
              926657493412064397, 14093285964559106, 1733846569773310055, 26369608728366657);
    case 6 =>
      PowersAre(4, 1, 6, 4, 9, 2);
      InvCase(INV_29[6], 209, 492, FiveAt(4, 1, 6), TwoAt(4, 9, 2),
              3007273377140036463, 28585510274124434, 2774154511637296088, 26369608728366657);
  }

  lemma InvBlock30(i: Place)
    ensures InvAgrees(210 + i, INV_30[i])
  {
    hide InvAgrees, SplitAgrees, Agrees, Cut, Pow2, Pow5;
    match i
    case 0 =>
      PowersAre(4, 2, 0, 4, 9, 4);
      InvCase(INV_30[0], 210, 494, FiveAt(4, 2, 0), TwoAt(4, 9, 4),
              186495092402192300, 2215901545757777, 2914025830938940313, 34623937069776654);
    case 1 =>
      PowersAre(4, 2, 1, 4, 9, 6);
      InvCase(INV_30[1], 211, 496, FiveAt(4, 2, 1), TwoAt(4, 9, 6),
              149196073921753840, 2215901545757777, 2391839572212801873, 35524265927068598);
    case 2 =>
      PowersAre(4, 2, 2, 4, 9, 9);
      InvCase(INV_30[2], 212, 499, FiveAt(4, 2, 2), TwoAt(4, 9, 9),
              3167659156605921841, 29404346228130649, 2928945438331115697, 27188444682372872);
    case 3 =>
      PowersAre(4, 2, 3, 5, 0, 1);
      InvCase(INV_30[3], 213, 501, FiveAt(4, 2, 3), TwoAt(5, 0, 1),
              1362549149952291194, 15810123886944213, 2928945438331115697, 33985555852966090);
    case 4 =>
      PowersAre(4, 2, 4, 5, 0, 3);
      InvCase(INV_30[4], 214, 503, FiveAt(4, 2, 4), TwoAt(5, 0, 3),
              1130808747647139617, 16401450906713629, 2465464633720812543, 35759536912274338);
    case 5 =>
      PowersAre(4, 2, 5, 5, 0, 6);
      InvCase(INV_30[5], 215, 506, FiveAt(4, 2, 5), TwoAt(5, 0, 6),
              3496279709414926789, 31694163651359603, 1850063423920730049, 16771030294069514);
    case 6 =>
      PowersAre(4, 2, 6, 5, 0, 8);
      InvCase(INV_30[6], 216, 508, FiveAt(4, 2, 6), TwoAt(5, 0, 8),
              2508549938118408745, 28425354546231937, 1191576909723051353, 13502221188941848);
  }

  lemma InvBlock31(i: Place)
    ensures InvAgrees(217 + i, INV_31[i])
  {
    hide InvAgrees, SplitAgrees, Agrees, Cut, Pow2, Pow5;
    match i
    case 0 =>
      PowersAre(4, 3, 0, 5, 1, 0);
      InvCase(INV_31[0], 217, 510, FiveAt(4, 3, 0), TwoAt(5, 1, 0),
              2006839950494726996, 28425354546231937, 1191576909723051353, 16877776486177310);
    case 1 =>
      PowersAre(4, 3, 1, 5, 1, 3);
      InvCase(INV_31[1], 218, 513, FiveAt(4, 3, 1), TwoAt(5, 1, 3),
              1041051362142501069, 9216060697330148, 3725256276749704343, 32978380518113127);
    case 2 =>
      PowersAre(4, 3, 2, 5, 1, 5);
      InvCase(INV_31[2], 219, 515, FiveAt(4, 3, 2), TwoAt(5, 1, 5),
              1041051362142501069, 11520075871662685, 2355574204114262833, 26066334995115516);
    case 3 =>
      PowersAre(4, 3, 3, 5, 1, 7);
      InvCase(INV_31[3], 220, 517, FiveAt(4, 3, 3), TwoAt(5, 1, 7),
              2027408428319149999, 28043643866209176, 2136797020250854277, 29556735492104249);
    case 4 =>
      PowersAre(4, 3, 4, 5, 2, 0);
      InvCase(INV_31[4], 221, 520, FiveAt(4, 3, 4), TwoAt(5, 2, 0),
              2027408428319149999, 17527277416380735, 3824356918065196843, 33062190975380396);
    case 5 =>
      PowersAre(4, 3, 5, 5, 2, 2);
      InvCase(INV_31[5], 222, 522, FiveAt(4, 3, 5), TwoAt(5, 2, 2),
              92183975429241262, 996181928690537, 3271253065489749271, 35350647147082273);
    case 6 =>
      PowersAre(4, 3, 6, 5, 2, 4);
      InvCase(INV_31[6], 223, 524, FiveAt(4, 3, 6), TwoAt(5, 2, 4),
              783308178698887621, 10580980161979008, 1981188634379697815, 26762030842484339);
  }

  lemma InvBlock32(i: Place)
    ensures InvAgrees(224 + i, INV_32[i])
  {
    hide InvAgrees, SplitAgrees, Agrees, Cut, Pow2, Pow5;
    match i
    case 0 =>
      PowersAre(4, 4, 0, 5, 2, 7);
      InvCase(INV_32[0], 224, 527, FiveAt(4, 4, 0), TwoAt(5, 2, 7),
              783308178698887621, 6613112601236880, 3953209993706404125, 33375143443721219);
    case 1 =>
      PowersAre(4, 4, 1, 5, 2, 9);
      InvCase(INV_32[1], 225, 529, FiveAt(4, 4, 1), TwoAt(5, 2, 9),
              783308178698887621, 8266390751546100, 3162567994965123300, 33375143443721219);
    case 2 =>
      PowersAre(4, 4, 2, 5, 3, 1);
      InvCase(INV_32[2], 226, 531, FiveAt(4, 4, 2), TwoAt(5, 3, 1),
              783308178698887621, 10332988439432625, 2530054395972098640, 33375143443721219);
    case 3 =>
      PowersAre(4, 4, 3, 5, 3, 4);
      InvCase(INV_32[3], 227, 534, FiveAt(4, 4, 3), TwoAt(5, 3, 4),
              3687827313804486270, 30404920786942039, 1289319057893307349, 10630010705110543);
    case 4 =>
      PowersAre(4, 4, 4, 5, 3, 6);
      InvCase(INV_32[4], 228, 536, FiveAt(4, 4, 4), TwoAt(5, 3, 6),
              2950261851043589016, 30404920786942039, 551753595132410095, 5686283184652669);
    case 5 =>
      PowersAre(4, 4, 5, 5, 3, 8);
      InvCase(INV_32[5], 229, 538, FiveAt(4, 4, 5), TwoAt(5, 3, 8),
              2619209693964142959, 33741438595188047, 441402876105928076, 5686283184652669);
    case 6 =>
      PowersAre(4, 4, 6, 5, 4, 1);
      InvCase(INV_32[6], 230, 541, FiveAt(4, 4, 6), TwoAt(5, 4, 1),
              1224245028028028414, 9856930444960179, 3601979046465754925, 29001103629071941);
  }

  lemma InvBlock33(i: Place)
    ensures InvAgrees(231 + i, INV_33[i])
  {
    hide InvAgrees, SplitAgrees, Agrees, Cut, Pow2, Pow5;
    match i
    case 0 =>
      PowersAre(4, 5, 0, 5, 4, 3);
      InvCase(INV_33[0], 231, 543, FiveAt(4, 5, 0), TwoAt(5, 4, 3),
              1944640837321179399, 19571438963468209, 2881583237172603940, 29001103629071941);
    case 1 =>
      PowersAre(4, 5, 1, 5, 4, 5);
      InvCase(INV_33[1], 232, 545, FiveAt(4, 5, 1), TwoAt(5, 4, 5),
              1368324189886658611, 17214022797067276, 2305266589738083152, 29001103629071941);
    case 2 =>
      PowersAre(4, 5, 2, 5, 4, 8);
      InvCase(INV_33[2], 233, 548, FiveAt(4, 5, 2), TwoAt(5, 4, 8),
              2736648379773317222, 21517528496334095, 3759867137631788577, 29562821761969837);
    case 3 =>
      PowersAre(4, 5, 3, 5, 5, 0);
      InvCase(INV_33[3], 234, 550, FiveAt(4, 5, 3), TwoAt(5, 5, 0),
              3631502995401386005, 35691911393154818, 409287503143388542, 4022646632817871);
    case 4 =>
      PowersAre(4, 5, 4, 5, 5, 2);
      InvCase(INV_33[4], 235, 552, FiveAt(4, 5, 4), TwoAt(5, 5, 2),
              1452601198160554402, 17845955696577409, 1544875605367054285, 18979594430333382);
    case 5 =>
      PowersAre(4, 5, 5, 5, 5, 4);
      InvCase(INV_33[5], 236, 554, FiveAt(4, 5, 5), TwoAt(5, 5, 4),
              1978277033100876233, 30380193418693486, 617950242146821714, 9489797215166691);
    case 6 =>
      PowersAre(4, 5, 6, 5, 5, 7);
      InvCase(INV_33[6], 237, 557, FiveAt(4, 5, 6), TwoAt(5, 5, 7),
              148475309761446561, 1425074873545013, 3607324149321554663, 34623312213928338);
  }

  lemma InvBlock34(i: Place)
    ensures InvAgrees(238 + i, INV_34[i])
  {
    hide InvAgrees, SplitAgrees, Agrees, Cut, Pow2, Pow5;
    match i
    case 0 =>
      PowersAre(4, 6, 0, 5, 5, 9);
      InvCase(INV_34[0], 238, 559, FiveAt(4, 6, 0), TwoAt(5, 5, 9),
              2155611146583565358, 25862105348234247, 2936466100352454915, 35230470838488838);
    case 1 =>
      PowersAre(4, 6, 1, 5, 6, 1);
      InvCase(INV_34[1], 239, 561, FiveAt(4, 6, 1), TwoAt(5, 6, 1),
              1374756192814675801, 20617174822474570, 1174586440140981966, 17615235419244419);
    case 2 =>
      PowersAre(4, 6, 2, 5, 6, 4);
      InvCase(INV_34[2], 240, 564, FiveAt(4, 6, 2), TwoAt(5, 6, 4),
              3723929073096639733, 34904778538102130, 1134552489606243199, 10634279711623993);
    case 3 =>
      PowersAre(4, 6, 3, 5, 6, 6);
      InvCase(INV_34[3], 241, 566, FiveAt(4, 6, 3), TwoAt(5, 6, 6),
              290964818776830667, 3409054778713536, 2792421045763988794, 32717069885838749);
    case 4 =>
      PowersAre(4, 6, 4, 5, 6, 8);
      InvCase(INV_34[4], 242, 568, FiveAt(4, 6, 4), TwoAt(5, 6, 8),
              290964818776830667, 4261318473391920, 2350322764121923302, 34421597275195517);
    case 5 =>
      PowersAre(4, 6, 5, 5, 7, 1);
      InvCase(INV_34[5], 243, 571, FiveAt(4, 6, 5), TwoAt(5, 7, 1),
              290964818776830667, 2663324045869950, 3876902350105809550, 35486926893543497);
    case 6 =>
      PowersAre(4, 6, 6, 5, 7, 3);
      InvCase(INV_34[6], 244, 573, FiveAt(4, 6, 6), TwoAt(5, 7, 3),
              581929637553661334, 6658310114674875, 3005585033926477155, 34389238733458936);
  }

  lemma InvBlock35(i: Place)
    ensures InvAgrees(245 + i, INV_35[i])
  {
    hide InvAgrees, SplitAgrees, Agrees, Cut, Pow2, Pow5;
    match i
    case 0 =>
      PowersAre(5, 0, 0, 5, 7, 5);
      InvCase(INV_35[0], 245, 575, FiveAt(5, 0, 0), TwoAt(5, 7, 5),
              2327718550214645336, 33291550573374375, 601117006785295431, 8597309683364734);
    case 1 =>
      PowersAre(5, 0, 1, 5, 7, 8);
      InvCase(INV_35[1], 246, 578, FiveAt(5, 0, 1), TwoAt(5, 7, 8),
              3696225651298217117, 33040152983017204, 2404468027141181724, 21493274208411835);
    case 2 =>
      PowersAre(5, 0, 2, 5, 8, 0);
      InvCase(INV_35[2], 247, 580, FiveAt(5, 0, 2), TwoAt(5, 8, 0),
              294160969065984891, 3286840528851068, 3107903713166247335, 34726510171069369);
    case 3 =>
      PowersAre(5, 0, 3, 5, 8, 2);
      InvCase(INV_35[3], 248, 582, FiveAt(5, 0, 3), TwoAt(5, 8, 2),
              294160969065984891, 4108550661063835, 2486322970532997868, 34726510171069369);
    case 4 =>
      PowersAre(5, 0, 4, 5, 8, 5);
      InvCase(INV_35[4], 249, 585, FiveAt(5, 0, 4), TwoAt(5, 8, 5),
              3957127815862922323, 34543289672742840, 320768012667008639, 2800107273484733);
    case 5 =>
      PowersAre(5, 0, 5, 5, 8, 7);
      InvCase(INV_35[5], 250, 587, FiveAt(5, 0, 5), TwoAt(5, 8, 7),
              2630891099651360305, 28707574528041863, 1304654383439798287, 14236036965155176);
    case 6 =>
      PowersAre(5, 0, 6, 5, 8, 9);
      InvCase(INV_35[6], 251, 589, FiveAt(5, 0, 6), TwoAt(5, 8, 9),
              2104712879721088244, 28707574528041863, 1304654383439798287, 17795046206443970);
  }

  lemma InvBlock36(i: Place)
    ensures InvAgrees(252 + i, INV_36[i])
  {
    hide InvAgrees, SplitAgrees, Agrees, Cut, Pow2, Pow5;
    match i
    case 0 =>
      PowersAre(5, 1, 0, 5, 9, 2);
      InvCase(INV_36[0], 252, 592, FiveAt(5, 1, 0), TwoAt(5, 9, 2),
              1102816028576394955, 9401274407815962, 4115801505182798193, 35086341108293963);
    case 1 =>
      PowersAre(5, 1, 1, 5, 9, 4);
      InvCase(INV_36[1], 253, 594, FiveAt(5, 1, 1), TwoAt(5, 9, 4),
              441126411430557982, 4700637203907981, 3158649278914179593, 33658524925793126);
    case 2 =>
      PowersAre(5, 1, 2, 5, 9, 6);
      InvCase(INV_36[2], 254, 596, FiveAt(5, 1, 2), TwoAt(5, 9, 6),
              1764505645722231928, 23503186019539905, 1161081549499505497, 15465587037310253);
    case 3 =>
      PowersAre(5, 1, 3, 5, 9, 9);
      InvCase(INV_36[3], 255, 599, FiveAt(5, 1, 3), TwoAt(5, 9, 9),
              2340469756177389940, 19484386528425079, 2907280538043358479, 24203080428744086);
    case 4 =>
      PowersAre(5, 1, 4, 6, 0, 1);
      InvCase(INV_36[4], 256, 601, FiveAt(5, 1, 4), TwoAt(6, 0, 1),
              1872375804941911952, 19484386528425079, 1971092635572402503, 20511657271717568);
    case 5 =>
      PowersAre(5, 1, 5, 6, 0, 3);
      InvCase(INV_36[5], 257, 603, FiveAt(5, 1, 5), TwoAt(6, 0, 3),
              1103682116839049061, 14356472210495687, 1971092635572402503, 25639571589646960);
    case 6 =>
      PowersAre(5, 1, 6, 6, 0, 6);
      InvCase(INV_36[6], 258, 606, FiveAt(5, 1, 6), TwoAt(6, 0, 6),
              1371672859827997997, 11151525761789817, 3342765495400400500, 27176258005319167);
  }

  lemma InvBlock37(i: Place)
    ensures InvAgrees(259 + i, INV_37[i])
  {
    hide InvAgrees, SplitAgrees, Agrees, Cut, Pow2, Pow5;
    match i
    case 0 =>
      PowersAre(5, 2, 0, 6, 0, 8);
      InvCase(INV_37[0], 259, 608, FiveAt(5, 2, 0), TwoAt(6, 0, 8),
              2040225958908078097, 20733471703567063, 2674212396320320400, 27176258005319167);
    case 1 =>
      PowersAre(5, 2, 1, 6, 1, 0);
      InvCase(INV_37[1], 260, 610, FiveAt(5, 2, 1), TwoAt(6, 1, 0),
              1505383479644014017, 19122775128129037, 2139369917056256320, 27176258005319167);
    case 2 =>
      PowersAre(5, 2, 2, 6, 1, 3);
      InvCase(INV_37[2], 261, 613, FiveAt(5, 2, 2), TwoAt(6, 1, 3),
              1933257463055265281, 15348766705745544, 3422991867290010112, 27176258005319167);
    case 3 =>
      PowersAre(5, 2, 3, 6, 1, 5);
      InvCase(INV_37[3], 262, 615, FiveAt(5, 2, 3), TwoAt(6, 1, 5),
              1933257463055265281, 19185958382181930, 3511696479054114202, 34850641358191939);
    case 4 =>
      PowersAre(5, 2, 4, 6, 1, 7);
      InvCase(INV_37[4], 263, 617, FiveAt(5, 2, 4), TwoAt(6, 1, 7),
              1791330084232698737, 22221810274641452, 1507475326587565649, 18700534868469531);
    case 5 =>
      PowersAre(5, 2, 5, 6, 1, 9);
      InvCase(INV_37[5], 264, 619, FiveAt(5, 2, 5), TwoAt(6, 1, 9),
              1791330084232698737, 27777262843301815, 1922512294963132014, 29811440005790257);
    case 6 =>
      PowersAre(5, 2, 6, 6, 2, 2);
      InvCase(INV_37[6], 265, 622, FiveAt(5, 2, 6), TwoAt(6, 2, 2),
              2123359658933151829, 20578674987165306, 3713842379195830751, 35992939280682545);
  }

  lemma InvBlock38(i: Place)
    ensures InvAgrees(266 + i, INV_38[i])
  {
    hide InvAgrees, SplitAgrees, Agrees, Cut, Pow2, Pow5;
    match i
    case 0 =>
      PowersAre(5, 3, 0, 6, 2, 4);
      InvCase(INV_38[0], 266, 624, FiveAt(5, 3, 0), TwoAt(6, 2, 4),
              2766071223637215237, 33509443668142214, 211521156318441203, 2562463399967293);
    case 1 =>
      PowersAre(5, 3, 1, 6, 2, 6);
      InvCase(INV_38[1], 267, 626, FiveAt(5, 3, 1), TwoAt(6, 2, 6),
              807039632309572491, 12221056016986493, 1653124257583337303, 25033373016822958);
    case 2 =>
      PowersAre(5, 3, 2, 6, 2, 9);
      InvCase(INV_38[2], 268, 629, FiveAt(5, 3, 2), TwoAt(6, 2, 9),
              3189113536274097643, 30183101928185000, 653440704440496457, 6184435631349493);
    case 3 =>
      PowersAre(5, 3, 3, 6, 3, 1);
      InvCase(INV_38[3], 269, 631, FiveAt(5, 3, 3), TwoAt(6, 3, 1),
              2843903105166830554, 33644857858140979, 2728832961464408191, 32283518007444222);
    case 4 =>
      PowersAre(5, 3, 4, 6, 3, 3);
      InvCase(INV_38[4], 270, 633, FiveAt(5, 3, 4), TwoAt(6, 3, 3),
              1959496179245427531, 28977327983021816, 499738534811912693, 7390209576512677);
    case 5 =>
      PowersAre(5, 3, 5, 6, 3, 6);
      InvCase(INV_38[5], 271, 636, FiveAt(5, 3, 5), TwoAt(6, 3, 6),
              3150977070793573346, 29123205563779039, 1191480891548145815, 11012375574390404);
    case 6 =>
      PowersAre(5, 3, 6, 6, 3, 8);
      InvCase(INV_38[6], 272, 638, FiveAt(5, 3, 6), TwoAt(6, 3, 8),
              3072061150789126864, 35492272074991155, 238296178309629163, 2753093893597601);
  }

  lemma InvBlock39(i: Place)
    ensures InvAgrees(273 + i, INV_39[i])
  {
    hide InvAgrees, SplitAgrees, Agrees, Cut, Pow2, Pow5;
    match i
    case 0 =>
      PowersAre(5, 4, 0, 6, 4, 0);
      InvCase(INV_39[0], 273, 640, FiveAt(5, 4, 0), TwoAt(6, 4, 0),
              2377803949649081179, 34339186534525598, 953184713238516652, 13765469467988005);
    case 1 =>
      PowersAre(5, 4, 1, 6, 4, 3);
      InvCase(INV_39[1], 274, 643, FiveAt(5, 4, 1), TwoAt(6, 4, 3),
              188573809268819150, 1702061899637397, 3907025757588476183, 35264704619788711);
    case 2 =>
      PowersAre(5, 4, 2, 6, 4, 5);
      InvCase(INV_39[2], 275, 645, FiveAt(5, 4, 2), TwoAt(6, 4, 5),
              150859047415055320, 1702061899637397, 3190445282366963413, 35996086751458253);
    case 3 =>
      PowersAre(5, 4, 3, 6, 4, 7);
      InvCase(INV_39[3], 276, 647, FiveAt(5, 4, 3), TwoAt(6, 4, 7),
              120687237932044256, 1702061899637397, 2436150045291686813, 34357221566589085);
    case 4 =>
      PowersAre(5, 4, 4, 6, 5, 0);
      InvCase(INV_39[4], 277, 650, FiveAt(5, 4, 4), TwoAt(6, 5, 0),
              3590266472109151332, 31646136930212417, 656192142163199321, 5783956858006358);
    case 5 =>
      PowersAre(5, 4, 5, 6, 5, 2);
      InvCase(INV_39[5], 278, 652, FiveAt(5, 4, 5), TwoAt(6, 5, 2),
              1567345017276300397, 17269057679607798, 2879729301602699039, 31728949824623693);
    case 6 =>
      PowersAre(5, 4, 6, 6, 5, 4);
      InvCase(INV_39[6], 279, 654, FiveAt(5, 4, 6), TwoAt(6, 5, 4),
              1669329310456261099, 22990904866805699, 1465360724096339695, 20181739332213796);
  }

  lemma InvBlock40(i: Place)
    ensures InvAgrees(280 + i, INV_40[i])
  {
    hide InvAgrees, SplitAgrees, Agrees, Cut, Pow2, Pow5;
    match i
    case 0 =>
      PowersAre(5, 5, 0, 6, 5, 7);
      InvCase(INV_40[0], 280, 657, FiveAt(5, 5, 0), TwoAt(6, 5, 7),
              4039667938451632945, 34772805418273727, 586144289638535878, 5045434833053449);
    case 1 =>
      PowersAre(5, 5, 1, 6, 5, 9);
      InvCase(INV_40[1], 281, 659, FiveAt(5, 5, 1), TwoAt(6, 5, 9),
              1394077877328862467, 14999994895885243, 2344577158554143512, 25227174165267245);
    case 2 =>
      PowersAre(5, 5, 2, 6, 6, 1);
      InvCase(INV_40[2], 282, 661, FiveAt(5, 5, 2), TwoAt(6, 6, 1),
              2598055898412668725, 34943192422367607, 380199712490112418, 5113589634691001);
    case 3 =>
      PowersAre(5, 5, 3, 6, 6, 4);
      InvCase(INV_40[3], 283, 664, FiveAt(5, 5, 3), TwoAt(6, 6, 4),
              2978255610902781143, 25035488785661630, 1799621784345292326, 15127785148955653);
    case 4 =>
      PowersAre(5, 5, 4, 6, 6, 6);
      InvCase(INV_40[4], 284, 666, FiveAt(5, 5, 4), TwoAt(6, 6, 6),
              1315499835918673159, 13822764770893234, 3251987629625149827, 34170631432098563);
    case 5 =>
      PowersAre(5, 5, 5, 6, 6, 8);
      InvCase(INV_40[5], 285, 668, FiveAt(5, 5, 5), TwoAt(6, 6, 8),
              2630999671837346318, 34556911927233085, 1037695084666325299, 13629624523325973);
    case 6 =>
      PowersAre(5, 5, 6, 6, 7, 1);
      InvCase(INV_40[6], 286, 671, FiveAt(5, 5, 6), TwoAt(6, 7, 1),
              3890938557505549905, 31941001001744696, 2297633970334528886, 18861446374302751);
  }

  lemma InvBlock41(i: Place)
    ensures InvAgrees(287 + i, INV_41[i])
  {
    hide InvAgrees, SplitAgrees, Agrees, Cut, Pow2, Pow5;
    match i
    case 0 =>
      PowersAre(5, 6, 0, 6, 7, 3);
      InvCase(INV_41[0], 287, 673, FiveAt(5, 6, 0), TwoAt(6, 7, 3),
              778187711501109981, 7985250250436174, 2965034189329235696, 30425229868024363);
    case 1 =>
      PowersAre(5, 6, 1, 6, 7, 5);
      InvCase(INV_41[1], 288, 675, FiveAt(5, 6, 1), TwoAt(6, 7, 5),
              1556375423002219962, 19963125626090435, 1652926302632360267, 21201552621839312);
    case 2 =>
      PowersAre(5, 6, 2, 6, 7, 8);
      InvCase(INV_41[2], 289, 678, FiveAt(5, 6, 2), TwoAt(6, 7, 8),
              3151371197856496046, 25263513781550263, 1652926302632360267, 13250970388649570);
    case 3 =>
      PowersAre(5, 6, 3, 6, 8, 0);
      InvCase(INV_41[3], 290, 680, FiveAt(5, 6, 3), TwoAt(6, 8, 0),
              929963218616126365, 9319014293612739, 3305852605264720534, 33127425971623925);
    case 4 =>
      PowersAre(5, 6, 4, 6, 8, 2);
      InvCase(INV_41[4], 291, 682, FiveAt(5, 6, 4), TwoAt(6, 8, 2),
              743970574892901092, 9319014293612739, 2747874674095044715, 34420021744320352);
    case 5 =>
      PowersAre(5, 6, 5, 6, 8, 5);
      InvCase(INV_41[5], 292, 685, FiveAt(5, 6, 5), TwoAt(6, 8, 5),
              4303039794686181907, 33687563313943563, 549574934819008943, 4302502718040044);
    case 6 =>
      PowersAre(5, 6, 6, 6, 8, 7);
      InvCase(INV_41[6], 293, 687, FiveAt(5, 6, 6), TwoAt(6, 8, 7),
              3332516848785143737, 32611937634433552, 549574934819008943, 5378128397550055);
  }

  lemma InvBlock42(i: Place)
    ensures InvAgrees(294 + i, INV_42[i])
  {
    hide InvAgrees, SplitAgrees, Agrees, Cut, Pow2, Pow5;
    match i
    case 0 =>
      PowersAre(6, 0, 0, 6, 8, 9);
      InvCase(INV_42[0], 294, 689, FiveAt(6, 0, 0), TwoAt(6, 8, 9),
              2878830004981500551, 35215210020925274, 2651986583079678958, 32440354009866941);
    case 1 =>
      PowersAre(6, 0, 1, 6, 9, 1);
      InvCase(INV_42[1], 295, 691, FiveAt(6, 0, 1), TwoAt(6, 9, 1),
              1877430952078429318, 28707029054695969, 485028632235571473, 7416374499702152);
    case 2 =>
      PowersAre(6, 0, 2, 6, 9, 4);
      InvCase(INV_42[2], 296, 694, FiveAt(6, 0, 2), TwoAt(6, 9, 4),
              3682929608455286971, 35196356741935352, 485028632235571473, 4635234062313845);
    case 3 =>
      PowersAre(6, 0, 3, 6, 9, 6);
      InvCase(INV_42[3], 297, 696, FiveAt(6, 0, 3), TwoAt(6, 9, 6),
              1512631733267971751, 18069557310111528, 1940114528942285892, 23176170311569225);
    case 4 =>
      PowersAre(6, 0, 4, 6, 9, 8);
      InvCase(INV_42[4], 298, 698, FiveAt(6, 0, 4), TwoAt(6, 9, 8),
              1512631733267971751, 22586946637639410, 2157144316461017414, 32210948966624989);
    case 5 =>
      PowersAre(6, 0, 5, 7, 0, 1);
      InvCase(INV_42[5], 299, 701, FiveAt(6, 0, 5), TwoAt(7, 0, 1),
              2980542153159567417, 27816315549590731, 2891099526406815247, 26981580054673668);
    case 6 =>
      PowersAre(6, 0, 6, 7, 0, 3);
      InvCase(INV_42[6], 300, 703, FiveAt(6, 0, 6), TwoAt(7, 0, 3),
              2962653627809016983, 34561710563259148, 2891099526406815247, 33726975068342085);
  }

  lemma InvBlock43(i: Place)
    ensures InvAgrees(301 + i, INV_43[i])
  {
    hide InvAgrees, SplitAgrees, Agrees, Cut, Pow2, Pow5;
    match i
    case 0 =>
      PowersAre(6, 1, 0, 7, 0, 5);
      InvCase(INV_43[0], 301, 705, FiveAt(6, 1, 0), TwoAt(7, 0, 5),
              1242304732245368182, 18115590776546637, 1720348895563648801, 25086547427527298);
    case 1 =>
      PowersAre(6, 1, 1, 7, 0, 8);
      InvCase(INV_43[1], 302, 708, FiveAt(6, 1, 1), TwoAt(7, 0, 8),
              1681983344021754066, 15329432245155143, 2599706119116420569, 23693468161831551);
    case 2 =>
      PowersAre(6, 1, 2, 7, 1, 0);
      InvCase(INV_43[2], 303, 710, FiveAt(6, 1, 2), TwoAt(7, 1, 0),
              2507628795415873205, 28567855511141184, 1712675785255269854, 19511450203493347);
    case 3 =>
      PowersAre(6, 1, 3, 7, 1, 2);
      InvCase(INV_43[3], 304, 712, FiveAt(6, 1, 3), TwoAt(7, 1, 2),
              501525759083174641, 7141963877785296, 2336971309272507647, 33279576117399071);
    case 4 =>
      PowersAre(6, 1, 4, 7, 1, 5);
      InvCase(INV_43[4], 305, 715, FiveAt(6, 1, 4), TwoAt(7, 1, 5),
              501525759083174641, 4463727423615810, 3638848943019377307, 32386830632675909);
    case 5 =>
      PowersAre(6, 1, 5, 7, 1, 7);
      InvCase(INV_43[5], 306, 717, FiveAt(6, 1, 5), TwoAt(7, 1, 7),
              1003051518166349282, 11159318559039525, 2558896247190735133, 28468665731281432);
    case 6 =>
      PowersAre(6, 1, 6, 7, 1, 9);
      InvCase(INV_43[6], 307, 719, FiveAt(6, 1, 6), TwoAt(7, 1, 9),
              290661965094932399, 4042152126219167, 2558896247190735133, 35585832164101790);
  }

  lemma InvBlock44(i: Place)
    ensures InvAgrees(308 + i, INV_44[i])
  {
    hide InvAgrees, SplitAgrees, Agrees, Cut, Pow2, Pow5;
    match i
    case 0 =>
      PowersAre(6, 2, 0, 7, 2, 2);
      InvCase(INV_44[0], 308, 722, FiveAt(6, 2, 0), TwoAt(7, 2, 2),
              3907353574360155460, 33961524586927563, 395514463400174067, 3437690988957932);
    case 1 =>
      PowersAre(6, 2, 1, 7, 2, 4);
      InvCase(INV_44[1], 309, 724, FiveAt(6, 2, 1), TwoAt(7, 2, 4),
              3125882859488124368, 33961524586927563, 395514463400174067, 4297113736197415);
    case 2 =>
      PowersAre(6, 2, 2, 7, 2, 6);
      InvCase(INV_44[2], 310, 726, FiveAt(6, 2, 2), TwoAt(7, 2, 6),
              1408558929155319374, 19129319161562489, 1495308391378007821, 20307443921274782);
    case 3 =>
      PowersAre(6, 2, 3, 7, 2, 9);
      InvCase(INV_44[3], 311, 729, FiveAt(6, 2, 3), TwoAt(7, 2, 9),
              3978664786523969626, 33770839722662429, 333761463164676943, 2832961680087421);
    case 4 =>
      PowersAre(6, 2, 4, 7, 3, 1);
      InvCase(INV_44[4], 312, 731, FiveAt(6, 2, 4), TwoAt(7, 3, 1),
              2648913488155692592, 28104916362487587, 995989835203600091, 10567431190731173);
    case 5 =>
      PowersAre(6, 2, 5, 7, 3, 3);
      InvCase(INV_44[5], 313, 733, FiveAt(6, 2, 5), TwoAt(7, 3, 3),
              2254753197506597146, 29903604967340553, 864603071653901609, 11466775493157656);
    case 6 =>
      PowersAre(6, 2, 6, 7, 3, 6);
      InvCase(INV_44[6], 314, 736, FiveAt(6, 2, 6), TwoAt(7, 3, 6),
              4126366959002896399, 34203645777274674, 864603071653901609, 7166734683223535);
  }

  lemma InvBlock45(i: Place)
    ensures InvAgrees(315 + i, INV_45[i])
  {
    hide InvAgrees, SplitAgrees, Agrees, Cut, Pow2, Pow5;
    match i
    case 0 =>
      PowersAre(6, 3, 0, 7, 3, 8);
      InvCase(INV_45[0], 315, 738, FiveAt(6, 3, 0), TwoAt(7, 3, 8),
              2821661404063298483, 29236101674567773, 3033911698247401134, 31435292255084407);
    case 1 =>
      PowersAre(6, 3, 1, 7, 4, 0);
      InvCase(INV_45[1], 316, 740, FiveAt(6, 3, 1), TwoAt(7, 4, 0),
              1086214502788498863, 14068253192154728, 2596929593945203028, 33634482835601041);
    case 2 =>
      PowersAre(6, 3, 2, 7, 4, 3);
      InvCase(INV_45[2], 317, 743, FiveAt(6, 3, 2), TwoAt(7, 4, 3),
              1086214502788498863, 8792658245096705, 3503358648639225527, 28358887888543018);
    case 3 =>
      PowersAre(6, 3, 3, 7, 4, 5);
      InvCase(INV_45[3], 318, 745, FiveAt(6, 3, 3), TwoAt(7, 4, 5),
              2340728878079951711, 23684581885702713, 2004129133074043741, 20278709339780812);
    case 4 =>
      PowersAre(6, 3, 4, 7, 4, 7);
      InvCase(INV_45[4], 319, 747, FiveAt(6, 3, 4), TwoAt(7, 4, 7),
              2273408929078770117, 28754259220647916, 2004129133074043741, 25348386674726015);
    case 5 =>
      PowersAre(6, 3, 5, 7, 5, 0);
      InvCase(INV_45[5], 320, 750, FiveAt(6, 3, 5), TwoAt(7, 5, 0),
              2967348663906497063, 23457040545105976, 4355228133561950955, 34428297609508033);
    case 6 =>
      PowersAre(6, 3, 6, 7, 5, 2);
      InvCase(INV_45[6], 321, 752, FiveAt(6, 3, 6), TwoAt(7, 5, 2),
              2967348663906497063, 29321300681382470, 3484182506849560764, 34428297609508033);
  }

  lemma InvBlock46(i: Place)
    ensures InvAgrees(322 + i, INV_46[i])
  {
    hide InvAgrees, SplitAgrees, Agrees, Cut, Pow2, Pow5;
    match i
    case 0 =>
      PowersAre(6, 4, 0, 7, 5, 4);
      InvCase(INV_46[0], 322, 754, FiveAt(6, 4, 0), TwoAt(7, 5, 4),
              2733884247978894554, 33767957165822579, 800203269958524893, 9883823634408399);
    case 1 =>
      PowersAre(6, 4, 1, 7, 5, 6);
      InvCase(INV_46[1], 323, 756, FiveAt(6, 4, 1), TwoAt(7, 5, 6),
              1667061427537713761, 25738680651670343, 1533751652296385811, 23680437520371652);
    case 2 =>
      PowersAre(6, 4, 2, 7, 5, 9);
      InvCase(INV_46[2], 324, 759, FiveAt(6, 4, 2), TwoAt(7, 5, 9),
              3494094585365021062, 33717033163061947, 1640399472489448171, 15829395015881628);
    case 3 =>
      PowersAre(6, 4, 3, 7, 6, 1);
      InvCase(INV_46[3], 325, 761, FiveAt(6, 4, 3), TwoAt(7, 6, 1),
              1811035984798347947, 21844986901150726, 1640399472489448171, 19786743769852035);
    case 4 =>
      PowersAre(6, 4, 4, 7, 6, 3);
      InvCase(INV_46[4], 326, 763, FiveAt(6, 4, 4), TwoAt(7, 6, 3),
              2152309009416147499, 32451841454685135, 293952592036109679, 4432125159638336);
    case 5 =>
      PowersAre(6, 4, 5, 7, 6, 6);
      InvCase(INV_46[5], 327, 766, FiveAt(6, 4, 5), TwoAt(7, 6, 6),
              3561275451880279870, 33559872744594719, 293952592036109679, 2770078224773960);
    case 6 =>
      PowersAre(6, 4, 6, 7, 6, 8);
      InvCase(INV_46[6], 328, 768, FiveAt(6, 4, 6), TwoAt(7, 6, 8),
              2849020361504223896, 33559872744594719, 293952592036109679, 3462597780967450);
  }

  lemma InvBlock47(i: Place)
    ensures InvAgrees(329 + i, INV_47[i])
  {
    hide InvAgrees, SplitAgrees, Agrees, Cut, Pow2, Pow5;
    match i
    case 0 =>
      PowersAre(6, 5, 0, 7, 7, 0);
      InvCase(INV_47[0], 329, 770, FiveAt(6, 5, 0), TwoAt(7, 7, 0),
              2139046957524462467, 31495976941409022, 587905184072219358, 8656494452418625);
    case 1 =>
      PowersAre(6, 5, 1, 7, 7, 3);
      InvCase(INV_47[1], 330, 773, FiveAt(6, 5, 1), TwoAt(7, 7, 3),
              1048266100885789737, 9646867739923727, 3314857325668901183, 30505603653903920);
    case 2 =>
      PowersAre(6, 5, 2, 7, 7, 5);
      InvCase(INV_47[2], 331, 775, FiveAt(6, 5, 2), TwoAt(7, 7, 5),
              175641415574851553, 2020466826447747, 2963574494519198077, 34091070914484406);
    case 3 =>
      PowersAre(6, 5, 3, 7, 7, 7);
      InvCase(INV_47[3], 332, 777, FiveAt(6, 5, 3), TwoAt(7, 7, 7),
              803484597593661479, 11553467968292722, 1707888130481578225, 24558069772639431);
    case 4 =>
      PowersAre(6, 5, 4, 7, 8, 0);
      InvCase(INV_47[4], 333, 780, FiveAt(6, 5, 4), TwoAt(7, 8, 0),
              1486639849786292769, 13360434923342809, 2732621008770525160, 24558069772639431);
    case 5 =>
      PowersAre(6, 5, 5, 7, 8, 2);
      InvCase(INV_47[5], 334, 782, FiveAt(6, 5, 5), TwoAt(7, 8, 2),
              1880231296064375474, 21122052422037307, 2033164051540397801, 22840061097338369);
    case 6 =>
      PowersAre(6, 5, 6, 7, 8, 4);
      InvCase(INV_47[6], 335, 784, FiveAt(6, 5, 6), TwoAt(7, 8, 4),
              782679069520954655, 10990528379843919, 1871223649993953964, 26276078447940493);
  }

  lemma InvBlock48(i: nat)
    requires i < 6 && |INV_48| == 6
    ensures InvAgrees(336 + i, INV_48[i])
  {
    hide InvAgrees, SplitAgrees, Agrees, Cut, Pow2, Pow5;
    match i
    case 0 =>
      PowersAre(6, 6, 0, 7, 8, 7);
      InvCase(INV_48[0], 336, 787, FiveAt(6, 6, 0), TwoAt(7, 8, 7),
              1252286511233527448, 10990528379843919, 3280045975131672343, 28786893457287217);
    case 1 =>
      PowersAre(6, 6, 1, 7, 8, 9);
      InvCase(INV_48[1], 337, 789, FiveAt(6, 6, 1), TwoAt(7, 8, 9),
              2099021129687425917, 23027229680248973, 2910124915246683875, 31925412218970622);
    case 2 =>
      PowersAre(6, 6, 2, 7, 9, 1);
      InvCase(INV_48[2], 338, 791, FiveAt(6, 6, 2), TwoAt(7, 9, 1),
              2451967310226841509, 33624015036394466, 1164049966098673550, 15962706109485311);
    case 3 =>
      PowersAre(6, 6, 3, 7, 9, 4);
      InvCase(INV_48[3], 339, 794, FiveAt(6, 6, 3), TwoAt(7, 9, 4),
              2917587296666310929, 25005685925117869, 1862479945757877680, 15962706109485311);
    case 4 =>
      PowersAre(6, 6, 4, 7, 9, 6);
      InvCase(INV_48[4], 340, 796, FiveAt(6, 6, 4), TwoAt(7, 9, 6),
              3290083285817886465, 35247783933768664, 1489983956606302144, 15962706109485311);
    case 5 =>
      PowersAre(6, 6, 5, 7, 9, 8);
      InvCase(INV_48[5], 341, 798, FiveAt(6, 6, 5), TwoAt(7, 9, 8),
              658016657163577293, 8811945983442166, 2669852540607322111, 35753800630215725);
  }

  /** Every row of `DOUBLE_POW5_INV_SPLIT`. */
  lemma InvRows(i: nat)
    requires i < 342
    ensures InvAgrees(i, InvSplit(i))
  {
    hide InvAgrees, SplitAgrees, INV_0, INV_1, INV_2, INV_3, INV_4, INV_5, INV_6, INV_7, INV_8, INV_9, INV_10,
         INV_11, INV_12, INV_13, INV_14, INV_15, INV_16, INV_17, INV_18, INV_19, INV_20, INV_21, INV_22, INV_23, INV_24,
         INV_25, INV_26, INV_27, INV_28, INV_29, INV_30, INV_31, INV_32, INV_33, INV_34, INV_35, INV_36, INV_37, INV_38,
         INV_39, INV_40, INV_41, INV_42, INV_43, INV_44, INV_45, INV_46, INV_47;
    if i < 7 {
      InvBlock0(i);
    } else if i < 14 {
      InvBlock1(i - 7);
    } else if i < 21 {
      InvBlock2(i - 14);
    } else if i < 28 {
      InvBlock3(i - 21);
    } else if i < 35 {
      InvBlock4(i - 28);
    } else if i < 42 {
      InvBlock5(i - 35);
    } else if i < 49 {
      InvBlock6(i - 42);
    } else if i < 56 {
      InvBlock7(i - 49);
    } else if i < 63 {
      InvBlock8(i - 56);
    } else if i < 70 {
      InvBlock9(i - 63);
    } else if i < 77 {
      InvBlock10(i - 70);
    } else if i < 84 {
      InvBlock11(i - 77);
    } else if i < 91 {
      InvBlock12(i - 84);
    } else if i < 98 {
      InvBlock13(i - 91);
    } else if i < 105 {
      InvBlock14(i - 98);
    } else if i < 112 {
      InvBlock15(i - 105);
    } else if i < 119 {
      InvBlock16(i - 112);
    } else if i < 126 {
      InvBlock17(i - 119);
    } else if i < 133 {
      InvBlock18(i - 126);
    } else if i < 140 {
      InvBlock19(i - 133);
    } else if i < 147 {
      InvBlock20(i - 140);
    } else if i < 154 {
      InvBlock21(i - 147);
    } else if i < 161 {
      InvBlock22(i - 154);
    } else if i < 168 {
      InvBlock23(i - 161);
    } else if i < 175 {
      InvBlock24(i - 168);
    } else if i < 182 {
      InvBlock25(i - 175);
    } else if i < 189 {
      InvBlock26(i - 182);
    } else if i < 196 {
      InvBlock27(i - 189);
    } else if i < 203 {
      InvBlock28(i - 196);
    } else if i < 210 {
      InvBlock29(i - 203);
    } else if i < 217 {
      InvBlock30(i - 210);
    } else if i < 224 {
      InvBlock31(i - 217);
    } else if i < 231 {
      InvBlock32(i - 224);
    } else if i < 238 {
      InvBlock33(i - 231);
    } else if i < 245 {
      InvBlock34(i - 238);
    } else if i < 252 {
      InvBlock35(i - 245);
    } else if i < 259 {
      InvBlock36(i - 252);
    } else if i < 266 {
      InvBlock37(i - 259);
    } else if i < 273 {
      InvBlock38(i - 266);
    } else if i < 280 {
      InvBlock39(i - 273);
    } else if i < 287 {
      InvBlock40(i - 280);
    } else if i < 294 {
      InvBlock41(i - 287);
    } else if i < 301 {
      InvBlock42(i - 294);
    } else if i < 308 {
      InvBlock43(i - 301);
    } else if i < 315 {
      InvBlock44(i - 308);
    } else if i < 322 {
      InvBlock45(i - 315);
    } else if i < 329 {
      InvBlock46(i - 322);
    } else if i < 336 {
      InvBlock47(i - 329);
    } else {
      InvBlock48(i - 336);
    }
  }

  lemma SplitBlock0(i: Place)
    ensures SplitAgrees(i, SPLIT_0[i])
  {
    hide InvAgrees, SplitAgrees, Agrees, Cut, Pow2, Pow5;
    match i
    case 0 =>
      PowersAre(0, 0, 0, 0, 0, 1);
      SplitCase(SPLIT_0[0], 0, 1, FiveAt(0, 0, 0), TwoAt(0, 0, 1),
                64, 1, 2305843009213693889, 36028797018963967);
    case 1 =>
      PowersAre(0, 0, 1, 0, 0, 3);
      SplitCase(SPLIT_0[1], 1, 3, FiveAt(0, 0, 1), TwoAt(0, 0, 3),
                80, 1, 2882303761517117361, 36028797018963967);
    case 2 =>
      PowersAre(0, 0, 2, 0, 0, 5);
      SplitCase(SPLIT_0[2], 2, 5, FiveAt(0, 0, 2), TwoAt(0, 0, 5),
                100, 1, 3602879701896396701, 36028797018963967);
    case 3 =>
      PowersAre(0, 0, 3, 0, 0, 7);
      SplitCase(SPLIT_0[3], 3, 7, FiveAt(0, 0, 3), TwoAt(0, 0, 7),
                125, 1, 4503599627370495876, 36028797018963967);
    case 4 =>
      PowersAre(0, 0, 4, 0, 1, 0);
      SplitCase(SPLIT_0[4], 4, 10, FiveAt(0, 0, 4), TwoAt(0, 1, 0),
                625, 8, 2814749767106559922, 36028797018963967);
    case 5 =>
      PowersAre(0, 0, 5, 0, 1, 2);
      SplitCase(SPLIT_0[5], 5, 12, FiveAt(0, 0, 5), TwoAt(0, 1, 2),
                3125, 32, 3518437208883197168, 36028797018963939);
    case 6 =>
      PowersAre(0, 0, 6, 0, 1, 4);
      SplitCase(SPLIT_0[6], 6, 14, FiveAt(0, 0, 6), TwoAt(0, 1, 4),
                15625, 128, 4398046511103993042, 36028797018963911);
  }

  lemma SplitBlock1(i: Place)
    ensures SplitAgrees(7 + i, SPLIT_1[i])
  {
    hide InvAgrees, SplitAgrees, Agrees, Cut, Pow2, Pow5;
    match i
    case 0 =>
      PowersAre(0, 1, 0, 0, 1, 7);
      SplitCase(SPLIT_1[0], 7, 17, FiveAt(0, 1, 0), TwoAt(0, 1, 7),
                78125, 1024, 2748779069439948349, 36028797018963291);
    case 1 =>
      PowersAre(0, 1, 1, 0, 1, 9);
      SplitCase(SPLIT_1[1], 8, 19, FiveAt(0, 1, 1), TwoAt(0, 1, 9),
                390625, 4096, 3435973836799655056, 36028797018960351);
    case 2 =>
      PowersAre(0, 1, 2, 0, 2, 1);
      SplitCase(SPLIT_1[2], 9, 21, FiveAt(0, 1, 2), TwoAt(0, 2, 1),
                1953125, 16384, 4294967295999132514, 36028797018956691);
    case 3 =>
      PowersAre(0, 1, 3, 0, 2, 4);
      SplitCase(SPLIT_1[3], 10, 24, FiveAt(0, 1, 3), TwoAt(0, 2, 4),
                9765625, 131072, 2684354559999403283, 36028797018955959);
    case 4 =>
      PowersAre(0, 1, 4, 0, 2, 6);
      SplitCase(SPLIT_1[4], 11, 26, FiveAt(0, 1, 4), TwoAt(0, 2, 6),
                48828125, 524288, 3355443199992526602, 36028797018883723);
    case 5 =>
      PowersAre(0, 1, 5, 0, 2, 8);
      SplitCase(SPLIT_1[5], 12, 28, FiveAt(0, 1, 5), TwoAt(0, 2, 8),
                244140625, 2097152, 4194303999876061338, 36028797017899343);
    case 6 =>
      PowersAre(0, 1, 6, 0, 3, 1);
      SplitCase(SPLIT_1[6], 13, 31, FiveAt(0, 1, 6), TwoAt(0, 3, 1),
                1220703125, 16777216, 2621439999679331886, 36028797014556739);
  }

  lemma SplitBlock2(i: Place)
    ensures SplitAgrees(14 + i, SPLIT_2[i])
  {
    hide InvAgrees, SplitAgrees, Agrees, Cut, Pow2, Pow5;
    match i
    case 0 =>
      PowersAre(0, 2, 0, 0, 3, 3);
      SplitCase(SPLIT_2[0], 14, 33, FiveAt(0, 2, 0), TwoAt(0, 3, 3),
                6103515625, 67108864, 3276799998088778284, 36028796997949863);
    case 1 =>
      PowersAre(0, 2, 1, 0, 3, 5);
      SplitCase(SPLIT_2[1], 15, 35, FiveAt(0, 2, 1), TwoAt(0, 3, 5),
                30517578125, 268435456, 4095999999522194571, 36028797014761147);
    case 2 =>
      PowersAre(0, 2, 2, 0, 3, 8);
      SplitCase(SPLIT_2[2], 16, 38, FiveAt(0, 2, 2), TwoAt(0, 3, 8),
                152587890625, 2147483648, 2559999851167080962, 36028794924326847);
    case 3 =>
      PowersAre(0, 2, 3, 0, 4, 0);
      SplitCase(SPLIT_2[3], 17, 40, FiveAt(0, 2, 3), TwoAt(0, 4, 0),
                762939453125, 8589934592, 3199999276146262428, 36028788869095411);
    case 4 =>
      PowersAre(0, 2, 4, 0, 4, 2);
      SplitCase(SPLIT_2[4], 18, 42, FiveAt(0, 2, 4), TwoAt(0, 4, 2),
                3814697265625, 34359738368, 3999999056097112482, 36028788517042583);
    case 5 =>
      PowersAre(0, 2, 5, 0, 4, 5);
      SplitCase(SPLIT_2[5], 19, 45, FiveAt(0, 2, 5), TwoAt(0, 4, 5),
                19073486328125, 274877906944, 2499995113640557029, 36028726599102955);
    case 6 =>
      PowersAre(0, 2, 6, 0, 4, 7);
      SplitCase(SPLIT_2[6], 20, 47, FiveAt(0, 2, 6), TwoAt(0, 4, 7),
                95367431640625, 1099511627776, 3124936789579572851, 36028068252433711);
  }

  lemma SplitBlock3(i: Place)
    ensures SplitAgrees(21 + i, SPLIT_3[i])
  {
    hide InvAgrees, SplitAgrees, Agrees, Cut, Pow2, Pow5;
    match i
    case 0 =>
      PowersAre(0, 3, 0, 0, 4, 9);
      SplitCase(SPLIT_3[0], 21, 49, FiveAt(0, 3, 0), TwoAt(0, 4, 9),
                476837158203125, 4398046511104, 3906162671821162744, 36027991558681251);
    case 1 =>
      PowersAre(0, 3, 1, 0, 5, 2);
      SplitCase(SPLIT_3[1], 22, 52, FiveAt(0, 3, 1), TwoAt(0, 5, 2),
                2384185791015625, 35184372088832, 2439487985344832843, 36000488429236359);
    case 2 =>
      PowersAre(0, 3, 2, 0, 5, 4);
      SplitCase(SPLIT_3[2], 23, 54, FiveAt(0, 3, 2), TwoAt(0, 5, 4),
                11920928955078125, 140737488355328, 3049490106992946492, 36002024677765147);
    case 3 =>
      PowersAre(0, 3, 3, 0, 5, 6);
      SplitCase(SPLIT_3[3], 24, 56, FiveAt(0, 3, 3), TwoAt(0, 5, 6),
                59604644775390625, 562949953421312, 3790288481338080373, 35798262569355679);
    case 4 =>
      PowersAre(0, 3, 4, 0, 5, 9);
      SplitCase(SPLIT_3[4], 25, 59, FiveAt(0, 3, 4), TwoAt(0, 5, 9),
                298023223876953125, 4503599627370496, 2284277145219750281, 34519020250146899);
    case 5 =>
      PowersAre(0, 3, 5, 0, 6, 1);
      SplitCase(SPLIT_3[5], 26, 61, FiveAt(0, 3, 5), TwoAt(0, 6, 1),
                1490116119384765625, 18014398509481984, 2880749271351324289, 34826121739726455);
    case 6 =>
      PowersAre(0, 3, 6, 0, 6, 3);
      SplitCase(SPLIT_3[6], 27, 63, FiveAt(0, 3, 6), TwoAt(0, 6, 3),
                1142457831393125959, 11049174161536693, 2880749271351324289, 27860897391781164);
  }

  lemma SplitBlock4(i: Place)
    ensures SplitAgrees(28 + i, SPLIT_4[i])
  {
    hide InvAgrees, SplitAgrees, Agrees, Cut, Pow2, Pow5;
    match i
    case 0 =>
      PowersAre(0, 4, 0, 0, 6, 6);
      SplitCase(SPLIT_4[0], 28, 66, FiveAt(0, 4, 0), TwoAt(0, 6, 6),
                136656055707013397, 2114650037131566, 2241192327801254611, 34680771479054725);
    case 1 =>
      PowersAre(0, 4, 1, 0, 6, 8);
      SplitCase(SPLIT_4[1], 29, 68, FiveAt(0, 4, 1), TwoAt(0, 6, 8),
                731118151584080399, 9050804332942511, 2241192327801254611, 27744617183243780);
    case 2 =>
      PowersAre(0, 4, 2, 0, 7, 0);
      SplitCase(SPLIT_4[2], 30, 70, FiveAt(0, 4, 2), TwoAt(0, 7, 0),
                3301991150390615149, 32701336435476289, 2948391542860828303, 29199455539182534);
    case 3 =>
      PowersAre(0, 4, 3, 0, 7, 2);
      SplitCase(SPLIT_4[3], 31, 72, FiveAt(0, 4, 3), TwoAt(0, 7, 2),
                176799803764893423, 1400752358517502, 4453782095031329278, 35286497162826285);
    case 4 =>
      PowersAre(0, 4, 4, 0, 7, 5);
      SplitCase(SPLIT_4[4], 32, 75, FiveAt(0, 4, 4), TwoAt(0, 7, 5),
                1219722025997266496, 15461813583670269, 2775167059167332373, 35179421882870791);
    case 5 =>
      PowersAre(0, 4, 5, 0, 7, 7);
      SplitCase(SPLIT_4[5], 33, 77, FiveAt(0, 4, 5), TwoAt(0, 7, 7),
                1524652532496583120, 15461813583670269, 2470236552668015749, 25051174789562579);
    case 6 =>
      PowersAre(0, 4, 6, 0, 7, 9);
      SplitCase(SPLIT_4[6], 34, 79, FiveAt(0, 4, 6), TwoAt(0, 7, 9),
                1905815665620728900, 15461813583670269, 2851399685792161529, 23133302548384117);
  }

  lemma SplitBlock5(i: Place)
    ensures SplitAgrees(35 + i, SPLIT_5[i])
  {
    hide InvAgrees, SplitAgrees, Agrees, Cut, Pow2, Pow5;
    match i
    case 0 =>
      PowersAre(0, 5, 0, 0, 8, 2);
      SplitCase(SPLIT_5[0], 35, 82, FiveAt(0, 5, 0), TwoAt(0, 8, 2),
                2140380717503854102, 27783730188909455, 1898491852981797079, 24643833210478372);
    case 1 =>
      PowersAre(0, 5, 1, 0, 8, 4);
      SplitCase(SPLIT_5[1], 36, 84, FiveAt(0, 5, 1), TwoAt(0, 8, 4),
                1070190358751927051, 11113492075563782, 3140944094326602121, 32617428307611071);
    case 2 =>
      PowersAre(0, 5, 2, 0, 8, 6);
      SplitCase(SPLIT_5[2], 37, 86, FiveAt(0, 5, 2), TwoAt(0, 8, 6),
                17406745482294758, 144609583816055, 4323953810304244533, 35922002857107883);
    case 3 =>
      PowersAre(0, 5, 3, 0, 8, 9);
      SplitCase(SPLIT_5[3], 38, 89, FiveAt(0, 5, 3), TwoAt(0, 8, 9),
                8703372741147379, 115687667052844, 2709072556309905021, 36009750844597337);
    case 4 =>
      PowersAre(0, 5, 4, 0, 9, 1);
      SplitCase(SPLIT_5[4], 39, 91, FiveAt(0, 5, 4), TwoAt(0, 9, 1),
                1671628474753564306, 17775802937549409, 3299740085801391717, 35088855206887442);
    case 5 =>
      PowersAre(0, 5, 5, 0, 9, 3);
      SplitCase(SPLIT_5[5], 40, 93, FiveAt(0, 5, 5), TwoAt(0, 9, 3),
                4179071186883910765, 35551605875098818, 1231962924212304782, 10480381495245095);
    case 6 =>
      PowersAre(0, 5, 6, 0, 9, 6);
      SplitCase(SPLIT_5[6], 41, 96, FiveAt(0, 5, 6), TwoAt(0, 9, 6),
                2297927038600664599, 31277762068266275, 615981462106152391, 8384305196196076);
  }

  lemma SplitBlock6(i: Place)
    ensures SplitAgrees(42 + i, SPLIT_6[i])
  {
    hide InvAgrees, SplitAgrees, Agrees, Cut, Pow2, Pow5;
    match i
    case 0 =>
      PowersAre(0, 6, 0, 0, 9, 8);
      SplitCase(SPLIT_6[0], 42, 98, FiveAt(0, 6, 0), TwoAt(0, 9, 8),
                2688917174565713277, 29279715219698662, 2884412242548237616, 31408468002241483);
    case 1 =>
      PowersAre(0, 6, 1, 1, 0, 0);
      SplitCase(SPLIT_6[1], 43, 100, FiveAt(0, 6, 1), TwoAt(1, 0, 0),
                1967814113928653873, 17142078575310633, 3605515303185297020, 31408468002241483);
    case 2 =>
      PowersAre(0, 6, 2, 1, 0, 3);
      SplitCase(SPLIT_6[2], 44, 103, FiveAt(0, 6, 2), TwoAt(1, 0, 3),
                1434596469862489064, 19995356460696803, 1637701189256643147, 22826223083089360);
    case 3 =>
      PowersAre(0, 6, 3, 1, 0, 5);
      SplitCase(SPLIT_6[3], 45, 105, FiveAt(0, 6, 3), TwoAt(1, 0, 5),
                1793245587328111330, 19995356460696803, 1637701189256643147, 18260978466471488);
    case 4 =>
      PowersAre(0, 6, 4, 1, 0, 7);
      SplitCase(SPLIT_6[4], 46, 107, FiveAt(0, 6, 4), TwoAt(1, 0, 7),
                2319329183195873254, 20689107658386929, 2163784785124405071, 19301605263006677);
    case 5 =>
      PowersAre(0, 6, 5, 1, 1, 0);
      SplitCase(SPLIT_6[5], 47, 110, FiveAt(0, 6, 5), TwoAt(1, 1, 0),
                2283902280647043581, 32596942604193726, 251030048381617111, 3582820573525285);
    case 6 =>
      PowersAre(0, 6, 6, 1, 1, 2);
      SplitCase(SPLIT_6[6], 48, 112, FiveAt(0, 6, 6), TwoAt(1, 1, 2),
                2917635362904208754, 33313506718898783, 251030048381617111, 2866256458820228);
  }

  lemma SplitBlock7(i: Place)
    ensures SplitAgrees(49 + i, SPLIT_7[i])
  {
    hide InvAgrees, SplitAgrees, Agrees, Cut, Pow2, Pow5;
    match i
    case 0 =>
      PowersAre(1, 0, 0, 1, 1, 4);
      SplitCase(SPLIT_7[0], 49, 114, FiveAt(1, 0, 0), TwoAt(1, 1, 4),
                1608014010061712077, 14688219428476395, 2863164251969797632, 26153245263757307);
    case 1 =>
      PowersAre(1, 0, 1, 1, 1, 7);
      SplitCase(SPLIT_7[1], 50, 117, FiveAt(1, 0, 1), TwoAt(1, 1, 7),
                1608014010061712077, 23501151085562232, 1789477657481123520, 26153245263757307);
    case 2 =>
      PowersAre(1, 0, 2, 1, 1, 9);
      SplitCase(SPLIT_7[2], 51, 119, FiveAt(1, 0, 2), TwoAt(1, 1, 9),
                2055383424431992957, 24031569921201247, 2236847071851404400, 26153245263757307);
    case 3 =>
      PowersAre(1, 0, 3, 1, 2, 1);
      SplitCase(SPLIT_7[3], 52, 121, FiveAt(1, 0, 3), TwoAt(1, 2, 1),
                2614595192394844057, 24455904989712459, 2796058839814255500, 26153245263757307);
    case 4 =>
      PowersAre(1, 0, 4, 1, 2, 4);
      SplitCase(SPLIT_7[4], 53, 124, FiveAt(1, 0, 4), TwoAt(1, 2, 4),
                258775531267076216, 3872776833515583, 2201195893432438295, 32942606359936699);
    case 5 =>
      PowersAre(1, 0, 5, 1, 2, 6);
      SplitCase(SPLIT_7[5], 54, 126, FiveAt(1, 0, 5), TwoAt(1, 2, 6),
                323469414083845270, 3872776833515583, 2718746955966590727, 32550528021574292);
    case 6 =>
      PowersAre(1, 0, 6, 1, 2, 8);
      SplitCase(SPLIT_7[6], 55, 128, FiveAt(1, 0, 6), TwoAt(1, 2, 8),
                1925444952630024586, 18442098775551533, 3042216370050435997, 29138643884071900);
  }

  lemma SplitBlock8(i: Place)
    ensures SplitAgrees(56 + i, SPLIT_8[i])
  {
    hide InvAgrees, SplitAgrees, Agrees, Cut, Pow2, Pow5;
    match i
    case 0 =>
      PowersAre(1, 1, 0, 1, 3, 1);
      SplitCase(SPLIT_8[0], 56, 131, FiveAt(1, 1, 0), TwoAt(1, 3, 1),
                442849002881156367, 6786641221922773, 2156518364288123263, 33048547770669494);
    case 1 =>
      PowersAre(1, 1, 1, 1, 3, 3);
      SplitCase(SPLIT_8[1], 57, 133, FiveAt(1, 1, 1), TwoAt(1, 3, 3),
                1314115346114054458, 16111007264825781, 1728101023936381539, 21186456906786251);
    case 2 =>
      PowersAre(1, 1, 2, 1, 3, 5);
      SplitCase(SPLIT_8[2], 58, 135, FiveAt(1, 1, 2), TwoAt(1, 3, 5),
                3285288365285136145, 32222014529651562, 1849637021553731613, 18141187121609969);
    case 3 =>
      PowersAre(1, 1, 3, 1, 3, 7);
      SplitCase(SPLIT_8[3], 59, 137, FiveAt(1, 1, 3), TwoAt(1, 3, 7),
                2926375529352285012, 22961446142112931, 4058186879040314359, 31842064876184269);
    case 4 =>
      PowersAre(1, 1, 4, 1, 4, 0);
      SplitCase(SPLIT_8[4], 60, 140, FiveAt(1, 1, 4), TwoAt(1, 4, 0),
                1994672913339234712, 25041529611701033, 1663296498351121553, 20881362672524829);
    case 5 =>
      PowersAre(1, 1, 5, 1, 4, 2);
      SplitCase(SPLIT_8[5], 61, 142, FiveAt(1, 1, 5), TwoAt(1, 4, 2),
                3159301183355547587, 31730007905040483, 665960041681504197, 6688478293339450);
    case 6 =>
      PowersAre(1, 1, 6, 1, 4, 4);
      SplitCase(SPLIT_8[6], 62, 144, FiveAt(1, 1, 6), TwoAt(1, 4, 4),
                4115616489614810533, 33067703563708373, 665960041681504197, 5350782634671560);
  }

  lemma SplitBlock9(i: Place)
    ensures SplitAgrees(63 + i, SPLIT_9[i])
  {
    hide InvAgrees, SplitAgrees, Agrees, Cut, Pow2, Pow5;
    match i
    case 0 =>
      PowersAre(1, 2, 0, 1, 4, 7);
      SplitCase(SPLIT_9[0], 63, 147, FiveAt(1, 2, 0), TwoAt(1, 4, 7),
                2156035279958316460, 27716920929036813, 665960041681504197, 8561252215474496);
    case 1 =>
      PowersAre(1, 2, 1, 1, 4, 9);
      SplitCase(SPLIT_9[1], 64, 149, FiveAt(1, 2, 1), TwoAt(1, 4, 9),
                2695044099947895575, 27716920929036813, 1743977681660662427, 17935770143994322);
    case 2 =>
      PowersAre(1, 2, 2, 1, 5, 1);
      SplitCase(SPLIT_9[2], 65, 151, FiveAt(1, 2, 2), TwoAt(1, 5, 1),
                2219510890804279001, 18261076429212454, 3250188758749516567, 26741002073382417);
    case 3 =>
      PowersAre(1, 2, 3, 1, 5, 4);
      SplitCase(SPLIT_9[3], 66, 154, FiveAt(1, 2, 3), TwoAt(1, 5, 4),
                852085978415830109, 11216890885701978, 2566476302555292121, 33785187616892893);
    case 4 =>
      PowersAre(1, 2, 4, 1, 5, 6);
      SplitCase(SPLIT_9[4], 67, 156, FiveAt(1, 2, 4), TwoAt(1, 5, 6),
                3403234730009419539, 35840244850331546, 428597581034865503, 4513659346238183);
    case 5 =>
      PowersAre(1, 2, 5, 1, 5, 8);
      SplitCase(SPLIT_9[5], 68, 158, FiveAt(1, 2, 5), TwoAt(1, 5, 8),
                1172256868278504012, 9876244577809219, 3315244773452831527, 27930881962761951);
    case 6 =>
      PowersAre(1, 2, 6, 1, 6, 1);
      SplitCase(SPLIT_9[6], 69, 161, FiveAt(1, 2, 6), TwoAt(1, 6, 1),
                1465321085348130015, 19752489155618438, 1511090278191602762, 20369456654647717);
  }

  lemma SplitBlock10(i: Place)
    ensures SplitAgrees(70 + i, SPLIT_10[i])
  {
    hide InvAgrees, SplitAgrees, Agrees, Cut, Pow2, Pow5;
    match i
    case 0 =>
      PowersAre(1, 3, 0, 1, 6, 3);
      SplitCase(SPLIT_10[0], 70, 163, FiveAt(1, 3, 0), TwoAt(1, 6, 3),
                2575754197570095713, 27776878317671669, 2976411363539732777, 32097556648212924);
    case 1 =>
      PowersAre(1, 3, 1, 1, 6, 5);
      SplitCase(SPLIT_10[1], 71, 165, FiveAt(1, 3, 1), TwoAt(1, 6, 5),
                4164477628010872423, 35927710319268839, 100164291492409266, 864135666108251);
    case 2 =>
      PowersAre(1, 3, 2, 1, 6, 8);
      SplitCase(SPLIT_10[2], 72, 168, FiveAt(1, 3, 2), TwoAt(1, 6, 8),
                2506022170079203621, 34591858714640609, 250410728731023165, 3456542664433004);
    case 3 =>
      PowersAre(1, 3, 3, 1, 7, 0);
      SplitCase(SPLIT_10[3], 73, 170, FiveAt(1, 3, 3), TwoAt(1, 7, 0),
                563902860337045114, 6227063210041521, 2943762224666251167, 32507360287856579);
    case 4 =>
      PowersAre(1, 3, 4, 1, 7, 2);
      SplitCase(SPLIT_10[4], 74, 172, FiveAt(1, 3, 4), TwoAt(1, 7, 2),
                2458711117922954533, 21720832609200761, 3507665085003296281, 30987538798318480);
    case 5 =>
      PowersAre(1, 3, 5, 1, 7, 5);
      SplitCase(SPLIT_10[5], 75, 175, FiveAt(1, 3, 5), TwoAt(1, 7, 5),
                1098236313076434548, 15523324849537065, 2409428771926861733, 34056737227772503);
    case 6 =>
      PowersAre(1, 3, 6, 1, 7, 7);
      SplitCase(SPLIT_10[6], 76, 177, FiveAt(1, 3, 6), TwoAt(1, 7, 7),
                274559078269108637, 3104664969907413, 2986694276753723644, 33773004904145383);
  }

  lemma SplitBlock11(i: Place)
    ensures SplitAgrees(77 + i, SPLIT_11[i])
  {
    hide InvAgrees, SplitAgrees, Agrees, Cut, Pow2, Pow5;
    match i
    case 0 =>
      PowersAre(1, 4, 0, 1, 7, 9);
      SplitCase(SPLIT_11[0], 77, 179, FiveAt(1, 4, 0), TwoAt(1, 7, 9),
                1372795391345543185, 12418659879629652, 3766823430148625918, 34075652716014311);
    case 1 =>
      PowersAre(1, 4, 1, 1, 8, 2);
      SplitCase(SPLIT_11[1], 78, 182, FiveAt(1, 4, 1), TwoAt(1, 8, 2),
                814051776604964036, 11782594495054723, 2090592585926888471, 30259260408564737);
    case 2 =>
      PowersAre(1, 4, 2, 1, 8, 4);
      SplitCase(SPLIT_11[2], 79, 184, FiveAt(1, 4, 2), TwoAt(1, 8, 4),
                1017564720756205045, 11782594495054723, 2904644362531852507, 33633483922895568);
    case 3 =>
      PowersAre(1, 4, 3, 1, 8, 6);
      SplitCase(SPLIT_11[3], 80, 186, FiveAt(1, 4, 3), TwoAt(1, 8, 6),
                2072141891446600747, 19195011104541277, 3015681712334424478, 27935366875677615);
    case 4 =>
      PowersAre(1, 4, 4, 1, 8, 9);
      SplitCase(SPLIT_11[4], 81, 189, FiveAt(1, 4, 4), TwoAt(1, 8, 9),
                2213217150266447874, 32802948833947031, 1507840856167212239, 22348293500542092);
    case 5 =>
      PowersAre(1, 4, 5, 1, 9, 1);
      SplitCase(SPLIT_11[5], 82, 191, FiveAt(1, 4, 5), TwoAt(1, 9, 1),
                1307224715650218088, 15499907167006243, 2310305418235188843, 27393545334143396);
    case 6 =>
      PowersAre(1, 4, 6, 1, 9, 3);
      SplitCase(SPLIT_11[6], 83, 193, FiveAt(1, 4, 6), TwoAt(1, 9, 3),
                1634030894562772610, 15499907167006243, 2963917776060297887, 28114799134117214);
  }

  lemma SplitBlock12(i: Place)
    ensures SplitAgrees(84 + i, SPLIT_12[i])
  {
    hide InvAgrees, SplitAgrees, Agrees, Cut, Pow2, Pow5;
    match i
    case 0 =>
      PowersAre(1, 5, 0, 1, 9, 6);
      SplitCase(SPLIT_12[0], 84, 196, FiveAt(1, 5, 0), TwoAt(1, 9, 6),
                1505813036008737867, 22853876113766849, 1073451164389455791, 16291876440491274);
    case 1 =>
      PowersAre(1, 5, 1, 1, 9, 8);
      SplitCase(SPLIT_12[1], 85, 198, FiveAt(1, 5, 1), TwoAt(1, 9, 8),
                108090467904820519, 1312399934655115, 2881175060136407018, 34982307264897451);
    case 2 =>
      PowersAre(1, 5, 2, 2, 0, 0);
      SplitCase(SPLIT_12[2], 86, 200, FiveAt(1, 5, 2), TwoAt(2, 0, 0),
                108090467904820519, 1049919947724092, 3655514059122919032, 35507267238759497);
    case 3 =>
      PowersAre(1, 5, 3, 2, 0, 3);
      SplitCase(SPLIT_12[3], 87, 203, FiveAt(1, 5, 3), TwoAt(2, 0, 3),
                2102873661733755467, 32681497975447818, 781210661104826436, 12141069196827541);
    case 4 =>
      PowersAre(1, 5, 4, 2, 0, 5);
      SplitCase(SPLIT_12[4], 88, 205, FiveAt(1, 5, 4), TwoAt(2, 0, 5),
                1712268331181342249, 21288770701627238, 2688781657562375294, 33429839898454779);
    case 5 =>
      PowersAre(1, 5, 5, 2, 0, 7);
      SplitCase(SPLIT_12[5], 89, 207, FiveAt(1, 5, 5), TwoAt(2, 0, 7),
                1528329579981264948, 15201476260341851, 2136965403962143391, 21255251015884005);
    case 6 =>
      PowersAre(1, 5, 6, 2, 0, 9);
      SplitCase(SPLIT_12[6], 90, 209, FiveAt(1, 5, 6), TwoAt(2, 0, 9),
                1910411974976581185, 15201476260341851, 4047377378938724576, 32205677073049055);
  }

  lemma SplitBlock13(i: Place)
    ensures SplitAgrees(91 + i, SPLIT_13[i])
  {
    hide InvAgrees, SplitAgrees, Agrees, Cut, Pow2, Pow5;
    match i
    case 0 =>
      PowersAre(1, 6, 0, 2, 1, 2);
      SplitCase(SPLIT_13[0], 91, 212, FiveAt(1, 6, 0), TwoAt(2, 1, 2),
                2469149461740137917, 31435914278197454, 505922172367340572, 6441135414609811);
    case 1 =>
      PowersAre(1, 6, 1, 2, 1, 4);
      SplitCase(SPLIT_13[1], 92, 214, FiveAt(1, 6, 1), TwoAt(2, 1, 4),
                2975071634107478489, 30301639754245812, 632402715459175715, 6441135414609811);
    case 2 =>
      PowersAre(1, 6, 2, 2, 1, 6);
      SplitCase(SPLIT_13[2], 93, 216, FiveAt(1, 6, 2), TwoAt(2, 1, 6),
                2799076733769190696, 22807280028834671, 3162013577295878575, 25764541658439244);
    case 3 =>
      PowersAre(1, 6, 3, 2, 1, 9);
      SplitCase(SPLIT_13[3], 94, 219, FiveAt(1, 6, 3), TwoAt(2, 1, 9),
                1749422958605744185, 22807280028834671, 2462244393853580901, 32100354641968922);
    case 4 =>
      PowersAre(1, 6, 4, 2, 2, 1);
      SplitCase(SPLIT_13[4], 95, 221, FiveAt(1, 6, 4), TwoAt(2, 2, 1),
                2964229840775610833, 30915803278254923, 1927628317417703364, 20104438945694587);
    case 5 =>
      PowersAre(1, 6, 5, 2, 2, 3);
      SplitCase(SPLIT_13[5], 96, 223, FiveAt(1, 6, 5), TwoAt(2, 2, 3),
                2482322761421184992, 20711754833465021, 2409535396772129205, 20104438945694587);
    case 6 =>
      PowersAre(1, 6, 6, 2, 2, 6);
      SplitCase(SPLIT_13[6], 97, 226, FiveAt(1, 6, 6), TwoAt(2, 2, 6),
                1551451725888240620, 20711754833465021, 2099245051594481081, 28024751346418335);
  }

  lemma SplitBlock14(i: Place)
    ensures SplitAgrees(98 + i, SPLIT_14[i])
  {
    hide InvAgrees, SplitAgrees, Agrees, Cut, Pow2, Pow5;
    match i
    case 0 =>
      PowersAre(2, 0, 0, 2, 2, 8);
      SplitCase(SPLIT_14[0], 98, 228, FiveAt(2, 0, 0), TwoAt(2, 2, 8),
                1939314657360300775, 20711754833465021, 2099245051594481081, 22419801077134668);
    case 1 =>
      PowersAre(2, 0, 1, 2, 3, 0);
      SplitCase(SPLIT_14[1], 99, 230, FiveAt(2, 0, 1), TwoAt(2, 3, 0),
                4118524906071872009, 35188463225947610, 3188850175950266698, 27245370541295531);
    case 2 =>
      PowersAre(2, 0, 2, 2, 3, 3);
      SplitCase(SPLIT_14[2], 100, 233, FiveAt(2, 0, 2), TwoAt(2, 3, 3),
                2191724639169974641, 29961570659683202, 963400133450948684, 13169985250916487);
    case 3 =>
      PowersAre(2, 0, 3, 2, 3, 5);
      SplitCase(SPLIT_14[3], 101, 235, FiveAt(2, 0, 3), TwoAt(2, 3, 5),
                2432574672532711812, 26603253577929859, 1204250166813685855, 13169985250916487);
    case 4 =>
      PowersAre(2, 0, 4, 2, 3, 7);
      SplitCase(SPLIT_14[4], 102, 237, FiveAt(2, 0, 4), TwoAt(2, 3, 7),
                3028681171213219714, 26497940347491105, 3016644001760549663, 26392627117052351);
    case 5 =>
      PowersAre(2, 0, 5, 2, 4, 0);
      SplitCase(SPLIT_14[5], 103, 240, FiveAt(2, 0, 5), TwoAt(2, 4, 0),
                1514340585606609857, 21198352277992884, 1120708977389119829, 15688137747617155);
    case 6 =>
      PowersAre(2, 0, 6, 2, 4, 2);
      SplitCase(SPLIT_14[6], 104, 242, FiveAt(2, 0, 6), TwoAt(2, 4, 2),
                1612748487660982364, 18060724728469453, 2733457465050102193, 30611234926563177);
  }

  lemma SplitBlock15(i: Place)
    ensures SplitAgrees(105 + i, SPLIT_15[i])
  {
    hide InvAgrees, SplitAgrees, Agrees, Cut, Pow2, Pow5;
    match i
    case 0 =>
      PowersAre(2, 1, 0, 2, 4, 4);
      SplitCase(SPLIT_15[0], 105, 244, FiveAt(2, 1, 0), TwoAt(2, 4, 4),
                2015935609576227955, 18060724728469453, 2330270343134856602, 20876842995556651);
    case 1 =>
      PowersAre(2, 1, 1, 2, 4, 7);
      SplitCase(SPLIT_15[1], 106, 247, FiveAt(2, 1, 1), TwoAt(2, 4, 7),
                425400219004399827, 6097842584552902, 2274737600411971012, 32606922114283949);
    case 2 =>
      PowersAre(2, 1, 2, 2, 4, 9);
      SplitCase(SPLIT_15[2], 107, 249, FiveAt(2, 1, 2), TwoAt(2, 4, 9),
                1419484838111792407, 16277932558141433, 2131453419313378086, 24442427336212691);
    case 3 =>
      PowersAre(2, 1, 3, 2, 5, 1);
      SplitCase(SPLIT_15[3], 108, 251, FiveAt(2, 1, 3), TwoAt(2, 5, 1),
                176879064227551682, 1622687556014035, 3913601034463031759, 35903354224313102);
    case 4 =>
      PowersAre(2, 1, 4, 2, 5, 4);
      SplitCase(SPLIT_15[4], 109, 254, FiveAt(2, 1, 4), TwoAt(2, 5, 4),
                88439532113775841, 1298150044811228, 2437804276921510111, 35783044705114627);
    case 5 =>
      PowersAre(2, 1, 5, 2, 5, 6);
      SplitCase(SPLIT_15[5], 110, 256, FiveAt(2, 1, 5), TwoAt(2, 5, 6),
                1958153933965459103, 22994039487719907, 1515956273396579898, 17801439308474995);
    case 6 =>
      PowersAre(2, 1, 6, 2, 5, 8);
      SplitCase(SPLIT_15[6], 111, 258, FiveAt(2, 1, 6), TwoAt(2, 5, 8),
                3758417629866212834, 35307215390354817, 757978136698289949, 7120575723389998);
  }

  lemma SplitBlock16(i: Place)
    ensures SplitAgrees(112 + i, SPLIT_16[i])
  {
    hide InvAgrees, SplitAgrees, Agrees, Cut, Pow2, Pow5;
    match i
    case 0 =>
      PowersAre(2, 2, 0, 2, 6, 1);
      SplitCase(SPLIT_16[0], 112, 261, FiveAt(2, 2, 0), TwoAt(2, 6, 1),
                1401538347793520585, 21066063943574821, 1038285806256994066, 15606133946138961);
    case 1 =>
      PowersAre(2, 2, 1, 2, 6, 3);
      SplitCase(SPLIT_16[1], 113, 263, FiveAt(2, 2, 1), TwoAt(2, 6, 3),
                1479483528589505842, 17790105945113305, 2595714515642485165, 31212267892277922);
    case 2 =>
      PowersAre(2, 2, 2, 2, 6, 5);
      SplitCase(SPLIT_16[2], 114, 265, FiveAt(2, 2, 2), TwoAt(2, 6, 5),
                739741764294752921, 7116042378045322, 3160448349779824768, 30402345083351895);
    case 3 =>
      PowersAre(2, 2, 3, 2, 6, 8);
      SplitCase(SPLIT_16[3], 115, 268, FiveAt(2, 2, 3), TwoAt(2, 6, 8),
                2118484646583852221, 32606462957681060, 395056043722478096, 6080469016670379);
    case 4 =>
      PowersAre(2, 2, 4, 2, 7, 0);
      SplitCase(SPLIT_16[4], 116, 270, FiveAt(2, 2, 4), TwoAt(2, 7, 0),
                2612304701236949841, 32165639382815227, 493820054653097620, 6080469016670379);
    case 5 =>
      PowersAre(2, 2, 5, 2, 7, 2);
      SplitCase(SPLIT_16[5], 117, 272, FiveAt(2, 2, 5), TwoAt(2, 7, 2),
                3599944810543145081, 35461261932924788, 617275068316372025, 6080469016670379);
    case 6 =>
      PowersAre(2, 2, 6, 2, 7, 4);
      SplitCase(SPLIT_16[6], 118, 274, FiveAt(2, 2, 6), TwoAt(2, 7, 4),
                3728337177783466320, 29380792916254409, 1362942503873065289, 10740533796587185);
  }

  lemma SplitBlock17(i: Place)
    ensures SplitAgrees(119 + i, SPLIT_17[i])
  {
    hide InvAgrees, SplitAgrees, Agrees, Cut, Pow2, Pow5;
    match i
    case 0 =>
      PowersAre(2, 3, 0, 2, 7, 7);
      SplitCase(SPLIT_17[0], 119, 277, FiveAt(2, 3, 0), TwoAt(2, 7, 7),
                2330210736114666450, 29380792916254409, 1362942503873065289, 17184854074539496);
    case 1 =>
      PowersAre(2, 3, 1, 2, 7, 9);
      SplitCase(SPLIT_17[1], 120, 279, FiveAt(2, 3, 1), TwoAt(2, 7, 9),
                2626966439838264546, 26497983472698277, 1560779639688797353, 15743449352761430);
    case 2 =>
      PowersAre(2, 3, 2, 2, 8, 1);
      SplitCase(SPLIT_17[2], 121, 281, FiveAt(2, 3, 2), TwoAt(2, 8, 1),
                2503318229953432006, 20200603731593705, 4064097869642229359, 32795363213802849);
    case 3 =>
      PowersAre(2, 3, 3, 2, 8, 4);
      SplitCase(SPLIT_17[3], 122, 284, FiveAt(2, 3, 3), TwoAt(2, 8, 4),
                1251659114976716003, 16160482985274964, 2263889328355175692, 29229639710737029);
    case 4 =>
      PowersAre(2, 3, 4, 2, 8, 6);
      SplitCase(SPLIT_17[4], 123, 286, FiveAt(2, 3, 4), TwoAt(2, 8, 6),
                1817631447065509926, 18774314330367377, 2829861660443969615, 29229639710737029);
    case 5 =>
      PowersAre(2, 3, 5, 2, 8, 8);
      SplitCase(SPLIT_17[5], 124, 288, FiveAt(2, 3, 5), TwoAt(2, 8, 8),
                2674739925675412526, 22101909910366467, 1869338691988362289, 15446718750368287);
    case 6 =>
      PowersAre(2, 3, 6, 2, 9, 1);
      SplitCase(SPLIT_17[6], 125, 291, FiveAt(2, 3, 6), TwoAt(2, 9, 1),
                1873062761968895388, 24763986374365739, 1067661528281845151, 14115680518368651);
  }

  lemma SplitBlock18(i: Place)
    ensures SplitAgrees(126 + i, SPLIT_18[i])
  {
    hide InvAgrees, SplitAgrees, Agrees, Cut, Pow2, Pow5;
    match i
    case 0 =>
      PowersAre(2, 4, 0, 2, 9, 3);
      SplitCase(SPLIT_18[0], 126, 293, FiveAt(2, 4, 0), TwoAt(2, 9, 3),
                2940724290250740539, 31103733514187512, 599395837789621304, 6339747139821773);
    case 1 =>
      PowersAre(2, 4, 1, 2, 9, 5);
      SplitCase(SPLIT_18[1], 127, 295, FiveAt(2, 4, 1), TwoAt(2, 9, 5),
                2790875330803335213, 23615037383385655, 3540120128040361843, 29954784523207428);
    case 2 =>
      PowersAre(2, 4, 2, 2, 9, 8);
      SplitCase(SPLIT_18[2], 128, 298, FiveAt(2, 4, 2), TwoAt(2, 9, 8),
                1624878499829359766, 21998297720241013, 1165996830973975447, 15785762093176035);
    case 3 =>
      PowersAre(2, 4, 3, 3, 0, 0);
      SplitCase(SPLIT_18[3], 129, 300, FiveAt(2, 4, 3), TwoAt(3, 0, 0),
                2614096540273687431, 28312602557511427, 1165996830973975447, 12628609674540828);
    case 4 =>
      PowersAre(2, 4, 4, 3, 0, 2);
      SplitCase(SPLIT_18[4], 130, 302, FiveAt(2, 4, 4), TwoAt(3, 0, 2),
                1890046685623831439, 16376484892820902, 3860015420246854337, 33445461795492107);
    case 5 =>
      PowersAre(2, 4, 5, 3, 0, 5);
      SplitCase(SPLIT_18[5], 131, 305, FiveAt(2, 4, 5), TwoAt(3, 0, 5),
                1623820081546155712, 22511583644039081, 984984367311511449, 13655181522136964);
    case 6 =>
      PowersAre(2, 4, 6, 3, 0, 7);
      SplitCase(SPLIT_18[6], 132, 307, FiveAt(2, 4, 6), TwoAt(3, 0, 7),
                2608804448857667161, 28933412132940836, 3187833795782639682, 35355240621842591);
  }

  lemma SplitBlock19(i: Place)
    ensures SplitAgrees(133 + i, SPLIT_19[i])
  {
    hide InvAgrees, SplitAgrees, Agrees, Cut, Pow2, Pow5;
    match i
    case 0 =>
      PowersAre(2, 5, 0, 3, 0, 9);
      SplitCase(SPLIT_19[0], 133, 309, FiveAt(2, 5, 0), TwoAt(3, 0, 9),
                3116248224340840821, 27649046435160485, 3695277571265813342, 32786509226281889);
    case 1 =>
      PowersAre(2, 5, 1, 3, 1, 2);
      SplitCase(SPLIT_19[1], 134, 312, FiveAt(2, 5, 1), TwoAt(3, 1, 2),
                27637686214497277, 392346495910693, 2535856813836398004, 35999197882132223);
    case 2 =>
      PowersAre(2, 5, 2, 3, 1, 4);
      SplitCase(SPLIT_19[2], 135, 314, FiveAt(2, 5, 2), TwoAt(3, 1, 4),
                799790320746083163, 9083102756797771, 3060972851911846267, 34763025043548312);
    case 3 =>
      PowersAre(2, 5, 3, 3, 1, 6);
      SplitCase(SPLIT_19[3], 136, 316, FiveAt(2, 5, 3), TwoAt(3, 1, 6),
                1365085953537523939, 12402466662788325, 2826478163957203880, 25679922286750541);
    case 4 =>
      PowersAre(2, 5, 4, 3, 1, 9);
      SplitCase(SPLIT_19[4], 137, 319, FiveAt(2, 5, 4), TwoAt(3, 1, 9),
                1365085953537523939, 19843946660461320, 1766548852473252425, 25679922286750541);
    case 5 =>
      PowersAre(2, 5, 5, 3, 2, 1);
      SplitCase(SPLIT_19[5], 138, 321, FiveAt(2, 5, 5), TwoAt(3, 2, 1),
                1365085953537523939, 15875157328369056, 2549457553975946516, 29648711618842805);
    case 6 =>
      PowersAre(2, 5, 6, 3, 2, 3);
      SplitCase(SPLIT_19[6], 139, 323, FiveAt(2, 5, 6), TwoAt(3, 2, 3),
                3638607825217686550, 33851917694633419, 637364388493986629, 5929742323768561);
  }

  lemma SplitBlock20(i: Place)
    ensures SplitAgrees(140 + i, SPLIT_20[i])
  {
    hide InvAgrees, SplitAgrees, Agrees, Cut, Pow2, Pow5;
    match i
    case 0 =>
      PowersAre(2, 6, 0, 3, 2, 6);
      SplitCase(SPLIT_20[0], 140, 326, FiveAt(2, 6, 0), TwoAt(3, 2, 6),
                1865698539045401581, 27772148654897914, 660561701712265782, 9832894967625287);
    case 1 =>
      PowersAre(2, 6, 1, 3, 2, 8);
      SplitCase(SPLIT_20[1], 141, 328, FiveAt(2, 6, 1), TwoAt(3, 2, 8),
                2740554525522404489, 32635963886686318, 1097989694950767236, 13075438455484223);
    case 2 =>
      PowersAre(2, 6, 2, 3, 3, 0);
      SplitCase(SPLIT_20[2], 142, 330, FiveAt(2, 6, 2), TwoAt(3, 3, 0),
                3015051949260096298, 28723858800445899, 1372487118688459045, 13075438455484223);
    case 3 =>
      PowersAre(2, 6, 3, 3, 3, 3);
      SplitCase(SPLIT_20[3], 143, 333, FiveAt(2, 6, 3), TwoAt(3, 3, 3),
                1440006546659253597, 21949894284565738, 1271207976732267217, 19376912395088285);
    case 4 =>
      PowersAre(2, 6, 4, 3, 3, 5);
      SplitCase(SPLIT_20[4], 144, 335, FiveAt(2, 6, 4), TwoAt(3, 3, 5),
                1482206189141000192, 18074511805548081, 2753414165873267409, 33576041721618709);
    case 5 =>
      PowersAre(2, 6, 5, 3, 3, 7);
      SplitCase(SPLIT_20[5], 145, 337, FiveAt(2, 6, 5), TwoAt(3, 3, 7),
                1852757736426250240, 18074511805548081, 2382862618588017361, 23245931016185351);
    case 6 =>
      PowersAre(2, 6, 6, 3, 4, 0);
      SplitCase(SPLIT_20[6], 146, 340, FiveAt(2, 6, 6), TwoAt(3, 4, 0),
                1157973585266406400, 18074511805548081, 1688078467428173521, 26348782542567713);
  }

  lemma SplitBlock21(i: Place)
    ensures SplitAgrees(147 + i, SPLIT_21[i])
  {
    hide InvAgrees, SplitAgrees, Agrees, Cut, Pow2, Pow5;
    match i
    case 0 =>
      PowersAre(3, 0, 0, 3, 4, 2);
      SplitCase(SPLIT_21[0], 147, 342, FiveAt(3, 0, 0), TwoAt(3, 4, 2),
                1447466981583008000, 18074511805548081, 2556558656377978321, 31923733117383019);
    case 1 =>
      PowersAre(3, 0, 1, 3, 4, 4);
      SplitCase(SPLIT_21[1], 148, 344, FiveAt(3, 0, 1), TwoAt(3, 4, 4),
                1809333726978760000, 18074511805548081, 2194691910982226321, 21924084132796799);
    case 2 =>
      PowersAre(3, 0, 2, 3, 4, 6);
      SplitCase(SPLIT_21[2], 149, 346, FiveAt(3, 0, 2), TwoAt(3, 4, 6),
                4004025637960986321, 31998876750675904, 1742358479237536321, 13924364945127823);
    case 3 =>
      PowersAre(3, 0, 3, 3, 4, 9);
      SplitCase(SPLIT_21[3], 150, 349, FiveAt(3, 0, 3), TwoAt(3, 4, 9),
                1413541974202156250, 18074511805548081, 2025066874077967571, 25893886273314133);
    case 4 =>
      PowersAre(3, 0, 4, 3, 5, 1);
      SplitCase(SPLIT_21[4], 151, 351, FiveAt(3, 0, 4), TwoAt(3, 5, 1),
                2874706992016945902, 29406371462880125, 659147943488444723, 6742652148216037);
    case 5 =>
      PowersAre(3, 0, 5, 3, 5, 3);
      SplitCase(SPLIT_21[5], 152, 353, FiveAt(3, 0, 5), TwoAt(3, 5, 3),
                3803900102733821234, 31129127174160149, 2366546606725348283, 19366578589008099);
    case 6 =>
      PowersAre(3, 0, 6, 3, 5, 6);
      SplitCase(SPLIT_21[6], 153, 356, FiveAt(3, 0, 6), TwoAt(3, 5, 6),
                2736775938210756509, 35834146608220969, 1299422442202283558, 17014068871977689);
  }

  lemma SplitBlock22(i: Place)
    ensures SplitAgrees(154 + i, SPLIT_22[i])
  {
    hide InvAgrees, SplitAgrees, Agrees, Cut, Pow2, Pow5;
    match i
    case 0 =>
      PowersAre(3, 1, 0, 3, 5, 8);
      SplitCase(SPLIT_22[0], 154, 358, FiveAt(3, 1, 0), TwoAt(3, 5, 8),
                1437353496008472951, 15056062188994624, 2342954800757090923, 24542099966475001);
    case 1 =>
      PowersAre(3, 1, 1, 3, 6, 0);
      SplitCase(SPLIT_22[1], 155, 360, FiveAt(3, 1, 1), TwoAt(3, 6, 0),
                1890154148382781937, 15839264862187850, 3022155779318554402, 25325302639668227);
    case 2 =>
      PowersAre(3, 1, 2, 3, 6, 3);
      SplitCase(SPLIT_22[2], 156, 363, FiveAt(3, 1, 2), TwoAt(3, 6, 3),
                1890154148382781937, 25342823779500560, 1416308824978401017, 18989596694793087);
    case 3 =>
      PowersAre(3, 1, 3, 3, 6, 5);
      SplitCase(SPLIT_22[3], 157, 365, FiveAt(3, 1, 3), TwoAt(3, 6, 5),
                1890154148382781937, 20274259023600448, 3188001642510087724, 34195290962493423);
    case 4 =>
      PowersAre(3, 1, 4, 3, 6, 7);
      SplitCase(SPLIT_22[4], 158, 367, FiveAt(3, 1, 4), TwoAt(3, 6, 7),
                2687154559010303868, 23058465411379043, 3985002053137609655, 34195290962493423);
    case 5 =>
      PowersAre(3, 1, 5, 3, 7, 0);
      SplitCase(SPLIT_22[5], 159, 370, FiveAt(3, 1, 5), TwoAt(3, 7, 0),
                1030547852317787024, 14149004970487539, 2328395346445092811, 31967925852270547);
    case 6 =>
      PowersAre(3, 1, 6, 3, 7, 2);
      SplitCase(SPLIT_22[6], 160, 372, FiveAt(3, 1, 6), TwoAt(3, 7, 2),
                3101306235683433079, 34063743664108961, 1813121420286199299, 19914738693621422);
  }

  lemma SplitBlock23(i: Place)
    ensures SplitAgrees(161 + i, SPLIT_23[i])
  {
    hide InvAgrees, SplitAgrees, Agrees, Cut, Pow2, Pow5;
    match i
    case 0 =>
      PowersAre(3, 2, 0, 3, 7, 4);
      SplitCase(SPLIT_23[0], 161, 374, FiveAt(3, 2, 0), TwoAt(3, 7, 4),
                1610231019246542225, 14149004970487539, 2779260031834124634, 24421193937189661);
    case 1 =>
      PowersAre(3, 2, 1, 3, 7, 7);
      SplitCase(SPLIT_23[1], 162, 377, FiveAt(3, 2, 1), TwoAt(3, 7, 7),
                1555080768414172248, 21863044752022979, 1279329514252322363, 17986228748237562);
    case 2 =>
      PowersAre(3, 2, 2, 3, 7, 9);
      SplitCase(SPLIT_23[2], 163, 379, FiveAt(3, 2, 2), TwoAt(3, 7, 9),
                2445640090562951549, 27506809849803837, 2947429220608187788, 33150574947584695);
    case 3 =>
      PowersAre(3, 2, 3, 3, 8, 1);
      SplitCase(SPLIT_23[3], 164, 381, FiveAt(3, 2, 3), TwoAt(3, 8, 1),
                3385912790990194381, 30465859525012080, 736857305152046947, 6630114989516939);
    case 4 =>
      PowersAre(3, 2, 4, 3, 8, 4);
      SplitCase(SPLIT_23[4], 165, 384, FiveAt(3, 2, 4), TwoAt(3, 8, 4),
                1767549829187607279, 25446573789038710, 958368348286313728, 13797173063548401);
    case 5 =>
      PowersAre(3, 2, 5, 3, 8, 6);
      SplitCase(SPLIT_23[5], 166, 386, FiveAt(3, 2, 5), TwoAt(3, 8, 6),
                1767549829187607279, 20357259031230968, 2965510264545499439, 34154432094779369);
    case 6 =>
      PowersAre(3, 2, 6, 3, 8, 8);
      SplitCase(SPLIT_23[6], 167, 388, FiveAt(3, 2, 6), TwoAt(3, 8, 8),
                3834589767214687598, 35331049062679229, 2666020155706026399, 24564111063113815);
  }

  lemma SplitBlock24(i: Place)
    ensures SplitAgrees(168 + i, SPLIT_24[i])
  {
    hide InvAgrees, SplitAgrees, Agrees, Cut, Pow2, Pow5;
    match i
    case 0 =>
      PowersAre(3, 3, 0, 3, 9, 1);
      SplitCase(SPLIT_24[0], 168, 391, FiveAt(3, 3, 0), TwoAt(3, 9, 1),
                1730113565582673149, 25505404637433703, 935906590123353250, 13797173063548401);
    case 1 =>
      PowersAre(3, 3, 1, 3, 9, 3);
      SplitCase(SPLIT_24[1], 169, 393, FiveAt(3, 3, 1), TwoAt(3, 9, 3),
                631080135260498262, 7442727242263801, 2970846610568881387, 35037073369360603);
    case 2 =>
      PowersAre(3, 3, 2, 3, 9, 5);
      SplitCase(SPLIT_24[2], 170, 395, FiveAt(3, 3, 2), TwoAt(3, 9, 5),
                2905353609620561783, 27411738383819083, 1327653271469316128, 12526283899291481);
    case 3 =>
      PowersAre(3, 3, 3, 3, 9, 8);
      SplitCase(SPLIT_24[3], 171, 398, FiveAt(3, 3, 3), TwoAt(3, 9, 8),
                2241526973885903719, 33837754294677348, 829783294668322580, 12526283899291481);
    case 4 =>
      PowersAre(3, 3, 4, 4, 0, 0);
      SplitCase(SPLIT_24[4], 172, 400, FiveAt(3, 3, 4), TwoAt(4, 0, 0),
                2863864444887145654, 34585973775316767, 1037229118335403225, 12526283899291481);
    case 5 =>
      PowersAre(3, 3, 5, 4, 0, 2);
      SplitCase(SPLIT_24[5], 173, 402, FiveAt(3, 3, 5), TwoAt(4, 0, 2),
                197351552054084801, 1906681195346761, 3607333175244337717, 34851686034391836);
    case 6 =>
      PowersAre(3, 3, 6, 4, 0, 5);
      SplitCase(SPLIT_24[6], 174, 405, FiveAt(3, 3, 6), TwoAt(4, 0, 5),
                919626583033993617, 14215725749196059, 1772121988831556846, 27393727684814089);
  }

  lemma SplitBlock25(i: Place)
    ensures SplitAgrees(175 + i, SPLIT_25[i])
  {
    hide InvAgrees, SplitAgrees, Agrees, Cut, Pow2, Pow5;
    match i
    case 0 =>
      PowersAre(3, 4, 0, 4, 0, 7);
      SplitCase(SPLIT_25[0], 175, 407, FiveAt(3, 4, 0), TwoAt(4, 0, 7),
                936409377343101214, 11580125362072453, 2725314160483765657, 33702652272639330);
    case 1 =>
      PowersAre(3, 4, 1, 4, 0, 9);
      SplitCase(SPLIT_25[1], 176, 409, FiveAt(3, 4, 1), TwoAt(4, 0, 9),
                2533168801920759346, 25061186271128185, 2725314160483765657, 26962121818111464);
    case 2 =>
      PowersAre(3, 4, 2, 4, 1, 1);
      SplitCase(SPLIT_25[2], 177, 411, FiveAt(3, 4, 2), TwoAt(4, 1, 1),
                1266584400960379673, 10024474508451274, 3646824398808464960, 28863057365094743);
    case 3 =>
      PowersAre(3, 4, 3, 4, 1, 4);
      SplitCase(SPLIT_25[3], 178, 414, FiveAt(3, 4, 3), TwoAt(4, 1, 4),
                1165609652367584986, 14760484007987231, 1722437450811437793, 21811770686540987);
    case 4 =>
      PowersAre(3, 4, 4, 4, 1, 6);
      SplitCase(SPLIT_25[4], 179, 416, FiveAt(3, 4, 4), TwoAt(4, 1, 6),
                1152621138497615143, 11676805076213841, 2849081561569113250, 28863057365094743);
    case 5 =>
      PowersAre(3, 4, 5, 4, 1, 8);
      SplitCase(SPLIT_25[5], 180, 418, FiveAt(3, 4, 5), TwoAt(4, 1, 8),
                3185943773205903947, 25820553297846394, 1288580959641085884, 10443333503504485);
    case 6 =>
      PowersAre(3, 4, 6, 4, 2, 1);
      SplitCase(SPLIT_25[6], 181, 421, FiveAt(3, 4, 6), TwoAt(4, 2, 1),
                2649462974495280596, 34356212068255975, 322145239910271471, 4177333401401794);
  }

  lemma SplitBlock26(i: Place)
    ensures SplitAgrees(182 + i, SPLIT_26[i])
  {
    hide InvAgrees, SplitAgrees, Agrees, Cut, Pow2, Pow5;
    match i
    case 0 =>
      PowersAre(3, 5, 0, 4, 2, 3);
      SplitCase(SPLIT_26[0], 182, 423, FiveAt(3, 5, 0), TwoAt(4, 2, 3),
                2273091943175177504, 23580576019258371, 1610726199551357355, 16709333605607176);
    case 1 =>
      PowersAre(3, 5, 1, 4, 2, 5);
      SplitCase(SPLIT_26[1], 183, 425, FiveAt(3, 5, 1), TwoAt(4, 2, 5),
                2178999185345151731, 18083582088337415, 3695632627066483313, 30670170245753874);
    case 2 =>
      PowersAre(3, 5, 2, 4, 2, 8);
      SplitCase(SPLIT_26[2], 184, 428, FiveAt(3, 5, 2), TwoAt(4, 2, 8),
                2178999185345151731, 28933731341339864, 2582145290084696037, 34286886663421357);
    case 3 =>
      PowersAre(3, 5, 3, 4, 3, 0);
      SplitCase(SPLIT_26[3], 185, 430, FiveAt(3, 5, 3), TwoAt(4, 3, 0),
                988713066487689789, 10502861472119647, 2985291394824240343, 31712033588402280);
    case 4 =>
      PowersAre(3, 5, 4, 4, 3, 2);
      SplitCase(SPLIT_26[4], 186, 432, FiveAt(3, 5, 4), TwoAt(4, 3, 2),
                2961351150622776623, 25166177698678485, 1982214181815672322, 16845268189800103);
    case 5 =>
      PowersAre(3, 5, 5, 4, 3, 5);
      SplitCase(SPLIT_26[5], 187, 435, FiveAt(3, 5, 5), TwoAt(4, 3, 5),
                1979221651290489357, 26911739269271497, 997092151958202091, 13557594220657418);
    case 6 =>
      PowersAre(3, 5, 6, 4, 3, 7);
      SplitCase(SPLIT_26[6], 188, 437, FiveAt(3, 5, 6), TwoAt(4, 3, 7),
                3199402199142891027, 34802156795213941, 744078450812172862, 8093866697985783);
  }

  lemma SplitBlock27(i: Place)
    ensures SplitAgrees(189 + i, SPLIT_27[i])
  {
    hide InvAgrees, SplitAgrees, Agrees, Cut, Pow2, Pow5;
    match i
    case 0 =>
      PowersAre(3, 6, 0, 4, 3, 9);
      SplitCase(SPLIT_27[0], 189, 439, FiveAt(3, 6, 0), TwoAt(4, 3, 9),
                3645916839304920884, 31727369453654299, 1860196127030432155, 16187733395971566);
    case 1 =>
      PowersAre(3, 6, 1, 4, 4, 2);
      SplitCase(SPLIT_27[1], 190, 442, FiveAt(3, 6, 1), TwoAt(4, 4, 2),
                2185603756120646270, 30431174777076633, 474358458602100967, 6604712826046393);
    case 2 =>
      PowersAre(3, 6, 2, 4, 4, 4);
      SplitCase(SPLIT_27[2], 191, 444, FiveAt(3, 6, 2), TwoAt(4, 4, 4),
                2041518795264525069, 22740010432504882, 2206655544137514952, 24579430868345227);
    case 3 =>
      PowersAre(3, 6, 3, 4, 4, 6);
      SplitCase(SPLIT_27[3], 192, 446, FiveAt(3, 6, 3), TwoAt(4, 4, 6),
                2593182681298903807, 23107894519672951, 2758319430171893690, 24579430868345227);
    case 4 =>
      PowersAre(3, 6, 4, 4, 4, 9);
      SplitCase(SPLIT_27[4], 193, 449, FiveAt(3, 6, 4), TwoAt(4, 4, 9),
                607011483106478481, 8654543268400270, 1930370579948670910, 27522503565689779);
    case 5 =>
      PowersAre(3, 6, 5, 4, 5, 1);
      SplitCase(SPLIT_27[5], 194, 451, FiveAt(3, 6, 5), TwoAt(4, 5, 1),
                607011483106478481, 6923634614720216, 2716468966489077878, 30984320873049887);
    case 6 =>
      PowersAre(3, 6, 6, 4, 5, 3);
      SplitCase(SPLIT_27[6], 195, 453, FiveAt(3, 6, 6), TwoAt(4, 5, 3),
                3786280415670452863, 34549359116324646, 375611500069030229, 3427410328721891);
  }

  lemma SplitBlock28(i: Place)
    ensures SplitAgrees(196 + i, SPLIT_28[i])
  {
    hide InvAgrees, SplitAgrees, Agrees, Cut, Pow2, Pow5;
    match i
    case 0 =>
      PowersAre(4, 0, 0, 4, 5, 6);
      SplitCase(SPLIT_28[0], 196, 456, FiveAt(4, 0, 0), TwoAt(4, 5, 6),
                1705334457800711317, 24897559030082204, 1748515218436821274, 25527989930005435);
    case 1 =>
      PowersAre(4, 0, 1, 4, 5, 8);
      SplitCase(SPLIT_28[1], 197, 458, FiveAt(4, 0, 1), TwoAt(4, 5, 8),
                2951949730674162337, 34478324102161147, 874257609218410637, 10211195972002174);
    case 2 =>
      PowersAre(4, 0, 2, 4, 6, 0);
      SplitCase(SPLIT_28[2], 198, 460, FiveAt(4, 0, 2), TwoAt(4, 6, 0),
                2267938248800759199, 21191339181235273, 2103349797291293986, 19653444706773423);
    case 3 =>
      PowersAre(4, 0, 3, 4, 6, 3);
      SplitCase(SPLIT_28[3], 199, 463, FiveAt(4, 0, 3), TwoAt(4, 6, 3),
                1438034961939157651, 21498918076127643, 1273446510429692438, 19038286916988683);
    case 4 =>
      PowersAre(4, 0, 4, 4, 6, 5);
      SplitCase(SPLIT_28[4], 200, 465, FiveAt(4, 0, 4), TwoAt(4, 6, 5),
                1838690815301313367, 21991044307955435, 1674102363791848154, 20022539380644267);
    case 5 =>
      PowersAre(4, 0, 5, 4, 6, 7);
      SplitCase(SPLIT_28[5], 201, 467, FiveAt(4, 0, 5), TwoAt(4, 6, 7),
                1838690815301313367, 17592835446364348, 3011973362390466876, 28818957103826441);
    case 6 =>
      PowersAre(4, 0, 6, 4, 7, 0);
      SplitCase(SPLIT_28[6], 202, 470, FiveAt(4, 0, 6), TwoAt(4, 7, 0),
                2048835418547081762, 31365642619387343, 1716131284441001833, 26272271588265539);
  }

  lemma SplitBlock29(i: Place)
    ensures SplitAgrees(203 + i, SPLIT_29[i])
  {
    hide InvAgrees, SplitAgrees, Agrees, Cut, Pow2, Pow5;
    match i
    case 0 =>
      PowersAre(4, 1, 0, 4, 7, 2);
      SplitCase(SPLIT_29[0], 203, 472, FiveAt(4, 1, 0), TwoAt(4, 7, 2),
                2701091033281591073, 33080824458773457, 345856787583730476, 4235780111428747);
    case 1 =>
      PowersAre(4, 1, 1, 4, 7, 4);
      SplitCase(SPLIT_29[1], 204, 474, FiveAt(4, 1, 1), TwoAt(4, 7, 4),
                3652197199136849882, 35783375812162009, 432320984479663095, 4235780111428747);
    case 2 =>
      PowersAre(4, 1, 2, 4, 7, 6);
      SplitCase(SPLIT_29[2], 205, 476, FiveAt(4, 1, 2), TwoAt(4, 7, 6),
                696888807544380923, 5462363117860903, 4252271345031458244, 33330209799297697);
    case 3 =>
      PowersAre(4, 1, 3, 4, 7, 9);
      SplitCase(SPLIT_29[3], 206, 479, FiveAt(4, 1, 3), TwoAt(4, 7, 9),
                2752085980294937339, 34514299080603956, 183089514356741819, 2296151465570817);
    case 4 =>
      PowersAre(4, 1, 4, 4, 8, 1);
      SplitCase(SPLIT_29[4], 207, 481, FiveAt(4, 1, 4), TwoAt(4, 8, 1),
                1008428145198032518, 10117471867919935, 2932303862179774131, 29419549598123138);
    case 5 =>
      PowersAre(4, 1, 5, 4, 8, 3);
      SplitCase(SPLIT_29[5], 208, 483, FiveAt(4, 1, 5), TwoAt(4, 8, 3),
                504214072599016259, 4046988747167974, 4053368183555829644, 32533672339654445);
    case 6 =>
      PowersAre(4, 1, 6, 4, 8, 6);
      SplitCase(SPLIT_29[6], 209, 486, FiveAt(4, 1, 6), TwoAt(4, 8, 6),
                1767206204442019353, 22694689456602785, 2780548250330976764, 35708158392464563);
  }

  lemma SplitBlock30(i: Place)
    ensures SplitAgrees(210 + i, SPLIT_30[i])
  {
    hide InvAgrees, SplitAgrees, Agrees, Cut, Pow2, Pow5;
    match i
    case 0 =>
      PowersAre(4, 2, 0, 4, 8, 8);
      SplitCase(SPLIT_30[0], 210, 488, FiveAt(4, 2, 0), TwoAt(4, 8, 8),
                1767206204442019353, 18155751565282228, 3475685312913720955, 35708158392464563);
    case 1 =>
      PowersAre(4, 2, 1, 4, 9, 0);
      SplitCase(SPLIT_30[1], 211, 490, FiveAt(4, 2, 1), TwoAt(4, 9, 0),
                3990895733987122982, 32801021765127989, 854239554235850801, 7020962730872934);
    case 2 =>
      PowersAre(4, 2, 2, 4, 9, 3);
      SplitCase(SPLIT_30[2], 212, 493, FiveAt(4, 2, 2), TwoAt(4, 9, 3),
                2711203082965778997, 35653241682742319, 141817698928497728, 1864950924021923);
    case 3 =>
      PowersAre(4, 2, 3, 4, 9, 5);
      SplitCase(SPLIT_30[3], 213, 495, FiveAt(4, 2, 3), TwoAt(4, 9, 5),
                3349382728144018773, 35236416672672778, 177272123660622160, 1864950924021923);
    case 4 =>
      PowersAre(4, 2, 4, 4, 9, 7);
      SplitCase(SPLIT_30[4], 214, 497, FiveAt(4, 2, 4), TwoAt(4, 9, 7),
                3393700759059174313, 28562123522942607, 3615290913634952013, 30427074446964530);
    case 5 =>
      PowersAre(4, 2, 5, 5, 0, 0);
      SplitCase(SPLIT_30[5], 215, 500, FiveAt(4, 2, 5), TwoAt(5, 0, 0),
                1669151610207614944, 22476708633549701, 1946139303427337069, 26206610481593547);
    case 6 =>
      PowersAre(4, 2, 6, 5, 0, 2);
      SplitCase(SPLIT_30[6], 216, 502, FiveAt(4, 2, 6), TwoAt(5, 0, 2),
                2086439512759518680, 22476708633549701, 2780715108531144541, 29955971838694718);
  }

  lemma SplitBlock31(i: Place)
    ensures SplitAgrees(217 + i, SPLIT_31[i])
  {
    hide InvAgrees, SplitAgrees, Agrees, Cut, Pow2, Pow5;
    match i
    case 0 =>
      PowersAre(4, 3, 0, 5, 0, 4);
      SplitCase(SPLIT_31[0], 217, 504, FiveAt(4, 3, 0), TwoAt(5, 0, 4),
                2608049390949398350, 22476708633549701, 1737495352151385201, 14974094017535894);
    case 1 =>
      PowersAre(4, 3, 1, 5, 0, 7);
      SplitCase(SPLIT_31[1], 218, 507, FiveAt(4, 3, 1), TwoAt(5, 0, 7),
                543644683568178081, 7496387573115463, 2170966008828071227, 29935733949275100);
    case 2 =>
      PowersAre(4, 3, 2, 5, 0, 9);
      SplitCase(SPLIT_31[2], 219, 509, FiveAt(4, 3, 2), TwoAt(5, 0, 9),
                1222297356667240408, 13483534362970483, 2170966008828071227, 23948587159420080);
    case 3 =>
      PowersAre(4, 3, 3, 5, 1, 1);
      SplitCase(SPLIT_31[3], 220, 511, FiveAt(4, 3, 3), TwoAt(5, 1, 1),
                1527871695834050510, 13483534362970483, 3698837704662121737, 32642404090506547);
    case 4 =>
      PowersAre(4, 3, 4, 5, 1, 4);
      SplitCase(SPLIT_31[4], 221, 514, FiveAt(4, 3, 4), TwoAt(5, 1, 4),
                2412649078674080303, 34066773378200616, 351757540227761493, 4966841018420329);
    case 5 =>
      PowersAre(4, 3, 5, 5, 1, 6);
      SplitCase(SPLIT_31[5], 222, 516, FiveAt(4, 3, 5), TwoAt(5, 1, 6),
                691101654725460449, 7806722879324189, 3140991010589728363, 35480809832329694);
    case 6 =>
      PowersAre(4, 3, 6, 5, 1, 8);
      SplitCase(SPLIT_31[6], 223, 518, FiveAt(4, 3, 6), TwoAt(5, 1, 8),
                2340226475779718101, 21148263149249479, 3565171153711852058, 32217897930451681);
  }

  lemma SplitBlock32(i: Place)
    ensures SplitAgrees(224 + i, SPLIT_32[i])
  {
    hide InvAgrees, SplitAgrees, Agrees, Cut, Pow2, Pow5;
    match i
    case 0 =>
      PowersAre(4, 4, 0, 5, 2, 1);
      SplitCase(SPLIT_32[0], 224, 521, FiveAt(4, 4, 0), TwoAt(5, 2, 1),
                2200816251048770083, 31821495365189711, 1503765127394029993, 21742866997142434);
    case 1 =>
      PowersAre(4, 4, 1, 5, 2, 3);
      SplitCase(SPLIT_32[1], 225, 523, FiveAt(4, 4, 1), TwoAt(5, 2, 3),
                2668773153747550244, 30870129208560983, 926145344610700019, 10712872472466429);
    case 2 =>
      PowersAre(4, 4, 2, 5, 2, 5);
      SplitCase(SPLIT_32[2], 226, 525, FiveAt(4, 4, 2), TwoAt(5, 2, 5),
                2519483977658287599, 23314621797658483, 2111242745395212496, 19536868092207233);
    case 3 =>
      PowersAre(4, 4, 3, 5, 2, 8);
      SplitCase(SPLIT_32[3], 227, 528, FiveAt(4, 4, 3), TwoAt(5, 2, 8),
                1727767948135082913, 25581274020929233, 1319526715872007810, 19536868092207233);
    case 4 =>
      PowersAre(4, 4, 4, 5, 3, 0);
      SplitCase(SPLIT_32[4], 228, 530, FiveAt(4, 4, 4), TwoAt(5, 3, 0),
                1853529010971547314, 21954630463696033, 1445287778708472211, 17119105720718433);
    case 5 =>
      PowersAre(4, 4, 5, 5, 3, 2);
      SplitCase(SPLIT_32[5], 229, 532, FiveAt(4, 4, 5), TwoAt(5, 3, 2),
                2521031879845971694, 23888840360887073, 2112790647582896591, 20020420566504993);
    case 6 =>
      PowersAre(4, 4, 6, 5, 3, 5);
      SplitCase(SPLIT_32[6], 230, 535, FiveAt(4, 4, 6), TwoAt(5, 3, 5),
                1473584616837963533, 22341472443134241, 1065343384574888430, 16152000772122913);
  }

  lemma SplitBlock33(i: Place)
    ensures SplitAgrees(231 + i, SPLIT_33[i])
  {
    hide InvAgrees, SplitAgrees, Agrees, Cut, Pow2, Pow5;
    match i
    case 0 =>
      PowersAre(4, 5, 0, 5, 3, 7);
      SplitCase(SPLIT_33[0], 231, 537, FiveAt(4, 5, 0), TwoAt(5, 3, 7),
                2352282311376298295, 28530944114145569, 1003128154562703874, 12166989131678279);
    case 1 =>
      PowersAre(4, 5, 1, 5, 3, 9);
      SplitCase(SPLIT_33[1], 232, 539, FiveAt(4, 5, 1), TwoAt(5, 3, 9),
                1928487271610177053, 18712571124665195, 2507820386406759685, 24333978263356558);
    case 2 =>
      PowersAre(4, 5, 2, 5, 4, 2);
      SplitCase(SPLIT_33[2], 233, 542, FiveAt(4, 5, 2), TwoAt(5, 4, 2),
                1928487271610177053, 29940113799464312, 2290570468358041198, 35561520938155675);
    case 3 =>
      PowersAre(4, 5, 3, 5, 4, 4);
      SplitCase(SPLIT_33[3], 234, 544, FiveAt(4, 5, 3), TwoAt(5, 4, 4),
                1958005093577891135, 24318706660772949, 1145285234179020599, 14224608375262270);
    case 4 =>
      PowersAre(4, 5, 4, 5, 4, 6);
      SplitCase(SPLIT_33[4], 235, 546, FiveAt(4, 5, 4), TwoAt(5, 4, 6),
                3306470292606629368, 32853471685930311, 1145285234179020599, 11379686700209816);
    case 5 =>
      PowersAre(4, 5, 5, 5, 4, 8);
      SplitCase(SPLIT_33[5], 236, 548, FiveAt(4, 5, 5), TwoAt(5, 4, 8),
                1971902807330677941, 15674443697353915, 3754523363564425054, 29844303103485349);
    case 6 =>
      PowersAre(4, 5, 6, 5, 5, 1);
      SplitCase(SPLIT_33[6], 237, 551, FiveAt(4, 5, 6), TwoAt(5, 5, 1),
                1971902807330677941, 25079109915766264, 867649996729757203, 11034970666660651);
  }

  lemma SplitBlock34(i: Place)
    ensures SplitAgrees(238 + i, SPLIT_34[i])
  {
    hide InvAgrees, SplitAgrees, Agrees, Cut, Pow2, Pow5;
    match i
    case 0 =>
      PowersAre(4, 6, 0, 5, 5, 3);
      SplitCase(SPLIT_34[0], 238, 553, FiveAt(4, 6, 0), TwoAt(5, 5, 3),
                3470520227517410631, 35311094614696609, 709888201015108786, 7222816116485383);
    case 1 =>
      PowersAre(4, 6, 1, 5, 5, 5);
      SplitCase(SPLIT_34[1], 239, 555, FiveAt(4, 6, 1), TwoAt(5, 5, 5),
                3332508566042700084, 27125506855552333, 1774720502537771965, 14445632232970766);
    case 2 =>
      PowersAre(4, 6, 2, 5, 5, 8);
      SplitCase(SPLIT_34[2], 240, 558, FiveAt(4, 6, 2), TwoAt(5, 5, 8),
                362330460997126549, 4718798326954787, 2716313863564868909, 35375820403285518);
    case 3 =>
      PowersAre(4, 6, 3, 5, 6, 0);
      SplitCase(SPLIT_34[3], 241, 560, FiveAt(4, 6, 3), TwoAt(5, 6, 0),
                3214809395914312966, 33494367892053757, 1539322162280997729, 16037847492096122);
    case 4 =>
      PowersAre(4, 6, 4, 5, 6, 2);
      SplitCase(SPLIT_34[4], 242, 562, FiveAt(4, 6, 4), TwoAt(5, 6, 2),
                3180768128076233589, 26511759732070703, 1505280894442918352, 12546543412104595);
    case 5 =>
      PowersAre(4, 6, 5, 5, 6, 5);
      SplitCase(SPLIT_34[5], 243, 565, FiveAt(4, 6, 5), TwoAt(5, 6, 5),
                2544472702200267571, 33933161404680375, 188160111805364794, 2509308682420919);
    case 6 =>
      PowersAre(4, 6, 6, 5, 6, 7);
      SplitCase(SPLIT_34[6], 244, 567, FiveAt(4, 6, 6), TwoAt(5, 6, 7),
                2918637329397075733, 31138425338818583, 470400279513411985, 5018617364841838);
  }

  lemma SplitBlock35(i: Place)
    ensures SplitAgrees(245 + i, SPLIT_35[i])
  {
    hide InvAgrees, SplitAgrees, Agrees, Cut, Pow2, Pow5;
    match i
    case 0 =>
      PowersAre(5, 0, 0, 5, 6, 9);
      SplitCase(SPLIT_35[0], 245, 569, FiveAt(5, 0, 0), TwoAt(5, 6, 9),
                2964060660037975862, 25298431054162701, 2352001397567059925, 20074469459367352);
    case 1 =>
      PowersAre(5, 0, 1, 5, 7, 2);
      SplitCase(SPLIT_35[1], 246, 572, FiveAt(5, 0, 1), TwoAt(5, 7, 2),
                2617611990612379835, 35746354243753399, 958507931896511964, 13089473994579481);
    case 2 =>
      PowersAre(5, 0, 2, 5, 7, 4);
      SplitCase(SPLIT_35[2], 247, 574, FiveAt(5, 0, 2), TwoAt(5, 7, 4),
                2377985007638251844, 25979188596086823, 1198134914870639955, 13089473994579481);
    case 3 =>
      PowersAre(5, 0, 3, 5, 7, 6);
      SplitCase(SPLIT_35[3], 248, 576, FiveAt(5, 0, 3), TwoAt(5, 7, 6),
                2387127418689765877, 20863254634098314, 1801773577831716949, 15747320672109805);
    case 4 =>
      PowersAre(5, 0, 4, 5, 7, 9);
      SplitCase(SPLIT_35[4], 249, 579, FiveAt(5, 0, 4), TwoAt(5, 7, 9),
                2167619728367997529, 30311647037364197, 1801773577831716949, 25195713075375688);
    case 5 =>
      PowersAre(5, 0, 5, 5, 8, 1);
      SplitCase(SPLIT_35[5], 250, 581, FiveAt(5, 0, 5), TwoAt(5, 8, 1),
                2442004341270207964, 27318878007084463, 1984696653099857239, 22202944045095954);
    case 6 =>
      PowersAre(5, 0, 6, 5, 8, 3);
      SplitCase(SPLIT_35[6], 251, 583, FiveAt(5, 0, 6), TwoAt(5, 8, 3),
                3816199909052513212, 34153682040327441, 763694482464753257, 6834804033242978);
  }

  lemma SplitBlock36(i: Place)
    ensures SplitAgrees(252 + i, SPLIT_36[i])
  {
    hide InvAgrees, SplitAgrees, Agrees, Cut, Pow2, Pow5;
    match i
    case 0 =>
      PowersAre(5, 1, 0, 5, 8, 6);
      SplitCase(SPLIT_36[0], 252, 586, FiveAt(5, 1, 0), TwoAt(5, 8, 6),
                1144405472061503349, 16387259179073188, 1812922207127069083, 25960052450790847);
    case 1 =>
      PowersAre(5, 1, 1, 5, 8, 8);
      SplitCase(SPLIT_36[1], 253, 588, FiveAt(5, 1, 1), TwoAt(5, 8, 8),
                739331919797143108, 8469462325972807, 2410623757461057443, 27615048869408125);
    case 2 =>
      PowersAre(5, 1, 2, 5, 9, 0);
      SplitCase(SPLIT_36[2], 254, 590, FiveAt(5, 1, 2), TwoAt(5, 9, 0),
                924164899746428885, 8469462325972807, 3334788657207486328, 30561501421499307);
    case 3 =>
      PowersAre(5, 1, 3, 5, 9, 3);
      SplitCase(SPLIT_36[3], 255, 593, FiveAt(5, 1, 3), TwoAt(5, 9, 3),
                1431481217341921979, 20989979158813121, 1757862064048300467, 25775740290156214);
    case 4 =>
      PowersAre(5, 1, 4, 5, 9, 5);
      SplitCase(SPLIT_36[4], 256, 595, FiveAt(5, 1, 4), TwoAt(5, 9, 5),
                1594671640695111223, 18706287779587734, 2002647699078084333, 23492048910930827);
    case 5 =>
      PowersAre(5, 1, 5, 5, 9, 7);
      SplitCase(SPLIT_36[5], 257, 597, FiveAt(5, 1, 5), TwoAt(5, 9, 7),
                695341805751812334, 6525362885566475, 3801307368964682111, 35672973804952086);
    case 6 =>
      PowersAre(5, 1, 6, 6, 0, 0);
      SplitCase(SPLIT_36[6], 258, 600, FiveAt(5, 1, 6), TwoAt(6, 0, 0),
                347670902875906167, 5220290308453180, 2231020165355532928, 33498842873618617);
  }

  lemma SplitBlock37(i: Place)
    ensures SplitAgrees(259 + i, SPLIT_37[i])
  {
    hide InvAgrees, SplitAgrees, Agrees, Cut, Pow2, Pow5;
    match i
    case 0 =>
      PowersAre(5, 2, 0, 6, 0, 2);
      SplitCase(SPLIT_37[0], 259, 602, FiveAt(5, 2, 0), TwoAt(6, 0, 2),
                347670902875906167, 4176232246762544, 2788775206694416160, 33498842873618617);
    case 1 =>
      PowersAre(5, 2, 1, 6, 0, 4);
      SplitCase(SPLIT_37[1], 260, 604, FiveAt(5, 2, 1), TwoAt(6, 0, 4),
                3478561024680853376, 33427654954004005, 1740206510301322541, 16722725966953829);
    case 2 =>
      PowersAre(5, 2, 2, 6, 0, 7);
      SplitCase(SPLIT_37[2], 261, 607, FiveAt(5, 2, 2), TwoAt(6, 0, 7),
                434820128085106672, 6685530990800801, 2178730630230012625, 33498842873618617);
    case 3 =>
      PowersAre(5, 2, 3, 6, 0, 9);
      SplitCase(SPLIT_37[3], 262, 609, FiveAt(5, 2, 3), TwoAt(6, 0, 9),
                543525160106383340, 6685530990800801, 2396140694272565961, 29473286695215214);
    case 4 =>
      PowersAre(5, 2, 4, 6, 1, 1);
      SplitCase(SPLIT_37[4], 263, 611, FiveAt(5, 2, 4), TwoAt(6, 1, 1),
                679406450132979175, 6685530990800801, 3619072304511928476, 35612585139613613);
    case 5 =>
      PowersAre(5, 2, 5, 6, 1, 3);
      SplitCase(SPLIT_37[5], 264, 613, FiveAt(5, 2, 5), TwoAt(6, 1, 3),
                3397032250664895875, 26742123963203204, 2942987426526919644, 23167791405844645);
    case 6 =>
      PowersAre(5, 2, 6, 6, 1, 6);
      SplitCase(SPLIT_37[6], 265, 616, FiveAt(5, 2, 6), TwoAt(6, 1, 6),
                2238732345292535444, 28198005072941023, 735746856631729911, 9267116562337858);
  }

  lemma SplitBlock38(i: Place)
    ensures SplitAgrees(266 + i, SPLIT_38[i])
  {
    hide InvAgrees, SplitAgrees, Agrees, Cut, Pow2, Pow5;
    match i
    case 0 =>
      PowersAre(5, 3, 0, 6, 1, 8);
      SplitCase(SPLIT_38[0], 266, 618, FiveAt(5, 3, 0), TwoAt(6, 1, 8),
                1295429942954863772, 13053294264458491, 2383304340203785783, 24015171984892941);
    case 1 =>
      PowersAre(5, 3, 1, 6, 2, 0);
      SplitCase(SPLIT_38[1], 267, 620, FiveAt(5, 3, 1), TwoAt(6, 2, 0),
                1619287428693579715, 13053294264458491, 4326449254636081441, 34876090705264542);
    case 2 =>
      PowersAre(5, 3, 2, 6, 2, 3);
      SplitCase(SPLIT_38[2], 268, 623, FiveAt(5, 3, 2), TwoAt(6, 2, 3),
                1752140686554744141, 22598787658377958, 1420007541901833076, 18314995570267027);
    case 3 =>
      PowersAre(5, 3, 3, 6, 2, 5);
      SplitCase(SPLIT_38[3], 269, 625, FiveAt(5, 3, 3), TwoAt(6, 2, 5),
                3172148228456577217, 32731026582915988, 1775009427377291345, 18314995570267027);
    case 4 =>
      PowersAre(5, 3, 4, 6, 2, 7);
      SplitCase(SPLIT_38[4], 270, 627, FiveAt(5, 3, 4), TwoAt(6, 2, 7),
                2473578827916934281, 20418408861273206, 3200734154484761222, 26420786709897451);
    case 5 =>
      PowersAre(5, 3, 5, 6, 3, 0);
      SplitCase(SPLIT_38[5], 271, 630, FiveAt(5, 3, 5), TwoAt(6, 3, 0),
                1455092351627105558, 19217933291548357, 2182247678194932499, 28821737849347149);
    case 6 =>
      PowersAre(5, 3, 6, 6, 3, 2);
      SplitCase(SPLIT_38[6], 272, 632, FiveAt(5, 3, 6), TwoAt(6, 3, 2),
                2182833952063521256, 23063584785048183, 1454896927004242639, 15372281798048531);
  }

  lemma SplitBlock39(i: Place)
    ensures SplitAgrees(273 + i, SPLIT_39[i])
  {
    hide InvAgrees, SplitAgrees, Agrees, Cut, Pow2, Pow5;
    match i
    case 0 =>
      PowersAre(5, 4, 0, 6, 3, 4);
      SplitCase(SPLIT_39[0], 273, 634, FiveAt(5, 4, 0), TwoAt(6, 3, 4),
                2546313903036003267, 21523259352458098, 2364085365992604964, 19982933919868013);
    case 1 =>
      PowersAre(5, 4, 1, 6, 3, 7);
      SplitCase(SPLIT_39[1], 274, 637, FiveAt(5, 4, 1), TwoAt(6, 3, 7),
                1568667622267077254, 21215194265940081, 1386439085223678951, 18750673573795945);
    case 2 =>
      PowersAre(5, 4, 2, 6, 3, 9);
      SplitCase(SPLIT_39[2], 275, 639, FiveAt(5, 4, 2), TwoAt(6, 3, 9),
                1267614985222007092, 13714924836421703, 2654054070445686043, 28715463695458459);
    case 3 =>
      PowersAre(5, 4, 3, 6, 4, 1);
      SplitCase(SPLIT_39[3], 276, 641, FiveAt(5, 4, 3), TwoAt(6, 4, 1),
                1584518731527508865, 13714924836421703, 3604765309362191362, 31201325858219789);
    case 4 =>
      PowersAre(5, 4, 4, 6, 4, 4);
      SplitCase(SPLIT_39[4], 277, 644, FiveAt(5, 4, 4), TwoAt(6, 4, 4),
                1693450693104302273, 23452470212425278, 1965780597046285793, 27223946397801661);
    case 5 =>
      PowersAre(5, 4, 5, 6, 4, 6);
      SplitCase(SPLIT_39[5], 278, 646, FiveAt(5, 4, 5), TwoAt(6, 4, 6),
                1761533169089798153, 19516271407015499, 2101945549017277553, 23287747592391882);
    case 6 =>
      PowersAre(5, 4, 6, 6, 4, 8);
      SplitCase(SPLIT_39[6], 279, 648, FiveAt(5, 4, 6), TwoAt(6, 4, 8),
                1591326979126058453, 14104426651461846, 3608169433161466156, 31980329488300075);
  }

  lemma SplitBlock40(i: Place)
    ensures SplitAgrees(280 + i, SPLIT_40[i])
  {
    hide InvAgrees, SplitAgrees, Agrees, Cut, Pow2, Pow5;
    match i
    case 0 =>
      PowersAre(5, 5, 0, 6, 5, 1);
      SplitCase(SPLIT_40[0], 280, 651, FiveAt(5, 5, 0), TwoAt(6, 5, 1),
                1723211552089229785, 24437377117547309, 902042358290366539, 12792131795320030);
    case 1 =>
      PowersAre(5, 5, 1, 6, 5, 3);
      SplitCase(SPLIT_40[1], 281, 653, FiveAt(5, 5, 1), TwoAt(6, 5, 3),
                2379525029684128866, 26995803476611315, 902042358290366539, 10233705436256024);
    case 2 =>
      PowersAre(5, 5, 2, 6, 5, 5);
      SplitCase(SPLIT_40[2], 282, 655, FiveAt(5, 5, 2), TwoAt(6, 5, 5),
                2849987153146948564, 25866571567834311, 1660224638304884131, 15068250177189785);
    case 3 =>
      PowersAre(5, 5, 3, 6, 5, 8);
      SplitCase(SPLIT_40[3], 283, 658, FiveAt(5, 5, 3), TwoAt(6, 5, 8),
                951129651564400787, 13811971426082483, 1660224638304884131, 24109200283503656);
    case 4 =>
      PowersAre(5, 5, 4, 6, 6, 0);
      SplitCase(SPLIT_40[4], 284, 660, FiveAt(5, 5, 4), TwoAt(6, 6, 0),
                1128403398249521623, 13109022912350221, 2014772131675125803, 23406251769771394);
    case 5 =>
      PowersAre(5, 5, 5, 6, 6, 2);
      SplitCase(SPLIT_40[5], 285, 662, FiveAt(5, 5, 5), TwoAt(6, 6, 2),
                3606802378104965914, 33521100761124765, 1571587764962323713, 14606109872848646);
    case 6 =>
      PowersAre(5, 5, 6, 6, 6, 5);
      SplitCase(SPLIT_40[6], 286, 665, FiveAt(5, 5, 6), TwoAt(6, 6, 5),
                1803401189052482957, 26816880608899812, 1513634408939783902, 22507999593472339);
  }

  lemma SplitBlock41(i: Place)
    ensures SplitAgrees(287 + i, SPLIT_41[i])
  {
    hide InvAgrees, SplitAgrees, Agrees, Cut, Pow2, Pow5;
    match i
    case 0 =>
      PowersAre(5, 6, 0, 6, 6, 7);
      SplitCase(SPLIT_41[0], 287, 667, FiveAt(5, 6, 0), TwoAt(6, 6, 7),
                523291992291295503, 6225152324865457, 2737502037766868749, 32565694537213764);
    case 1 =>
      PowersAre(5, 6, 1, 6, 6, 9);
      SplitCase(SPLIT_41[1], 288, 669, FiveAt(5, 6, 1), TwoAt(6, 6, 9),
                2385074484388427572, 22698534952092941, 2153689007320377629, 20496460604724054);
    case 2 =>
      PowersAre(5, 6, 2, 6, 7, 2);
      SplitCase(SPLIT_41[2], 289, 672, FiveAt(5, 6, 2), TwoAt(6, 7, 2),
                2202632912373899097, 33539608410825227, 778710193111635368, 11857461493360655);
    case 3 =>
      PowersAre(5, 6, 3, 6, 7, 4);
      SplitCase(SPLIT_41[3], 290, 674, FiveAt(5, 6, 3), TwoAt(6, 7, 4),
                2836707534197324121, 34555757099071406, 194677548277908842, 2371492298672131);
    case 4 =>
      PowersAre(5, 6, 4, 6, 7, 6);
      SplitCase(SPLIT_41[4], 291, 676, FiveAt(5, 6, 4), TwoAt(6, 7, 6),
                3511137411086182112, 34217136608208889, 486693870694772105, 4742984597344262);
    case 5 =>
      PowersAre(5, 6, 5, 6, 7, 9);
      SplitCase(SPLIT_41[5], 292, 679, FiveAt(5, 6, 5), TwoAt(6, 7, 9),
                925586047080544869, 14432202677392597, 1507883306393315656, 23511674101361499);
    case 6 =>
      PowersAre(5, 6, 6, 6, 8, 1);
      SplitCase(SPLIT_41[6], 293, 681, FiveAt(5, 6, 6), TwoAt(6, 8, 1),
                2399787314643305693, 29934951605469933, 2228142920759418652, 27793859104100455);
  }

  lemma SplitBlock42(i: Place)
    ensures SplitAgrees(294 + i, SPLIT_42[i])
  {
    hide InvAgrees, SplitAgrees, Agrees, Cut, Pow2, Pow5;
    match i
    case 0 =>
      PowersAre(6, 0, 0, 6, 8, 3);
      SplitCase(SPLIT_42[0], 294, 683, FiveAt(6, 0, 0), TwoAt(6, 8, 3),
                3086364890178853857, 30799457288758276, 557035730189854663, 5558771820820091);
    case 1 =>
      PowersAre(6, 0, 1, 6, 8, 5);
      SplitCase(SPLIT_42[1], 295, 685, FiveAt(6, 0, 1), TwoAt(6, 8, 5),
                2024921615471886456, 16165680735227819, 2785178650949273315, 22235087283280364);
    case 2 =>
      PowersAre(6, 0, 2, 6, 8, 8);
      SplitCase(SPLIT_42[2], 296, 688, FiveAt(6, 0, 2), TwoAt(6, 8, 8),
                1265576009669929035, 16165680735227819, 2025833045147315894, 25876731212111891);
    case 3 =>
      PowersAre(6, 0, 3, 6, 9, 0);
      SplitCase(SPLIT_42[3], 297, 690, FiveAt(6, 0, 3), TwoAt(6, 9, 0),
                3291409054817244929, 33633929557871768, 886586779025522403, 9059766433176007);
    case 4 =>
      PowersAre(6, 0, 4, 6, 9, 2);
      SplitCase(SPLIT_42[4], 298, 692, FiveAt(6, 0, 4), TwoAt(6, 9, 2),
                3923057772557922649, 32070847852972412, 1044498958460691833, 8538739198209555);
    case 5 =>
      PowersAre(6, 0, 5, 6, 9, 5);
      SplitCase(SPLIT_42[5], 299, 695, FiveAt(6, 0, 5), TwoAt(6, 9, 5),
                1799099258810769260, 23532108654762857, 1044498958460691833, 13661982717135288);
    case 6 =>
      PowersAre(6, 0, 6, 6, 9, 7);
      SplitCase(SPLIT_42[6], 300, 697, FiveAt(6, 0, 6), TwoAt(6, 9, 7),
                3438322361029460611, 35978437540274175, 594724143757999518, 6223164442755659);
  }

  lemma SplitBlock43(i: Place)
    ensures SplitAgrees(301 + i, SPLIT_43[i])
  {
    hide InvAgrees, SplitAgrees, Agrees, Cut, Pow2, Pow5;
    match i
    case 0 =>
      PowersAre(6, 1, 0, 6, 9, 9);
      SplitCase(SPLIT_43[0], 301, 699, FiveAt(6, 1, 0), TwoAt(6, 9, 9),
                3438322361029460611, 28782750032219340, 2462566360212229703, 20614539458865329);
    case 1 =>
      PowersAre(6, 1, 1, 7, 0, 2);
      SplitCase(SPLIT_43[1], 302, 702, FiveAt(6, 1, 1), TwoAt(7, 0, 2),
                2329008681025499623, 31194410599129483, 1109313680003960988, 14857989452421461);
    case 2 =>
      PowersAre(6, 1, 2, 7, 0, 4);
      SplitCase(SPLIT_43[2], 303, 704, FiveAt(6, 1, 2), TwoAt(7, 0, 4),
                3160993941028470364, 33870322150756463, 1386642100004951235, 14857989452421461);
    case 3 =>
      PowersAre(6, 1, 3, 7, 0, 6);
      SplitCase(SPLIT_43[3], 304, 706, FiveAt(6, 1, 3), TwoAt(7, 0, 6),
                2967139070519186417, 25434520422239754, 1983035714752784879, 16998718693723045);
    case 4 =>
      PowersAre(6, 1, 4, 7, 0, 9);
      SplitCase(SPLIT_43[4], 305, 709, FiveAt(6, 1, 4), TwoAt(7, 0, 9),
                1110823526042197181, 15235289206005927, 1983035714752784879, 27197949909956872);
    case 5 =>
      PowersAre(6, 1, 5, 7, 1, 1);
      SplitCase(SPLIT_43[5], 306, 711, FiveAt(6, 1, 5), TwoAt(7, 1, 1),
                2995111862283139877, 32863110552802043, 436106094355293849, 4785064281580378);
    case 6 =>
      PowersAre(6, 1, 6, 7, 1, 3);
      SplitCase(SPLIT_43[6], 307, 713, FiveAt(6, 1, 6), TwoAt(7, 1, 3),
                639751441981961507, 5615609254244333, 4099784797722353766, 35987084889054511);
  }

  lemma SplitBlock44(i: Place)
    ensures SplitAgrees(308 + i, SPLIT_44[i])
  {
    hide InvAgrees, SplitAgrees, Agrees, Cut, Pow2, Pow5;
    match i
    case 0 =>
      PowersAre(6, 2, 0, 7, 1, 6);
      SplitCase(SPLIT_44[0], 308, 716, FiveAt(6, 2, 0), TwoAt(7, 1, 6),
                2493686731470199847, 35022527481728326, 352535239219803844, 4951173276113169);
    case 1 =>
      PowersAre(6, 2, 1, 7, 1, 8);
      SplitCase(SPLIT_44[1], 309, 718, FiveAt(6, 2, 1), TwoAt(7, 1, 8),
                2846221970690003691, 31978960606273196, 440669049024754805, 4951173276113169);
    case 2 =>
      PowersAre(6, 2, 2, 7, 2, 0);
      SplitCase(SPLIT_44[2], 310, 720, FiveAt(6, 2, 2), TwoAt(7, 2, 0),
                821722754928689624, 7386026776477273, 3846790754981153273, 34576746657407222);
    case 3 =>
      PowersAre(6, 2, 3, 7, 2, 3);
      SplitCase(SPLIT_44[3], 311, 723, FiveAt(6, 2, 3), TwoAt(7, 2, 3),
                513576721830431015, 7386026776477273, 2100629900757687822, 30210303611828827);
    case 4 =>
      PowersAre(6, 2, 4, 7, 2, 5);
      SplitCase(SPLIT_44[4], 312, 725, FiveAt(6, 2, 4), TwoAt(7, 2, 5),
                2567883609152155075, 29544107105909092, 1295522557935068478, 14905292854138493);
    case 5 =>
      PowersAre(6, 2, 5, 7, 2, 7);
      SplitCase(SPLIT_44[5], 313, 727, FiveAt(6, 2, 5), TwoAt(7, 2, 7),
                3551106280962447374, 32685052838157527, 3238806394837671195, 29810585708276986);
    case 6 =>
      PowersAre(6, 2, 6, 7, 3, 0);
      SplitCase(SPLIT_44[6], 314, 730, FiveAt(6, 2, 6), TwoAt(7, 3, 0),
                2293126057802104649, 33770184470402906, 365813313589111877, 5387223715679289);
  }

  lemma SplitBlock45(i: Place)
    ensures SplitAgrees(315 + i, SPLIT_45[i])
  {
    hide InvAgrees, SplitAgrees, Agrees, Cut, Pow2, Pow5;
    match i
    case 0 =>
      PowersAre(6, 3, 0, 7, 3, 2);
      SplitCase(SPLIT_45[0], 315, 732, FiveAt(6, 3, 0), TwoAt(7, 3, 2),
                1579268126820583824, 18605929068575017, 1829066567945559385, 21548894862717156);
    case 1 =>
      PowersAre(6, 3, 1, 7, 3, 4);
      SplitCase(SPLIT_45[1], 316, 734, FiveAt(6, 3, 1), TwoAt(7, 3, 4),
                1974085158525729780, 18605929068575017, 3013517663060997253, 28402673331318735);
    case 2 =>
      PowersAre(6, 3, 2, 7, 3, 7);
      SplitCase(SPLIT_45[2], 317, 737, FiveAt(6, 3, 2), TwoAt(7, 3, 7),
                2194650840705244711, 33095648540670063, 272955607451917514, 4116209596479971);
    case 3 =>
      PowersAre(6, 3, 3, 7, 3, 9);
      SplitCase(SPLIT_45[3], 318, 739, FiveAt(6, 3, 3), TwoAt(7, 3, 9),
                2740562055609079739, 33062454186904004, 1711475537119436762, 20647436689931973);
    case 4 =>
      PowersAre(6, 3, 4, 7, 4, 1);
      SplitCase(SPLIT_45[4], 319, 741, FiveAt(6, 3, 4), TwoAt(7, 4, 1),
                942412143524680679, 9095494336775207, 3336276699273911226, 32199379043088739);
    case 5 =>
      PowersAre(6, 3, 5, 7, 4, 4);
      SplitCase(SPLIT_45[5], 320, 744, FiveAt(6, 3, 5), TwoAt(7, 4, 4),
                2174598807283632964, 33580299273193163, 362863103056137467, 5603356147815330);
    case 6 =>
      PowersAre(6, 3, 6, 7, 4, 6);
      SplitCase(SPLIT_45[6], 321, 746, FiveAt(6, 3, 6), TwoAt(7, 4, 6),
                2718248509104541205, 33580299273193163, 362863103056137467, 4482684918252264);
  }

  lemma SplitBlock46(i: nat)
    requires i < 4 && |SPLIT_46| == 4
    ensures SplitAgrees(322 + i, SPLIT_46[i])
  {
    hide InvAgrees, SplitAgrees, Agrees, Cut, Pow2, Pow5;
    match i
    case 0 =>
      PowersAre(6, 4, 0, 7, 4, 8);
      SplitCase(SPLIT_46[0], 322, 748, FiveAt(6, 4, 0), TwoAt(7, 4, 8),
                1947970606064371537, 19251642580265445, 1903418909136476803, 18811341611179982);
    case 1 =>
      PowersAre(6, 4, 1, 7, 5, 0);
      SplitCase(SPLIT_46[1], 323, 750, FiveAt(6, 4, 1), TwoAt(7, 5, 0),
                1947970606064371537, 15401314064212356, 2866266287936688888, 22661670127233071);
    case 2 =>
      PowersAre(6, 4, 2, 7, 5, 3);
      SplitCase(SPLIT_46[2], 324, 753, FiveAt(6, 4, 2), TwoAt(7, 5, 3),
                2664537178048543759, 33706770553632998, 1791416429960430555, 22661670127233071);
    case 3 =>
      PowersAre(6, 4, 3, 7, 5, 5);
      SplitCase(SPLIT_46[3], 325, 755, FiveAt(6, 4, 3), TwoAt(7, 5, 5),
                2446256991026515458, 24756396357626413, 1354856055916373953, 13711295931226486);
  }

  /** Every row of `DOUBLE_POW5_SPLIT`. */
  lemma SplitRows(i: nat)
    requires i < 326
    ensures SplitAgrees(i, Split(i))
  {
    hide InvAgrees, SplitAgrees, SPLIT_0, SPLIT_1, SPLIT_2, SPLIT_3, SPLIT_4, SPLIT_5, SPLIT_6, SPLIT_7, SPLIT_8,
         SPLIT_9, SPLIT_10, SPLIT_11, SPLIT_12, SPLIT_13, SPLIT_14, SPLIT_15, SPLIT_16, SPLIT_17, SPLIT_18, SPLIT_19,
         SPLIT_20, SPLIT_21, SPLIT_22, SPLIT_23, SPLIT_24, SPLIT_25, SPLIT_26, SPLIT_27, SPLIT_28, SPLIT_29, SPLIT_30,
         SPLIT_31, SPLIT_32, SPLIT_33, SPLIT_34, SPLIT_35, SPLIT_36, SPLIT_37, SPLIT_38, SPLIT_39, SPLIT_40, SPLIT_41,
         SPLIT_42, SPLIT_43, SPLIT_44, SPLIT_45;
    if i < 7 {
      SplitBlock0(i);
    } else if i < 14 {
      SplitBlock1(i - 7);
    } else if i < 21 {
      SplitBlock2(i - 14);
    } else if i < 28 {
      SplitBlock3(i - 21);
    } else if i < 35 {
      SplitBlock4(i - 28);
    } else if i < 42 {
      SplitBlock5(i - 35);
    } else if i < 49 {
      SplitBlock6(i - 42);
    } else if i < 56 {
      SplitBlock7(i - 49);
    } else if i < 63 {
      SplitBlock8(i - 56);
    } else if i < 70 {
      SplitBlock9(i - 63);
    } else if i < 77 {
      SplitBlock10(i - 70);
    } else if i < 84 {
      SplitBlock11(i - 77);
    } else if i < 91 {
      SplitBlock12(i - 84);
    } else if i < 98 {
      SplitBlock13(i - 91);
    } else if i < 105 {
      SplitBlock14(i - 98);
    } else if i < 112 {
      SplitBlock15(i - 105);
    } else if i < 119 {
      SplitBlock16(i - 112);
    } else if i < 126 {
      SplitBlock17(i - 119);
    } else if i < 133 {
      SplitBlock18(i - 126);
    } else if i < 140 {
      SplitBlock19(i - 133);
    } else if i < 147 {
      SplitBlock20(i - 140);
    } else if i < 154 {
      SplitBlock21(i - 147);
    } else if i < 161 {
      SplitBlock22(i - 154);
    } else if i < 168 {
      SplitBlock23(i - 161);
    } else if i < 175 {
      SplitBlock24(i - 168);
    } else if i < 182 {
      SplitBlock25(i - 175);
    } else if i < 189 {
      SplitBlock26(i - 182);
    } else if i < 196 {
      SplitBlock27(i - 189);
    } else if i < 203 {
      SplitBlock28(i - 196);
    } else if i < 210 {
      SplitBlock29(i - 203);
    } else if i < 217 {
      SplitBlock30(i - 210);
    } else if i < 224 {
      SplitBlock31(i - 217);
    } else if i < 231 {
      SplitBlock32(i - 224);
    } else if i < 238 {
      SplitBlock33(i - 231);
    } else if i < 245 {
      SplitBlock34(i - 238);
    } else if i < 252 {
      SplitBlock35(i - 245);
    } else if i < 259 {
      SplitBlock36(i - 252);
    } else if i < 266 {
      SplitBlock37(i - 259);
    } else if i < 273 {
      SplitBlock38(i - 266);
    } else if i < 280 {
      SplitBlock39(i - 273);
    } else if i < 287 {
      SplitBlock40(i - 280);
    } else if i < 294 {
      SplitBlock41(i - 287);
    } else if i < 301 {
      SplitBlock42(i - 294);
    } else if i < 308 {
      SplitBlock43(i - 301);
    } else if i < 315 {
      SplitBlock44(i - 308);
    } else if i < 322 {
      SplitBlock45(i - 315);
    } else {
      SplitBlock46(i - 322);
    }
  }
}
