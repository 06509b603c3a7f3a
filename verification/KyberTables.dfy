/** The roots of the Kyber transform, in Montgomery form, and the facts the transform needs. */
module KyberTables {
  import opened Congruence
  import opened TransformTree

  const Q: int := 3329
  const R: int := 0x1_0000
  const RINV: int := 169  // R * RINV == 1 (mod Q)

  /** ZETAS[k]: the root of node k times R, centred. */
  function Zeta(k: nat): (v: int)
    requires k < 128
  {
    if k < 64 then
      if k < 32 then
        if k < 16 then
          if k < 8 then
            [-1044, -758, -359, -1517, 1493, 1422, 287, 202][k]
          else
            [-171, 622, 1577, 182, 962, -1202, -1474, 1468][k - 8]
        else
          if k < 24 then
            [573, -1325, 264, 383, -829, 1458, -1602, -130][k - 16]
          else
            [-681, 1017, 732, 608, -1542, 411, -205, -1571][k - 24]
      else
        if k < 48 then
          if k < 40 then
            [1223, 652, -552, 1015, -1293, 1491, -282, -1544][k - 32]
          else
            [516, -8, -320, -666, -1618, -1162, 126, 1469][k - 40]
        else
          if k < 56 then
            [-853, -90, -271, 830, 107, -1421, -247, -951][k - 48]
          else
            [-398, 961, -1508, -725, 448, -1065, 677, -1275][k - 56]
    else
      if k < 96 then
        if k < 80 then
          if k < 72 then
            [-1103, 430, 555, 843, -1251, 871, 1550, 105][k - 64]
          else
            [422, 587, 177, -235, -291, -460, 1574, 1653][k - 72]
        else
          if k < 88 then
            [-246, 778, 1159, -147, -777, 1483, -602, 1119][k - 80]
          else
            [-1590, 644, -872, 349, 418, 329, -156, -75][k - 88]
      else
        if k < 112 then
          if k < 104 then
            [817, 1097, 603, 610, 1322, -1285, -1465, 384][k - 96]
          else
            [-1215, -136, 1218, -1335, -874, 220, -1187, -1659][k - 104]
        else
          if k < 120 then
            [-1185, -1530, -1278, 794, -1510, -854, -870, 478][k - 112]
          else
            [-108, -308, 996, 991, 958, -1460, 1522, 1628][k - 120]
  }

  /** The root of node k, out of Montgomery form. */
  function S(k: nat): (v: int)
  {
    if k < 128 then (Zeta(k) * RINV) % Q else 0
  }

  /** The number of nodes on the level of node k. */
  function LevelSize(k: nat): (m: nat)
    ensures 1 <= k < 128 ==> 1 <= m <= k < 2 * m <= 128
  {
    if k < 2 then 1 else if k < 4 then 2 else if k < 8 then 4 else if k < 16 then 8
    else if k < 32 then 16 else if k < 64 then 32 else 64
  }

  /** The node whose root invntt uses to merge into node k: its mirror image on the same level. */
  function Mirror(k: nat): (j: nat)
    requires 1 <= k < 128
    ensures 1 <= j < 128
  {
    3 * LevelSize(k) - 1 - k
  }

  /** The inverse root of node k: minus the root of its mirror image. */
  function SI(k: nat): (v: int)
  {
    if 1 <= k < 128 then (-Zeta(Mirror(k)) * RINV) % Q else 0
  }

  predicate SplitOk(k: nat)
    requires 1 <= k < 64
  {
    && (Zeta(2 * k) * Zeta(2 * k) - Zeta(k) * R) % Q == 0
    && (Zeta(2 * k + 1) * Zeta(2 * k + 1) + Zeta(k) * R) % Q == 0
  }

  predicate MirrorOk(k: nat)
    requires 1 <= k < 128
  {
    -1664 <= Zeta(k) <= 1664 && (Zeta(k) * Zeta(Mirror(k)) + R * R) % Q == 0
  }

  lemma Splits1()
    ensures forall k: nat :: 1 <= k < 8 ==> SplitOk(k)
  {
    assert SplitOk(1);
    assert SplitOk(2);
    assert SplitOk(3);
    assert SplitOk(4);
    assert SplitOk(5);
    assert SplitOk(6);
    assert SplitOk(7);
  }

  lemma Splits8()
    ensures forall k: nat :: 8 <= k < 16 ==> SplitOk(k)
  {
    assert SplitOk(8);
    assert SplitOk(9);
    assert SplitOk(10);
    assert SplitOk(11);
    assert SplitOk(12);
    assert SplitOk(13);
    assert SplitOk(14);
    assert SplitOk(15);
  }

  lemma Splits16()
    ensures forall k: nat :: 16 <= k < 24 ==> SplitOk(k)
  {
    assert SplitOk(16);
    assert SplitOk(17);
    assert SplitOk(18);
    assert SplitOk(19);
    assert SplitOk(20);
    assert SplitOk(21);
    assert SplitOk(22);
    assert SplitOk(23);
  }

  lemma Splits24()
    ensures forall k: nat :: 24 <= k < 32 ==> SplitOk(k)
  {
    assert SplitOk(24);
    assert SplitOk(25);
    assert SplitOk(26);
    assert SplitOk(27);
    assert SplitOk(28);
    assert SplitOk(29);
    assert SplitOk(30);
    assert SplitOk(31);
  }

  lemma Splits32()
    ensures forall k: nat :: 32 <= k < 40 ==> SplitOk(k)
  {
    assert SplitOk(32);
    assert SplitOk(33);
    assert SplitOk(34);
    assert SplitOk(35);
    assert SplitOk(36);
    assert SplitOk(37);
    assert SplitOk(38);
    assert SplitOk(39);
  }

  lemma Splits40()
    ensures forall k: nat :: 40 <= k < 48 ==> SplitOk(k)
  {
    assert SplitOk(40);
    assert SplitOk(41);
    assert SplitOk(42);
    assert SplitOk(43);
    assert SplitOk(44);
    assert SplitOk(45);
    assert SplitOk(46);
    assert SplitOk(47);
  }

  lemma Splits48()
    ensures forall k: nat :: 48 <= k < 56 ==> SplitOk(k)
  {
    assert SplitOk(48);
    assert SplitOk(49);
    assert SplitOk(50);
    assert SplitOk(51);
    assert SplitOk(52);
    assert SplitOk(53);
    assert SplitOk(54);
    assert SplitOk(55);
  }

  lemma Splits56()
    ensures forall k: nat :: 56 <= k < 64 ==> SplitOk(k)
  {
    assert SplitOk(56);
    assert SplitOk(57);
    assert SplitOk(58);
    assert SplitOk(59);
    assert SplitOk(60);
    assert SplitOk(61);
    assert SplitOk(62);
    assert SplitOk(63);
  }

  lemma Mirrors1()
    ensures forall k: nat :: 1 <= k < 16 ==> MirrorOk(k)
  {
    assert MirrorOk(1);
    assert MirrorOk(2);
    assert MirrorOk(3);
    assert MirrorOk(4);
    assert MirrorOk(5);
    assert MirrorOk(6);
    assert MirrorOk(7);
    assert MirrorOk(8);
    assert MirrorOk(9);
    assert MirrorOk(10);
    assert MirrorOk(11);
    assert MirrorOk(12);
    assert MirrorOk(13);
    assert MirrorOk(14);
    assert MirrorOk(15);
  }

  lemma Mirrors16()
    ensures forall k: nat :: 16 <= k < 32 ==> MirrorOk(k)
  {
    assert MirrorOk(16);
    assert MirrorOk(17);
    assert MirrorOk(18);
    assert MirrorOk(19);
    assert MirrorOk(20);
    assert MirrorOk(21);
    assert MirrorOk(22);
    assert MirrorOk(23);
    assert MirrorOk(24);
    assert MirrorOk(25);
    assert MirrorOk(26);
    assert MirrorOk(27);
    assert MirrorOk(28);
    assert MirrorOk(29);
    assert MirrorOk(30);
    assert MirrorOk(31);
  }

  lemma Mirrors32()
    ensures forall k: nat :: 32 <= k < 48 ==> MirrorOk(k)
  {
    assert MirrorOk(32);
    assert MirrorOk(33);
    assert MirrorOk(34);
    assert MirrorOk(35);
    assert MirrorOk(36);
    assert MirrorOk(37);
    assert MirrorOk(38);
    assert MirrorOk(39);
    assert MirrorOk(40);
    assert MirrorOk(41);
    assert MirrorOk(42);
    assert MirrorOk(43);
    assert MirrorOk(44);
    assert MirrorOk(45);
    assert MirrorOk(46);
    assert MirrorOk(47);
  }

  lemma Mirrors48()
    ensures forall k: nat :: 48 <= k < 64 ==> MirrorOk(k)
  {
    assert MirrorOk(48);
    assert MirrorOk(49);
    assert MirrorOk(50);
    assert MirrorOk(51);
    assert MirrorOk(52);
    assert MirrorOk(53);
    assert MirrorOk(54);
    assert MirrorOk(55);
    assert MirrorOk(56);
    assert MirrorOk(57);
    assert MirrorOk(58);
    assert MirrorOk(59);
    assert MirrorOk(60);
    assert MirrorOk(61);
    assert MirrorOk(62);
    assert MirrorOk(63);
  }

  lemma Mirrors64()
    ensures forall k: nat :: 64 <= k < 80 ==> MirrorOk(k)
  {
    assert MirrorOk(64);
    assert MirrorOk(65);
    assert MirrorOk(66);
    assert MirrorOk(67);
    assert MirrorOk(68);
    assert MirrorOk(69);
    assert MirrorOk(70);
    assert MirrorOk(71);
    assert MirrorOk(72);
    assert MirrorOk(73);
    assert MirrorOk(74);
    assert MirrorOk(75);
    assert MirrorOk(76);
    assert MirrorOk(77);
    assert MirrorOk(78);
    assert MirrorOk(79);
  }

  lemma Mirrors80()
    ensures forall k: nat :: 80 <= k < 96 ==> MirrorOk(k)
  {
    assert MirrorOk(80);
    assert MirrorOk(81);
    assert MirrorOk(82);
    assert MirrorOk(83);
    assert MirrorOk(84);
    assert MirrorOk(85);
    assert MirrorOk(86);
    assert MirrorOk(87);
    assert MirrorOk(88);
    assert MirrorOk(89);
    assert MirrorOk(90);
    assert MirrorOk(91);
    assert MirrorOk(92);
    assert MirrorOk(93);
    assert MirrorOk(94);
    assert MirrorOk(95);
  }

  lemma Mirrors96()
    ensures forall k: nat :: 96 <= k < 112 ==> MirrorOk(k)
  {
    assert MirrorOk(96);
    assert MirrorOk(97);
    assert MirrorOk(98);
    assert MirrorOk(99);
    assert MirrorOk(100);
    assert MirrorOk(101);
    assert MirrorOk(102);
    assert MirrorOk(103);
    assert MirrorOk(104);
    assert MirrorOk(105);
    assert MirrorOk(106);
    assert MirrorOk(107);
    assert MirrorOk(108);
    assert MirrorOk(109);
    assert MirrorOk(110);
    assert MirrorOk(111);
  }

  lemma Mirrors112()
    ensures forall k: nat :: 112 <= k < 128 ==> MirrorOk(k)
  {
    assert MirrorOk(112);
    assert MirrorOk(113);
    assert MirrorOk(114);
    assert MirrorOk(115);
    assert MirrorOk(116);
    assert MirrorOk(117);
    assert MirrorOk(118);
    assert MirrorOk(119);
    assert MirrorOk(120);
    assert MirrorOk(121);
    assert MirrorOk(122);
    assert MirrorOk(123);
    assert MirrorOk(124);
    assert MirrorOk(125);
    assert MirrorOk(126);
    assert MirrorOk(127);
  }

  /** ZETAS[2k]^2 = ZETAS[k] * R and ZETAS[2k+1]^2 = -ZETAS[k] * R modulo Q, at every split. */
  lemma SplitsOk(k: nat)
    requires 1 <= k < 64
    ensures SplitOk(k)
  {
    hide SplitOk;
    Splits1();
    Splits8();
    Splits16();
    Splits24();
    Splits32();
    Splits40();
    Splits48();
    Splits56();
  }

  /** ZETAS[k] times its mirror image is -R^2 modulo Q, at every inner node. */
  lemma MirrorsOk(k: nat)
    requires 1 <= k < 128
    ensures MirrorOk(k)
  {
    hide MirrorOk;
    Mirrors1();
    Mirrors16();
    Mirrors32();
    Mirrors48();
    Mirrors64();
    Mirrors80();
    Mirrors96();
    Mirrors112();
  }

  lemma RootSquares(k: nat)
    requires 1 <= k < 128
    ensures Cong(NodeZ(S, k), S(k) * S(k), Q)
  {
    hide Zeta, Cong;
    if k == 1 {
      RootOfRoot();
    } else {
      var t, c := Zeta(k), Zeta(k / 2);
      var d := if k % 2 == 0 then c else -c;
      CongIntro(t * t, d * R, Q, (t * t - d * R) / Q) by {
        SplitAt(k);
      }
      CongIntro(R * RINV, 1, Q, (R * RINV - 1) / Q);
      SquareOut(t, d, R, RINV, Q);
      if k % 2 == 1 {
        NegationOut(c, RINV, Q);
        CongTrans(S(k) * S(k), (d * RINV) % Q, NodeZ(S, k), Q);
      }
      CongSym(S(k) * S(k), NodeZ(S, k), Q);
    }
  }

  lemma RootOfRoot()
    ensures Cong(-1, S(1) * S(1), Q)
  {
  }

  lemma SplitAt(k: nat)
    requires 2 <= k < 128
    ensures (Zeta(k) * Zeta(k) - (if k % 2 == 0 then Zeta(k / 2) else -Zeta(k / 2)) * R) % Q == 0
  {
    hide Zeta;
    SplitsOk(k / 2);
  }

  lemma RootInverts(k: nat)
    requires 1 <= k < 128
    ensures Cong(S(k) * SI(k), 1, Q)
  {
    hide Zeta, Cong, Mirror;
    MirrorsOk(k);
    var a, b := Zeta(k), -Zeta(Mirror(k));
    assert a * b == -(a * Zeta(Mirror(k)));
    CongIntro(a * b, R * R, Q, -((a * Zeta(Mirror(k)) + R * R) / Q));
    CongIntro(R * RINV, 1, Q, (R * RINV - 1) / Q);
    InverseOut(a, b, R, RINV, Q);
  }

  /** The table holds the roots of the transform tree, and minus its mirror image the inverse roots. */
  lemma TablesOk()
    ensures Roots(S, 128, Q) && InverseRoots(S, SI, 128, Q)
  {
    hide S, SI, Cong;
    forall k: nat | 1 <= k < 128 ensures Cong(NodeZ(S, k), S(k) * S(k), Q) {
      RootSquares(k);
    }
    forall k: nat | 1 <= k < 128 ensures Cong(S(k) * SI(k), 1, Q) {
      RootInverts(k);
    }
  }
}
