/** The root tables of the Dilithium transform, in Montgomery form, and the facts the transform needs. */
module DilithiumTables {
  import opened Congruence
  import opened TransformTree

  const Q: int := 8380417
  const R: int := 0x1_0000_0000
  const RINV: int := 8265825  // R * RINV == 1 (mod Q)

  /** ROOTS[k]: the root of node k times R. */
  function RootTable(k: nat): (v: int)
    requires k < 256
  {
    if k < 128 then
      if k < 64 then
        if k < 32 then
          if k < 16 then
            if k < 8 then
              [0x3ffe00, 0x64f7, 0x581103, 0x77f504, 0x39e44, 0x740119, 0x728129, 0x71e24][k]
            else
              [0x1bde2b, 0x23e92b, 0x7a64ae, 0x5ff480, 0x2f9a75, 0x53db0a, 0x2f7a49, 0x28e527][k - 8]
          else
            if k < 24 then
              [0x299658, 0xfa070, 0x6f65a5, 0x36b788, 0x777d91, 0x6ecaa1, 0x27f968, 0x5fb37c][k - 16]
            else
              [0x5f8dd7, 0x44fae8, 0x6a84f8, 0x4ddc99, 0x1ad035, 0x7f9423, 0x3d3201, 0x445c5][k - 24]
        else
          if k < 48 then
            if k < 40 then
              [0x294a67, 0x17620, 0x2ef4cd, 0x35dec5, 0x668504, 0x49102d, 0x5927d5, 0x3bbeaf][k - 32]
            else
              [0x44f586, 0x516e7d, 0x368a96, 0x541e42, 0x360400, 0x7b4a4e, 0x23d69c, 0x77a55e][k - 40]
          else
            if k < 56 then
              [0x65f23e, 0x66cad7, 0x357e1e, 0x458f5a, 0x35843f, 0x5f3618, 0x67745d, 0x38738c][k - 48]
            else
              [0xc63a8, 0x81b9a, 0xe8f76, 0x3b3853, 0x3b8534, 0x58dc31, 0x1f9d54, 0x552f2e][k - 56]
      else
        if k < 96 then
          if k < 80 then
            if k < 72 then
              [0x43e6e6, 0x688c82, 0x47c1d0, 0x51781a, 0x69b65e, 0x3509ee, 0x2135c7, 0x67afbc][k - 64]
            else
              [0x6caf76, 0x1d9772, 0x419073, 0x709cf7, 0x4f3281, 0x4fb2af, 0x4870e1, 0x1efca][k - 72]
          else
            if k < 88 then
              [0x3410f2, 0x70de86, 0x20c638, 0x296e9f, 0x5297a4, 0x47844c, 0x799a6e, 0x5a140a][k - 80]
            else
              [0x75a283, 0x6d2114, 0x7f863c, 0x6be9f8, 0x7a0bde, 0x1495d4, 0x1c4563, 0x6a0c63][k - 88]
        else
          if k < 112 then
            if k < 104 then
              [0x4cdbea, 0x40af0, 0x7c417, 0x2f4588, 0xad00, 0x6f16bf, 0xdcd44, 0x3c675a][k - 96]
            else
              [0x470bcb, 0x7fbe7f, 0x193948, 0x4e49c1, 0x24756c, 0x7ca7e0, 0xb98a1, 0x6bc809][k - 104]
          else
            if k < 120 then
              [0x2e46c, 0x49a809, 0x3036c2, 0x639ff7, 0x5b1c94, 0x7d2ae1, 0x141305, 0x147792][k - 112]
            else
              [0x139e25, 0x67b0e1, 0x737945, 0x69e803, 0x51cea3, 0x44a79d, 0x488058, 0x3a97d9][k - 120]
    else
      if k < 192 then
        if k < 160 then
          if k < 144 then
            if k < 136 then
              [0x1fea93, 0x33ff5a, 0x2358d4, 0x3a41f8, 0x4cdf73, 0x223dfb, 0x5a8ba0, 0x498423][k - 128]
            else
              [0x412f5, 0x252587, 0x6d04f1, 0x359b5d, 0x4a28a1, 0x4682fd, 0x6d9b57, 0x4f25df][k - 136]
          else
            if k < 152 then
              [0xdbe5e, 0x1c5e1a, 0xde0e6, 0xc7f5a, 0x78f83, 0x67428b, 0x7f3705, 0x77e6fd][k - 144]
            else
              [0x75e022, 0x503af7, 0x1f0084, 0x30ef86, 0x49997e, 0x77dcd7, 0x742593, 0x4901c3][k - 152]
        else
          if k < 176 then
            if k < 168 then
              [0x53919, 0x4610c, 0x5aad42, 0x3eb01b, 0x3472e7, 0x4ce03c, 0x1a7cc7, 0x31924][k - 160]
            else
              [0x2b5ee5, 0x291199, 0x585a3b, 0x134d71, 0x3de11c, 0x130984, 0x25f051, 0x185a46][k - 168]
          else
            if k < 184 then
              [0x466519, 0x1314be, 0x283891, 0x49bb91, 0x52308a, 0x1c853f, 0x1d0b4b, 0x6fd6a7][k - 176]
            else
              [0x6b88bf, 0x12e11b, 0x4d3e3f, 0x6a0d30, 0x78fde5, 0x1406c7, 0x327283, 0x61ed6f][k - 184]
      else
        if k < 224 then
          if k < 208 then
            if k < 200 then
              [0x6c5954, 0x1d4099, 0x590579, 0x6ae5ae, 0x16e405, 0xbdbe7, 0x221de8, 0x33f8cf][k - 192]
            else
              [0x779935, 0x54aa0d, 0x665ff9, 0x63b158, 0x58711c, 0x470c13, 0x910d8, 0x463e20][k - 200]
          else
            if k < 216 then
              [0x612659, 0x251d8b, 0x2573b7, 0x7d5c90, 0x1ddd98, 0x336898, 0x2d4bb, 0x6d73a8][k - 208]
            else
              [0x4f4cbf, 0x27c1c, 0x18aa08, 0x2dfd71, 0xc5ca5, 0x19379a, 0x478168, 0x646c3e][k - 216]
        else
          if k < 240 then
            if k < 232 then
              [0x51813d, 0x35c539, 0x3b0115, 0x41dc0, 0x21c4f7, 0x70fbf5, 0x1a35e7, 0x7340e][k - 224]
            else
              [0x795d46, 0x1a4cd0, 0x645caf, 0x1d2668, 0x666e99, 0x6f0634, 0x7be5db, 0x455fdc][k - 232]
          else
            if k < 248 then
              [0x530765, 0x5dc1b0, 0x7973de, 0x5cfd0a, 0x2cc93, 0x70f806, 0x189c2a, 0x49c5aa][k - 240]
            else
              [0x776a51, 0x3bcf2c, 0x7f234f, 0x6b16e0, 0x3c15ca, 0x155e68, 0x72f6b7, 0x1e29ce][k - 248]
  }

  /** IROOTS[k]: the inverse of the root of node k, times R. */
  function InverseRootTable(k: nat): (v: int)
    requires k < 256
  {
    if k < 128 then
      if k < 64 then
        if k < 32 then
          if k < 16 then
            if k < 8 then
              [0x3ffe00, 0x7f7b0a, 0x7eafd, 0x27cefe, 0x78c1dd, 0xd5ed8, 0xbdee8, 0x7c41bd][k]
            else
              [0x56fada, 0x5065b8, 0x2c04f7, 0x50458c, 0x1feb81, 0x57b53, 0x5bf6d6, 0x6401d6][k - 8]
          else
            if k < 24 then
              [0x7b9a3c, 0x42ae00, 0x4bde, 0x650fcc, 0x320368, 0x155b09, 0x3ae519, 0x20522a][k - 16]
            else
              [0x202c85, 0x57e699, 0x111560, 0x86270, 0x492879, 0x107a5c, 0x703f91, 0x5649a9][k - 24]
        else
          if k < 48 then
            if k < 40 then
              [0x2ab0d3, 0x6042ad, 0x2703d0, 0x445acd, 0x44a7ae, 0x71508b, 0x77c467, 0x737c59][k - 32]
            else
              [0x476c75, 0x186ba4, 0x20a9e9, 0x4a5bc2, 0x3a50a7, 0x4a61e3, 0x19152a, 0x19edc3][k - 40]
          else
            if k < 56 then
              [0x83aa3, 0x5c0965, 0x495b3, 0x49dc01, 0x2bc1bf, 0x49556b, 0x2e7184, 0x3aea7b][k - 48]
            else
              [0x442152, 0x26b82c, 0x36cfd4, 0x195afd, 0x4a013c, 0x50eb34, 0x7e69e1, 0x56959a][k - 56]
      else
        if k < 96 then
          if k < 80 then
            if k < 72 then
              [0x454828, 0x375fa9, 0x3b3864, 0x2e115e, 0x15f7fe, 0xc66bc, 0x182f20, 0x6c41dc][k - 64]
            else
              [0x6b686f, 0x6bccfc, 0x2b520, 0x24c36d, 0x1c400a, 0x4fa93f, 0x3637f8, 0x7cfb95][k - 72]
          else
            if k < 88 then
              [0x1417f8, 0x744760, 0x33821, 0x5b6a95, 0x319640, 0x66a6b9, 0x2182, 0x38d436][k - 80]
            else
              [0x4378a7, 0x7212bd, 0x10c942, 0x7f3301, 0x509a79, 0x781bea, 0x7bd511, 0x330417][k - 88]
        else
          if k < 112 then
            if k < 104 then
              [0x15d39e, 0x639a9e, 0x6b4a2d, 0x5d423, 0x13f609, 0x59c5, 0x12beed, 0xa3d7e][k - 96]
            else
              [0x25cbf7, 0x64593, 0x385bb5, 0x2d485d, 0x567162, 0x5f19c9, 0xf017b, 0x4bcf0f][k - 104]
          else
            if k < 120 then
              [0x7df037, 0x376f20, 0x302d52, 0x30ad80, 0xf430a, 0x3e4f8e, 0x62488f, 0x13308b][k - 112]
            else
              [0x183045, 0x5eaa3a, 0x4ad613, 0x1629a3, 0x2e67e7, 0x381e31, 0x17537f, 0x3bf91b][k - 120]
    else
      if k < 192 then
        if k < 160 then
          if k < 144 then
            if k < 136 then
              [0x61b633, 0xce94a, 0x6a8199, 0x43ca37, 0x14c921, 0xbcb2, 0x4410d5, 0x875b0][k - 128]
            else
              [0x361a57, 0x6743d7, 0xee7fb, 0x7d136e, 0x22e2f7, 0x66c23, 0x221e51, 0x2cd89c][k - 136]
          else
            if k < 152 then
              [0x3a8025, 0x3fa26, 0x10d9cd, 0x197168, 0x62b999, 0x1b8352, 0x659331, 0x682bb][k - 144]
            else
              [0x78abf3, 0x65aa1a, 0xee40c, 0x5e1b0a, 0x7bc241, 0x44deec, 0x4a1ac8, 0x2e5ec4][k - 152]
        else
          if k < 176 then
            if k < 168 then
              [0x1b73c3, 0x385e99, 0x66a867, 0x73835c, 0x51e290, 0x6735f9, 0x7d63e5, 0x309342][k - 160]
            else
              [0x126c59, 0x7d0b46, 0x4c7769, 0x620269, 0x28371, 0x5a6c4a, 0x5ac276, 0x1eb9a8][k - 168]
          else
            if k < 184 then
              [0x39a1e1, 0x76cf29, 0x38d3ee, 0x276ee5, 0x1c2ea9, 0x198008, 0x2b35f4, 0x846cc][k - 176]
            else
              [0x4be732, 0x5dc219, 0x74041a, 0x68fbfc, 0x14fa53, 0x26da88, 0x629f68, 0x1386ad][k - 184]
      else
        if k < 224 then
          if k < 208 then
            if k < 200 then
              [0x1df292, 0x4d6d7e, 0x6bd93a, 0x6e21c, 0x15d2d1, 0x32a1c2, 0x6cfee6, 0x145742][k - 192]
            else
              [0x10095a, 0x62d4b6, 0x635ac2, 0x2daf77, 0x362470, 0x57a770, 0x6ccb43, 0x397ae8][k - 200]
          else
            if k < 216 then
              [0x6785bb, 0x59efb0, 0x6cd67d, 0x41fee5, 0x6c9290, 0x2785c6, 0x56ce68, 0x54811c][k - 208]
            else
              [0x7cc6dd, 0x65633a, 0x32ffc5, 0x4b6d1a, 0x412fe6, 0x2532bf, 0x7b7ef5, 0x7aa6e8][k - 216]
        else
          if k < 240 then
            if k < 232 then
              [0x36de3e, 0xbba6e, 0x8032a, 0x364683, 0x4ef07b, 0x60df7d, 0x2fa50a, 0x9ffdf][k - 224]
            else
              [0x7f904, 0xa8fc, 0x189d76, 0x78507e, 0x7360a7, 0x71ff1b, 0x6381e7, 0x7221a3][k - 232]
          else
            if k < 248 then
              [0x30ba22, 0x1244aa, 0x395d04, 0x35b760, 0x4a44a4, 0x12db10, 0x5aba7a, 0x7bcd0c][k - 240]
            else
              [0x365bde, 0x255461, 0x5da206, 0x33008e, 0x459e09, 0x5c872d, 0x4be0a7, 0x5ff56e][k - 248]
  }

  /** The root of node k, out of Montgomery form. */
  function S(k: nat): (v: int)
  {
    if k < 256 then (RootTable(k) * RINV) % Q else 0
  }

  /** The inverse root of node k, out of Montgomery form. */
  function SI(k: nat): (v: int)
  {
    if k < 256 then (InverseRootTable(k) * RINV) % Q else 0
  }

  /** What the tables say of nodes k, 2k and 2k + 1, in Montgomery form. */
  predicate SplitOk(k: nat)
    requires 1 <= k < 128
  {
    && (RootTable(2 * k) * RootTable(2 * k) - RootTable(k) * R) % Q == 0
    && (RootTable(2 * k + 1) * RootTable(2 * k + 1) + RootTable(k) * R) % Q == 0
  }

  predicate InverseOk(k: nat)
    requires 1 <= k < 256
  {
    && 0 <= RootTable(k) < Q && 0 <= InverseRootTable(k) < Q
    && (RootTable(k) * InverseRootTable(k) - R * R) % Q == 0
  }

  lemma Splits1()
    ensures forall k: nat :: 1 <= k < 8 ==> SplitOk(k)
  {
    assert SplitOk(1);
    assert SplitOk(2);
    assert SplitOk(3);
    assert SplitOk(4);
    assert SplitOk(5);
    assert SplitOk(6);
    assert SplitOk(7);
  }

  lemma Splits8()
    ensures forall k: nat :: 8 <= k < 16 ==> SplitOk(k)
  {
    assert SplitOk(8);
    assert SplitOk(9);
    assert SplitOk(10);
    assert SplitOk(11);
    assert SplitOk(12);
    assert SplitOk(13);
    assert SplitOk(14);
    assert SplitOk(15);
  }

  lemma Splits16()
    ensures forall k: nat :: 16 <= k < 24 ==> SplitOk(k)
  {
    assert SplitOk(16);
    assert SplitOk(17);
    assert SplitOk(18);
    assert SplitOk(19);
    assert SplitOk(20);
    assert SplitOk(21);
    assert SplitOk(22);
    assert SplitOk(23);
  }

  lemma Splits24()
    ensures forall k: nat :: 24 <= k < 32 ==> SplitOk(k)
  {
    assert SplitOk(24);
    assert SplitOk(25);
    assert SplitOk(26);
    assert SplitOk(27);
    assert SplitOk(28);
    assert SplitOk(29);
    assert SplitOk(30);
    assert SplitOk(31);
  }

  lemma Splits32()
    ensures forall k: nat :: 32 <= k < 40 ==> SplitOk(k)
  {
    assert SplitOk(32);
    assert SplitOk(33);
    assert SplitOk(34);
    assert SplitOk(35);
    assert SplitOk(36);
    assert SplitOk(37);
    assert SplitOk(38);
    assert SplitOk(39);
  }

  lemma Splits40()
    ensures forall k: nat :: 40 <= k < 48 ==> SplitOk(k)
  {
    assert SplitOk(40);
    assert SplitOk(41);
    assert SplitOk(42);
    assert SplitOk(43);
    assert SplitOk(44);
    assert SplitOk(45);
    assert SplitOk(46);
    assert SplitOk(47);
  }

  lemma Splits48()
    ensures forall k: nat :: 48 <= k < 56 ==> SplitOk(k)
  {
    assert SplitOk(48);
    assert SplitOk(49);
    assert SplitOk(50);
    assert SplitOk(51);
    assert SplitOk(52);
    assert SplitOk(53);
    assert SplitOk(54);
    assert SplitOk(55);
  }

  lemma Splits56()
    ensures forall k: nat :: 56 <= k < 64 ==> SplitOk(k)
  {
    assert SplitOk(56);
    assert SplitOk(57);
    assert SplitOk(58);
    assert SplitOk(59);
    assert SplitOk(60);
    assert SplitOk(61);
    assert SplitOk(62);
    assert SplitOk(63);
  }

  lemma Splits64()
    ensures forall k: nat :: 64 <= k < 72 ==> SplitOk(k)
  {
    assert SplitOk(64);
    assert SplitOk(65);
    assert SplitOk(66);
    assert SplitOk(67);
    assert SplitOk(68);
    assert SplitOk(69);
    assert SplitOk(70);
    assert SplitOk(71);
  }

  lemma Splits72()
    ensures forall k: nat :: 72 <= k < 80 ==> SplitOk(k)
  {
    assert SplitOk(72);
    assert SplitOk(73);
    assert SplitOk(74);
    assert SplitOk(75);
    assert SplitOk(76);
    assert SplitOk(77);
    assert SplitOk(78);
    assert SplitOk(79);
  }

  lemma Splits80()
    ensures forall k: nat :: 80 <= k < 88 ==> SplitOk(k)
  {
    assert SplitOk(80);
    assert SplitOk(81);
    assert SplitOk(82);
    assert SplitOk(83);
    assert SplitOk(84);
    assert SplitOk(85);
    assert SplitOk(86);
    assert SplitOk(87);
  }

  lemma Splits88()
    ensures forall k: nat :: 88 <= k < 96 ==> SplitOk(k)
  {
    assert SplitOk(88);
    assert SplitOk(89);
    assert SplitOk(90);
    assert SplitOk(91);
    assert SplitOk(92);
    assert SplitOk(93);
    assert SplitOk(94);
    assert SplitOk(95);
  }

  lemma Splits96()
    ensures forall k: nat :: 96 <= k < 104 ==> SplitOk(k)
  {
    assert SplitOk(96);
    assert SplitOk(97);
    assert SplitOk(98);
    assert SplitOk(99);
    assert SplitOk(100);
    assert SplitOk(101);
    assert SplitOk(102);
    assert SplitOk(103);
  }

  lemma Splits104()
    ensures forall k: nat :: 104 <= k < 112 ==> SplitOk(k)
  {
    assert SplitOk(104);
    assert SplitOk(105);
    assert SplitOk(106);
    assert SplitOk(107);
    assert SplitOk(108);
    assert SplitOk(109);
    assert SplitOk(110);
    assert SplitOk(111);
  }

  lemma Splits112()
    ensures forall k: nat :: 112 <= k < 120 ==> SplitOk(k)
  {
    assert SplitOk(112);
    assert SplitOk(113);
    assert SplitOk(114);
    assert SplitOk(115);
    assert SplitOk(116);
    assert SplitOk(117);
    assert SplitOk(118);
    assert SplitOk(119);
  }

  lemma Splits120()
    ensures forall k: nat :: 120 <= k < 128 ==> SplitOk(k)
  {
    assert SplitOk(120);
    assert SplitOk(121);
    assert SplitOk(122);
    assert SplitOk(123);
    assert SplitOk(124);
    assert SplitOk(125);
    assert SplitOk(126);
    assert SplitOk(127);
  }

  lemma Inverses1()
    ensures forall k: nat :: 1 <= k < 16 ==> InverseOk(k)
  {
    assert InverseOk(1);
    assert InverseOk(2);
    assert InverseOk(3);
    assert InverseOk(4);
    assert InverseOk(5);
    assert InverseOk(6);
    assert InverseOk(7);
    assert InverseOk(8);
    assert InverseOk(9);
    assert InverseOk(10);
    assert InverseOk(11);
    assert InverseOk(12);
    assert InverseOk(13);
    assert InverseOk(14);
    assert InverseOk(15);
  }

  lemma Inverses16()
    ensures forall k: nat :: 16 <= k < 32 ==> InverseOk(k)
  {
    assert InverseOk(16);
    assert InverseOk(17);
    assert InverseOk(18);
    assert InverseOk(19);
    assert InverseOk(20);
    assert InverseOk(21);
    assert InverseOk(22);
    assert InverseOk(23);
    assert InverseOk(24);
    assert InverseOk(25);
    assert InverseOk(26);
    assert InverseOk(27);
    assert InverseOk(28);
    assert InverseOk(29);
    assert InverseOk(30);
    assert InverseOk(31);
  }

  lemma Inverses32()
    ensures forall k: nat :: 32 <= k < 48 ==> InverseOk(k)
  {
    assert InverseOk(32);
    assert InverseOk(33);
    assert InverseOk(34);
    assert InverseOk(35);
    assert InverseOk(36);
    assert InverseOk(37);
    assert InverseOk(38);
    assert InverseOk(39);
    assert InverseOk(40);
    assert InverseOk(41);
    assert InverseOk(42);
    assert InverseOk(43);
    assert InverseOk(44);
    assert InverseOk(45);
    assert InverseOk(46);
    assert InverseOk(47);
  }

  lemma Inverses48()
    ensures forall k: nat :: 48 <= k < 64 ==> InverseOk(k)
  {
    assert InverseOk(48);
    assert InverseOk(49);
    assert InverseOk(50);
    assert InverseOk(51);
    assert InverseOk(52);
    assert InverseOk(53);
    assert InverseOk(54);
    assert InverseOk(55);
    assert InverseOk(56);
    assert InverseOk(57);
    assert InverseOk(58);
    assert InverseOk(59);
    assert InverseOk(60);
    assert InverseOk(61);
    assert InverseOk(62);
    assert InverseOk(63);
  }

  lemma Inverses64()
    ensures forall k: nat :: 64 <= k < 80 ==> InverseOk(k)
  {
    assert InverseOk(64);
    assert InverseOk(65);
    assert InverseOk(66);
    assert InverseOk(67);
    assert InverseOk(68);
    assert InverseOk(69);
    assert InverseOk(70);
    assert InverseOk(71);
    assert InverseOk(72);
    assert InverseOk(73);
    assert InverseOk(74);
    assert InverseOk(75);
    assert InverseOk(76);
    assert InverseOk(77);
    assert InverseOk(78);
    assert InverseOk(79);
  }

  lemma Inverses80()
    ensures forall k: nat :: 80 <= k < 96 ==> InverseOk(k)
  {
    assert InverseOk(80);
    assert InverseOk(81);
    assert InverseOk(82);
    assert InverseOk(83);
    assert InverseOk(84);
    assert InverseOk(85);
    assert InverseOk(86);
    assert InverseOk(87);
    assert InverseOk(88);
    assert InverseOk(89);
    assert InverseOk(90);
    assert InverseOk(91);
    assert InverseOk(92);
    assert InverseOk(93);
    assert InverseOk(94);
    assert InverseOk(95);
  }

  lemma Inverses96()
    ensures forall k: nat :: 96 <= k < 112 ==> InverseOk(k)
  {
    assert InverseOk(96);
    assert InverseOk(97);
    assert InverseOk(98);
    assert InverseOk(99);
    assert InverseOk(100);
    assert InverseOk(101);
    assert InverseOk(102);
    assert InverseOk(103);
    assert InverseOk(104);
    assert InverseOk(105);
    assert InverseOk(106);
    assert InverseOk(107);
    assert InverseOk(108);
    assert InverseOk(109);
    assert InverseOk(110);
    assert InverseOk(111);
  }

  lemma Inverses112()
    ensures forall k: nat :: 112 <= k < 128 ==> InverseOk(k)
  {
    assert InverseOk(112);
    assert InverseOk(113);
    assert InverseOk(114);
    assert InverseOk(115);
    assert InverseOk(116);
    assert InverseOk(117);
    assert InverseOk(118);
    assert InverseOk(119);
    assert InverseOk(120);
    assert InverseOk(121);
    assert InverseOk(122);
    assert InverseOk(123);
    assert InverseOk(124);
    assert InverseOk(125);
    assert InverseOk(126);
    assert InverseOk(127);
  }

  lemma Inverses128()
    ensures forall k: nat :: 128 <= k < 144 ==> InverseOk(k)
  {
    assert InverseOk(128);
    assert InverseOk(129);
    assert InverseOk(130);
    assert InverseOk(131);
    assert InverseOk(132);
    assert InverseOk(133);
    assert InverseOk(134);
    assert InverseOk(135);
    assert InverseOk(136);
    assert InverseOk(137);
    assert InverseOk(138);
    assert InverseOk(139);
    assert InverseOk(140);
    assert InverseOk(141);
    assert InverseOk(142);
    assert InverseOk(143);
  }

  lemma Inverses144()
    ensures forall k: nat :: 144 <= k < 160 ==> InverseOk(k)
  {
    assert InverseOk(144);
    assert InverseOk(145);
    assert InverseOk(146);
    assert InverseOk(147);
    assert InverseOk(148);
    assert InverseOk(149);
    assert InverseOk(150);
    assert InverseOk(151);
    assert InverseOk(152);
    assert InverseOk(153);
    assert InverseOk(154);
    assert InverseOk(155);
    assert InverseOk(156);
    assert InverseOk(157);
    assert InverseOk(158);
    assert InverseOk(159);
  }

  lemma Inverses160()
    ensures forall k: nat :: 160 <= k < 176 ==> InverseOk(k)
  {
    assert InverseOk(160);
    assert InverseOk(161);
    assert InverseOk(162);
    assert InverseOk(163);
    assert InverseOk(164);
    assert InverseOk(165);
    assert InverseOk(166);
    assert InverseOk(167);
    assert InverseOk(168);
    assert InverseOk(169);
    assert InverseOk(170);
    assert InverseOk(171);
    assert InverseOk(172);
    assert InverseOk(173);
    assert InverseOk(174);
    assert InverseOk(175);
  }

  lemma Inverses176()
    ensures forall k: nat :: 176 <= k < 192 ==> InverseOk(k)
  {
    assert InverseOk(176);
    assert InverseOk(177);
    assert InverseOk(178);
    assert InverseOk(179);
    assert InverseOk(180);
    assert InverseOk(181);
    assert InverseOk(182);
    assert InverseOk(183);
    assert InverseOk(184);
    assert InverseOk(185);
    assert InverseOk(186);
    assert InverseOk(187);
    assert InverseOk(188);
    assert InverseOk(189);
    assert InverseOk(190);
    assert InverseOk(191);
  }

  lemma Inverses192()
    ensures forall k: nat :: 192 <= k < 208 ==> InverseOk(k)
  {
    assert InverseOk(192);
    assert InverseOk(193);
    assert InverseOk(194);
    assert InverseOk(195);
    assert InverseOk(196);
    assert InverseOk(197);
    assert InverseOk(198);
    assert InverseOk(199);
    assert InverseOk(200);
    assert InverseOk(201);
    assert InverseOk(202);
    assert InverseOk(203);
    assert InverseOk(204);
    assert InverseOk(205);
    assert InverseOk(206);
    assert InverseOk(207);
  }

  lemma Inverses208()
    ensures forall k: nat :: 208 <= k < 224 ==> InverseOk(k)
  {
    assert InverseOk(208);
    assert InverseOk(209);
    assert InverseOk(210);
    assert InverseOk(211);
    assert InverseOk(212);
    assert InverseOk(213);
    assert InverseOk(214);
    assert InverseOk(215);
    assert InverseOk(216);
    assert InverseOk(217);
    assert InverseOk(218);
    assert InverseOk(219);
    assert InverseOk(220);
    assert InverseOk(221);
    assert InverseOk(222);
    assert InverseOk(223);
  }

  lemma Inverses224()
    ensures forall k: nat :: 224 <= k < 240 ==> InverseOk(k)
  {
    assert InverseOk(224);
    assert InverseOk(225);
    assert InverseOk(226);
    assert InverseOk(227);
    assert InverseOk(228);
    assert InverseOk(229);
    assert InverseOk(230);
    assert InverseOk(231);
    assert InverseOk(232);
    assert InverseOk(233);
    assert InverseOk(234);
    assert InverseOk(235);
    assert InverseOk(236);
    assert InverseOk(237);
    assert InverseOk(238);
    assert InverseOk(239);
  }

  lemma Inverses240()
    ensures forall k: nat :: 240 <= k < 256 ==> InverseOk(k)
  {
    assert InverseOk(240);
    assert InverseOk(241);
    assert InverseOk(242);
    assert InverseOk(243);
    assert InverseOk(244);
    assert InverseOk(245);
    assert InverseOk(246);
    assert InverseOk(247);
    assert InverseOk(248);
    assert InverseOk(249);
    assert InverseOk(250);
    assert InverseOk(251);
    assert InverseOk(252);
    assert InverseOk(253);
    assert InverseOk(254);
    assert InverseOk(255);
  }

  /** ROOTS[2k]^2 = ROOTS[k] * R and ROOTS[2k+1]^2 = -ROOTS[k] * R modulo Q, at every split. */
  lemma SplitsOk(k: nat)
    requires 1 <= k < 128
    ensures SplitOk(k)
  {
    hide SplitOk;
    Splits1();
    Splits8();
    Splits16();
    Splits24();
    Splits32();
    Splits40();
    Splits48();
    Splits56();
    Splits64();
    Splits72();
    Splits80();
    Splits88();
    Splits96();
    Splits104();
    Splits112();
    Splits120();
  }

  /** ROOTS[k] * IROOTS[k] = R^2 modulo Q, at every inner node. */
  lemma InversesOk(k: nat)
    requires 1 <= k < 256
    ensures InverseOk(k)
  {
    hide InverseOk;
    Inverses1();
    Inverses16();
    Inverses32();
    Inverses48();
    Inverses64();
    Inverses80();
    Inverses96();
    Inverses112();
    Inverses128();
    Inverses144();
    Inverses160();
    Inverses176();
    Inverses192();
    Inverses208();
    Inverses224();
    Inverses240();
  }

  lemma RootSquares(k: nat)
    requires 1 <= k < 256
    ensures Cong(NodeZ(S, k), S(k) * S(k), Q)
  {
    hide RootTable, Cong;
    if k == 1 {
      RootOfRoot();
    } else {
      var t, c := RootTable(k), RootTable(k / 2);
      var d := if k % 2 == 0 then c else -c;
      CongIntro(t * t, d * R, Q, (t * t - d * R) / Q) by {
        SplitAt(k);
      }
      CongIntro(R * RINV, 1, Q, (R * RINV - 1) / Q);
      SquareOut(t, d, R, RINV, Q);
      if k % 2 == 1 {
        NegationOut(c, RINV, Q);
        CongTrans(S(k) * S(k), (d * RINV) % Q, NodeZ(S, k), Q);
      }
      CongSym(S(k) * S(k), NodeZ(S, k), Q);
    }
  }

  lemma RootOfRoot()
    ensures Cong(-1, S(1) * S(1), Q)
  {
  }

  lemma SplitAt(k: nat)
    requires 2 <= k < 256
    ensures (RootTable(k) * RootTable(k) - (if k % 2 == 0 then RootTable(k / 2) else -RootTable(k / 2)) * R) % Q == 0
  {
    hide RootTable;
    SplitsOk(k / 2);
  }

  lemma RootInverts(k: nat)
    requires 1 <= k < 256
    ensures Cong(S(k) * SI(k), 1, Q)
  {
    hide RootTable, InverseRootTable, Cong;
    InversesOk(k);
    var a, b := RootTable(k), InverseRootTable(k);
    CongIntro(a * b, R * R, Q, (a * b - R * R) / Q);
    CongIntro(R * RINV, 1, Q, (R * RINV - 1) / Q);
    InverseOut(a, b, R, RINV, Q);
  }

  /** The tables are the roots and inverse roots of the transform tree. */
  lemma TablesOk()
    ensures Roots(S, 256, Q) && InverseRoots(S, SI, 256, Q)
  {
    hide S, SI, Cong;
    forall k: nat | 1 <= k < 256 ensures Cong(NodeZ(S, k), S(k) * S(k), Q) {
      RootSquares(k);
    }
    forall k: nat | 1 <= k < 256 ensures Cong(S(k) * SI(k), 1, Q) {
      RootInverts(k);
    }
  }
}
