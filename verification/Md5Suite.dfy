// A test case of RFC 1321, appendix A.5, worked through: the digest of "abc".
module Md5Suite {
  import opened Md5

  // The message as padded: 24 bits, the end bit, and the bit count.
  predicate AbcWords(x: seq<word>) {
    && |x| == 16 && x[0] == 0x80636261 && x[14] == 24
    && forall i :: 0 < i < 16 && i != 14 ==> x[i] == 0
  }

  lemma Uses0()
    ensures SineWord(0) == 0xd76aa478 && SineWord(1) == 0xe8c7b756 && SineWord(2) == 0x242070db && SineWord(3) == 0xc1bdceee
    ensures Pick(0) == 0 && Pick(1) == 1 && Pick(2) == 2 && Pick(3) == 3
    ensures Shift(0) == 7 && Shift(1) == 12 && Shift(2) == 17 && Shift(3) == 22
  {
  }

  lemma After4(x: seq<word>)
    requires AbcWords(x)
    ensures Ops(INIT, x, 4) == State(0xd6d117b4, 0x7ad956f2, 0x2f6fbd72, 0x344a8432)
  {
    hide SineWord, Pick, Shift;
    Uses0();
    assert Ops(INIT, x, 1) == State(0x10325476, 0xd6d117b4, 0xefcdab89, 0x98badcfe);
    assert Ops(INIT, x, 2) == State(0x98badcfe, 0x344a8432, 0xd6d117b4, 0xefcdab89);
    assert Ops(INIT, x, 3) == State(0xefcdab89, 0x2f6fbd72, 0x344a8432, 0xd6d117b4);
  }

  lemma Uses4()
    ensures SineWord(4) == 0xf57c0faf && SineWord(5) == 0x4787c62a && SineWord(6) == 0xa8304613 && SineWord(7) == 0xfd469501
    ensures Pick(4) == 4 && Pick(5) == 5 && Pick(6) == 6 && Pick(7) == 7
    ensures Shift(4) == 7 && Shift(5) == 12 && Shift(6) == 17 && Shift(7) == 22
  {
  }

  lemma After8(x: seq<word>)
    requires AbcWords(x)
    ensures Ops(INIT, x, 8) == State(0xc73741ef, 0x928d99f6, 0x207dc67b, 0x8bac3051)
  {
    hide SineWord, Pick, Shift;
    Uses4();
    After4(x);
    assert Ops(INIT, x, 5) == State(0x344a8432, 0xc73741ef, 0x7ad956f2, 0x2f6fbd72);
    assert Ops(INIT, x, 6) == State(0x2f6fbd72, 0x8bac3051, 0xc73741ef, 0x7ad956f2);
    assert Ops(INIT, x, 7) == State(0x7ad956f2, 0x207dc67b, 0x8bac3051, 0xc73741ef);
  }

  lemma Uses8()
    ensures SineWord(8) == 0x698098d8 && SineWord(9) == 0x8b44f7af && SineWord(10) == 0xffff5bb1 && SineWord(11) == 0x895cd7be
    ensures Pick(8) == 8 && Pick(9) == 9 && Pick(10) == 10 && Pick(11) == 11
    ensures Shift(8) == 7 && Shift(9) == 12 && Shift(10) == 17 && Shift(11) == 22
  {
  }

  lemma After12(x: seq<word>)
    requires AbcWords(x)
    ensures Ops(INIT, x, 12) == State(0x854b3712, 0x5ed49596, 0x3020401c, 0x74e2f284)
  {
    hide SineWord, Pick, Shift;
    Uses8();
    After8(x);
    assert Ops(INIT, x, 9) == State(0x8bac3051, 0x854b3712, 0x928d99f6, 0x207dc67b);
    assert Ops(INIT, x, 10) == State(0x207dc67b, 0x74e2f284, 0x854b3712, 0x928d99f6);
    assert Ops(INIT, x, 11) == State(0x928d99f6, 0x3020401c, 0x74e2f284, 0x854b3712);
  }

  lemma Uses12()
    ensures SineWord(12) == 0x6b901122 && SineWord(13) == 0xfd987193 && SineWord(14) == 0xa679438e && SineWord(15) == 0x49b40821
    ensures Pick(12) == 12 && Pick(13) == 13 && Pick(14) == 14 && Pick(15) == 15
    ensures Shift(12) == 7 && Shift(13) == 12 && Shift(14) == 17 && Shift(15) == 22
  {
  }

  lemma After16(x: seq<word>)
    requires AbcWords(x)
    ensures Ops(INIT, x, 16) == State(0xdda9b9a6, 0x72aff2e0, 0xe396856b, 0xa1051895)
  {
    hide SineWord, Pick, Shift;
    Uses12();
    After12(x);
    assert Ops(INIT, x, 13) == State(0x74e2f284, 0xdda9b9a6, 0x5ed49596, 0x3020401c);
    assert Ops(INIT, x, 14) == State(0x3020401c, 0xa1051895, 0xdda9b9a6, 0x5ed49596);
    assert Ops(INIT, x, 15) == State(0x5ed49596, 0xe396856b, 0xa1051895, 0xdda9b9a6);
  }

  lemma Uses16()
    ensures SineWord(16) == 0xf61e2562 && SineWord(17) == 0xc040b340 && SineWord(18) == 0x265e5a51 && SineWord(19) == 0xe9b6c7aa
    ensures Pick(16) == 1 && Pick(17) == 6 && Pick(18) == 11 && Pick(19) == 0
    ensures Shift(16) == 5 && Shift(17) == 9 && Shift(18) == 14 && Shift(19) == 20
  {
  }

  lemma After20(x: seq<word>)
    requires AbcWords(x)
    ensures Ops(INIT, x, 20) == State(0x3e9e9126, 0xb5b204e4, 0xe25e1652, 0x4a1d804e)
  {
    hide SineWord, Pick, Shift;
    Uses16();
    After16(x);
    assert Ops(INIT, x, 17) == State(0xa1051895, 0x3e9e9126, 0x72aff2e0, 0xe396856b);
    assert Ops(INIT, x, 18) == State(0xe396856b, 0x4a1d804e, 0x3e9e9126, 0x72aff2e0);
    assert Ops(INIT, x, 19) == State(0x72aff2e0, 0xe25e1652, 0x4a1d804e, 0x3e9e9126);
  }

  lemma Uses20()
    ensures SineWord(20) == 0xd62f105d && SineWord(21) == 0x02441453 && SineWord(22) == 0xd8a1e681 && SineWord(23) == 0xe7d3fbc8
    ensures Pick(20) == 5 && Pick(21) == 10 && Pick(22) == 15 && Pick(23) == 4
    ensures Shift(20) == 5 && Shift(21) == 9 && Shift(22) == 14 && Shift(23) == 20
  {
  }

  lemma After24(x: seq<word>)
    requires AbcWords(x)
    ensures Ops(INIT, x, 24) == State(0x59a8ffda, 0x47092c07, 0xabfc7920, 0x6d002f1e)
  {
    hide SineWord, Pick, Shift;
    Uses20();
    After20(x);
    assert Ops(INIT, x, 21) == State(0x4a1d804e, 0x59a8ffda, 0xb5b204e4, 0xe25e1652);
    assert Ops(INIT, x, 22) == State(0xe25e1652, 0x6d002f1e, 0x59a8ffda, 0xb5b204e4);
    assert Ops(INIT, x, 23) == State(0xb5b204e4, 0xabfc7920, 0x6d002f1e, 0x59a8ffda);
  }

  lemma Uses24()
    ensures SineWord(24) == 0x21e1cde6 && SineWord(25) == 0xc33707d6 && SineWord(26) == 0xf4d50d87 && SineWord(27) == 0x455a14ed
    ensures Pick(24) == 9 && Pick(25) == 14 && Pick(26) == 3 && Pick(27) == 8
    ensures Shift(24) == 5 && Shift(25) == 9 && Shift(26) == 14 && Shift(27) == 20
  {
  }

  lemma After28(x: seq<word>)
    requires AbcWords(x)
    ensures Ops(INIT, x, 28) == State(0xb7f268cf, 0x786acb8f, 0xfe1623b1, 0x09388eff)
  {
    hide SineWord, Pick, Shift;
    Uses24();
    After24(x);
    assert Ops(INIT, x, 25) == State(0x6d002f1e, 0xb7f268cf, 0x47092c07, 0xabfc7920);
    assert Ops(INIT, x, 26) == State(0xabfc7920, 0x09388eff, 0xb7f268cf, 0x47092c07);
    assert Ops(INIT, x, 27) == State(0x47092c07, 0xfe1623b1, 0x09388eff, 0xb7f268cf);
  }

  lemma Uses28()
    ensures SineWord(28) == 0xa9e3e905 && SineWord(29) == 0xfcefa3f8 && SineWord(30) == 0x676f02d9 && SineWord(31) == 0x8d2a4c8a
    ensures Pick(28) == 13 && Pick(29) == 2 && Pick(30) == 7 && Pick(31) == 12
    ensures Shift(28) == 5 && Shift(29) == 9 && Shift(30) == 14 && Shift(31) == 20
  {
  }

  lemma After32(x: seq<word>)
    requires AbcWords(x)
    ensures Ops(INIT, x, 32) == State(0x790a77fb, 0x726342d3, 0xa62884aa, 0x9f47e4f8)
  {
    hide SineWord, Pick, Shift;
    Uses28();
    After28(x);
    assert Ops(INIT, x, 29) == State(0x09388eff, 0x790a77fb, 0x786acb8f, 0xfe1623b1);
    assert Ops(INIT, x, 30) == State(0xfe1623b1, 0x9f47e4f8, 0x790a77fb, 0x786acb8f);
    assert Ops(INIT, x, 31) == State(0x786acb8f, 0xa62884aa, 0x9f47e4f8, 0x790a77fb);
  }

  lemma Uses32()
    ensures SineWord(32) == 0xfffa3942 && SineWord(33) == 0x8771f681 && SineWord(34) == 0x6d9d6122 && SineWord(35) == 0xfde5380c
    ensures Pick(32) == 5 && Pick(33) == 8 && Pick(34) == 11 && Pick(35) == 14
    ensures Shift(32) == 4 && Shift(33) == 11 && Shift(34) == 16 && Shift(35) == 23
  {
  }

  lemma After36(x: seq<word>)
    requires AbcWords(x)
    ensures Ops(INIT, x, 36) == State(0xb3707ebf, 0x3b0875c7, 0x8d212ff5, 0x60127b2e)
  {
    hide SineWord, Pick, Shift;
    Uses32();
    After32(x);
    assert Ops(INIT, x, 33) == State(0x9f47e4f8, 0xb3707ebf, 0x726342d3, 0xa62884aa);
    assert Ops(INIT, x, 34) == State(0xa62884aa, 0x60127b2e, 0xb3707ebf, 0x726342d3);
    assert Ops(INIT, x, 35) == State(0x726342d3, 0x8d212ff5, 0x60127b2e, 0xb3707ebf);
  }

  lemma Uses36()
    ensures SineWord(36) == 0xa4beea44 && SineWord(37) == 0x4bdecfa9 && SineWord(38) == 0xf6bb4b60 && SineWord(39) == 0xbebfbc70
    ensures Pick(36) == 1 && Pick(37) == 4 && Pick(38) == 7 && Pick(39) == 10
    ensures Shift(36) == 4 && Shift(37) == 11 && Shift(38) == 16 && Shift(39) == 23
  {
  }

  lemma After40(x: seq<word>)
    requires AbcWords(x)
    ensures Ops(INIT, x, 40) == State(0x21b117b9, 0x5a2f5ea5, 0x3575227e, 0x6e7429d5)
  {
    hide SineWord, Pick, Shift;
    Uses36();
    After36(x);
    assert Ops(INIT, x, 37) == State(0x60127b2e, 0x21b117b9, 0x3b0875c7, 0x8d212ff5);
    assert Ops(INIT, x, 38) == State(0x8d212ff5, 0x6e7429d5, 0x21b117b9, 0x3b0875c7);
    assert Ops(INIT, x, 39) == State(0x3b0875c7, 0x3575227e, 0x6e7429d5, 0x21b117b9);
  }

  lemma Uses40()
    ensures SineWord(40) == 0x289b7ec6 && SineWord(41) == 0xeaa127fa && SineWord(42) == 0xd4ef3085 && SineWord(43) == 0x04881d05
    ensures Pick(40) == 13 && Pick(41) == 0 && Pick(42) == 3 && Pick(43) == 6
    ensures Shift(40) == 4 && Shift(41) == 11 && Shift(42) == 16 && Shift(43) == 23
  {
  }

  lemma After44(x: seq<word>)
    requires AbcWords(x)
    ensures Ops(INIT, x, 44) == State(0x11de1779, 0x4c6124f4, 0x31c465ca, 0xfadcaa38)
  {
    hide SineWord, Pick, Shift;
    Uses40();
    After40(x);
    assert Ops(INIT, x, 41) == State(0x6e7429d5, 0x11de1779, 0x5a2f5ea5, 0x3575227e);
    assert Ops(INIT, x, 42) == State(0x3575227e, 0xfadcaa38, 0x11de1779, 0x5a2f5ea5);
    assert Ops(INIT, x, 43) == State(0x5a2f5ea5, 0x31c465ca, 0xfadcaa38, 0x11de1779);
  }

  lemma Uses44()
    ensures SineWord(44) == 0xd9d4d039 && SineWord(45) == 0xe6db99e5 && SineWord(46) == 0x1fa27cf8 && SineWord(47) == 0xc4ac5665
    ensures Pick(44) == 9 && Pick(45) == 12 && Pick(46) == 15 && Pick(47) == 2
    ensures Shift(44) == 4 && Shift(45) == 11 && Shift(46) == 16 && Shift(47) == 23
  {
  }

  lemma After48(x: seq<word>)
    requires AbcWords(x)
    ensures Ops(INIT, x, 48) == State(0x7f2e507b, 0x7beb9700, 0x8fae6399, 0x99d9679d)
  {
    hide SineWord, Pick, Shift;
    Uses44();
    After44(x);
    assert Ops(INIT, x, 45) == State(0xfadcaa38, 0x7f2e507b, 0x4c6124f4, 0x31c465ca);
    assert Ops(INIT, x, 46) == State(0x31c465ca, 0x99d9679d, 0x7f2e507b, 0x4c6124f4);
    assert Ops(INIT, x, 47) == State(0x4c6124f4, 0x8fae6399, 0x99d9679d, 0x7f2e507b);
  }

  lemma Uses48()
    ensures SineWord(48) == 0xf4292244 && SineWord(49) == 0x432aff97 && SineWord(50) == 0xab9423a7 && SineWord(51) == 0xfc93a039
    ensures Pick(48) == 0 && Pick(49) == 7 && Pick(50) == 14 && Pick(51) == 5
    ensures Shift(48) == 6 && Shift(49) == 10 && Shift(50) == 15 && Shift(51) == 21
  {
  }

  lemma After52(x: seq<word>)
    requires AbcWords(x)
    ensures Ops(INIT, x, 52) == State(0x7b201df8, 0x8bf025c4, 0xb298cefd, 0xf4e8e96e)
  {
    hide SineWord, Pick, Shift;
    Uses48();
    After48(x);
    assert Ops(INIT, x, 49) == State(0x99d9679d, 0x7b201df8, 0x7beb9700, 0x8fae6399);
    assert Ops(INIT, x, 50) == State(0x8fae6399, 0xf4e8e96e, 0x7b201df8, 0x7beb9700);
    assert Ops(INIT, x, 51) == State(0x7beb9700, 0xb298cefd, 0xf4e8e96e, 0x7b201df8);
  }

  lemma Uses52()
    ensures SineWord(52) == 0x655b59c3 && SineWord(53) == 0x8f0ccc92 && SineWord(54) == 0xffeff47d && SineWord(55) == 0x85845dd1
    ensures Pick(52) == 12 && Pick(53) == 3 && Pick(54) == 10 && Pick(55) == 1
    ensures Shift(52) == 6 && Shift(53) == 10 && Shift(54) == 15 && Shift(55) == 21
  {
  }

  lemma After56(x: seq<word>)
    requires AbcWords(x)
    ensures Ops(INIT, x, 56) == State(0x06cc5e8a, 0x3bfa2c27, 0x7d632dd0, 0x5b0d97aa)
  {
    hide SineWord, Pick, Shift;
    Uses52();
    After52(x);
    assert Ops(INIT, x, 53) == State(0xf4e8e96e, 0x06cc5e8a, 0x8bf025c4, 0xb298cefd);
    assert Ops(INIT, x, 54) == State(0xb298cefd, 0x5b0d97aa, 0x06cc5e8a, 0x8bf025c4);
    assert Ops(INIT, x, 55) == State(0x8bf025c4, 0x7d632dd0, 0x5b0d97aa, 0x06cc5e8a);
  }

  lemma Uses56()
    ensures SineWord(56) == 0x6fa87e4f && SineWord(57) == 0xfe2ce6e0 && SineWord(58) == 0xa3014314 && SineWord(59) == 0x4e0811a1
    ensures Pick(56) == 8 && Pick(57) == 15 && Pick(58) == 6 && Pick(59) == 13
    ensures Shift(56) == 6 && Shift(57) == 10 && Shift(58) == 15 && Shift(59) == 21
  {
  }

  lemma After60(x: seq<word>)
    requires AbcWords(x)
    ensures Ops(INIT, x, 60) == State(0x7f81cc35, 0x7327d604, 0x4f9dbe3f, 0x094454ab)
  {
    hide SineWord, Pick, Shift;
    Uses56();
    After56(x);
    assert Ops(INIT, x, 57) == State(0x5b0d97aa, 0x7f81cc35, 0x3bfa2c27, 0x7d632dd0);
    assert Ops(INIT, x, 58) == State(0x7d632dd0, 0x094454ab, 0x7f81cc35, 0x3bfa2c27);
    assert Ops(INIT, x, 59) == State(0x3bfa2c27, 0x4f9dbe3f, 0x094454ab, 0x7f81cc35);
  }

  lemma Uses60()
    ensures SineWord(60) == 0xf7537e82 && SineWord(61) == 0xbd3af235 && SineWord(62) == 0x2ad7d2bb && SineWord(63) == 0xeb86d391
    ensures Pick(60) == 4 && Pick(61) == 11 && Pick(62) == 2 && Pick(63) == 9
    ensures Shift(60) == 6 && Shift(61) == 10 && Shift(62) == 15 && Shift(63) == 21
  {
  }

  lemma After64(x: seq<word>)
    requires AbcWords(x)
    ensures Ops(INIT, x, 64) == State(0x310ade8f, 0xc08226b3, 0xe484b9d8, 0x624d8cb2)
  {
    hide SineWord, Pick, Shift;
    Uses60();
    After60(x);
    assert Ops(INIT, x, 61) == State(0x094454ab, 0x310ade8f, 0x7327d604, 0x4f9dbe3f);
    assert Ops(INIT, x, 62) == State(0x4f9dbe3f, 0x624d8cb2, 0x310ade8f, 0x7327d604);
    assert Ops(INIT, x, 63) == State(0x7327d604, 0xe484b9d8, 0x624d8cb2, 0x310ade8f);
  }

  // The block that the padded message fills.
  function AbcBlock(): seq<byte> {
    [0x61, 0x62, 0x63] + Padding(3)
  }

  lemma AbcPadding()
    ensures Padding(3) == [0x80] + Zeros(52) + [24, 0, 0, 0, 0, 0, 0, 0]
  {
    assert PadLength(3) == 53;
    BitsOf24();
  }

  lemma BitsOf24()
    ensures LengthBytes((8 * 3) % TWO64) == [24, 0, 0, 0, 0, 0, 0, 0]
  {
    hide Pow256;
    var r := LengthBytes(24);
    forall i | 0 <= i < 8
      ensures r[i] == if i == 0 then 24 else 0
    {
      Power(i);
      DivSmall(24, Pow256(i));
    }
  }

  lemma DivSmall(a: nat, b: nat)
    requires b > 0
    ensures a < b ==> a / b == 0
    ensures b == 1 ==> a / b == a
  {
  }

  lemma {:induction false} Power(i: nat)
    ensures if i == 0 then Pow256(i) == 1 else Pow256(i) >= 0x100
  {
    if i > 1 {
      Power(i - 1);
    }
  }

  lemma AbcLoaded()
    ensures |AbcBlock()| == 64 && AbcWords(Words(AbcBlock()))
  {
    hide Padding;
    AbcPadding();
    var p := AbcBlock();
    assert p[0] == 0x61 && p[1] == 0x62 && p[2] == 0x63 && p[3] == 0x80 && p[56] == 24;
    assert forall i :: 4 <= i < 64 && i != 56 ==> p[i] == 0;
    FirstWord(p);
    forall i | 0 < i < 16 && i != 14
      ensures WordAt(p, i) == 0
    {
      ZeroWord(p, i);
    }
  }

  lemma FirstWord(p: seq<byte>)
    requires |p| == 64 && p[0] == 0x61 && p[1] == 0x62 && p[2] == 0x63 && p[3] == 0x80
    requires p[56] == 24 && p[57] == p[58] == p[59] == 0
    ensures WordAt(p, 0) == 0x80636261 && WordAt(p, 14) == 24
  {
  }

  lemma ZeroWord(p: seq<byte>, i: nat)
    requires 4 * i + 4 <= |p| && p[4 * i] == p[4 * i + 1] == p[4 * i + 2] == p[4 * i + 3] == 0
    ensures WordAt(p, i) == 0
  {
  }

  // MD5 ("abc") = 900150983cd24fb0d6963f7d28e17f72
  lemma AbcDigest()
    ensures Digest([0x61, 0x62, 0x63]) == [0x90, 0x01, 0x50, 0x98, 0x3c, 0xd2, 0x4f, 0xb0, 0xd6, 0x96, 0x3f, 0x7d, 0x28, 0xe1, 0x7f, 0x72]
  {
    hide Ops, Words, Padding, Compress, Output;
    var p := AbcBlock();
    AbcLoaded();
    AbcCompressed(p);
    assert p[..64] == p && p[64..] == [];
    FoldDone(Compress(INIT, p), []);
    AbcOutput();
  }

  lemma AbcCompressed(p: seq<byte>)
    requires |p| == 64 && AbcWords(Words(p))
    ensures Compress(INIT, p) == State(0x98500190, 0xb04fd23c, 0x7d3f96d6, 0x727fe128)
  {
    hide Ops, Words;
    After64(Words(p));
  }

  lemma AbcOutput()
    ensures Output(State(0x98500190, 0xb04fd23c, 0x7d3f96d6, 0x727fe128))
            == [0x90, 0x01, 0x50, 0x98, 0x3c, 0xd2, 0x4f, 0xb0, 0xd6, 0x96, 0x3f, 0x7d, 0x28, 0xe1, 0x7f, 0x72]
  {
  }

  // The context comes to it whether the message comes at once or byte by byte.
  method HashAbc(split: bool) returns (out: array<byte>)
    ensures out[..] == [0x90, 0x01, 0x50, 0x98, 0x3c, 0xd2, 0x4f, 0xb0, 0xd6, 0x96, 0x3f, 0x7d, 0x28, 0xe1, 0x7f, 0x72]
  {
    hide Digest;
    var ctx := new Context();
    if split {
      ctx.Update([0x61]);
      ctx.Update([]);
      ctx.Update([0x62, 0x63]);
    } else {
      ctx.Update([0x61, 0x62, 0x63]);
    }
    assert ctx.msg == [0x61, 0x62, 0x63];
    out := new byte[16](_ => 0);
    ctx.Final(out);
    AbcDigest();
  }
}
