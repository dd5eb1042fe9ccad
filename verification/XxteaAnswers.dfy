/** What the cipher computes: a row-by-row definition without a ring, and known answers. */
module XxteaAnswers {
  import opened Machine
  import opened Xxtea

  // ----- One round as a relation between two rows

  /** Word p of the new row: the neighbour after it is still old, but for the last word; the one before it is new. */
  ghost predicate Turned(u: seq<word>, w: seq<word>, key: seq<word>, sum: word, p: nat)
    requires |u| == |w| && p < |u| && |key| == 4
  {
    var y := if p + 1 < |u| then u[p + 1] else w[0];
    var z := if p > 0 then w[p - 1] else u[|u| - 1];
    w[p] == Add(u[p], Mx(sum, y, z, p, sum / 4 % 4, key))
  }

  /** A round turns a row of two words or more into another exactly when each new word comes from its neighbours. */
  lemma RoundIs(u: seq<word>, w: seq<word>, key: seq<word>, sum: word)
    requires |u| == |w| >= 2 && |key| == 4
    ensures EncUpTo(u, key, sum, |u|) == w <==> forall p :: 0 <= p < |u| ==> Turned(u, w, key, sum, p)
  {
    var r := EncUpTo(u, key, sum, |u|);
    if r == w {
      forall p | 0 <= p < |u|
        ensures Turned(u, w, key, sum, p)
      {
        UpToTurned(u, key, sum, p);
      }
    }
    if forall p :: 0 <= p < |u| ==> Turned(u, w, key, sum, p) {
      TurnedUpTo(u, w, key, sum, |u|);
      assert w[..|u|] == w && w[..|u|] + u[|u|..] == w;
    }
  }

  /** The first k words are new, the others are old. */
  lemma {:induction false} TurnedUpTo(u: seq<word>, w: seq<word>, key: seq<word>, sum: word, k: nat)
    requires |u| == |w| >= 2 && |key| == 4 && k <= |u| && forall p :: 0 <= p < |u| ==> Turned(u, w, key, sum, p)
    ensures EncUpTo(u, key, sum, k) == w[..k] + u[k..]
  {
    hide Mx;
    if k > 0 {
      TurnedUpTo(u, w, key, sum, k - 1);
      assert Turned(u, w, key, sum, k - 1);
    }
  }

  lemma {:induction false} Unchanged(u: seq<word>, key: seq<word>, sum: word, k: nat, p: nat)
    requires |key| == 4 && k <= |u| && p < |u|
    ensures k <= p ==> EncUpTo(u, key, sum, k)[p] == u[p]
    ensures p < k ==> EncUpTo(u, key, sum, k)[p] == EncUpTo(u, key, sum, p + 1)[p]
    decreases k
  {
    hide Mx;
    if k > 0 && p + 1 != k {
      Unchanged(u, key, sum, k - 1, p);
    }
  }

  lemma UpToTurned(u: seq<word>, key: seq<word>, sum: word, p: nat)
    requires |u| >= 2 && |key| == 4 && p < |u|
    ensures Turned(u, EncUpTo(u, key, sum, |u|), key, sum, p)
  {
    hide Mx;
    var n := |u|;
    Unchanged(u, key, sum, n, p);
    Unchanged(u, key, sum, p, p);
    Unchanged(u, key, sum, p, Next(p, n));
    Unchanged(u, key, sum, n, Next(p, n));
    Unchanged(u, key, sum, p, Prev(p, n));
    Unchanged(u, key, sum, n, Prev(p, n));
  }

  // ----- Chaining rounds

  lemma Round(v: seq<word>, key: seq<word>, r: nat, sum: word, w: seq<word>)
    requires |key| == 4 && |v| == |w| >= 2 && sum == Add(SumAt(r), DELTA)
    requires forall p :: 0 <= p < |v| ==> Turned(EncRounds(v, key, r), w, key, sum, p)
    ensures EncRounds(v, key, r + 1) == w && SumAt(r + 1) == sum
  {
    RoundIs(EncRounds(v, key, r), w, key, sum);
  }

  /** The other of two neighbouring numbers. */
  function Flip(e: nat): (r: nat)
    ensures e < 4 ==> r < 4
  {
    if e == 0 then 1 else if e == 1 then 0 else if e == 2 then 3 else 2
  }

  lemma Choice(e: nat)
    requires e < 4
    ensures Xor2(0, e) == e && Xor2(1, e) == Flip(e)
  {
  }

  /** One round of two words; e is the choice of the key words in it. */
  lemma Pair(v: seq<word>, key: seq<word>, r: nat, sum: word, e: nat, a: word, b: word, c: word, d: word)
    requires |key| == 4 && e < 4 && e == sum / 4 % 4 && sum == Add(SumAt(r), DELTA) && EncRounds(v, key, r) == [a, b]
    requires c == Add(a, Mix(sum, b, b, key[e])) && d == Add(b, Mix(sum, c, c, key[Flip(e)]))
    ensures EncRounds(v, key, r + 1) == [c, d] && SumAt(r + 1) == sum
  {
    hide Mix, EncRounds, SumAt, Add, Xor2, Flip;
    var u: seq<word>, w: seq<word> := [a, b], [c, d];
    Choice(e);
    assert Turned(u, w, key, sum, 0) && Turned(u, w, key, sum, 1);
    Round(v, key, r, sum, w);
  }

  // ----- Zero words and key

  const ZERO_KEY: seq<word> := [0x00000000, 0x00000000, 0x00000000, 0x00000000]

  lemma ZeroMix4()
    ensures Mix(0x9E3779B9, 0x00000000, 0x00000000, 0x00000000) == 0x9E3779B9
         && Mix(0x9E3779B9, 0x9E3779B9, 0x9E3779B9, 0x00000000) == 0xF2EAA869
         && Mix(0x3C6EF372, 0xF2EAA869, 0xF2EAA869, 0x00000000) == 0x3C5ACB00
         && Mix(0x3C6EF372, 0xDA9244B9, 0xDA9244B9, 0x00000000) == 0xDE9D7F4C
         && Mix(0xDAA66D2B, 0xD18827B5, 0xD18827B5, 0x00000000) == 0x9FD62DDC
         && Mix(0xDAA66D2B, 0x7A687295, 0x7A687295, 0x00000000) == 0x8F0A2291
         && Mix(0x78DDE6E4, 0x60924A46, 0x60924A46, 0x00000000) == 0xFE655E9A
         && Mix(0x78DDE6E4, 0x78CDD12F, 0x78CDD12F, 0x00000000) == 0x1C6BDBF0
  {
  }

  lemma Zero4(v: seq<word>)
    requires EncRounds(v, ZERO_KEY, 0) == [0x00000000, 0x00000000] && SumAt(0) == 0x00000000
    ensures EncRounds(v, ZERO_KEY, 4) == [0x78CDD12F, 0x7CFE2636] && SumAt(4) == 0x78DDE6E4
  {
    hide EncRounds, SumAt, Mix;
    ZeroMix4();
    Pair(v, ZERO_KEY, 0, 0x9E3779B9, 2, 0x00000000, 0x00000000, 0x9E3779B9, 0xF2EAA869);
    Pair(v, ZERO_KEY, 1, 0x3C6EF372, 0, 0x9E3779B9, 0xF2EAA869, 0xDA9244B9, 0xD18827B5);
    Pair(v, ZERO_KEY, 2, 0xDAA66D2B, 2, 0xDA9244B9, 0xD18827B5, 0x7A687295, 0x60924A46);
    Pair(v, ZERO_KEY, 3, 0x78DDE6E4, 1, 0x7A687295, 0x60924A46, 0x78CDD12F, 0x7CFE2636);
  }

  lemma ZeroMix8()
    ensures Mix(0x1715609D, 0x7CFE2636, 0x7CFE2636, 0x00000000) == 0x58747D6E
         && Mix(0x1715609D, 0xD1424E9D, 0xD1424E9D, 0x00000000) == 0xC616B49E
         && Mix(0xB54CDA56, 0x4314DAD4, 0x4314DAD4, 0x00000000) == 0x7E17D8F6
         && Mix(0xB54CDA56, 0x4F5A2793, 0x4F5A2793, 0x00000000) == 0x722AA86A
         && Mix(0x5384540F, 0xB53F833E, 0xB53F833E, 0x00000000) == 0x8D4CEE07
         && Mix(0x5384540F, 0xDCA7159A, 0xDCA7159A, 0x00000000) == 0x2D957EF8
         && Mix(0xF1BBCDC8, 0xE2D50236, 0xE2D50236, 0x00000000) == 0x4B0EF1DB
         && Mix(0xF1BBCDC8, 0x27B60775, 0x27B60775, 0x00000000) == 0xE2BFB79F
  {
  }

  lemma Zero8(v: seq<word>)
    requires EncRounds(v, ZERO_KEY, 4) == [0x78CDD12F, 0x7CFE2636] && SumAt(4) == 0x78DDE6E4
    ensures EncRounds(v, ZERO_KEY, 8) == [0x27B60775, 0xC594B9D5] && SumAt(8) == 0xF1BBCDC8
  {
    hide EncRounds, SumAt, Mix;
    ZeroMix8();
    Pair(v, ZERO_KEY, 4, 0x1715609D, 3, 0x78CDD12F, 0x7CFE2636, 0xD1424E9D, 0x4314DAD4);
    Pair(v, ZERO_KEY, 5, 0xB54CDA56, 1, 0xD1424E9D, 0x4314DAD4, 0x4F5A2793, 0xB53F833E);
    Pair(v, ZERO_KEY, 6, 0x5384540F, 3, 0x4F5A2793, 0xB53F833E, 0xDCA7159A, 0xE2D50236);
    Pair(v, ZERO_KEY, 7, 0xF1BBCDC8, 2, 0xDCA7159A, 0xE2D50236, 0x27B60775, 0xC594B9D5);
  }

  lemma ZeroMix12()
    ensures Mix(0x8FF34781, 0xC594B9D5, 0xC594B9D5, 0x00000000) == 0x5D8BF52D
         && Mix(0x8FF34781, 0x8541FCA2, 0x8541FCA2, 0x00000000) == 0xDA1144E4
         && Mix(0x2E2AC13A, 0x9FA5FEB9, 0x9FA5FEB9, 0x00000000) == 0x35231764
         && Mix(0x2E2AC13A, 0xBA651406, 0xBA651406, 0x00000000) == 0xD3D1B2DA
         && Mix(0xCC623AF3, 0x7377B193, 0x7377B193, 0x00000000) == 0x35D65631
         && Mix(0xCC623AF3, 0xF03B6A37, 0xF03B6A37, 0x00000000) == 0xC98AFB38
         && Mix(0x6A99B4AC, 0x3D02ACCB, 0x3D02ACCB, 0x00000000) == 0x59F0FA41
         && Mix(0x6A99B4AC, 0x4A2C6478, 0x4A2C6478, 0x00000000) == 0xBC86889E
  {
  }

  lemma Zero12(v: seq<word>)
    requires EncRounds(v, ZERO_KEY, 8) == [0x27B60775, 0xC594B9D5] && SumAt(8) == 0xF1BBCDC8
    ensures EncRounds(v, ZERO_KEY, 12) == [0x4A2C6478, 0xF9893569] && SumAt(12) == 0x6A99B4AC
  {
    hide EncRounds, SumAt, Mix;
    ZeroMix12();
    Pair(v, ZERO_KEY, 8, 0x8FF34781, 0, 0x27B60775, 0xC594B9D5, 0x8541FCA2, 0x9FA5FEB9);
    Pair(v, ZERO_KEY, 9, 0x2E2AC13A, 2, 0x8541FCA2, 0x9FA5FEB9, 0xBA651406, 0x7377B193);
    Pair(v, ZERO_KEY, 10, 0xCC623AF3, 0, 0xBA651406, 0x7377B193, 0xF03B6A37, 0x3D02ACCB);
    Pair(v, ZERO_KEY, 11, 0x6A99B4AC, 3, 0xF03B6A37, 0x3D02ACCB, 0x4A2C6478, 0xF9893569);
  }

  lemma ZeroMix16()
    ensures Mix(0x08D12E65, 0xF9893569, 0xF9893569, 0x00000000) == 0x836A5C39
         && Mix(0x08D12E65, 0xCD96C0B1, 0xCD96C0B1, 0x00000000) == 0x63C82842
         && Mix(0xA708A81E, 0x5D515DAB, 0x5D515DAB, 0x00000000) == 0x01C4BE26
         && Mix(0xA708A81E, 0xCF5B7ED7, 0xCF5B7ED7, 0x00000000) == 0x10DCF6F4
         && Mix(0x454021D7, 0x6E2E549F, 0x6E2E549F, 0x00000000) == 0x33746DDC
         && Mix(0x454021D7, 0x02CFECB3, 0x02CFECB3, 0x00000000) == 0x7D8EBE58
         && Mix(0xE3779B90, 0xEBBD12F7, 0xEBBD12F7, 0x00000000) == 0xA4D7AC27
         && Mix(0xE3779B90, 0xA7A798DA, 0xA7A798DA, 0x00000000) == 0xE647424D
  {
  }

  lemma Zero16(v: seq<word>)
    requires EncRounds(v, ZERO_KEY, 12) == [0x4A2C6478, 0xF9893569] && SumAt(12) == 0x6A99B4AC
    ensures EncRounds(v, ZERO_KEY, 16) == [0xA7A798DA, 0xD2045544] && SumAt(16) == 0xE3779B90
  {
    hide EncRounds, SumAt, Mix;
    ZeroMix16();
    Pair(v, ZERO_KEY, 12, 0x08D12E65, 1, 0x4A2C6478, 0xF9893569, 0xCD96C0B1, 0x5D515DAB);
    Pair(v, ZERO_KEY, 13, 0xA708A81E, 3, 0xCD96C0B1, 0x5D515DAB, 0xCF5B7ED7, 0x6E2E549F);
    Pair(v, ZERO_KEY, 14, 0x454021D7, 1, 0xCF5B7ED7, 0x6E2E549F, 0x02CFECB3, 0xEBBD12F7);
    Pair(v, ZERO_KEY, 15, 0xE3779B90, 0, 0x02CFECB3, 0xEBBD12F7, 0xA7A798DA, 0xD2045544);
  }

  lemma ZeroMix20()
    ensures Mix(0x81AF1549, 0xD2045544, 0xD2045544, 0x00000000) == 0xAD28C3F3
         && Mix(0x81AF1549, 0x54D05CCD, 0x54D05CCD, 0x00000000) == 0xB3C81F4A
         && Mix(0x1FE68F02, 0x85CC748E, 0x85CC748E, 0x00000000) == 0x40690817
         && Mix(0x1FE68F02, 0x953964E4, 0x953964E4, 0x00000000) == 0xB164EB59
         && Mix(0xBE1E08BB, 0x37315FE7, 0x37315FE7, 0x00000000) == 0x93107DAC
         && Mix(0xBE1E08BB, 0x2849E290, 0x2849E290, 0x00000000) == 0x9F5D161D
         && Mix(0x5C558274, 0xD68E7604, 0xD68E7604, 0x00000000) == 0xAFAE3054
         && Mix(0x5C558274, 0xD7F812E4, 0xD7F812E4, 0x00000000) == 0xDD781457
  {
  }

  lemma Zero20(v: seq<word>)
    requires EncRounds(v, ZERO_KEY, 16) == [0xA7A798DA, 0xD2045544] && SumAt(16) == 0xE3779B90
    ensures EncRounds(v, ZERO_KEY, 20) == [0xD7F812E4, 0xB4068A5B] && SumAt(20) == 0x5C558274
  {
    hide EncRounds, SumAt, Mix;
    ZeroMix20();
    Pair(v, ZERO_KEY, 16, 0x81AF1549, 2, 0xA7A798DA, 0xD2045544, 0x54D05CCD, 0x85CC748E);
    Pair(v, ZERO_KEY, 17, 0x1FE68F02, 0, 0x54D05CCD, 0x85CC748E, 0x953964E4, 0x37315FE7);
    Pair(v, ZERO_KEY, 18, 0xBE1E08BB, 2, 0x953964E4, 0x37315FE7, 0x2849E290, 0xD68E7604);
    Pair(v, ZERO_KEY, 19, 0x5C558274, 1, 0x2849E290, 0xD68E7604, 0xD7F812E4, 0xB4068A5B);
  }

  lemma ZeroMix24()
    ensures Mix(0xFA8CFC2D, 0xB4068A5B, 0xB4068A5B, 0x00000000) == 0x2E3392E8
         && Mix(0xFA8CFC2D, 0x062BA5CC, 0x062BA5CC, 0x00000000) == 0x79CC0D3A
         && Mix(0x98C475E6, 0x2DD29795, 0x2DD29795, 0x00000000) == 0x6C5E8C82
         && Mix(0x98C475E6, 0x728A324E, 0x728A324E, 0x00000000) == 0xAC7682A5
         && Mix(0x36FBEF9F, 0xDA491A3A, 0xDA491A3A, 0x00000000) == 0xE932AEFF
         && Mix(0x36FBEF9F, 0x5BBCE14D, 0x5BBCE14D, 0x00000000) == 0xD5E41B28
         && Mix(0xD5336958, 0xB02D3562, 0xB02D3562, 0x00000000) == 0xCF473D33
         && Mix(0xD5336958, 0x2B041E80, 0x2B041E80, 0x00000000) == 0x4B52509C
  {
  }

  lemma Zero24(v: seq<word>)
    requires EncRounds(v, ZERO_KEY, 20) == [0xD7F812E4, 0xB4068A5B] && SumAt(20) == 0x5C558274
    ensures EncRounds(v, ZERO_KEY, 24) == [0x2B041E80, 0xFB7F85FE] && SumAt(24) == 0xD5336958
  {
    hide EncRounds, SumAt, Mix;
    ZeroMix24();
    Pair(v, ZERO_KEY, 20, 0xFA8CFC2D, 3, 0xD7F812E4, 0xB4068A5B, 0x062BA5CC, 0x2DD29795);
    Pair(v, ZERO_KEY, 21, 0x98C475E6, 1, 0x062BA5CC, 0x2DD29795, 0x728A324E, 0xDA491A3A);
    Pair(v, ZERO_KEY, 22, 0x36FBEF9F, 3, 0x728A324E, 0xDA491A3A, 0x5BBCE14D, 0xB02D3562);
    Pair(v, ZERO_KEY, 23, 0xD5336958, 2, 0x5BBCE14D, 0xB02D3562, 0x2B041E80, 0xFB7F85FE);
  }

  lemma ZeroMix28()
    ensures Mix(0x736AE311, 0xFB7F85FE, 0xFB7F85FE, 0x00000000) == 0x112977DB
         && Mix(0x736AE311, 0x3C2D965B, 0x3C2D965B, 0x00000000) == 0x3DC106FC
         && Mix(0x11A25CCA, 0x39408CFA, 0x39408CFA, 0x00000000) == 0x15CA48E4
         && Mix(0x11A25CCA, 0x51F7DF3F, 0x51F7DF3F, 0x00000000) == 0xC8DEA928
         && Mix(0xAFD9D683, 0x021F3622, 0x021F3622, 0x00000000) == 0x85FAB0DE
         && Mix(0xAFD9D683, 0xD7F2901D, 0xD7F2901D, 0x00000000) == 0xEF50FE7C
         && Mix(0x4E11503C, 0xF170349E, 0xF170349E, 0x00000000) == 0x7BA93A0F
         && Mix(0x4E11503C, 0x539BCA2C, 0x539BCA2C, 0x00000000) == 0xF1E5B65A
  {
  }

  lemma Zero28(v: seq<word>)
    requires EncRounds(v, ZERO_KEY, 24) == [0x2B041E80, 0xFB7F85FE] && SumAt(24) == 0xD5336958
    ensures EncRounds(v, ZERO_KEY, 28) == [0x539BCA2C, 0xE355EAF8] && SumAt(28) == 0x4E11503C
  {
    hide EncRounds, SumAt, Mix;
    ZeroMix28();
    Pair(v, ZERO_KEY, 24, 0x736AE311, 0, 0x2B041E80, 0xFB7F85FE, 0x3C2D965B, 0x39408CFA);
    Pair(v, ZERO_KEY, 25, 0x11A25CCA, 2, 0x3C2D965B, 0x39408CFA, 0x51F7DF3F, 0x021F3622);
    Pair(v, ZERO_KEY, 26, 0xAFD9D683, 0, 0x51F7DF3F, 0x021F3622, 0xD7F2901D, 0xF170349E);
    Pair(v, ZERO_KEY, 27, 0x4E11503C, 3, 0xD7F2901D, 0xF170349E, 0x539BCA2C, 0xE355EAF8);
  }

  lemma ZeroMix32()
    ensures Mix(0xEC48C9F5, 0xE355EAF8, 0xE355EAF8, 0x00000000) == 0x41F21993
         && Mix(0xEC48C9F5, 0x958DE3BF, 0x958DE3BF, 0x00000000) == 0x92586761
         && Mix(0x8A8043AE, 0x75AE5259, 0x75AE5259, 0x00000000) == 0x5DB94F81
         && Mix(0x8A8043AE, 0xF3473340, 0xF3473340, 0x00000000) == 0x99AC632C
         && Mix(0x28B7BD67, 0x0F5AB585, 0x0F5AB585, 0x00000000) == 0x0617ACFF
         && Mix(0x28B7BD67, 0xF95EE03F, 0xF95EE03F, 0x00000000) == 0xA63F6A63
         && Mix(0xC6EF3720, 0xB59A1FE8, 0xB59A1FE8, 0x00000000) == 0x0BD8246C
         && Mix(0xC6EF3720, 0x053704AB, 0x053704AB, 0x00000000) == 0xA1C36C98
  {
  }

  lemma Zero32(v: seq<word>)
    requires EncRounds(v, ZERO_KEY, 28) == [0x539BCA2C, 0xE355EAF8] && SumAt(28) == 0x4E11503C
    ensures EncRounds(v, ZERO_KEY, 32) == [0x053704AB, 0x575D8C80] && SumAt(32) == 0xC6EF3720
  {
    hide EncRounds, SumAt, Mix;
    ZeroMix32();
    Pair(v, ZERO_KEY, 28, 0xEC48C9F5, 1, 0x539BCA2C, 0xE355EAF8, 0x958DE3BF, 0x75AE5259);
    Pair(v, ZERO_KEY, 29, 0x8A8043AE, 3, 0x958DE3BF, 0x75AE5259, 0xF3473340, 0x0F5AB585);
    Pair(v, ZERO_KEY, 30, 0x28B7BD67, 1, 0xF3473340, 0x0F5AB585, 0xF95EE03F, 0xB59A1FE8);
    Pair(v, ZERO_KEY, 31, 0xC6EF3720, 0, 0xF95EE03F, 0xB59A1FE8, 0x053704AB, 0x575D8C80);
  }

  // ----- Different key words

  const MIXED_KEY: seq<word> := [0x00112233, 0x44556677, 0x8899AABB, 0xCCDDEEFF]

  lemma MixedMix4()
    ensures Mix(0x9E3779B9, 0x89ABCDEF, 0x89ABCDEF, 0x8899AABB) == 0xB6A30A8A
         && Mix(0x9E3779B9, 0xB7C64FF1, 0xB7C64FF1, 0xCCDDEEFF) == 0xE04F93FF
         && Mix(0x3C6EF372, 0x69FB61EE, 0x69FB61EE, 0x00112233) == 0x885419ED
         && Mix(0x3C6EF372, 0x401A69DE, 0x401A69DE, 0x44556677) == 0x8CCCEF44
         && Mix(0xDAA66D2B, 0xF6C85132, 0xF6C85132, 0x8899AABB) == 0xE43328E5
         && Mix(0xDAA66D2B, 0x244D92C3, 0x244D92C3, 0xCCDDEEFF) == 0x3718BA26
         && Mix(0x78DDE6E4, 0x2DE10B58, 0x2DE10B58, 0x44556677) == 0x2C66E0CE
         && Mix(0x78DDE6E4, 0x50B47391, 0x50B47391, 0x00112233) == 0x38A8C22D
  {
  }

  lemma Mixed4(v: seq<word>)
    requires EncRounds(v, MIXED_KEY, 0) == [0x01234567, 0x89ABCDEF] && SumAt(0) == 0x00000000
    ensures EncRounds(v, MIXED_KEY, 4) == [0x50B47391, 0x6689CD85] && SumAt(4) == 0x78DDE6E4
  {
    hide EncRounds, SumAt, Mix;
    MixedMix4();
    Pair(v, MIXED_KEY, 0, 0x9E3779B9, 2, 0x01234567, 0x89ABCDEF, 0xB7C64FF1, 0x69FB61EE);
    Pair(v, MIXED_KEY, 1, 0x3C6EF372, 0, 0xB7C64FF1, 0x69FB61EE, 0x401A69DE, 0xF6C85132);
    Pair(v, MIXED_KEY, 2, 0xDAA66D2B, 2, 0x401A69DE, 0xF6C85132, 0x244D92C3, 0x2DE10B58);
    Pair(v, MIXED_KEY, 3, 0x78DDE6E4, 1, 0x244D92C3, 0x2DE10B58, 0x50B47391, 0x6689CD85);
  }

  lemma MixedMix8()
    ensures Mix(0x1715609D, 0x6689CD85, 0x6689CD85, 0xCCDDEEFF) == 0xE6918ACA
         && Mix(0x1715609D, 0x3745FE5B, 0x3745FE5B, 0x8899AABB) == 0xAF49C2BF
         && Mix(0xB54CDA56, 0x15D39044, 0x15D39044, 0x44556677) == 0x4542139F
         && Mix(0xB54CDA56, 0x7C8811FA, 0x7C8811FA, 0x00112233) == 0xFE89DA73
         && Mix(0x5384540F, 0x145D6AB7, 0x145D6AB7, 0xCCDDEEFF) == 0xB96D84AF
         && Mix(0x5384540F, 0x35F596A9, 0x35F596A9, 0x8899AABB) == 0x13BC30EE
         && Mix(0xF1BBCDC8, 0x28199BA5, 0x28199BA5, 0x8899AABB) == 0x5FE3ACE6
         && Mix(0xF1BBCDC8, 0x95D9438F, 0x95D9438F, 0xCCDDEEFF) == 0x1F9DEF16
  {
  }

  lemma Mixed8(v: seq<word>)
    requires EncRounds(v, MIXED_KEY, 4) == [0x50B47391, 0x6689CD85] && SumAt(4) == 0x78DDE6E4
    ensures EncRounds(v, MIXED_KEY, 8) == [0x95D9438F, 0x47B78ABB] && SumAt(8) == 0xF1BBCDC8
  {
    hide EncRounds, SumAt, Mix;
    MixedMix8();
    Pair(v, MIXED_KEY, 4, 0x1715609D, 3, 0x50B47391, 0x6689CD85, 0x3745FE5B, 0x15D39044);
    Pair(v, MIXED_KEY, 5, 0xB54CDA56, 1, 0x3745FE5B, 0x15D39044, 0x7C8811FA, 0x145D6AB7);
    Pair(v, MIXED_KEY, 6, 0x5384540F, 3, 0x7C8811FA, 0x145D6AB7, 0x35F596A9, 0x28199BA5);
    Pair(v, MIXED_KEY, 7, 0xF1BBCDC8, 2, 0x35F596A9, 0x28199BA5, 0x95D9438F, 0x47B78ABB);
  }

  lemma MixedMix12()
    ensures Mix(0x8FF34781, 0x47B78ABB, 0x47B78ABB, 0x00112233) == 0x9F9A8462
         && Mix(0x8FF34781, 0x3573C7F1, 0x3573C7F1, 0x44556677) == 0x0E51A81F
         && Mix(0x2E2AC13A, 0x560932DA, 0x560932DA, 0x8899AABB) == 0x925202B8
         && Mix(0x2E2AC13A, 0xC7C5CAA9, 0xC7C5CAA9, 0xCCDDEEFF) == 0x88CA375F
         && Mix(0xCC623AF3, 0xDED36A39, 0xDED36A39, 0x00112233) == 0x85DB9A58
         && Mix(0xCC623AF3, 0x4DA16501, 0x4DA16501, 0x44556677) == 0x833C78B4
         && Mix(0x6A99B4AC, 0x620FE2ED, 0x620FE2ED, 0xCCDDEEFF) == 0x0087A563
         && Mix(0x6A99B4AC, 0x4E290A64, 0x4E290A64, 0x8899AABB) == 0xCD4BB768
  {
  }

  lemma Mixed12(v: seq<word>)
    requires EncRounds(v, MIXED_KEY, 8) == [0x95D9438F, 0x47B78ABB] && SumAt(8) == 0xF1BBCDC8
    ensures EncRounds(v, MIXED_KEY, 12) == [0x4E290A64, 0x2F5B9A55] && SumAt(12) == 0x6A99B4AC
  {
    hide EncRounds, SumAt, Mix;
    MixedMix12();
    Pair(v, MIXED_KEY, 8, 0x8FF34781, 0, 0x95D9438F, 0x47B78ABB, 0x3573C7F1, 0x560932DA);
    Pair(v, MIXED_KEY, 9, 0x2E2AC13A, 2, 0x3573C7F1, 0x560932DA, 0xC7C5CAA9, 0xDED36A39);
    Pair(v, MIXED_KEY, 10, 0xCC623AF3, 0, 0xC7C5CAA9, 0xDED36A39, 0x4DA16501, 0x620FE2ED);
    Pair(v, MIXED_KEY, 11, 0x6A99B4AC, 3, 0x4DA16501, 0x620FE2ED, 0x4E290A64, 0x2F5B9A55);
  }

  lemma MixedMix16()
    ensures Mix(0x08D12E65, 0x2F5B9A55, 0x2F5B9A55, 0x44556677) == 0x3EFE3BF2
         && Mix(0x08D12E65, 0x8D274656, 0x8D274656, 0x00112233) == 0xE7E87D8C
         && Mix(0xA708A81E, 0x174417E1, 0x174417E1, 0xCCDDEEFF) == 0x5FB2C53A
         && Mix(0xA708A81E, 0xECDA0B90, 0xECDA0B90, 0x8899AABB) == 0x345CB237
         && Mix(0x454021D7, 0x4BA0CA18, 0x4BA0CA18, 0x44556677) == 0xFE807ECD
         && Mix(0x454021D7, 0xEB5A8A5D, 0xEB5A8A5D, 0x00112233) == 0xCB92A239
         && Mix(0xE3779B90, 0x17336C51, 0x17336C51, 0x00112233) == 0xC52394E3
         && Mix(0xE3779B90, 0xB07E1F40, 0xB07E1F40, 0x44556677) == 0x915D3BE5
  {
  }

  lemma Mixed16(v: seq<word>)
    requires EncRounds(v, MIXED_KEY, 12) == [0x4E290A64, 0x2F5B9A55] && SumAt(12) == 0x6A99B4AC
    ensures EncRounds(v, MIXED_KEY, 16) == [0xB07E1F40, 0xA890A836] && SumAt(16) == 0xE3779B90
  {
    hide EncRounds, SumAt, Mix;
    MixedMix16();
    Pair(v, MIXED_KEY, 12, 0x08D12E65, 1, 0x4E290A64, 0x2F5B9A55, 0x8D274656, 0x174417E1);
    Pair(v, MIXED_KEY, 13, 0xA708A81E, 3, 0x8D274656, 0x174417E1, 0xECDA0B90, 0x4BA0CA18);
    Pair(v, MIXED_KEY, 14, 0x454021D7, 1, 0xECDA0B90, 0x4BA0CA18, 0xEB5A8A5D, 0x17336C51);
    Pair(v, MIXED_KEY, 15, 0xE3779B90, 0, 0xEB5A8A5D, 0x17336C51, 0xB07E1F40, 0xA890A836);
  }

  lemma MixedMix20()
    ensures Mix(0x81AF1549, 0xA890A836, 0xA890A836, 0x8899AABB) == 0x0A567BF3
         && Mix(0x81AF1549, 0xBAD49B33, 0xBAD49B33, 0xCCDDEEFF) == 0x1912EC2D
         && Mix(0x1FE68F02, 0xC1A39463, 0xC1A39463, 0x00112233) == 0x9D67505A
         && Mix(0x1FE68F02, 0x583BEB8D, 0x583BEB8D, 0x44556677) == 0x8EA3C580
         && Mix(0xBE1E08BB, 0x504759E3, 0x504759E3, 0x8899AABB) == 0x952496FF
         && Mix(0xBE1E08BB, 0xED60828C, 0xED60828C, 0xCCDDEEFF) == 0x0BB6B01F
         && Mix(0x5C558274, 0x5BFE0A02, 0x5BFE0A02, 0x44556677) == 0x0691CD53
         && Mix(0x5C558274, 0xF3F24FDF, 0xF3F24FDF, 0x00112233) == 0x4A3A5A9A
  {
  }

  lemma Mixed20(v: seq<word>)
    requires EncRounds(v, MIXED_KEY, 16) == [0xB07E1F40, 0xA890A836] && SumAt(16) == 0xE3779B90
    ensures EncRounds(v, MIXED_KEY, 20) == [0xF3F24FDF, 0xA638649C] && SumAt(20) == 0x5C558274
  {
    hide EncRounds, SumAt, Mix;
    MixedMix20();
    Pair(v, MIXED_KEY, 16, 0x81AF1549, 2, 0xB07E1F40, 0xA890A836, 0xBAD49B33, 0xC1A39463);
    Pair(v, MIXED_KEY, 17, 0x1FE68F02, 0, 0xBAD49B33, 0xC1A39463, 0x583BEB8D, 0x504759E3);
    Pair(v, MIXED_KEY, 18, 0xBE1E08BB, 2, 0x583BEB8D, 0x504759E3, 0xED60828C, 0x5BFE0A02);
    Pair(v, MIXED_KEY, 19, 0x5C558274, 1, 0xED60828C, 0x5BFE0A02, 0xF3F24FDF, 0xA638649C);
  }

  lemma MixedMix24()
    ensures Mix(0xFA8CFC2D, 0xA638649C, 0xA638649C, 0xCCDDEEFF) == 0xD28BB5B3
         && Mix(0xFA8CFC2D, 0xC67E0592, 0xC67E0592, 0x8899AABB) == 0x1521D71E
         && Mix(0x98C475E6, 0xBB5A3BBA, 0xBB5A3BBA, 0x44556677) == 0xA9D69025
         && Mix(0x98C475E6, 0x705495B7, 0x705495B7, 0x00112233) == 0x96C22BE2
         && Mix(0x36FBEF9F, 0x521C679C, 0x521C679C, 0xCCDDEEFF) == 0x75CE6319
         && Mix(0x36FBEF9F, 0xE622F8D0, 0xE622F8D0, 0x8899AABB) == 0x2132AF1A
         && Mix(0xD5336958, 0x734F16B6, 0x734F16B6, 0x8899AABB) == 0xAB6D97D8
         && Mix(0xD5336958, 0x919090A8, 0x919090A8, 0xCCDDEEFF) == 0xEFF8A6FD
  {
  }

  lemma Mixed24(v: seq<word>)
    requires EncRounds(v, MIXED_KEY, 20) == [0xF3F24FDF, 0xA638649C] && SumAt(20) == 0x5C558274
    ensures EncRounds(v, MIXED_KEY, 24) == [0x919090A8, 0x6347BDB3] && SumAt(24) == 0xD5336958
  {
    hide EncRounds, SumAt, Mix;
    MixedMix24();
    Pair(v, MIXED_KEY, 20, 0xFA8CFC2D, 3, 0xF3F24FDF, 0xA638649C, 0xC67E0592, 0xBB5A3BBA);
    Pair(v, MIXED_KEY, 21, 0x98C475E6, 1, 0xC67E0592, 0xBB5A3BBA, 0x705495B7, 0x521C679C);
    Pair(v, MIXED_KEY, 22, 0x36FBEF9F, 3, 0x705495B7, 0x521C679C, 0xE622F8D0, 0x734F16B6);
    Pair(v, MIXED_KEY, 23, 0xD5336958, 2, 0xE622F8D0, 0x734F16B6, 0x919090A8, 0x6347BDB3);
  }

  lemma MixedMix28()
    ensures Mix(0x736AE311, 0x6347BDB3, 0x6347BDB3, 0x00112233) == 0xB5940985
         && Mix(0x736AE311, 0x47249A2D, 0x47249A2D, 0x44556677) == 0xAE98086C
         && Mix(0x11A25CCA, 0x11DFC61F, 0x11DFC61F, 0x8899AABB) == 0xFE7D7806
         && Mix(0x11A25CCA, 0x45A21233, 0x45A21233, 0xCCDDEEFF) == 0xBABAF216
         && Mix(0xAFD9D683, 0xCC9AB835, 0xCC9AB835, 0x00112233) == 0x2B8801D7
         && Mix(0xAFD9D683, 0x712A140A, 0x712A140A, 0x44556677) == 0xF7D637AF
         && Mix(0x4E11503C, 0xC470EFE4, 0xC470EFE4, 0xCCDDEEFF) == 0xE46FDC58
         && Mix(0x4E11503C, 0x5599F062, 0x5599F062, 0x8899AABB) == 0x5F7FBD00
  {
  }

  lemma Mixed28(v: seq<word>)
    requires EncRounds(v, MIXED_KEY, 24) == [0x919090A8, 0x6347BDB3] && SumAt(24) == 0xD5336958
    ensures EncRounds(v, MIXED_KEY, 28) == [0x5599F062, 0x23F0ACE4] && SumAt(28) == 0x4E11503C
  {
    hide EncRounds, SumAt, Mix;
    MixedMix28();
    Pair(v, MIXED_KEY, 24, 0x736AE311, 0, 0x919090A8, 0x6347BDB3, 0x47249A2D, 0x11DFC61F);
    Pair(v, MIXED_KEY, 25, 0x11A25CCA, 2, 0x47249A2D, 0x11DFC61F, 0x45A21233, 0xCC9AB835);
    Pair(v, MIXED_KEY, 26, 0xAFD9D683, 0, 0x45A21233, 0xCC9AB835, 0x712A140A, 0xC470EFE4);
    Pair(v, MIXED_KEY, 27, 0x4E11503C, 3, 0x712A140A, 0xC470EFE4, 0x5599F062, 0x23F0ACE4);
  }

  lemma MixedMix32()
    ensures Mix(0xEC48C9F5, 0x23F0ACE4, 0x23F0ACE4, 0x44556677) == 0xFD0C3D77
         && Mix(0xEC48C9F5, 0x52A62DD9, 0x52A62DD9, 0x00112233) == 0x79E66A23
         && Mix(0x8A8043AE, 0x9DD71707, 0x9DD71707, 0xCCDDEEFF) == 0x2A1C3995
         && Mix(0x8A8043AE, 0x7CC2676E, 0x7CC2676E, 0x8899AABB) == 0x5E303A05
         && Mix(0x28B7BD67, 0xFC07510C, 0xFC07510C, 0x44556677) == 0x5AF05A7F
         && Mix(0x28B7BD67, 0xD7B2C1ED, 0xD7B2C1ED, 0x00112233) == 0x6CF9B8C0
         && Mix(0xC6EF3720, 0x690109CC, 0x690109CC, 0x00112233) == 0x5C82879C
         && Mix(0xC6EF3720, 0x34354989, 0x34354989, 0x44556677) == 0x747C10AE
  {
  }

  lemma Mixed32(v: seq<word>)
    requires EncRounds(v, MIXED_KEY, 28) == [0x5599F062, 0x23F0ACE4] && SumAt(28) == 0x4E11503C
    ensures EncRounds(v, MIXED_KEY, 32) == [0x34354989, 0xDD7D1A7A] && SumAt(32) == 0xC6EF3720
  {
    hide EncRounds, SumAt, Mix;
    MixedMix32();
    Pair(v, MIXED_KEY, 28, 0xEC48C9F5, 1, 0x5599F062, 0x23F0ACE4, 0x52A62DD9, 0x9DD71707);
    Pair(v, MIXED_KEY, 29, 0x8A8043AE, 3, 0x52A62DD9, 0x9DD71707, 0x7CC2676E, 0xFC07510C);
    Pair(v, MIXED_KEY, 30, 0x28B7BD67, 1, 0x7CC2676E, 0xFC07510C, 0xD7B2C1ED, 0x690109CC);
    Pair(v, MIXED_KEY, 31, 0xC6EF3720, 0, 0xD7B2C1ED, 0x690109CC, 0x34354989, 0xDD7D1A7A);
  }

  // ----- The answers

  lemma Start(v: seq<word>, key: seq<word>)
    requires |key| == 4
    ensures EncRounds(v, key, 0) == v && SumAt(0) == 0
  {
  }

  /** Two zero words under the zero key, and back. */
  lemma ZeroAnswer()
    ensures Encrypt([0, 0], ZERO_KEY, false, false) == [0x053704AB, 0x575D8C80]
    ensures Decrypt([0x053704AB, 0x575D8C80], ZERO_KEY, false, false) == [0, 0]
  {
    hide EncRounds, DecRounds, SumAt;
    var v: seq<word> := [0, 0];
    Start(v, ZERO_KEY);
    Zero4(v);
    Zero8(v);
    Zero12(v);
    Zero16(v);
    Zero20(v);
    Zero24(v);
    Zero28(v);
    Zero32(v);
    Inversion(v, ZERO_KEY, false, false);
  }

  lemma MixedKey(key: seq<word>)
    requires key == [0x33221100, 0x77665544, 0xBBAA9988, 0xFFEEDDCC]
    ensures SwapAll(key) == MIXED_KEY
  {
    SwapReverses(key[0], 0x33, 0x22, 0x11, 0x00);
    SwapReverses(key[1], 0x77, 0x66, 0x55, 0x44);
    SwapReverses(key[2], 0xBB, 0xAA, 0x99, 0x88);
    SwapReverses(key[3], 0xFF, 0xEE, 0xDD, 0xCC);
  }

  /** Two words under a key of four different words, as a host with the lowest byte first takes them from memory. */
  lemma MixedAnswer()
    ensures var key := [0x33221100, 0x77665544, 0xBBAA9988, 0xFFEEDDCC];
            && Encrypt([0x01234567, 0x89ABCDEF], key, false, true) == [0x34354989, 0xDD7D1A7A]
            && Decrypt([0x34354989, 0xDD7D1A7A], key, false, true) == [0x01234567, 0x89ABCDEF]
  {
    hide EncRounds, DecRounds, SumAt, SwapAll;
    var v: seq<word>, key: seq<word> := [0x01234567, 0x89ABCDEF], [0x33221100, 0x77665544, 0xBBAA9988, 0xFFEEDDCC];
    MixedKey(key);
    Start(v, MIXED_KEY);
    Mixed4(v);
    Mixed8(v);
    Mixed12(v);
    Mixed16(v);
    Mixed20(v);
    Mixed24(v);
    Mixed28(v);
    Mixed32(v);
    Inversion(v, key, false, true);
  }

  // ----- For all lengths, keys and hosts

  /** The key word of a position is chosen by the exclusive or of two bits of the position and two of the sum. */
  lemma KeyWord(sum: word, y: word, z: word, p: nat, e: word, key: seq<word>)
    requires |key| == 4 && e < 4
    ensures Mx(sum, y, z, p, e, key) == Mix(sum, y, z, key[((p % 4) as bv2 ^ (e as bv2)) as nat])
  {
    hide Mix;
    var q: nat := p % 4;
    assert (q == 0 || q == 1 || q == 2 || q == 3) && (e == 0 || e == 1 || e == 2 || e == 3);
  }

  /** Six rounds, and as many more as the length goes into 52. */
  lemma RoundsIs(len: nat)
    requires len > 0
    ensures Rounds(len) >= 6 && (Rounds(len) - 6) * len <= 52 < (Rounds(len) - 5) * len
  {
    var q := 52 / len;
    assert 52 == q * len + 52 % len;
    assert (q + 1) * len == q * len + len;
  }

  /** The first byte in memory becomes the last. */
  lemma SwapReverses(x: word, a: byte, b: byte, c: byte, d: byte)
    requires x == a * 0x1000000 + b * 0x10000 + c * 256 + d
    ensures Swap(x) == d * 0x1000000 + c * 0x10000 + b * 256 + a
  {
    FourBytes(a, b, c, d);
  }

  /** Hosts of both byte orders turn the same bytes in memory into the same bytes. */
  lemma SameOnAllHosts(v: seq<word>, key: seq<word>)
    requires |v| >= 2 && |key| == 4
    ensures Encrypt(v, key, true, true) == SwapAll(Encrypt(SwapAll(v), SwapAll(key), false, true))
    ensures Decrypt(v, key, true, true) == SwapAll(Decrypt(SwapAll(v), SwapAll(key), false, true))
  {
    hide EncRounds, DecRounds;
    SwapAllTwice(key);
  }
}
