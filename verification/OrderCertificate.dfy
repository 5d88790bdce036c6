/**
 * The order of the base point, 2^252 + 27742317777372353535851937790883648493, is prime, by a chain like the one of
 * PrimeCertificate.
 */
module OrderCertificate {
  import opened Primes
  import ScReduce
  import opened Bits
  import Field25519

  const L: int := ScReduce.L
  const Q138: int := 276602624281642239937218680557139826668747
  const Q134: int := 19757330305831588566944191468367130476339
  const Q88: int := 172054593956031949258510691
  const Q62: int := 4434155615661930479
  const Q51: int := 1257559732178653
  const Q21: int := 1224481
  const Q12: int := 2551

  lemma PrimeQ12()
    ensures Prime(Q12)
  {
    DividedByNone();
    TrialDivision(Q12, 50);
  }

  lemma DividedByNone()
    ensures Undivided(2551, 50)
  {
    assert Undivided(2551, 10);
    assert Undivided(2551, 20);
    assert Undivided(2551, 30);
    assert Undivided(2551, 40);
  }

  // ---- Q21 ----

  const GQ21: int := 921659

  /** The inverse of GQ21 - 1 modulo Q21. */
  const TQ21: int := 0x10cb57

  /** The first powers of GQ21, modulo Q21. */
  function DigitQ21(d: nat): int
  {
    if d == 0 then 1
    else if d == 1 then 921659
    else if d == 2 then 0xf59fb
    else if d == 3 then 249479
    else if d == 4 then 299000
    else if d == 5 then 469545
    else if d == 6 then 626692
    else 62961
  }

  lemma DigitsQ21()
    ensures forall d: nat :: d < 8 ==> Cong(Q21, Pow(GQ21, d), DigitQ21(d))
  {
    hide Cong, Pow;
    NoPower(Q21, GQ21);
    NextPower(Q21, GQ21, 0, DigitQ21(0), DigitQ21(1));
    NextPower(Q21, GQ21, 1, DigitQ21(1), DigitQ21(2));
    NextPower(Q21, GQ21, 2, DigitQ21(2), DigitQ21(3));
    NextPower(Q21, GQ21, 3, DigitQ21(3), DigitQ21(4));
    NextPower(Q21, GQ21, 4, DigitQ21(4), DigitQ21(5));
    NextPower(Q21, GQ21, 5, DigitQ21(5), DigitQ21(6));
    NextPower(Q21, GQ21, 6, DigitQ21(6), DigitQ21(7));
  }

  lemma PowersQ21A() returns (e: nat, x: int)
    ensures e == 2551
    ensures x == 1 && Cong(Q21, Pow(GQ21, e), x)
  {
    hide Cong, Pow;
    DigitsQ21();
    NoPower(Q21, GQ21);
    e, x := 0, 1;
    e, x := Onward(Q21, GQ21, e, x, 4, DigitQ21(4), 299000);
    e, x := Onward(Q21, GQ21, e, x, 7, DigitQ21(7), 886815);
    e, x := Onward(Q21, GQ21, e, x, 6, DigitQ21(6), 578473);
    e, x := Onward(Q21, GQ21, e, x, 7, DigitQ21(7), 1);
  }

  lemma PrimeQ21()
    ensures Prime(Q21)
  {
    hide Cong, Pow, Prime;
    PrimeQ12();
    var _, _ := PowersQ21A();
    CongRem(Q21, (GQ21 - 1) * TQ21);
    Pocklington(Q21, Q12, 0, 480, GQ21, TQ21);
  }

  // ---- Q51 ----

  const GQ51: int := 0x4735c3113b127

  /** The inverse of GQ51 - 1 modulo Q51. */
  const TQ51: int := 0x2cf51ccba75d1

  /** The first powers of GQ51, modulo Q51. */
  function DigitQ51(d: nat): int
  {
    if d == 0 then 1
    else if d == 1 then 0x4735c3113b127
    else if d == 2 then 0x256a91f5c88bf
    else if d == 3 then 0x3147ad953d697
    else if d == 4 then 0x113d69171d6cc
    else if d == 5 then 0x44d52808876c4
    else if d == 6 then 0xc2878c3a85cf
    else 0x137840fe25d94
  }

  lemma DigitsQ51()
    ensures forall d: nat :: d < 8 ==> Cong(Q51, Pow(GQ51, d), DigitQ51(d))
  {
    hide Cong, Pow;
    NoPower(Q51, GQ51);
    NextPower(Q51, GQ51, 0, DigitQ51(0), DigitQ51(1));
    NextPower(Q51, GQ51, 1, DigitQ51(1), DigitQ51(2));
    NextPower(Q51, GQ51, 2, DigitQ51(2), DigitQ51(3));
    NextPower(Q51, GQ51, 3, DigitQ51(3), DigitQ51(4));
    NextPower(Q51, GQ51, 4, DigitQ51(4), DigitQ51(5));
    NextPower(Q51, GQ51, 5, DigitQ51(5), DigitQ51(6));
    NextPower(Q51, GQ51, 6, DigitQ51(6), DigitQ51(7));
  }

  lemma PowersQ51A() returns (e: nat, x: int)
    ensures e == 0x12af21
    ensures x == 1 && Cong(Q51, Pow(GQ51, e), x)
  {
    hide Cong, Pow;
    DigitsQ51();
    NoPower(Q51, GQ51);
    e, x := 0, 1;
    e, x := Onward(Q51, GQ51, e, x, 4, DigitQ51(4), 0x113d69171d6cc);
    e, x := Onward(Q51, GQ51, e, x, 5, DigitQ51(5), 0x2937696cfde0a);
    e, x := Onward(Q51, GQ51, e, x, 2, DigitQ51(2), 0x3c6a5cd9b69ab);
    e, x := Onward(Q51, GQ51, e, x, 7, DigitQ51(7), 0xf25e0eee8079);
    e, x := Onward(Q51, GQ51, e, x, 4, DigitQ51(4), 0x2a826020f75e8);
    e, x := Onward(Q51, GQ51, e, x, 4, DigitQ51(4), 0x20c7a8d62c868);
    e, x := Onward(Q51, GQ51, e, x, 1, DigitQ51(1), 1);
  }

  lemma PrimeQ51()
    ensures Prime(Q51)
  {
    hide Cong, Pow, Prime;
    PrimeQ21();
    var _, _ := PowersQ51A();
    CongRem(Q51, (GQ51 - 1) * TQ51);
    Pocklington(Q51, Q21, 838, 899414, GQ51, TQ51);
  }

  // ---- Q62 ----

  const GQ62: int := 0x5c52cd00a1f4ba7

  /** The inverse of GQ62 - 1 modulo Q62. */
  const TQ62: int := 0xe0605543c5b9ae3

  /** The first powers of GQ62, modulo Q62. */
  function DigitQ62(d: nat): int
  {
    if d == 0 then 1
    else if d == 1 then 0x5c52cd00a1f4ba7
    else if d == 2 then 0x2b08f3b0cfee8c13
    else if d == 3 then 0x33ca8cc247f30940
    else if d == 4 then 0x189bd270085d3e75
    else if d == 5 then 0x248d423a0d8cab9e
    else if d == 6 then 0x2b31447192a91c5b
    else 0x223f62b95b8918f4
  }

  lemma DigitsQ62()
    ensures forall d: nat :: d < 8 ==> Cong(Q62, Pow(GQ62, d), DigitQ62(d))
  {
    hide Cong, Pow;
    NoPower(Q62, GQ62);
    NextPower(Q62, GQ62, 0, DigitQ62(0), DigitQ62(1));
    NextPower(Q62, GQ62, 1, DigitQ62(1), DigitQ62(2));
    NextPower(Q62, GQ62, 2, DigitQ62(2), DigitQ62(3));
    NextPower(Q62, GQ62, 3, DigitQ62(3), DigitQ62(4));
    NextPower(Q62, GQ62, 4, DigitQ62(4), DigitQ62(5));
    NextPower(Q62, GQ62, 5, DigitQ62(5), DigitQ62(6));
    NextPower(Q62, GQ62, 6, DigitQ62(6), DigitQ62(7));
  }

  lemma PowersQ62A() returns (e: nat, x: int)
    ensures e == 0x8ef7ce23d
    ensures x == 0x113cf7dfed74e5db && Cong(Q62, Pow(GQ62, e), x)
  {
    hide Cong, Pow;
    DigitsQ62();
    NoPower(Q62, GQ62);
    e, x := 0, 1;
    e, x := Onward(Q62, GQ62, e, x, 4, DigitQ62(4), 0x189bd270085d3e75);
    e, x := Onward(Q62, GQ62, e, x, 3, DigitQ62(3), 0x2f4914ff9352ac16);
    e, x := Onward(Q62, GQ62, e, x, 5, DigitQ62(5), 0x252d0447a20f9dba);
    e, x := Onward(Q62, GQ62, e, x, 7, DigitQ62(7), 0x1c1bb8e6a45fb746);
    e, x := Onward(Q62, GQ62, e, x, 3, DigitQ62(3), 0x39b9ac8e26cbca0a);
    e, x := Onward(Q62, GQ62, e, x, 7, DigitQ62(7), 0x92ac06ad7979b59);
    e, x := Onward(Q62, GQ62, e, x, 1, DigitQ62(1), 0x23de926dae3ef8b);
    e, x := Onward(Q62, GQ62, e, x, 6, DigitQ62(6), 0xeecd4927a22108e);
    e, x := Onward(Q62, GQ62, e, x, 1, DigitQ62(1), 0x185d01be42a449e6);
    e, x := Onward(Q62, GQ62, e, x, 0, DigitQ62(0), 0x32027d3b34a82055);
    e, x := Onward(Q62, GQ62, e, x, 7, DigitQ62(7), 0xbbe6cd12656bc26);
    e, x := Onward(Q62, GQ62, e, x, 5, DigitQ62(5), 0x113cf7dfed74e5db);
  }

  lemma PowersQ62B() returns (e: nat, x: int)
    ensures e == 0x477be711ecedd
    ensures x == 1 && Cong(Q62, Pow(GQ62, e), x)
  {
    hide Cong, Pow;
    DigitsQ62();
    e, x := PowersQ62A();
    e, x := Onward(Q62, GQ62, e, x, 4, DigitQ62(4), 0x1edb00ecfca951bb);
    e, x := Onward(Q62, GQ62, e, x, 7, DigitQ62(7), 0x3cf02e349d10966b);
    e, x := Onward(Q62, GQ62, e, x, 3, DigitQ62(3), 0x3d4e9bf8b25db0f7);
    e, x := Onward(Q62, GQ62, e, x, 3, DigitQ62(3), 0x198e2106b867e94a);
    e, x := Onward(Q62, GQ62, e, x, 5, DigitQ62(5), 1);
  }

  lemma PrimeQ62()
    ensures Prime(Q62)
  {
    hide Cong, Pow, Prime;
    PrimeQ51();
    var _, _ := PowersQ62B();
    CongRem(Q62, (GQ62 - 1) * TQ62);
    Pocklington(Q62, Q51, 0, 3526, GQ62, TQ62);
  }

  // ---- Q88 ----

  const GQ88: int := 0x43d06a01b28fc1632b40eb

  /** The inverse of GQ88 - 1 modulo Q88. */
  const TQ88: int := 0x7f9d1382843bc75f2bbbb0

  /** The first powers of GQ88, modulo Q88. */
  function DigitQ88(d: nat): int
  {
    if d == 0 then 1
    else if d == 1 then 0x43d06a01b28fc1632b40eb
    else if d == 2 then 0x317bbbe1db5c5682596851
    else if d == 3 then 0x7f09a68d16f42ecb17621b
    else if d == 4 then 0x6ec5740bf9d6a41b36533f
    else if d == 5 then 0x785480306d2c4e1f8d8d24
    else if d == 6 then 0x33ab923f42290febed6b61
    else 0x8ad0264862f3696ce5be41
  }

  lemma DigitsQ88()
    ensures forall d: nat :: d < 8 ==> Cong(Q88, Pow(GQ88, d), DigitQ88(d))
  {
    hide Cong, Pow;
    NoPower(Q88, GQ88);
    NextPower(Q88, GQ88, 0, DigitQ88(0), DigitQ88(1));
    NextPower(Q88, GQ88, 1, DigitQ88(1), DigitQ88(2));
    NextPower(Q88, GQ88, 2, DigitQ88(2), DigitQ88(3));
    NextPower(Q88, GQ88, 3, DigitQ88(3), DigitQ88(4));
    NextPower(Q88, GQ88, 4, DigitQ88(4), DigitQ88(5));
    NextPower(Q88, GQ88, 5, DigitQ88(5), DigitQ88(6));
    NextPower(Q88, GQ88, 6, DigitQ88(6), DigitQ88(7));
  }

  lemma PowersQ88A() returns (e: nat, x: int)
    ensures e == 0x7b1292141
    ensures x == 0x5cd054287601dc7d94b4c0 && Cong(Q88, Pow(GQ88, e), x)
  {
    hide Cong, Pow;
    DigitsQ88();
    NoPower(Q88, GQ88);
    e, x := 0, 1;
    e, x := Onward(Q88, GQ88, e, x, 3, DigitQ88(3), 0x7f09a68d16f42ecb17621b);
    e, x := Onward(Q88, GQ88, e, x, 6, DigitQ88(6), 0x31760b543c4e1aa8cf8d74);
    e, x := Onward(Q88, GQ88, e, x, 6, DigitQ88(6), 0x838c7c7bbeb722d3ada4f8);
    e, x := Onward(Q88, GQ88, e, x, 1, DigitQ88(1), 0x2b74dbda16cd3d60b5427a);
    e, x := Onward(Q88, GQ88, e, x, 1, DigitQ88(1), 0x5472f07359f6732cf91fed);
    e, x := Onward(Q88, GQ88, e, x, 2, DigitQ88(2), 0x8d3bd708e741ae567e08c4);
    e, x := Onward(Q88, GQ88, e, x, 2, DigitQ88(2), 0x3c43b65949372f6d6fc2c0);
    e, x := Onward(Q88, GQ88, e, x, 2, DigitQ88(2), 0x7c44201282269f960ea437);
    e, x := Onward(Q88, GQ88, e, x, 0, DigitQ88(0), 0x1b50c2ecf543ae2da7c372);
    e, x := Onward(Q88, GQ88, e, x, 5, DigitQ88(5), 0x18429b2ebcfac1008ea309);
    e, x := Onward(Q88, GQ88, e, x, 0, DigitQ88(0), 0x44d135ee1312e5f12204cc);
    e, x := Onward(Q88, GQ88, e, x, 1, DigitQ88(1), 0x5cd054287601dc7d94b4c0);
  }

  lemma PowersQ88B() returns (e: nat, x: int)
    ensures e == 0x3d89490a0e5537ef
    ensures x == 1 && Cong(Q88, Pow(GQ88, e), x)
  {
    hide Cong, Pow;
    DigitsQ88();
    e, x := PowersQ88A();
    e, x := Onward(Q88, GQ88, e, x, 6, DigitQ88(6), 0xfcbe0bab5bc5812a65c8b);
    e, x := Onward(Q88, GQ88, e, x, 2, DigitQ88(2), 0x27a8ad2558448707cafa0);
    e, x := Onward(Q88, GQ88, e, x, 5, DigitQ88(5), 0x816968afe8f717d8a9caf7);
    e, x := Onward(Q88, GQ88, e, x, 2, DigitQ88(2), 0xaf902c9b1339361274398);
    e, x := Onward(Q88, GQ88, e, x, 3, DigitQ88(3), 0x5ac47e4df58617612a20f6);
    e, x := Onward(Q88, GQ88, e, x, 3, DigitQ88(3), 0x4a86da45ef457a1505993d);
    e, x := Onward(Q88, GQ88, e, x, 7, DigitQ88(7), 0xf3e5089fde9d426524fb3);
    e, x := Onward(Q88, GQ88, e, x, 5, DigitQ88(5), 0x15c571829053a3b58859b5);
    e, x := Onward(Q88, GQ88, e, x, 7, DigitQ88(7), 1);
  }

  lemma PrimeQ88()
    ensures Prime(Q88)
  {
    hide Cong, Pow, Prime;
    PrimeQ62();
    var _, _ := PowersQ88B();
    CongRem(Q88, (GQ88 - 1) * TQ88);
    Pocklington(Q88, Q62, 0, 0x25012be, GQ88, TQ88);
  }

  // ---- Q134 ----

  const GQ134: int := 0x1ae2c2ca6b6676caa5c3933f166ac4090c

  /** The inverse of GQ134 - 1 modulo Q134. */
  const TQ134: int := 0x301ca9f38446aff6c3063f39e6ef47be52

  /** The first powers of GQ134, modulo Q134. */
  function DigitQ134(d: nat): int
  {
    if d == 0 then 1
    else if d == 1 then 0x1ae2c2ca6b6676caa5c3933f166ac4090c
    else if d == 2 then 0x334a11ddb34626865e6f9ee42745f6e30e
    else if d == 3 then 0x1cb0dde6752afbee37df93b57e49a196
    else if d == 4 then 0x2cd5965fd9bb194a9c1951d16a9bf9937c
    else if d == 5 then 0x318752018fc463ad423340f3f46e419975
    else if d == 6 then 0x128358c24a2666e8e6ebd61ea51793ac5e
    else 0x2e6e23e68e0c57ad3c4757e20324f1ec49
  }

  lemma DigitsQ134()
    ensures forall d: nat :: d < 8 ==> Cong(Q134, Pow(GQ134, d), DigitQ134(d))
  {
    hide Cong, Pow;
    NoPower(Q134, GQ134);
    NextPower(Q134, GQ134, 0, DigitQ134(0), DigitQ134(1));
    NextPower(Q134, GQ134, 1, DigitQ134(1), DigitQ134(2));
    NextPower(Q134, GQ134, 2, DigitQ134(2), DigitQ134(3));
    NextPower(Q134, GQ134, 3, DigitQ134(3), DigitQ134(4));
    NextPower(Q134, GQ134, 4, DigitQ134(4), DigitQ134(5));
    NextPower(Q134, GQ134, 5, DigitQ134(5), DigitQ134(6));
    NextPower(Q134, GQ134, 6, DigitQ134(6), DigitQ134(7));
  }

  lemma PowersQ134A() returns (e: nat, x: int)
    ensures e == 0x23947e8e9
    ensures x == 0x18d2e09ebcd462af337069cfabc85b18c4 && Cong(Q134, Pow(GQ134, e), x)
  {
    hide Cong, Pow;
    DigitsQ134();
    NoPower(Q134, GQ134);
    e, x := 0, 1;
    e, x := Onward(Q134, GQ134, e, x, 1, DigitQ134(1), 0x1ae2c2ca6b6676caa5c3933f166ac4090c);
    e, x := Onward(Q134, GQ134, e, x, 0, DigitQ134(0), 0x151e7ed66fcf06be0894ceef457408531c);
    e, x := Onward(Q134, GQ134, e, x, 7, DigitQ134(7), 0x8efe863f059569b3c108a73d2ea2c7571);
    e, x := Onward(Q134, GQ134, e, x, 1, DigitQ134(1), 0x1b65cc2505541066d4f056eb093c196213);
    e, x := Onward(Q134, GQ134, e, x, 2, DigitQ134(2), 0x2478935d404c1f362d77a835cb7349f11e);
    e, x := Onward(Q134, GQ134, e, x, 1, DigitQ134(1), 0x135507b31bcff12e42c6029d111ca78951);
    e, x := Onward(Q134, GQ134, e, x, 7, DigitQ134(7), 0xdd7debaaa615305d49238c98502b9d449);
    e, x := Onward(Q134, GQ134, e, x, 6, DigitQ134(6), 0x546eda4615402d2fe7c46283a6674b2);
    e, x := Onward(Q134, GQ134, e, x, 4, DigitQ134(4), 0x912e29ec80c98e543892a6fee820d8c13);
    e, x := Onward(Q134, GQ134, e, x, 3, DigitQ134(3), 0x72fb5b304c111a48476ab739f7ec60070);
    e, x := Onward(Q134, GQ134, e, x, 5, DigitQ134(5), 0x1d3e49f81294f34c35e5f7fbfaf4624a18);
    e, x := Onward(Q134, GQ134, e, x, 1, DigitQ134(1), 0x18d2e09ebcd462af337069cfabc85b18c4);
  }

  lemma PowersQ134B() returns (e: nat, x: int)
    ensures e == 0x23947e8e9203e27e77
    ensures x == 0x1e7eeccb078713353c7eeb4315b877cca4 && Cong(Q134, Pow(GQ134, e), x)
  {
    hide Cong, Pow;
    DigitsQ134();
    e, x := PowersQ134A();
    e, x := Onward(Q134, GQ134, e, x, 1, DigitQ134(1), 0xa989ce1b1f5ce61daf3b4bc98f8036fe0);
    e, x := Onward(Q134, GQ134, e, x, 0, DigitQ134(0), 0x18904294e378cbc226538d476b43cd9303);
    e, x := Onward(Q134, GQ134, e, x, 0, DigitQ134(0), 0x324cd8da2acf184a796d4e38f7a6ff5e78);
    e, x := Onward(Q134, GQ134, e, x, 3, DigitQ134(3), 0x311c15b2560609dbb7c85c2373f5dd25af);
    e, x := Onward(Q134, GQ134, e, x, 7, DigitQ134(7), 0x65f3d23d4a555ee5e8466200f2ec128d5);
    e, x := Onward(Q134, GQ134, e, x, 0, DigitQ134(0), 0x197096472aa814b079b80facb0ba781332);
    e, x := Onward(Q134, GQ134, e, x, 4, DigitQ134(4), 0x145abdf701cdfd4589b9d571bd522fcbac);
    e, x := Onward(Q134, GQ134, e, x, 7, DigitQ134(7), 0x33ad1d715d29b6659af4582f41f4b68e3c);
    e, x := Onward(Q134, GQ134, e, x, 7, DigitQ134(7), 0x390cdbbea9b311fd76e6af3733a6dd751f);
    e, x := Onward(Q134, GQ134, e, x, 1, DigitQ134(1), 0xad883b9dc6bb8408805598cb096cf5e00);
    e, x := Onward(Q134, GQ134, e, x, 6, DigitQ134(6), 0x15fbaa64e5f19339fecb236e1e1be87846);
    e, x := Onward(Q134, GQ134, e, x, 7, DigitQ134(7), 0x1e7eeccb078713353c7eeb4315b877cca4);
  }

  lemma PowersQ134C() returns (e: nat, x: int)
    ensures e == 0x8e51fa3a480f89f9de5163
    ensures x == 1 && Cong(Q134, Pow(GQ134, e), x)
  {
    hide Cong, Pow;
    DigitsQ134();
    e, x := PowersQ134B();
    e, x := Onward(Q134, GQ134, e, x, 4, DigitQ134(4), 0x2c371a2a4c7849819bd5b7961d5b8a806e);
    e, x := Onward(Q134, GQ134, e, x, 5, DigitQ134(5), 0x3901ad9e94ce7063e215952bff20e70062);
    e, x := Onward(Q134, GQ134, e, x, 0, DigitQ134(0), 0x3f1199c8583ab778152a053f6dda8254f);
    e, x := Onward(Q134, GQ134, e, x, 5, DigitQ134(5), 0x1fd09445e83a8d4b34d9597f759d17d77b);
    e, x := Onward(Q134, GQ134, e, x, 4, DigitQ134(4), 0x2cd7dc38f576cbde3c041d431e15adde01);
    e, x := Onward(Q134, GQ134, e, x, 3, DigitQ134(3), 1);
  }

  lemma PrimeQ134()
    ensures Prime(Q134)
  {
    hide Cong, Pow, Prime;
    PrimeQ88();
    var _, _ := PowersQ134C();
    CongRem(Q134, (GQ134 - 1) * TQ134);
    Pocklington(Q134, Q88, 0, 0x687059bb73a6, GQ134, TQ134);
  }

  // ---- Q138 ----

  const GQ138: int := 16384

  /** The inverse of GQ138 - 1 modulo Q138. */
  const TQ138: int := 0x114761f57a17276184231256cbd81b2ad93

  /** The first powers of GQ138, modulo Q138. */
  function DigitQ138(d: nat): int
  {
    if d == 0 then 1
    else if d == 1 then 16384
    else if d == 2 then 0x10000000
    else if d == 3 then 0x40000000000
    else if d == 4 then 0x100000000000000
    else if d == 5 then 0x400000000000000000
    else if d == 6 then 0x1000000000000000000000
    else 0x4000000000000000000000000
  }

  lemma DigitsQ138()
    ensures forall d: nat :: d < 8 ==> Cong(Q138, Pow(GQ138, d), DigitQ138(d))
  {
    hide Cong, Pow;
    NoPower(Q138, GQ138);
    NextPower(Q138, GQ138, 0, DigitQ138(0), DigitQ138(1));
    NextPower(Q138, GQ138, 1, DigitQ138(1), DigitQ138(2));
    NextPower(Q138, GQ138, 2, DigitQ138(2), DigitQ138(3));
    NextPower(Q138, GQ138, 3, DigitQ138(3), DigitQ138(4));
    NextPower(Q138, GQ138, 4, DigitQ138(4), DigitQ138(5));
    NextPower(Q138, GQ138, 5, DigitQ138(5), DigitQ138(6));
    NextPower(Q138, GQ138, 6, DigitQ138(6), DigitQ138(7));
  }

  lemma PowersQ138A() returns (e: nat, x: int)
    ensures e == 0x741f86cfb
    ensures x == 0x9c305f0229e79019bb9e950585c4f83834 && Cong(Q138, Pow(GQ138, e), x)
  {
    hide Cong, Pow;
    DigitsQ138();
    NoPower(Q138, GQ138);
    e, x := 0, 1;
    e, x := Onward(Q138, GQ138, e, x, 3, DigitQ138(3), 0x40000000000);
    e, x := Onward(Q138, GQ138, e, x, 5, DigitQ138(5), 0x271878a756acb6b6f13286ef6c6775712d8);
    e, x := Onward(Q138, GQ138, e, x, 0, DigitQ138(0), 0x2a192f9c6d64b754f5b05e18a425fd8b142);
    e, x := Onward(Q138, GQ138, e, x, 1, DigitQ138(1), 0x3811691944a83b0547195d5aa74cce00ed);
    e, x := Onward(Q138, GQ138, e, x, 7, DigitQ138(7), 0x161c2a55ae98d8a34395a6f6e989b5a2e5e);
    e, x := Onward(Q138, GQ138, e, x, 6, DigitQ138(6), 0x444beb3193c6f96e68606cd202ef07d9c3);
    e, x := Onward(Q138, GQ138, e, x, 0, DigitQ138(0), 0x26d843fb412b55eefecb24d56e5d7ee2dcc);
    e, x := Onward(Q138, GQ138, e, x, 6, DigitQ138(6), 0xd0ef9f58cb4a3b9a3829ee81b43d482445);
    e, x := Onward(Q138, GQ138, e, x, 6, DigitQ138(6), 0x24039a9e7b63b84d565300d98f2b5d47272);
    e, x := Onward(Q138, GQ138, e, x, 3, DigitQ138(3), 0xc574016a61491c598ed5666b6957a420b5);
    e, x := Onward(Q138, GQ138, e, x, 7, DigitQ138(7), 0x6fd382b50d6f6daee224bc0b5a51392e92);
    e, x := Onward(Q138, GQ138, e, x, 3, DigitQ138(3), 0x9c305f0229e79019bb9e950585c4f83834);
  }

  lemma PowersQ138B() returns (e: nat, x: int)
    ensures e == 0x741f86cfb9e1fe14b4
    ensures x == 0x22083501428424106632a9c33589220d5a4 && Cong(Q138, Pow(GQ138, e), x)
  {
    hide Cong, Pow;
    DigitsQ138();
    e, x := PowersQ138A();
    e, x := Onward(Q138, GQ138, e, x, 4, DigitQ138(4), 0x2a38f95ffd820620cfded9d8b4eeeb0fead);
    e, x := Onward(Q138, GQ138, e, x, 7, DigitQ138(7), 0x763a7d6240c00d6d556935b16879e645a6);
    e, x := Onward(Q138, GQ138, e, x, 4, DigitQ138(4), 0x1170c489bc74d3968387181b3f49ad4057c);
    e, x := Onward(Q138, GQ138, e, x, 1, DigitQ138(1), 0xecaf311a891586edda8fc3b09e67621cc6);
    e, x := Onward(Q138, GQ138, e, x, 7, DigitQ138(7), 0x1447ccdf9004c739cc154f8fe33e5e94443);
    e, x := Onward(Q138, GQ138, e, x, 7, DigitQ138(7), 0xa5d142bedb201b5f9e3ec2d78608618c84);
    e, x := Onward(Q138, GQ138, e, x, 4, DigitQ138(4), 0x1b7310b501800eab2421547d20177521242);
    e, x := Onward(Q138, GQ138, e, x, 1, DigitQ138(1), 0x3a3c1def681ada30d27376177df4e3ade6);
    e, x := Onward(Q138, GQ138, e, x, 2, DigitQ138(2), 0x11b29314701d9c8e2438b86a33a9f063da2);
    e, x := Onward(Q138, GQ138, e, x, 2, DigitQ138(2), 0x17cb508926454ab47688cb41ec1719994f8);
    e, x := Onward(Q138, GQ138, e, x, 6, DigitQ138(6), 0x2327380af877dc23c0e2413e21ffa662e46);
    e, x := Onward(Q138, GQ138, e, x, 4, DigitQ138(4), 0x22083501428424106632a9c33589220d5a4);
  }

  lemma PowersQ138C() returns (e: nat, x: int)
    ensures e == 0x741f86cfb9e1fe14b43b61636f8
    ensures x == 0x12a66507b474847fd757f71b1ef394f44e1 && Cong(Q138, Pow(GQ138, e), x)
  {
    hide Cong, Pow;
    DigitsQ138();
    e, x := PowersQ138B();
    e, x := Onward(Q138, GQ138, e, x, 1, DigitQ138(1), 0xbac28d47201992dc0b47be66dcc0173d6a);
    e, x := Onward(Q138, GQ138, e, x, 6, DigitQ138(6), 0x2e40b4e299ca1cac46c538d61756b206dc5);
    e, x := Onward(Q138, GQ138, e, x, 6, DigitQ138(6), 0x16558cabf3893517a959284844cd0c7c7bc);
    e, x := Onward(Q138, GQ138, e, x, 6, DigitQ138(6), 0x107e314ef115dd3db73b2f03fd8cbea35f0);
    e, x := Onward(Q138, GQ138, e, x, 0, DigitQ138(0), 0x50dd09e0f24696263f741ccaf788614f7c);
    e, x := Onward(Q138, GQ138, e, x, 5, DigitQ138(5), 0x1c70ca700114fc4ee2b895a13bb1a05f16d);
    e, x := Onward(Q138, GQ138, e, x, 4, DigitQ138(4), 0xe91b6458992704bf97c49d0e6a2c1d57b0);
    e, x := Onward(Q138, GQ138, e, x, 3, DigitQ138(3), 0x152799e7c38f182e7ec616a4f5631852a86);
    e, x := Onward(Q138, GQ138, e, x, 3, DigitQ138(3), 0x8a93800cc3ac6b25fd592f22739f8e21);
    e, x := Onward(Q138, GQ138, e, x, 3, DigitQ138(3), 0x218f2ed0c2bf5020c9c0a448774976c4a8b);
    e, x := Onward(Q138, GQ138, e, x, 7, DigitQ138(7), 0x21a327d662f1dde4974011979b7e85abd3d);
    e, x := Onward(Q138, GQ138, e, x, 0, DigitQ138(0), 0x12a66507b474847fd757f71b1ef394f44e1);
  }

  lemma PowersQ138D() returns (e: nat, x: int)
    ensures e == 0x3a0fc367dcf0ff0a5a1db0b1b7c3093f33
    ensures x == 1 && Cong(Q138, Pow(GQ138, e), x)
  {
    hide Cong, Pow;
    DigitsQ138();
    e, x := PowersQ138C();
    e, x := Onward(Q138, GQ138, e, x, 3, DigitQ138(3), 0xb27ce908892a1f5e39a86e0c18b16f1ac1);
    e, x := Onward(Q138, GQ138, e, x, 0, DigitQ138(0), 0x13c0e2beff514b70e9d25a93e94cf99571a);
    e, x := Onward(Q138, GQ138, e, x, 2, DigitQ138(2), 0x2e298ed5431867a1152c55fc14fe629ac7c);
    e, x := Onward(Q138, GQ138, e, x, 2, DigitQ138(2), 0x18e52465c2bfe5785081830879b99072684);
    e, x := Onward(Q138, GQ138, e, x, 3, DigitQ138(3), 0x1d717c0b8609d85224467fcc312dd685ea5);
    e, x := Onward(Q138, GQ138, e, x, 7, DigitQ138(7), 0x14e375907e488f8c817ccb7c98c1a0818bd);
    e, x := Onward(Q138, GQ138, e, x, 4, DigitQ138(4), 0x1b1d1947a0e70e4690a5a21122d381b7f20);
    e, x := Onward(Q138, GQ138, e, x, 6, DigitQ138(6), 0x3106b18ff5cd8372730e481aed56ab13f5e);
    e, x := Onward(Q138, GQ138, e, x, 3, DigitQ138(3), 1);
  }

  lemma PrimeQ138()
    ensures Prime(Q138)
  {
    hide Cong, Pow, Prime;
    PrimeQ134();
    var _, _ := PowersQ138D();
    CongRem(Q138, (GQ138 - 1) * TQ138);
    Pocklington(Q138, Q134, 0, 14, GQ138, TQ138);
  }

  // ---- L ----

  const GL: int := 0x6941747825185c74c21c65c0572a638494435ae0b3ba38e09b97aa8d26faec1

  /** The inverse of GL - 1 modulo L. */
  const TL: int := 0x4f00a20dc254447a5cb50de6926ccd209ebc28f00f1664a7d2f3930fbe411ae

  /** The first powers of GL, modulo L. */
  function DigitL(d: nat): int
  {
    if d == 0 then 1
    else if d == 1 then 0x6941747825185c74c21c65c0572a638494435ae0b3ba38e09b97aa8d26faec1
    else if d == 2 then 0xfddb91168b9e9e461c670c7a19d2ba0c61cd8aa1246b305e598319e47d75b66
    else if d == 3 then 0x81a732e5e696fce4dcf08a863dd06b9e0963962ec8aa594458f77b2a81a90cf
    else if d == 4 then 0xcc0cacd114ec3fd125792d43a74d34956705ef44fc9b6eb7abbae7476b84860
    else if d == 5 then 0x7b2f1aaedc7f39e1cf730d1facaa0c1dc3ab81c7eee4a3fa40ddbd225638e80
    else if d == 6 then 0x648dbd78a50413202a236c9a126a9ed29db336aaf72dc42a03832d229afdd1c
    else 0xa86d06e8c2fa3c8359154bcd48f0acd73b093b47a05356ce7daa55006ee542d
  }

  lemma DigitsL()
    ensures forall d: nat :: d < 8 ==> Cong(L, Pow(GL, d), DigitL(d))
  {
    hide Cong, Pow;
    NoPower(L, GL);
    NextPower(L, GL, 0, DigitL(0), DigitL(1));
    NextPower(L, GL, 1, DigitL(1), DigitL(2));
    NextPower(L, GL, 2, DigitL(2), DigitL(3));
    NextPower(L, GL, 3, DigitL(3), DigitL(4));
    NextPower(L, GL, 4, DigitL(4), DigitL(5));
    NextPower(L, GL, 5, DigitL(5), DigitL(6));
    NextPower(L, GL, 6, DigitL(6), DigitL(7));
  }

  lemma PowersLA() returns (e: nat, x: int)
    ensures e == 0xcb372beb8
    ensures x == 0x3ba0fbdb737bd931801f7f4afb5d912aff191aa239f25656f9df07ab8dcf509 && Cong(L, Pow(GL, e), x)
  {
    hide Cong, Pow;
    DigitsL();
    NoPower(L, GL);
    e, x := 0, 1;
    e, x := Onward(L, GL, e, x, 6, DigitL(6), 0x648dbd78a50413202a236c9a126a9ed29db336aaf72dc42a03832d229afdd1c);
    e, x := Onward(L, GL, e, x, 2, DigitL(2), 0xfdd6ff16c32ad2f785160cb502d0cd7a6ea0f4c5ab65bb9557bf5f5e3d44d31);
    e, x := Onward(L, GL, e, x, 6, DigitL(6), 0xf6b55bf77948b174c610ca851bbd715c6d568f8a9f099ce6ae6ecb37f3dfb95);
    e, x := Onward(L, GL, e, x, 3, DigitL(3), 0x83ea22ee270e69922bb8f51c90027c1c0cb2ccc7b45763bbde06025dba18364);
    e, x := Onward(L, GL, e, x, 3, DigitL(3), 0xe2989e98e2787106604932f0feac8f4f54da482e898d9938ccd7e3a7b9ff2ad);
    e, x := Onward(L, GL, e, x, 4, DigitL(4), 0x21f5b6b8b294bb88e208064bade1919a98b5a8d883c65807e2c42e31d74a95d);
    e, x := Onward(L, GL, e, x, 5, DigitL(5), 0xa10d5fd997ec80a98fe37228321f7b9b521fa7ed9c4929deebdc72ab4054cbe);
    e, x := Onward(L, GL, e, x, 3, DigitL(3), 0x6c3c437ec06c24e310e0b578f6e7a88ee0754744de67877c9ded20076e6ead4);
    e, x := Onward(L, GL, e, x, 7, DigitL(7), 0x52bccc5d5fe22503c3866dc583de9ba50c593a624dbcdfaa0b272e63ed77971);
    e, x := Onward(L, GL, e, x, 2, DigitL(2), 0xffd318003b435e7294a95204486895688215a4fdf0aa9567016dc0d92d62eee);
    e, x := Onward(L, GL, e, x, 7, DigitL(7), 0xa9090f416144ce0cd503fc851c948ba19c0b275b71ea51413afe5f4f95c7445);
    e, x := Onward(L, GL, e, x, 0, DigitL(0), 0x3ba0fbdb737bd931801f7f4afb5d912aff191aa239f25656f9df07ab8dcf509);
  }

  lemma PowersLB() returns (e: nat, x: int)
    ensures e == 0xcb372beb854b7ca43b
    ensures x == 0x1aa7ecce1b937353cfb10a08018f2f5b3f5e01eb8578d15cbbebd26ba71dcc6 && Cong(L, Pow(GL, e), x)
  {
    hide Cong, Pow;
    DigitsL();
    e, x := PowersLA();
    e, x := Onward(L, GL, e, x, 2, DigitL(2), 0xfbd2908215260317037f97576542c250655092f55eb9c2dca7b22096bf267e3);
    e, x := Onward(L, GL, e, x, 5, DigitL(5), 0xb347348fee86204d0630914e11e01be3813b3ebb5d45c49078d3aa4bcec937d);
    e, x := Onward(L, GL, e, x, 1, DigitL(1), 0xc379d2d7d85d9c9a94da6fe4302b2851feb330ad4d003418f2cd441529190b4);
    e, x := Onward(L, GL, e, x, 3, DigitL(3), 0xef013c0fb1fc058872642045950723478b9ae9038ee0b0801f156f5b0a9f187);
    e, x := Onward(L, GL, e, x, 3, DigitL(3), 0x26a1eba5d039095dc12605969e83ae91337c19eff61983e9192130184c331b4);
    e, x := Onward(L, GL, e, x, 7, DigitL(7), 0x2ddcff8f74ccd7291f6eba6a662ce62bcc2d3f1a6e8d0835119e69a4cc47504);
    e, x := Onward(L, GL, e, x, 1, DigitL(1), 0x5a60827d54ae753e7dfe50d0da824a2e942e37f808109f3c0aed3099e40b7d9);
    e, x := Onward(L, GL, e, x, 2, DigitL(2), 0x6ab35bd6b490543692a91d275acff3b856a88368afbe8542ffd1be8cdf1862);
    e, x := Onward(L, GL, e, x, 2, DigitL(2), 0xfbc65fccc57f0b0b38e05485bdd764d9c5a1f31e4a9d207da5b3804de016333);
    e, x := Onward(L, GL, e, x, 0, DigitL(0), 0xcc98848802a930e349dcd5979dce0866d6e04808e0935aa53885090d8bccf73);
    e, x := Onward(L, GL, e, x, 7, DigitL(7), 0x1366ef3a98bf188b2259e2c55a92542142b54cd2ce8825c6caf8570e14486e);
    e, x := Onward(L, GL, e, x, 3, DigitL(3), 0x1aa7ecce1b937353cfb10a08018f2f5b3f5e01eb8578d15cbbebd26ba71dcc6);
  }

  lemma PowersLC() returns (e: nat, x: int)
    ensures e == 0xcb372beb854b7ca43b67ea6e032
    ensures x == 0x2afb492a8ecb926cece00ce3ae6cc6392e8fe85f1154b32c849ca049de3fcfa && Cong(L, Pow(GL, e), x)
  {
    hide Cong, Pow;
    DigitsL();
    e, x := PowersLB();
    e, x := Onward(L, GL, e, x, 3, DigitL(3), 0x997dd58966d8a1ffd174cd1ad9fd217e367102833ccff3efba039cf7d8753bf);
    e, x := Onward(L, GL, e, x, 1, DigitL(1), 0x5264a9477dbaf09536960a361b18e76b6a4ae7291320c81e8f2b745c367faa);
    e, x := Onward(L, GL, e, x, 7, DigitL(7), 0xd1a0285c124efef3c47e97b784fb291c818c029c9171b3d497105b1efd5df07);
    e, x := Onward(L, GL, e, x, 6, DigitL(6), 0xae24ba53809dd575d68134292620b60d61e032d86c726fdb9338a48ee4edb53);
    e, x := Onward(L, GL, e, x, 5, DigitL(5), 0x13f5564235e6f2545c3c011bb70be51a8413a6e7878da4a68d9e0c7f8d0931e);
    e, x := Onward(L, GL, e, x, 1, DigitL(1), 0xe2ebb2f70d2abe568d3427a59b460b886dd92abcdfbb74714cddd6ed8314d5);
    e, x := Onward(L, GL, e, x, 5, DigitL(5), 0xc3bd13f74e687ddc7a561600a49478e9ecde4ed2f5746b235d0d852a0583b0a);
    e, x := Onward(L, GL, e, x, 6, DigitL(6), 0x2bfa20667f0bba2193ac8827bcfdca590a9165656d9df20fe2b05438ce3532f);
    e, x := Onward(L, GL, e, x, 0, DigitL(0), 0xad625cd5b41d2d6fb8481be0e1a591daf837adb2daa25c5ad24fac79c8c866a);
    e, x := Onward(L, GL, e, x, 0, DigitL(0), 0x6b94e397862dbc3266f82f155428c74bfa12f25caa5683e732c78b72b905164);
    e, x := Onward(L, GL, e, x, 6, DigitL(6), 0xe8abe89f7664e21fd8cd88df5a147e94bf75ddf8149a88f46f13799b2c6b983);
    e, x := Onward(L, GL, e, x, 2, DigitL(2), 0x2afb492a8ecb926cece00ce3ae6cc6392e8fe85f1154b32c849ca049de3fcfa);
  }

  lemma PowersLD() returns (e: nat, x: int)
    ensures e == 0x32cdcafae152df290ed9fa9b80caa8174cb
    ensures x == 1 && Cong(L, Pow(GL, e), x)
  {
    hide Cong, Pow;
    DigitsL();
    e, x := PowersLC();
    e, x := Onward(L, GL, e, x, 5, DigitL(5), 0x457deb054ad60576feb81f52676fe258a9d2f1eb6e063f5178ea7e5688f10f9);
    e, x := Onward(L, GL, e, x, 2, DigitL(2), 0xd8e4993e231b4e0fbe48d27c98a70e5ec7071a7b04a9f044114e64e12f3106c);
    e, x := Onward(L, GL, e, x, 4, DigitL(4), 0x5f75221c9ba7773896d2dc73a840540db0404740e7446c47f9929cb38d7524d);
    e, x := Onward(L, GL, e, x, 0, DigitL(0), 0x6e1d3b4c3e2af58e5835b740f40b21b58f003d5dbf7b9df7db7b0aacfa6d742);
    e, x := Onward(L, GL, e, x, 2, DigitL(2), 0x410ea19f632cbf75af972cfa24c2307513820d0934884cc03f4e14e4e69a73b);
    e, x := Onward(L, GL, e, x, 7, DigitL(7), 0xfa249c5b0423d44014bc1b21506f8647cc7f0251d8eb95e6372fc3341c28849);
    e, x := Onward(L, GL, e, x, 2, DigitL(2), 0xf1260b7284f253e90cb1c7ee3c2a6ef4b930055192b8ba5deb910b583326f97);
    e, x := Onward(L, GL, e, x, 3, DigitL(3), 0x84d21ccfefd12ff29934941efe60ee3fbda4f0ca60f19ed7f8b78160358ff87);
    e, x := Onward(L, GL, e, x, 1, DigitL(1), 0xc6cb70f0c69b2352bae4a1ccec803fd3ff5b8a487e6cb586e3448c23bf0b3);
    e, x := Onward(L, GL, e, x, 3, DigitL(3), 1);
  }

  lemma PrimeL()
    ensures Prime(L)
  {
    hide Cong, Pow, Prime;
    PrimeQ138();
    var _, _ := PowersLD();
    CongRem(L, (GL - 1) * TL);
    Pocklington(L, Q138, 0, 0x509faf1d7c73cc776823a348caa44, GL, TL);
  }

  /** The order as RFC 8032 gives it in section 5.1. */
  lemma OrderValue()
    ensures L == Pow2(252) + 27742317777372353535851937790883648493
  {
    hide Pow2;
    Field25519.Pow2Of255();
  }
}
