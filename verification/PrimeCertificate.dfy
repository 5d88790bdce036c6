/**
 * 2^255 - 19 is prime. Below it stands a chain of primes: each is a factor of the one before it less one, and the order
 * of an element G modulo the one before it. The exponents of the powers of G are worked off by digits of three bits.
 */
module PrimeCertificate {
  import opened Primes
  import Field25519

  const P: int := Field25519.P
  const Q237: int := 74058212732561358302231226437062788676166966415465897661863160754340907
  const Q116: int := 75445702479781427272750846543864801
  const Q51: int := 1919519569386763
  const Q24: int := 8574133
  const Q10: int := 991

  lemma PrimeQ10()
    ensures Prime(Q10)
  {
    DividedByNone();
    TrialDivision(Q10, 31);
  }

  lemma DividedByNone()
    ensures Undivided(991, 31)
  {
    assert Undivided(991, 10);
    assert Undivided(991, 20);
  }

  // ---- Q24 ----

  const GQ24: int := 0x346cd1

  /** The inverse of GQ24 - 1 modulo Q24. */
  const TQ24: int := 0xf79eb

  /** The first powers of GQ24, modulo Q24. */
  function DigitQ24(d: nat): int
  {
    if d == 0 then 1
    else if d == 1 then 0x346cd1
    else if d == 2 then 0x1d7e53
    else if d == 3 then 0x730281
    else if d == 4 then 0x3cfe10
    else if d == 5 then 0x40bea0
    else if d == 6 then 0x2d7028
    else 0x7c5d46
  }

  lemma DigitsQ24()
    ensures forall d: nat :: d < 8 ==> Cong(Q24, Pow(GQ24, d), DigitQ24(d))
  {
    hide Cong, Pow;
    NoPower(Q24, GQ24);
    NextPower(Q24, GQ24, 0, DigitQ24(0), DigitQ24(1));
    NextPower(Q24, GQ24, 1, DigitQ24(1), DigitQ24(2));
    NextPower(Q24, GQ24, 2, DigitQ24(2), DigitQ24(3));
    NextPower(Q24, GQ24, 3, DigitQ24(3), DigitQ24(4));
    NextPower(Q24, GQ24, 4, DigitQ24(4), DigitQ24(5));
    NextPower(Q24, GQ24, 5, DigitQ24(5), DigitQ24(6));
    NextPower(Q24, GQ24, 6, DigitQ24(6), DigitQ24(7));
  }

  lemma PowersQ24A() returns (e: nat, x: int)
    ensures e == 991
    ensures x == 1 && Cong(Q24, Pow(GQ24, e), x)
  {
    hide Cong, Pow;
    DigitsQ24();
    NoPower(Q24, GQ24);
    e, x := 0, 1;
    e, x := Onward(Q24, GQ24, e, x, 1, DigitQ24(1), 0x346cd1);
    e, x := Onward(Q24, GQ24, e, x, 7, DigitQ24(7), 0x67873c);
    e, x := Onward(Q24, GQ24, e, x, 3, DigitQ24(3), 0x62fece);
    e, x := Onward(Q24, GQ24, e, x, 7, DigitQ24(7), 1);
  }

  lemma PrimeQ24()
    ensures Prime(Q24)
  {
    hide Cong, Pow, Prime;
    PrimeQ10();
    var _, _ := PowersQ24A();
    CongRem(Q24, (GQ24 - 1) * TQ24);
    Pocklington(Q24, Q10, 8, 724, GQ24, TQ24);
  }

  // ---- Q51 ----

  const GQ51: int := 0x3c3ffdef7c0b1

  /** The inverse of GQ51 - 1 modulo Q51. */
  const TQ51: int := 0x495bef080ea35

  /** The first powers of GQ51, modulo Q51. */
  function DigitQ51(d: nat): int
  {
    if d == 0 then 1
    else if d == 1 then 0x3c3ffdef7c0b1
    else if d == 2 then 0x158280d1c7fe9
    else if d == 3 then 0x5d17f17b76d79
    else if d == 4 then 0x8343f3dc7de5
    else if d == 5 then 0x6b43a90746233
    else if d == 6 then 0x39b5d4b9f687b
    else 0x149b8d8aeb6b4
  }

  lemma DigitsQ51()
    ensures forall d: nat :: d < 8 ==> Cong(Q51, Pow(GQ51, d), DigitQ51(d))
  {
    hide Cong, Pow;
    NoPower(Q51, GQ51);
    NextPower(Q51, GQ51, 0, DigitQ51(0), DigitQ51(1));
    NextPower(Q51, GQ51, 1, DigitQ51(1), DigitQ51(2));
    NextPower(Q51, GQ51, 2, DigitQ51(2), DigitQ51(3));
    NextPower(Q51, GQ51, 3, DigitQ51(3), DigitQ51(4));
    NextPower(Q51, GQ51, 4, DigitQ51(4), DigitQ51(5));
    NextPower(Q51, GQ51, 5, DigitQ51(5), DigitQ51(6));
    NextPower(Q51, GQ51, 6, DigitQ51(6), DigitQ51(7));
  }

  lemma PowersQ51A() returns (e: nat, x: int)
    ensures e == 0x82d4b5
    ensures x == 1 && Cong(Q51, Pow(GQ51, e), x)
  {
    hide Cong, Pow;
    DigitsQ51();
    NoPower(Q51, GQ51);
    e, x := 0, 1;
    e, x := Onward(Q51, GQ51, e, x, 4, DigitQ51(4), 0x8343f3dc7de5);
    e, x := Onward(Q51, GQ51, e, x, 0, DigitQ51(0), 0x612344a925350);
    e, x := Onward(Q51, GQ51, e, x, 5, DigitQ51(5), 0x6bb9918006e92);
    e, x := Onward(Q51, GQ51, e, x, 5, DigitQ51(5), 0x67339e4b07ecd);
    e, x := Onward(Q51, GQ51, e, x, 2, DigitQ51(2), 0x6bd0e231a5cd1);
    e, x := Onward(Q51, GQ51, e, x, 2, DigitQ51(2), 0x2741e82e93a2c);
    e, x := Onward(Q51, GQ51, e, x, 6, DigitQ51(6), 0x29c454b86c6a2);
    e, x := Onward(Q51, GQ51, e, x, 5, DigitQ51(5), 1);
  }

  lemma PrimeQ51()
    ensures Prime(Q51)
  {
    hide Cong, Pow, Prime;
    PrimeQ24();
    var _, _ := PowersQ51A();
    CongRem(Q51, (GQ51 - 1) * TQ51);
    Pocklington(Q51, Q24, 26, 945856, GQ51, TQ51);
  }

  // ---- Q116 ----

  const GQ116: int := 0xaedd80ab27e8de3ca5f2fb22d5403

  /** The inverse of GQ116 - 1 modulo Q116. */
  const TQ116: int := 0xe5e342b4c0a3d507894bab5f20e8b

  /** The first powers of GQ116, modulo Q116. */
  function DigitQ116(d: nat): int
  {
    if d == 0 then 1
    else if d == 1 then 0xaedd80ab27e8de3ca5f2fb22d5403
    else if d == 2 then 0xb0da74ed5d70949974a587c3858eb
    else if d == 3 then 0x22f28959a6094f3ec9a3cec3753fd
    else if d == 4 then 0xd7a8d470c94d453ede0028f0b211d
    else if d == 5 then 0x59ec6dcc3c053361d0f01155ae364
    else if d == 6 then 0x7b07abf2a0bdfa0b9dd400295ab
    else 0x8c7701b913a52825d97796e03def0
  }

  lemma DigitsQ116()
    ensures forall d: nat :: d < 8 ==> Cong(Q116, Pow(GQ116, d), DigitQ116(d))
  {
    hide Cong, Pow;
    NoPower(Q116, GQ116);
    NextPower(Q116, GQ116, 0, DigitQ116(0), DigitQ116(1));
    NextPower(Q116, GQ116, 1, DigitQ116(1), DigitQ116(2));
    NextPower(Q116, GQ116, 2, DigitQ116(2), DigitQ116(3));
    NextPower(Q116, GQ116, 3, DigitQ116(3), DigitQ116(4));
    NextPower(Q116, GQ116, 4, DigitQ116(4), DigitQ116(5));
    NextPower(Q116, GQ116, 5, DigitQ116(5), DigitQ116(6));
    NextPower(Q116, GQ116, 6, DigitQ116(6), DigitQ116(7));
  }

  lemma PowersQ116A() returns (e: nat, x: int)
    ensures e == 0xda395f425
    ensures x == 0x8cda73d5157a5b35948e623134b41 && Cong(Q116, Pow(GQ116, e), x)
  {
    hide Cong, Pow;
    DigitsQ116();
    NoPower(Q116, GQ116);
    e, x := 0, 1;
    e, x := Onward(Q116, GQ116, e, x, 6, DigitQ116(6), 0x7b07abf2a0bdfa0b9dd400295ab);
    e, x := Onward(Q116, GQ116, e, x, 6, DigitQ116(6), 0x9d0091ad15cf6e36495814c254374);
    e, x := Onward(Q116, GQ116, e, x, 4, DigitQ116(4), 0x71f9ced5e7ced7df9a9a7c51912e1);
    e, x := Onward(Q116, GQ116, e, x, 3, DigitQ116(3), 0x2f3ed96edb813d61b2da8bf51ce29);
    e, x := Onward(Q116, GQ116, e, x, 4, DigitQ116(4), 0x311c7da706526c7b84452ad03a077);
    e, x := Onward(Q116, GQ116, e, x, 5, DigitQ116(5), 0x14051b811dcd6cc4d88bd19834f2e);
    e, x := Onward(Q116, GQ116, e, x, 3, DigitQ116(3), 0x3153b661018255cbd0a0f75054ca4);
    e, x := Onward(Q116, GQ116, e, x, 7, DigitQ116(7), 0x2fa31f134f23bd7fd36f5d18337bc);
    e, x := Onward(Q116, GQ116, e, x, 2, DigitQ116(2), 0x2b80db59644f026a0903288aaaa5d);
    e, x := Onward(Q116, GQ116, e, x, 0, DigitQ116(0), 0x93b03ea99805f634625c94e0aedf8);
    e, x := Onward(Q116, GQ116, e, x, 4, DigitQ116(4), 0x74d5f338e0a6231fe90cf6f410723);
    e, x := Onward(Q116, GQ116, e, x, 5, DigitQ116(5), 0x8cda73d5157a5b35948e623134b41);
  }

  lemma PowersQ116B() returns (e: nat, x: int)
    ensures e == 0x6d1cafa129d0b
    ensures x == 1 && Cong(Q116, Pow(GQ116, e), x)
  {
    hide Cong, Pow;
    DigitsQ116();
    e, x := PowersQ116A();
    e, x := Onward(Q116, GQ116, e, x, 1, DigitQ116(1), 0x2b021a7ab552f243edc3ba9800c8e);
    e, x := Onward(Q116, GQ116, e, x, 6, DigitQ116(6), 0x96b899fdc0647b954aaad72656e3d);
    e, x := Onward(Q116, GQ116, e, x, 4, DigitQ116(4), 0x7ad56a78a8c4b8c1209fe3b3e6158);
    e, x := Onward(Q116, GQ116, e, x, 1, DigitQ116(1), 0xa812cf0dbf2e7642952efba327e7a);
    e, x := Onward(Q116, GQ116, e, x, 3, DigitQ116(3), 1);
  }

  lemma PrimeQ116()
    ensures Prime(Q116)
  {
    hide Cong, Pow, Prime;
    PrimeQ51();
    var _, _ := PowersQ116B();
    CongRem(Q116, (GQ116 - 1) * TQ116);
    Pocklington(Q116, Q51, 20476, 0x161bccc2e1bcc, GQ116, TQ116);
  }

  // ---- Q237 ----

  const GQ237: int := 0xa118eb0f9d8184bab59e8e45df736d65fba3c64f4aa855bc8921ac18308

  /** The inverse of GQ237 - 1 modulo Q237. */
  const TQ237: int := 0xa35a14fb1452ddd0fca6eef50ac9bd9a369cab894104fc366d4fa595e38

  /** The first powers of GQ237, modulo Q237. */
  function DigitQ237(d: nat): int
  {
    if d == 0 then 1
    else if d == 1 then 0xa118eb0f9d8184bab59e8e45df736d65fba3c64f4aa855bc8921ac18308
    else if d == 2 then 0xa5ccf5d3db56ce62be5238a53085cf2ecc7232c8797eb546caaddfb617c
    else if d == 3 then 0x8b4cf1d206f83670a1bd65b3b5531c0696ae852450b960b7180d25e9d0e
    else if d == 4 then 0x7f92d2bbd72b0ab2069ee0dadb5e032496dc9be76aaf1f6cf127963d857
    else if d == 5 then 0xd7159dcdf189cd01fc454237e6a6a03711e08027d7c49445cf526755ac
    else if d == 6 then 0x27af71b22f9cc17ead7c37dcf55e24e4bcb65b3acbc33e665ea7ee5c4dd
    else 0x1c285ecdff9df456e8a2d1eda35f795e719047659a5285709f272407023
  }

  lemma DigitsQ237()
    ensures forall d: nat :: d < 8 ==> Cong(Q237, Pow(GQ237, d), DigitQ237(d))
  {
    hide Cong, Pow;
    NoPower(Q237, GQ237);
    NextPower(Q237, GQ237, 0, DigitQ237(0), DigitQ237(1));
    NextPower(Q237, GQ237, 1, DigitQ237(1), DigitQ237(2));
    NextPower(Q237, GQ237, 2, DigitQ237(2), DigitQ237(3));
    NextPower(Q237, GQ237, 3, DigitQ237(3), DigitQ237(4));
    NextPower(Q237, GQ237, 4, DigitQ237(4), DigitQ237(5));
    NextPower(Q237, GQ237, 5, DigitQ237(5), DigitQ237(6));
    NextPower(Q237, GQ237, 6, DigitQ237(6), DigitQ237(7));
  }

  lemma PowersQ237A() returns (e: nat, x: int)
    ensures e == 0x743e1523b
    ensures x == 0xa256c07ca7201adeaa71af560709965872f70b47bb573b9afc65c68e8f1 && Cong(Q237, Pow(GQ237, e), x)
  {
    hide Cong, Pow;
    DigitsQ237();
    NoPower(Q237, GQ237);
    e, x := 0, 1;
    e, x := Onward(Q237, GQ237, e, x, 3, DigitQ237(3), 0x8b4cf1d206f83670a1bd65b3b5531c0696ae852450b960b7180d25e9d0e);
    e, x := Onward(Q237, GQ237, e, x, 5, DigitQ237(5), 0x655b44735bea9793d26cfbf9ca08b390404b9898b7cf1e07232912a8115);
    e, x := Onward(Q237, GQ237, e, x, 0, DigitQ237(0), 0x96b3210909a8c8117c615e847ef91d9bb7579d4c7da760f5028d0d749ee);
    e, x := Onward(Q237, GQ237, e, x, 3, DigitQ237(3), 0x8c4d6986c02ced31ce7b901472c22d56dc72f9e4e6b86b514b041922c02);
    e, x := Onward(Q237, GQ237, e, x, 7, DigitQ237(7), 0x66e62422dac05613028954ef8af6a89794fe4cb8fc39a01a67918ac4463);
    e, x := Onward(Q237, GQ237, e, x, 0, DigitQ237(0), 0x574efbe0432d1bc1463bd79851e1159e6493f1f88ab6e3f87cc00b870f2);
    e, x := Onward(Q237, GQ237, e, x, 2, DigitQ237(2), 0xa4221117ec614844a3207f77b9b3be05f68d922de37afd7a54e101a8de5);
    e, x := Onward(Q237, GQ237, e, x, 5, DigitQ237(5), 0x63b8ebd93c11954871c32fc2e372d743a77edaff8020cfdc80700af7c9b);
    e, x := Onward(Q237, GQ237, e, x, 1, DigitQ237(1), 0x45deae5d1733e9e844d8f1737a466b03c3269c73dc12c13607bd020f10c);
    e, x := Onward(Q237, GQ237, e, x, 0, DigitQ237(0), 0x3ebd9d5d55ca7513761120e402f7b2b4d5939bad7c4b6e0a39953e4a3e9);
    e, x := Onward(Q237, GQ237, e, x, 7, DigitQ237(7), 0x8c4e4b1bd51e029a05cebe12fcd639608ca9d69136c13fec807f0df59f1);
    e, x := Onward(Q237, GQ237, e, x, 3, DigitQ237(3), 0xa256c07ca7201adeaa71af560709965872f70b47bb573b9afc65c68e8f1);
  }

  lemma PowersQ237B() returns (e: nat, x: int)
    ensures e == 0x743e1523bdc0ad0bc9
    ensures x == 0xdc15c24c992029e8c4e6786e220ee4015fd80b154bd30e5036f1c04e50 && Cong(Q237, Pow(GQ237, e), x)
  {
    hide Cong, Pow;
    DigitsQ237();
    e, x := PowersQ237A();
    e, x := Onward(Q237, GQ237, e, x, 6, DigitQ237(6), 0x1521b4139d59dd46e5565b9db568908af5f45f9eaeef2ebe1a7d5d9f911);
    e, x := Onward(Q237, GQ237, e, x, 7, DigitQ237(7), 0x5a7ae6b65105339b61c12d319c3c1057b4b930f763c5b98b7d5373db59c);
    e, x := Onward(Q237, GQ237, e, x, 0, DigitQ237(0), 0x4909b9ea2ec9a7b910cf3eb8bafb40f4867d33792b4378132e9998d4c8a);
    e, x := Onward(Q237, GQ237, e, x, 0, DigitQ237(0), 0x826cb454bce2819745430223de1b84d36322a6db64e1542fc42e29adac0);
    e, x := Onward(Q237, GQ237, e, x, 5, DigitQ237(5), 0xdb193a211c8411a640a2dc782009608f9d15f6db4a3705061675dcae21);
    e, x := Onward(Q237, GQ237, e, x, 3, DigitQ237(3), 0x8c5a87bb28f66d2845b1dbad230965d7c341f1338e57e9e0e55bdae2de3);
    e, x := Onward(Q237, GQ237, e, x, 2, DigitQ237(2), 0x3adf545ec73b51fedeb89bde091359c2417c7ff0a2a6cf0a26dc49f2e97);
    e, x := Onward(Q237, GQ237, e, x, 0, DigitQ237(0), 0x6fa4d8eabfdcf11a306015cf431ce0f5ca2d1d066e00531ca107ef9c104);
    e, x := Onward(Q237, GQ237, e, x, 5, DigitQ237(5), 0x42a137b599d4ccaff49da9f7f91a3595e00e3c24721375b63d046801884);
    e, x := Onward(Q237, GQ237, e, x, 7, DigitQ237(7), 0x13d8e5901f6c8ba1bab7a879e53b73cdeefe2764865bd0c251e5ea3c736);
    e, x := Onward(Q237, GQ237, e, x, 1, DigitQ237(1), 0x4dbda4b7be7c597933d2c2e02ed65b14f8b8beb749fb71e27a01b85eac5);
    e, x := Onward(Q237, GQ237, e, x, 1, DigitQ237(1), 0xdc15c24c992029e8c4e6786e220ee4015fd80b154bd30e5036f1c04e50);
  }

  lemma PowersQ237C() returns (e: nat, x: int)
    ensures e == 0x743e1523bdc0ad0bc9bc39cad91
    ensures x == 0x593999941d53fa862093b8c1312ed5dd5da4c9cfee977a895d43bdb4496 && Cong(Q237, Pow(GQ237, e), x)
  {
    hide Cong, Pow;
    DigitsQ237();
    e, x := PowersQ237B();
    e, x := Onward(Q237, GQ237, e, x, 5, DigitQ237(5), 0x1b38053a9c01248edb08b3a320656956ef9d30e027ff2e771a3ad53c1a6);
    e, x := Onward(Q237, GQ237, e, x, 7, DigitQ237(7), 0x1647086a7fed5d421930ecffc127b37ccc7e8dff61932f69b557cd2d278);
    e, x := Onward(Q237, GQ237, e, x, 0, DigitQ237(0), 0x576f3c4c28aec4e2460338906ab9ac647159bbe6483e87e60682c6b6c3);
    e, x := Onward(Q237, GQ237, e, x, 3, DigitQ237(3), 0xa879d94320d3c13283e150de5974f6f506b02c944574488f3763b3a604b);
    e, x := Onward(Q237, GQ237, e, x, 4, DigitQ237(4), 0x1f1faa2ad73d39374e4b9a14393289259e73ff1d149fd4c38a014fc8e2c);
    e, x := Onward(Q237, GQ237, e, x, 7, DigitQ237(7), 0x71b521f7b180d00e938ba880945963d153c59e511ca39a951bbbe6e0b3a);
    e, x := Onward(Q237, GQ237, e, x, 1, DigitQ237(1), 0x1eef041bbbe4684ed28066981df940860160a7f2a67079c025a8bcc97ee);
    e, x := Onward(Q237, GQ237, e, x, 2, DigitQ237(2), 0x2f1aad0673654ce104a16d68c2d269ca9db6af558e83ddb81b12f05e607);
    e, x := Onward(Q237, GQ237, e, x, 6, DigitQ237(6), 0x8c36d937b7fb8d95297ae3f389bd5be20a467de384373d8a4fdd91c9628);
    e, x := Onward(Q237, GQ237, e, x, 6, DigitQ237(6), 0x5afd89e3f5f0e9cf0d27a20fd9880b987003ab470ec2c75450aefb7672e);
    e, x := Onward(Q237, GQ237, e, x, 2, DigitQ237(2), 0x430f5a0aceb9a83e8cecc8696a4a796abd5746ff3b4aad08f17e18a89f2);
    e, x := Onward(Q237, GQ237, e, x, 1, DigitQ237(1), 0x593999941d53fa862093b8c1312ed5dd5da4c9cfee977a895d43bdb4496);
  }

  lemma PowersQ237D() returns (e: nat, x: int)
    ensures e == 0xe87c2a477b815a1793787395b23e1
    ensures x == 1 && Cong(Q237, Pow(GQ237, e), x)
  {
    hide Cong, Pow;
    DigitsQ237();
    e, x := PowersQ237C();
    e, x := Onward(Q237, GQ237, e, x, 7, DigitQ237(7), 0x1dec702ff514def393a13de3791001b6fec476630ba72aca68d010bb15a);
    e, x := Onward(Q237, GQ237, e, x, 4, DigitQ237(4), 0x5b12fd89764032e8cf229dcee5c41333b78d93fcce1b082fd78b6aa59d9);
    e, x := Onward(Q237, GQ237, e, x, 1, DigitQ237(1), 1);
  }

  lemma PrimeQ237()
    ensures Prime(Q237)
  {
    hide Cong, Pow, Prime;
    PrimeQ116();
    var _, _ := PowersQ237D();
    CongRem(Q237, (GQ237 - 1) * TQ237);
    Pocklington(Q237, Q116, 13, 0x283275648e38e70abfab005976fd, GQ237, TQ237);
  }

  // ---- P ----

  const GP: int := 0xf1ba0c491eeef83c49fc1b744331bb096d4893142c187431f7b03e61a75a49

  /** The inverse of GP - 1 modulo P. */
  const TP: int := 0x7acaff384090e983b641a51e1df0807078e467d06ab8164555f0f7fd51653bdc

  /** The first powers of GP, modulo P. */
  function DigitP(d: nat): int
  {
    if d == 0 then 1
    else if d == 1 then 0xf1ba0c491eeef83c49fc1b744331bb096d4893142c187431f7b03e61a75a49
    else if d == 2 then 0x709073d1ffed033997883f60abf9ed49b8362089b7f71c7d9dea1ea56f01adee
    else if d == 3 then 0x4ea246ccb138e2f755443ef3daf40219e5fcbc7235ea23171ab32bdfd9ba1c66
    else if d == 4 then 0x4a73efe20ace4e6a8ac99354cc7c9a4c1e9966f13e5a2190e4f390bbff381348
    else if d == 5 then 0x342a7d325b0b1ff95b5e45ca9165b32067bc4e206eb80f25089a8b32c3d11a1d
    else if d == 6 then 0x3d3fc701c8e6b9e7f0b235532bf759c935e72a55e9c35157ce5b09c238703c46
    else 0x586b0439ad17468a434b58f31120a166c8c0b3096db7be4504b4e2982a6f3354
  }

  lemma DigitsP()
    ensures forall d: nat :: d < 8 ==> Cong(P, Pow(GP, d), DigitP(d))
  {
    hide Cong, Pow;
    NoPower(P, GP);
    NextPower(P, GP, 0, DigitP(0), DigitP(1));
    NextPower(P, GP, 1, DigitP(1), DigitP(2));
    NextPower(P, GP, 2, DigitP(2), DigitP(3));
    NextPower(P, GP, 3, DigitP(3), DigitP(4));
    NextPower(P, GP, 4, DigitP(4), DigitP(5));
    NextPower(P, GP, 5, DigitP(5), DigitP(6));
    NextPower(P, GP, 6, DigitP(6), DigitP(7));
  }

  lemma PowersPA() returns (e: nat, x: int)
    ensures e == 0x55d7c6358
    ensures x == 0x2361e3cfd291e017e1654f76faa969916ee7e6e261523f1535610aa7121a92ec && Cong(P, Pow(GP, e), x)
  {
    hide Cong, Pow;
    DigitsP();
    NoPower(P, GP);
    e, x := 0, 1;
    e, x := Onward(P, GP, e, x, 2, DigitP(2), 0x709073d1ffed033997883f60abf9ed49b8362089b7f71c7d9dea1ea56f01adee);
    e, x := Onward(P, GP, e, x, 5, DigitP(5), 0x173b5223758edb62921c9bf8a68146cc07c570efc7c06ca7a00761d2c814953e);
    e, x := Onward(P, GP, e, x, 3, DigitP(3), 0x206fd5b3d4c68b4e2d908036ae1b16e4911d221e0517027258ca8648cae9df61);
    e, x := Onward(P, GP, e, x, 5, DigitP(5), 0x9313e5f19a530856ecc12c379512ac0493c0e915c3b8457a0736a263cc9ffd9);
    e, x := Onward(P, GP, e, x, 3, DigitP(3), 0x1b1fd343b4c5dd12d86f1aa9dcd532e025ffed3b0ad1f12f2eda876d7a634642);
    e, x := Onward(P, GP, e, x, 7, DigitP(7), 0x12e49f6bde7bb9edecf25e489856e1005576b78c1fdf843dfe9e3b538900e6ea);
    e, x := Onward(P, GP, e, x, 0, DigitP(0), 0x1dadfa118c804147f38342b13a809bd489473f161be3cb125ec35016f0baf036);
    e, x := Onward(P, GP, e, x, 6, DigitP(6), 0xf2b0a87ccb37618d1481272101cbcf2299ffefb0f5b4d7481db71194151371c);
    e, x := Onward(P, GP, e, x, 1, DigitP(1), 0x1cd0e3de30318dbd09003d65dc46fe179f6934eaf40fc4f31234a55cacdafc75);
    e, x := Onward(P, GP, e, x, 5, DigitP(5), 0x6e5fa880af41aaafff15619b0bb84882c0748b350bde7ed01a96c9884d5de8de);
    e, x := Onward(P, GP, e, x, 3, DigitP(3), 0x5679a457f3f9d312d133adc8fdef7161de05d229f96e741a1616a1d3bbb18c7a);
    e, x := Onward(P, GP, e, x, 0, DigitP(0), 0x2361e3cfd291e017e1654f76faa969916ee7e6e261523f1535610aa7121a92ec);
  }

  lemma PowersPB() returns (e: nat, x: int)
    ensures e == 0x55d7c63584a7e87996
    ensures x == 0x9d68e8f7e638e308f449d21597c233445fa35a03fba5325c27aa27e64e8a0aa && Cong(P, Pow(GP, e), x)
  {
    hide Cong, Pow;
    DigitsP();
    e, x := PowersPA();
    e, x := Onward(P, GP, e, x, 2, DigitP(2), 0x149fada88136c7aae3fd0d56aa59202db1e12ec3a72020399e2dcac5356dd1fd);
    e, x := Onward(P, GP, e, x, 2, DigitP(2), 0x33cfa5667d3565f60c39f5c51b3841c06690ba0a109bd9028eee35eda0a6ff42);
    e, x := Onward(P, GP, e, x, 4, DigitP(4), 0x68afa9bc0909b911996836028aae7434c8b2b107f12709482f280331d893c583);
    e, x := Onward(P, GP, e, x, 7, DigitP(7), 0x15c7080e2dd597cf730e6bd616dd42198a95e1fc574979fbb620d4b770a35cb);
    e, x := Onward(P, GP, e, x, 7, DigitP(7), 0x7512e77e51dc76a239d5f7433804ae2f4e0a9567afea3dc4a1eee0ca69ab4c77);
    e, x := Onward(P, GP, e, x, 2, DigitP(2), 0xeead903d09e97b46028a885b1c3aaa02b2df2896b7708f753494e4e0474d79d);
    e, x := Onward(P, GP, e, x, 0, DigitP(0), 0x7d417ec6d98a1286b74f85f5140448d4347e8bc4e5cd04fc3df149a0575e3a90);
    e, x := Onward(P, GP, e, x, 7, DigitP(7), 0x7d986e685fb31232060c80d7deb458c4a1dbc790dd7b037a54d6c51055955be7);
    e, x := Onward(P, GP, e, x, 4, DigitP(4), 0x120173a9d1c23cefe169ae6a9594d893208de899a04b73b6f85f2809f3b4c15c);
    e, x := Onward(P, GP, e, x, 6, DigitP(6), 0x436a55c2bf5f9d48d428f4c48d8c2c80d997388b64af202916032a7ae61b0a45);
    e, x := Onward(P, GP, e, x, 2, DigitP(2), 0x598738696b1a78ef858825e3bb42b77d3c440b0ffb4023d034e430d68a10f92d);
    e, x := Onward(P, GP, e, x, 6, DigitP(6), 0x9d68e8f7e638e308f449d21597c233445fa35a03fba5325c27aa27e64e8a0aa);
  }

  lemma PowersPC() returns (e: nat, x: int)
    ensures e == 0x55d7c63584a7e8799616655d5c3
    ensures x == 0x32018dbca6c2d15a87ecacb643fb5b22717ffe896d86cdfb62aa032e8d4ef0d && Cong(P, Pow(GP, e), x)
  {
    hide Cong, Pow;
    DigitsP();
    e, x := PowersPB();
    e, x := Onward(P, GP, e, x, 0, DigitP(0), 0x2851bd007acd8d127a96e681a514755649246561cd0e743ae5feacdd379e6ce1);
    e, x := Onward(P, GP, e, x, 5, DigitP(5), 0x782f22fffe936fa125c3ea8e84d7dc675cb4bd5fb2c418610414741adb67f65e);
    e, x := Onward(P, GP, e, x, 4, DigitP(4), 0x3a4ff0bad668aae8ee21301a2ea87405593b3f928b0646baf03caadf60a729f7);
    e, x := Onward(P, GP, e, x, 6, DigitP(6), 0x4402e1f3f886ba24b3bd24737f90d2caac855b45851565ceaac2928b1b2d0a72);
    e, x := Onward(P, GP, e, x, 2, DigitP(2), 0x24ab9f45bd4a4757d4777478edff94e928b99ea50d790362033312a35ee0435f);
    e, x := Onward(P, GP, e, x, 5, DigitP(5), 0x1d195d06b273bcc82e61e90bde48be28925c10c7324c09f6689300f5673d0b77);
    e, x := Onward(P, GP, e, x, 3, DigitP(3), 0x125807166bf9a6e02e26fbc39953d5185ffefc092a4a412139accbb5d8440f76);
    e, x := Onward(P, GP, e, x, 5, DigitP(5), 0x69393507a6f478a3572216f6bca96457e9a90e344f912dc66f5f1fdcac41d9d2);
    e, x := Onward(P, GP, e, x, 2, DigitP(2), 0xd619ccfc6199823806750dbb4fb04a358e1d5555a2e1a545f9b2ffecd7f489b);
    e, x := Onward(P, GP, e, x, 7, DigitP(7), 0x2435441ace3107bb452c944b643468bd8fc12a3b2393df1d92f6681acd02e7a6);
    e, x := Onward(P, GP, e, x, 0, DigitP(0), 0x70375f32e278a7366b098a856fcff94eb55ef90f8e8eae6573dcec0d1e3b3ee4);
    e, x := Onward(P, GP, e, x, 3, DigitP(3), 0x32018dbca6c2d15a87ecacb643fb5b22717ffe896d86cdfb62aa032e8d4ef0d);
  }

  lemma PowersPD() returns (e: nat, x: int)
    ensures e == 0x55d7c63584a7e8799616655d5c326df66cc8
    ensures x == 0x77a662f8caffedbc7c1da944039dabd5b09c18603446ad2eac2d775cb0cae344 && Cong(P, Pow(GP, e), x)
  {
    hide Cong, Pow;
    DigitsP();
    e, x := PowersPC();
    e, x := Onward(P, GP, e, x, 1, DigitP(1), 0x3fb7fda957cff97a18f25d50d2025558a4af39169f1c0afe615a2c2e8be44016);
    e, x := Onward(P, GP, e, x, 1, DigitP(1), 0x9ec0946233fe68a605b6cc9152a4955eb3a65b7c3fb7a6d5eb37fb95b0f7f99);
    e, x := Onward(P, GP, e, x, 5, DigitP(5), 0xe7aaa5b2c2d55d4d632e9bdf8ac84b1041911e93ae83cae3f93733119c113a4);
    e, x := Onward(P, GP, e, x, 5, DigitP(5), 0x71dea9788e33a811b6d7e03c7c2a8686f15decaaf65213523d28db7b903b95bb);
    e, x := Onward(P, GP, e, x, 7, DigitP(7), 0x3b127da5595ab21092d6ddd0093372987408a48a7bb353dd18f98b2cf1147ec);
    e, x := Onward(P, GP, e, x, 5, DigitP(5), 0x1df39c337485e2d1f5829b0fccac0410fe5d806e49965096611eb5b27088edb9);
    e, x := Onward(P, GP, e, x, 4, DigitP(4), 0x1ff921169ce8eb39e2b2d89c7b840a00c8bdb992423d2b382d585236579ec933);
    e, x := Onward(P, GP, e, x, 6, DigitP(6), 0x527cc1a57f84707311c838d60061c3e9fe73342a665b8cc96a7565389dfd4704);
    e, x := Onward(P, GP, e, x, 6, DigitP(6), 0x5b03ad4188eb393a96c354149435d01940a62f450414284d3b6b75cc817b86e2);
    e, x := Onward(P, GP, e, x, 3, DigitP(3), 0x375b8bb9867b766b8bf1e874a48fdd7f28cc015deafd91de7af634d34e37eb67);
    e, x := Onward(P, GP, e, x, 1, DigitP(1), 0x5cb23a07f0029392f6e377875706d02f20992fdf2a2241e0b4fdb4585212bce7);
    e, x := Onward(P, GP, e, x, 0, DigitP(0), 0x77a662f8caffedbc7c1da944039dabd5b09c18603446ad2eac2d775cb0cae344);
  }

  lemma PowersPE() returns (e: nat, x: int)
    ensures e == 0x55d7c63584a7e8799616655d5c326df66cc8a233ce0d6
    ensures x == 0x3db62297261ad2d3d998c218c8ca5e572756b8cbd0eab8a858871d7becf23d0e && Cong(P, Pow(GP, e), x)
  {
    hide Cong, Pow;
    DigitsP();
    e, x := PowersPD();
    e, x := Onward(P, GP, e, x, 5, DigitP(5), 0xb972427e4c493c9f1c0b75916300016d8512f160839cce8e768552b972af872);
    e, x := Onward(P, GP, e, x, 0, DigitP(0), 0x1db87bdddeb2f19ca6ab0377d6a9836cfaa50ce5daf01e1dec7e6888f6c066b9);
    e, x := Onward(P, GP, e, x, 4, DigitP(4), 0x734cd3108ddf15e0e5e1c19aa5df9297e03066eb0567d3349f47da79e01335f7);
    e, x := Onward(P, GP, e, x, 3, DigitP(3), 0x1db381927f44ae1e9dd744d1726181f09da6ed1c763351fb9d1f5c5c8d2664ce);
    e, x := Onward(P, GP, e, x, 1, DigitP(1), 0x7f208b30bee5ca828ae7467d7617c8c9518cc2c2f3b3e90b06bc75573935f253);
    e, x := Onward(P, GP, e, x, 7, DigitP(7), 0x5f8984f906d5441c391eb22925f43727c64cb6d8d120c7c028480661a0aad9ed);
    e, x := Onward(P, GP, e, x, 1, DigitP(1), 0x5325fda4237781932fab467f84baa0ccd6c742e2ebae5830b29e24393b6bbd41);
    e, x := Onward(P, GP, e, x, 6, DigitP(6), 0x5cbf708319f71ae6b02c4f3c1f5c85b93278b717b882863c033bd4a8974fef09);
    e, x := Onward(P, GP, e, x, 0, DigitP(0), 0x33932da903b6f4f883d8ac0281a1509642b69d1f9e88c5607420c7e62801d08a);
    e, x := Onward(P, GP, e, x, 3, DigitP(3), 0x6802e818520dd7868199b56365b3dce67be4bbbc6538f37533ae47823af5af44);
    e, x := Onward(P, GP, e, x, 2, DigitP(2), 0x28367540d567e8cc03c54018a6bcfcc74a761686f5381a0c1ab23ac029d6d760);
    e, x := Onward(P, GP, e, x, 6, DigitP(6), 0x3db62297261ad2d3d998c218c8ca5e572756b8cbd0eab8a858871d7becf23d0e);
  }

  lemma PowersPF() returns (e: nat, x: int)
    ensures e == 0x55d7c63584a7e8799616655d5c326df66cc8a233ce0d6fc0244c7d
    ensures x == 0x5bf8654cb1e7f08cec2bada22756bc8c8d08f0acb363954e2ec201fe343ee251 && Cong(P, Pow(GP, e), x)
  {
    hide Cong, Pow;
    DigitsP();
    e, x := PowersPE();
    e, x := Onward(P, GP, e, x, 7, DigitP(7), 0x4e6d7260b1537e825dc893994cc0a0ffd7854bc3ee6687b8827093487ffb3727);
    e, x := Onward(P, GP, e, x, 7, DigitP(7), 0x38f96d9178f90c40c2bec85fa223580382cb67d690d087dca234e40de8baf2cb);
    e, x := Onward(P, GP, e, x, 0, DigitP(0), 0x21134695adb30e4f572ae6b7a46ca2ea787d2b502887c9dd6618a850549d5da);
    e, x := Onward(P, GP, e, x, 0, DigitP(0), 0x139f897fa7527cd5228b8fba14dd0b1af0a017dde67b593f2cd9611dad049e1e);
    e, x := Onward(P, GP, e, x, 1, DigitP(1), 0x5e0c9d13f09097a57f414fa5a04d4f8a4dec605213e9c732df7c1cd2d4d0b1fb);
    e, x := Onward(P, GP, e, x, 1, DigitP(1), 0x53cba644c6d3ec61124c0d10583438cbeb0ec56e81135ab2c6b982d072614973);
    e, x := Onward(P, GP, e, x, 0, DigitP(0), 0x1ef090a7514b1305121dffd1d17232c7221af7b86d1dc1300d4a7d7c5857e93f);
    e, x := Onward(P, GP, e, x, 4, DigitP(4), 0x77f7d63276c4ce318e09b500c7218a7b94f0c03708ed36d1c0ece9c41e0e00d);
    e, x := Onward(P, GP, e, x, 6, DigitP(6), 0xd826b69a278e8d0c716157124d06fea88ad392e27133ed4ba3a93c9ea0ad0cd);
    e, x := Onward(P, GP, e, x, 1, DigitP(1), 0x13d233c7431f78bf53dd8820456b963d590e98fb3dc14c2061abf2d819233b7a);
    e, x := Onward(P, GP, e, x, 7, DigitP(7), 0x1e2bef643f7a160377e7dd036a4d6c0642b4dd24b17dbea3ed3b352f889d2c95);
    e, x := Onward(P, GP, e, x, 5, DigitP(5), 0x5bf8654cb1e7f08cec2bada22756bc8c8d08f0acb363954e2ec201fe343ee251);
  }

  lemma PowersPG() returns (e: nat, x: int)
    ensures e == 0xabaf8c6b094fd0f32c2ccabab864dbecd99144679c1adf804898fb2042b
    ensures x == 1 && Cong(P, Pow(GP, e), x)
  {
    hide Cong, Pow;
    DigitsP();
    e, x := PowersPF();
    e, x := Onward(P, GP, e, x, 4, DigitP(4), 0x29d46a557fb5b049ba95c15d2fa1258f1559a69d186ce1e0240b2fb379b455b5);
    e, x := Onward(P, GP, e, x, 4, DigitP(4), 0x6bed10843b56bb2e857e985fcd9fcc89d1c3470b4609cb26203fb30c9757bb2c);
    e, x := Onward(P, GP, e, x, 0, DigitP(0), 0x7665bdb55a01f0d012e89ecceb440abd6ee8d914c3f3296c8c9b4d3d242f444c);
    e, x := Onward(P, GP, e, x, 2, DigitP(2), 0x5f1209051ec62933908d7664864b849a9f313c2be2b918ed4c965f59db23092b);
    e, x := Onward(P, GP, e, x, 0, DigitP(0), 0x6a43f73dfb5f30b83778821eb1927938e545d7908fedd6463dec632c87886fa7);
    e, x := Onward(P, GP, e, x, 5, DigitP(5), 0x5be0842af386f22659e14cd4374779e2d818ed268a24b8e923d4f1a5bd75b33d);
    e, x := Onward(P, GP, e, x, 3, DigitP(3), 1);
  }

  lemma PrimeP()
    ensures Prime(P)
  {
    hide Cong, Pow, Prime;
    PrimeQ237();
    var _, _ := PowersPG();
    CongRem(P, (GP - 1) * TP);
    Pocklington(P, Q237, 0, 781764, GP, TP);
  }
}
