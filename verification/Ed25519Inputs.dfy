/** The Ed25519 input checks as arithmetic: which encodings of points and scalars pass, in numbers
    (core/rust/grain-core/src/cose.rs). */
module Ed25519Inputs {
  import opened Prelude
  import opened Cose

  /** The field prime, 2^255 - 19. */
  const P := 0x7fff_ffff_ffff_ffff_ffff_ffff_ffff_ffff_ffff_ffff_ffff_ffff_ffff_ffff_ffff_ffed

  /** The order of the base point, 2^252 + 27742317777372353535851937790883648493. */
  const L := 0x1000_0000_0000_0000_0000_0000_0000_0000_14de_f9de_a2f7_9cd6_5812_631a_5cf5_d3ed

  /** The two y coordinates of points of order eight. */
  const EIGHT_A := 0x7a03_ac92_77fd_c74e_c6cc_392c_fa53_202a_0f67_100d_760b_3cba_4fd8_4d3d_706a_17c7
  const EIGHT_B := 0x05fc_536d_8802_38b1_3933_c6d3_05ac_dfd5_f098_eff2_89f4_c345_b027_b2c2_8f95_e826

  // ----- bytes to numbers -----

  /** Eight bytes as a number. */
  function Word(b: bytes): nat
    requires |b| >= 8
  {
    b[0] as int + 0x100 * b[1] as int + 0x1_0000 * b[2] as int + 0x100_0000 * b[3] as int + 0x1_0000_0000 * b[4] as int
    + 0x100_0000_0000 * b[5] as int + 0x1_0000_0000_0000 * b[6] as int + 0x100_0000_0000_0000 * b[7] as int
  }

  lemma FirstWord(b: bytes)
    requires |b| >= 8
    ensures LeNat(b) == Word(b) + 0x1_0000_0000_0000_0000 * LeNat(b[8..])
  {
    hide LeNat;
    FourBytes(b);
    FourBytes(b[4..]);
    assert b[4..][4..] == b[8..];
  }

  lemma FourBytes(b: bytes)
    requires |b| >= 4
    ensures LeNat(b) == b[0] as int + 0x100 * b[1] as int + 0x1_0000 * b[2] as int + 0x100_0000 * b[3] as int + 0x1_0000_0000 * LeNat(b[4..])
  {
    var b1, b2, b3 := b[1..], b[2..], b[3..];
    assert b1[1..] == b2 && b2[1..] == b3 && b3[1..] == b[4..];
    assert LeNat(b) == b[0] as int + 0x100 * LeNat(b1) && LeNat(b1) == b[1] as int + 0x100 * LeNat(b2);
    assert LeNat(b2) == b[2] as int + 0x100 * LeNat(b3) && LeNat(b3) == b[3] as int + 0x100 * LeNat(b[4..]);
  }

  /** Four words: 32 bytes as a number. */
  function Number(b: bytes): nat
    requires |b| == 32
  {
    Word(b) + 0x1_0000_0000_0000_0000 * (Word(b[8..]) + 0x1_0000_0000_0000_0000 * (Word(b[16..]) + 0x1_0000_0000_0000_0000 * Word(b[24..])))
  }

  lemma NumberIs(b: bytes)
    requires |b| == 32
    ensures LeNat(b) == Number(b)
  {
    hide LeNat, Word;
    FirstWord(b);
    FirstWord(b[8..]);
    FirstWord(b[16..]);
    FirstWord(b[24..]);
    assert b[8..][8..] == b[16..] && b[16..][8..] == b[24..] && b[24..][8..] == [];
    NothingIsZero();
  }

  lemma NothingIsZero()
    ensures LeNat([]) == 0
  {
  }

  lemma {:induction false} LeInjective(a: bytes, b: bytes)
    requires |a| == |b| && LeNat(a) == LeNat(b)
    ensures a == b
  {
    if |a| > 0 {
      LeInjective(a[1..], b[1..]);
      assert a == [a[0]] + a[1..] && b == [b[0]] + b[1..];
    }
  }

  // ----- the constants -----

  lemma FieldPrime()
    ensures LeNat(FIELD_P) == P
  {
    hide LeNat;
    NumberIs(FIELD_P);
  }

  lemma ScalarOrder()
    ensures LeNat(SCALAR_L) == L
  {
    hide LeNat;
    NumberIs(SCALAR_L);
  }

  /** The five y coordinates of points of small order, as bytes. */
  const ZERO_Y: bytes := Fill(0, 32)
  const ONE_Y: bytes := [0x01] + Fill(0, 31)
  const MINUS_ONE_Y: bytes := [0xec] + Fill(0xff, 30) + [0x7f]
  const EIGHT_A_Y: bytes := ORDER_EIGHT_A + [0x7a]
  const EIGHT_B_Y: bytes := ORDER_EIGHT_B + [0x05]

  lemma SmallYs()
    ensures LeNat(ZERO_Y) == 0 && LeNat(ONE_Y) == 1 && LeNat(MINUS_ONE_Y) == P - 1
  {
    hide LeNat;
    NumberIs(ZERO_Y);
    NumberIs(ONE_Y);
    NumberIs(MINUS_ONE_Y);
  }

  lemma EightAY()
    ensures LeNat(EIGHT_A_Y) == EIGHT_A
  {
    hide LeNat;
    NumberIs(EIGHT_A_Y);
  }

  lemma EightBY()
    ensures LeNat(EIGHT_B_Y) == EIGHT_B
  {
    hide LeNat;
    NumberIs(EIGHT_B_Y);
  }

  /** On the curve -x^2 + y^2 = 1 - (121665/121666) x^2 y^2 the double of a point has y = 0, so the point has order
      eight, when x^2 = -y^2, that is when 121666 (2 y^2 - 1) = 121665 y^4: the two constants are such y, each the
      negative of the other. */
  lemma OrderEight()
    ensures forall y :: y in {EIGHT_A, EIGHT_B} ==> (121666 * (2 * (y * y) - 1) - 121665 * ((y * y) * (y * y))) % P == 0
    ensures EIGHT_A + EIGHT_B == P
  {
  }

  // ----- the checks -----

  /** The weight of the sign bit, 2^255. */
  const SIGN := 0x8000_0000_0000_0000_0000_0000_0000_0000_0000_0000_0000_0000_0000_0000_0000_0000

  /** A point that passes: a canonical y that belongs to no point of small order. */
  predicate SoundPoint(b: bytes) {
    |b| == 32 &&
    var y := LeNat(b) % SIGN;
    y < P && y !in {0, 1, P - 1, EIGHT_A, EIGHT_B}
  }

  lemma ClearedSign(b: bytes)
    requires |b| == 32
    ensures LeNat(Unsigned255(b)) == LeNat(b) % SIGN
  {
    hide LeNat, Word, SIGN;
    var u, s := Unsigned255(b), if b[31] >= 128 then 1 else 0;
    NumberIs(b);
    NumberIs(u);
    SameWord(u, b);
    SameWord(u[8..], b[8..]);
    SameWord(u[16..], b[16..]);
    TopWord(u[24..], b[24..], s);
    WordRange(u);
    WordRange(u[8..]);
    WordRange(u[16..]);
    TopOfFour(Word(u), Word(u[8..]), Word(u[16..]), Word(u[24..]), s);
    Remainder(LeNat(b), LeNat(u), s);
  }

  lemma SameWord(u: bytes, b: bytes)
    requires |u| >= 8 && |b| >= 8 && u[..8] == b[..8]
    ensures Word(u) == Word(b)
  {
    assert forall i :: 0 <= i < 8 ==> u[i] == u[..8][i] && b[i] == b[..8][i];
  }

  lemma WordRange(b: bytes)
    requires |b| >= 8
    ensures Word(b) < 0x1_0000_0000_0000_0000
  {
  }

  lemma TopWord(u: bytes, b: bytes, s: nat)
    requires |u| == |b| == 8 && u[..7] == b[..7] && u[7] < 128 && b[7] as int == u[7] as int + 128 * s
    ensures Word(b) == Word(u) + 0x8000_0000_0000_0000 * s && Word(u) < 0x8000_0000_0000_0000
  {
    assert forall i :: 0 <= i < 7 ==> u[i] == u[..7][i] && b[i] == b[..7][i];
  }

  lemma TopOfFour(u0: nat, u1: nat, u2: nat, u3: nat, s: nat)
    requires u0 < 0x1_0000_0000_0000_0000 && u1 < 0x1_0000_0000_0000_0000 && u2 < 0x1_0000_0000_0000_0000 && u3 < 0x8000_0000_0000_0000
    ensures var n := u0 + 0x1_0000_0000_0000_0000 * (u1 + 0x1_0000_0000_0000_0000 * (u2 + 0x1_0000_0000_0000_0000 * u3));
            n < SIGN &&
            u0 + 0x1_0000_0000_0000_0000 * (u1 + 0x1_0000_0000_0000_0000 * (u2 + 0x1_0000_0000_0000_0000 * (u3 + 0x8000_0000_0000_0000 * s)))
              == n + SIGN * s
  {
  }

  lemma Remainder(n: nat, r: nat, s: nat)
    requires r < SIGN && s <= 1 && n == r + SIGN * s
    ensures n % SIGN == r
  {
  }

  /** The same y with the sign bit set. */
  function Signed(y: bytes): bytes
    requires |y| == 32 && y[31] < 128
  {
    y[..31] + [y[31] + 128]
  }

  lemma SmallOrderList()
    ensures SMALL_ORDER == [ONE_Y, EIGHT_A_Y, Signed(ZERO_Y), EIGHT_B_Y, MINUS_ONE_Y, Signed(EIGHT_B_Y), ZERO_Y, Signed(EIGHT_A_Y)]
  {
    hide ORDER_EIGHT_A, ORDER_EIGHT_B;
    OrderEightLengths();
    SignedBytes(ORDER_EIGHT_A, 0x7a);
    SignedBytes(ORDER_EIGHT_B, 0x05);
    assert Signed(ZERO_Y) == Fill(0, 31) + [0x80];
  }

  lemma OrderEightLengths()
    ensures |ORDER_EIGHT_A| == 31 && |ORDER_EIGHT_B| == 31
  {
  }

  lemma SignedBytes(front: bytes, top: byte)
    requires |front| == 31 && top < 128
    ensures Signed(front + [top]) == front + [top + 128]
  {
  }

  lemma WithSign(b: bytes, y: bytes)
    requires |b| == |y| == 32 && y[31] < 128
    ensures b == y <==> b[31] < 128 && Unsigned255(b) == y
    ensures b == Signed(y) <==> b[31] >= 128 && Unsigned255(b) == y
  {
    assert b == b[..31] + [b[31]] && y == y[..31] + [y[31]];
    assert Unsigned255(b)[..31] == b[..31] && Unsigned255(b)[31] == b[31] % 128;
    assert Signed(y)[..31] == y[..31] && Signed(y)[31] == y[31] + 128;
  }

  lemma SmallOrderBytes(b: bytes)
    requires |b| == 32
    ensures var u := Unsigned255(b);
            b !in SMALL_ORDER && !(b[31] >= 128 && ZeroX(u)) <==> u !in {ZERO_Y, ONE_Y, MINUS_ONE_Y, EIGHT_A_Y, EIGHT_B_Y}
  {
    hide SMALL_ORDER, Unsigned255, Signed;
    SmallOrderList();
    assert SMALL_ORDER[0] == ONE_Y && SMALL_ORDER[4] == MINUS_ONE_Y;
    WithSign(b, ZERO_Y);
    WithSign(b, ONE_Y);
    WithSign(b, MINUS_ONE_Y);
    WithSign(b, EIGHT_A_Y);
    WithSign(b, EIGHT_B_Y);
  }

  lemma PointPasses(b: bytes)
    requires |b| == 32
    ensures CanonicalY(b) && b !in SMALL_ORDER <==> SoundPoint(b)
  {
    hide LeNat, SMALL_ORDER, FIELD_P, ZeroX;
    ClearedSign(b);
    SmallOrderBytes(b);
    FieldPrime();
    SmallYs();
    EightAY();
    EightBY();
    var u := Unsigned255(b);
    forall c | c in {ZERO_Y, ONE_Y, MINUS_ONE_Y, EIGHT_A_Y, EIGHT_B_Y} && LeNat(u) == LeNat(c) ensures u == c {
      LeInjective(u, c);
    }
  }

  /** The input checks, exactly: a key and a signature point that are sound, and a reduced scalar. */
  lemma InputsExactly(pub: bytes, sig: bytes)
    ensures StrictInputs(pub, sig) <==>
            |pub| == 32 && |sig| == 64 && SoundPoint(pub) && SoundPoint(sig[..32]) && LeNat(sig[32..]) < L
  {
    hide LeNat, SMALL_ORDER, FIELD_P, SCALAR_L, CanonicalY, SoundPoint;
    ScalarOrder();
    if |pub| == 32 && |sig| == 64 {
      PointPasses(pub);
      PointPasses(sig[..32]);
    }
  }
}
