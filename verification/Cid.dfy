/** Content identifiers: the unsigned varint, the unpadded Base32 (section 6 of RFC 4648) and the CID text. */
module Cid {
  import opened Prelude

  type bit = x: int | 0 <= x < 2

  /** The alphabet: a-z, then 2-7. */
  function Letter(d: nat): char
    requires d < 32
  {
    if d < 26 then 'a' + d as char else '2' + (d - 26) as char
  }

  // ----- bits -----

  function ByteBits(b: byte): (r: seq<bit>)
    ensures |r| == 8
  {
    [b / 128 % 2, b / 64 % 2, b / 32 % 2, b / 16 % 2, b / 8 % 2, b / 4 % 2, b / 2 % 2, b % 2]
  }

  /** All bits of the input, most significant first. */
  function Bits(data: bytes): (r: seq<bit>)
    ensures |r| == 8 * |data|
  {
    if |data| == 0 then [] else Bits(data[..|data| - 1]) + ByteBits(data[|data| - 1])
  }

  /** The number a bit string denotes, most significant bit first. */
  function Val(bits: seq<bit>): (r: nat)
    ensures r < Pow2(|bits|)
  {
    if |bits| == 0 then 0 else 2 * Val(bits[..|bits| - 1]) + bits[|bits| - 1]
  }

  function Pow2(k: nat): (r: nat)
    ensures r > 0
  {
    if k == 0 then 1 else 2 * Pow2(k - 1)
  }

  /** The symbols of a bit string: groups of five, the last padded with zero bits on the right. */
  function Groups(bits: seq<bit>): (r: seq<nat>)
    ensures |r| == (|bits| + 4) / 5
    ensures forall i :: 0 <= i < |r| ==> r[i] < 32
  {
    assert Pow2(5) == 32;
    if |bits| == 0 then []
    else if |bits| < 5 then [Val(bits + Zeros(5 - |bits|))]
    else [Val(bits[..5])] + Groups(bits[5..])
  }

  function Zeros(k: nat): (r: seq<bit>)
    ensures |r| == k
  {
    seq(k, _ => 0)
  }

  function Letters(symbols: seq<nat>): (r: string)
    requires forall i :: 0 <= i < |symbols| ==> symbols[i] < 32
    ensures |r| == |symbols|
    ensures forall i :: 0 <= i < |r| ==> r[i] == Letter(symbols[i])
  {
    seq(|symbols|, i requires 0 <= i < |symbols| => Letter(symbols[i]))
  }

  lemma ValSnoc(a: seq<bit>, x: bit)
    ensures Val(a + [x]) == 2 * Val(a) + x
  {
    assert (a + [x])[..|a|] == a;
  }

  lemma {:induction false} ValSplit(a: seq<bit>, b: seq<bit>)
    ensures Val(a + b) == Val(a) * Pow2(|b|) + Val(b)
    decreases |b|
  {
    if |b| == 0 {
      assert a + b == a;
    } else {
      hide Val, Pow2;
      var c, x := b[..|b| - 1], b[|b| - 1];
      assert a + b == (a + c) + [x] && b == c + [x];
      ValSnoc(a + c, x);
      ValSnoc(c, x);
      ValSplit(a, c);
      PowStep(|b|);
      MoveTwo(Val(a), Pow2(|c|));
    }
  }

  lemma PowStep(k: nat)
    requires k > 0
    ensures Pow2(k) == 2 * Pow2(k - 1)
  {
  }

  lemma MoveTwo(x: int, y: int)
    ensures 2 * (x * y) == x * (2 * y)
  {
  }

  lemma ValOfByte(b: byte)
    ensures Val(ByteBits(b)) == b
  {
    hide Val;
    var x := ByteBits(b);
    ValOfNothing();
    var s1 := [] + [x[0]];
    ValSnoc([], x[0]);
    var s2 := s1 + [x[1]];
    ValSnoc(s1, x[1]);
    var s3 := s2 + [x[2]];
    ValSnoc(s2, x[2]);
    var s4 := s3 + [x[3]];
    ValSnoc(s3, x[3]);
    var s5 := s4 + [x[4]];
    ValSnoc(s4, x[4]);
    var s6 := s5 + [x[5]];
    ValSnoc(s5, x[5]);
    var s7 := s6 + [x[6]];
    ValSnoc(s6, x[6]);
    ValSnoc(s7, x[7]);
    assert x == s7 + [x[7]];
    ByteOfBits(b);
  }

  lemma ValOfNothing()
    ensures Val([]) == 0
  {
  }

  lemma ByteOfBits(b: byte)
    ensures 2 * (2 * (2 * (2 * (2 * (2 * (2 * (b / 128 % 2) + b / 64 % 2) + b / 32 % 2) + b / 16 % 2) + b / 8 % 2) + b / 4 % 2) + b / 2 % 2) + b % 2 == b
  {
    DivDiv(b, 1); DivDiv(b, 2); DivDiv(b, 4); DivDiv(b, 8);
    DivDiv(b, 16); DivDiv(b, 32); DivDiv(b, 64);
    TopBit(b);
    HalfAndBit(b); HalfAndBit(b / 2); HalfAndBit(b / 4); HalfAndBit(b / 8);
    HalfAndBit(b / 16); HalfAndBit(b / 32); HalfAndBit(b / 64);
  }

  lemma TopBit(b: byte)
    ensures b / 128 % 2 == b / 128
  {
  }

  lemma HalfAndBit(x: nat)
    ensures x == 2 * (x / 2) + x % 2
  {
  }

  lemma DivDiv(x: nat, k: nat)
    requires k > 0
    ensures x / (2 * k) == x / k / 2
  {
    var q := x / k;
    var h, low := q / 2, if q % 2 == 0 then x % k else k + x % k;
    Scale(2, h, q % 2, k);
    MoveTwo(h, k);
    assert x == q * k + x % k;
    ModUnique(x, 2 * k, h, low);
  }

  // ----- the encoder -----

  const U32_BOUND := 0x1_0000_0000

  /** The encoder's state after reading `bits`: whole groups written, the rest in the low end of the buffer,
      whatever stale bits stand above them. */
  ghost predicate Midway(bits: seq<bit>, written: seq<bit>, todo: seq<bit>, buffer: nat, bitsLeft: nat, out: string) {
    |todo| == bitsLeft && |written| % 5 == 0 && bits == written + todo && out == Letters(Groups(written)) &&
    buffer < U32_BOUND && buffer % Pow2(bitsLeft) == Val(todo)
  }

  /** `base32_lower_no_pad`: the text is the input's bits, grouped by five and zero-padded. */
  method Base32(data: bytes) returns (out: string)
    ensures out == Letters(Groups(Bits(data)))
  {
    hide Bits, Groups, Letters, Midway, Pow2, Letter;
    out := "";
    var buffer: nat, bitsLeft: nat := 0, 0;
    ghost var todo: seq<bit> := [];
    ghost var written: seq<bit> := [];
    Start(data);
    for i := 0 to |data|
      invariant bitsLeft < 5 && Midway(Bits(data[..i]), written, todo, buffer, bitsLeft, out)
    {
      BitsOfPrefix(data, i + 1);
      OneByte(Bits(data[..i]), written, todo, buffer, bitsLeft, out, data[i]);
      buffer := buffer * 256 % U32_BOUND + data[i];
      bitsLeft := bitsLeft + 8;
      todo := todo + ByteBits(data[i]);
      out, bitsLeft, written, todo := WriteGroups(Bits(data[..i + 1]), written, todo, buffer, bitsLeft, out);
    }
    assert data[..|data|] == data;
    Finish(Bits(data), written, todo, buffer, bitsLeft, out);
    if bitsLeft > 0 {
      var idx := buffer * Pow2(5 - bitsLeft) % U32_BOUND % 32;
      out := out + [Letter(idx)];
    }
  }

  lemma Finish(bits: seq<bit>, written: seq<bit>, todo: seq<bit>, buffer: nat, bitsLeft: nat, out: string)
    requires bitsLeft < 5 && Midway(bits, written, todo, buffer, bitsLeft, out)
    ensures Letters(Groups(bits)) ==
            if bitsLeft > 0 then out + [Letter(buffer * Pow2(5 - bitsLeft) % U32_BOUND % 32)] else out
  {
    hide Groups, Val, Pow2, Letter, Letters;
    if bitsLeft > 0 {
      PadLast(buffer, bitsLeft, todo);
      WriteLast(written, todo);
    } else {
      assert written + todo == written;
    }
  }

  /** The inner loop: symbols leave while five bits are outstanding. */
  method WriteGroups(ghost bits: seq<bit>, ghost written0: seq<bit>, ghost todo0: seq<bit>, buffer: nat, bitsLeft0: nat, out0: string)
    returns (out: string, bitsLeft: nat, ghost written: seq<bit>, ghost todo: seq<bit>)
    requires Midway(bits, written0, todo0, buffer, bitsLeft0, out0)
    ensures bitsLeft < 5 && Midway(bits, written, todo, buffer, bitsLeft, out)
  {
    hide Midway, Pow2, Letter;
    out, bitsLeft, written, todo := out0, bitsLeft0, written0, todo0;
    while bitsLeft >= 5
      invariant Midway(bits, written, todo, buffer, bitsLeft, out)
    {
      OneGroup(bits, written, todo, buffer, bitsLeft, out);
      var idx := buffer / Pow2(bitsLeft - 5) % 32;
      out := out + [Letter(idx)];
      bitsLeft := bitsLeft - 5;
      written, todo := written + todo[..5], todo[5..];
    }
  }

  lemma OneGroup(bits: seq<bit>, written: seq<bit>, todo: seq<bit>, buffer: nat, bitsLeft: nat, out: string)
    requires 5 <= bitsLeft && Midway(bits, written, todo, buffer, bitsLeft, out)
    ensures |todo| >= 5 && Midway(bits, written + todo[..5], todo[5..], buffer, bitsLeft - 5, out + [Letter(buffer / Pow2(bitsLeft - 5) % 32)])
  {
    hide Groups, Val, Pow2, Letter, Letters;
    TakeFive(buffer, bitsLeft, todo);
    WriteFive(written, todo[..5]);
    assert written + todo == (written + todo[..5]) + todo[5..];
  }

  lemma OneByte(bits: seq<bit>, written: seq<bit>, todo: seq<bit>, buffer: nat, bitsLeft: nat, out: string, b: byte)
    requires bitsLeft < 5 && Midway(bits, written, todo, buffer, bitsLeft, out)
    ensures Midway(bits + ByteBits(b), written, todo + ByteBits(b), buffer * 256 % U32_BOUND + b, bitsLeft + 8, out)
  {
    hide Groups, Val, Pow2, Letter, Letters;
    PushByte(buffer, bitsLeft, todo, b);
    assert written + todo + ByteBits(b) == written + (todo + ByteBits(b));
  }

  lemma Start(data: bytes)
    ensures Midway(Bits(data[..0]), [], [], 0, 0, "")
  {
  }

  lemma WriteFive(written: seq<bit>, five: seq<bit>)
    requires |written| % 5 == 0 && |five| == 5
    ensures Val(five) < 32
    ensures Letters(Groups(written + five)) == Letters(Groups(written)) + [Letter(Val(five))]
  {
    hide Val, Letter, Groups;
    GroupsSnoc(written, five);
  }

  lemma WriteLast(written: seq<bit>, rest: seq<bit>)
    requires |written| % 5 == 0 && 0 < |rest| < 5
    ensures Val(rest + Zeros(5 - |rest|)) < 32
    ensures Letters(Groups(written + rest)) == Letters(Groups(written)) + [Letter(Val(rest + Zeros(5 - |rest|)))]
  {
    hide Val, Letter;
    GroupsAppend(written, rest);
  }

  lemma BitsOfPrefix(data: bytes, i: nat)
    requires i <= |data|
    ensures if i == 0 then Bits(data[..0]) == [] else Bits(data[..i]) == Bits(data[..i - 1]) + ByteBits(data[i - 1])
  {
    if i > 0 {
      assert data[..i][..i - 1] == data[..i - 1];
    }
  }

  /** Shifting in a byte: `buffer << 8` drops bits above 32, never one of the live ones. */
  lemma PushByte(buffer: nat, bitsLeft: nat, todo: seq<bit>, b: byte)
    requires bitsLeft < 5 && |todo| == bitsLeft && buffer < U32_BOUND && buffer % Pow2(bitsLeft) == Val(todo)
    ensures var next := buffer * 256 % U32_BOUND + b;
            next < U32_BOUND && next % Pow2(bitsLeft + 8) == Val(todo + ByteBits(b))
  {
    hide Val, Pow2;
    ValSplit(todo, ByteBits(b));
    ValOfByte(b);
    SmallPowers();
    PowAdd(bitsLeft, 8);
    ShiftedByte(buffer, Pow2(bitsLeft), b);
  }

  lemma ShiftedByte(buffer: nat, p: nat, b: byte)
    requires p in {1, 2, 4, 8, 16}
    ensures (buffer * 256 % U32_BOUND + b) % (p * 256) == buffer % p * 256 + b
    ensures buffer * 256 % U32_BOUND + b < U32_BOUND
  {
    var x := buffer * 256;
    var k, c, q := x / U32_BOUND, U32_BOUND / 256 / p, buffer / p;
    assert U32_BOUND == c * (p * 256);
    assert x == k * U32_BOUND + x % U32_BOUND;
    assert buffer == q * p + buffer % p;
    Regroup(q, p, buffer % p, k, c);
    Last256(buffer);
    ModUnique(x % U32_BOUND + b, p * 256, q - k * c, buffer % p * 256 + b);
  }

  lemma Regroup(q: int, p: int, l: int, k: int, c: int)
    ensures (q * p + l) * 256 - k * (c * (p * 256)) == (q - k * c) * (p * 256) + l * 256
  {
    assert (q - k * c) * (p * 256) == q * (p * 256) - (k * c) * (p * 256);
    assert k * (c * (p * 256)) == (k * c) * (p * 256);
  }

  lemma Last256(buffer: nat)
    ensures buffer * 256 % U32_BOUND <= U32_BOUND - 256
  {
    var k := buffer * 256 / U32_BOUND;
    assert buffer * 256 % U32_BOUND == 256 * (buffer - k * 0x100_0000);
  }

  lemma ModUnique(x: int, m: nat, q: int, r: nat)
    requires m > 0 && x == q * m + r && r < m
    ensures x % m == r && x / m == q
  {
    assert x == x / m * m + x % m;
    var d := x / m - q;
    assert d * m == x / m * m - q * m;
    MulGrows(d, m);
  }

  lemma MulGrows(d: int, m: nat)
    ensures d >= 1 ==> d * m >= m
    ensures d <= -1 ==> d * m <= -(m as int)
  {
  }

  lemma {:induction false} PowAdd(a: nat, b: nat)
    ensures Pow2(a + b) == Pow2(a) * Pow2(b)
    decreases b
  {
    if b > 0 {
      PowAdd(a, b - 1);
      assert 2 * (Pow2(a) * Pow2(b - 1)) == Pow2(a) * (2 * Pow2(b - 1));
    }
  }

  lemma SmallPowers()
    ensures Pow2(0) == 1 && Pow2(1) == 2 && Pow2(2) == 4 && Pow2(3) == 8 && Pow2(4) == 16 && Pow2(5) == 32 && Pow2(8) == 256
  {
    assert Pow2(3) == 8;
    assert Pow2(6) == 64;
  }

  /** The five bits taken from the buffer are the first five outstanding input bits. */
  lemma TakeFive(buffer: nat, bitsLeft: nat, todo: seq<bit>)
    requires 5 <= bitsLeft == |todo| && buffer % Pow2(bitsLeft) == Val(todo)
    ensures buffer / Pow2(bitsLeft - 5) % 32 == Val(todo[..5])
    ensures buffer % Pow2(bitsLeft - 5) == Val(todo[5..])
  {
    hide Val, Pow2;
    var p, rest := Pow2(bitsLeft - 5), todo[5..];
    assert todo == todo[..5] + rest;
    ValSplit(todo[..5], rest);
    SmallPowers();
    PowAdd(5, bitsLeft - 5);
    var q := buffer / Pow2(bitsLeft);
    var v := Val(todo[..5]);
    assert buffer == q * (32 * p) + (v * p + Val(rest));
    assert q * (32 * p) + v * p == (q * 32 + v) * p;
    ModUnique(buffer, p, q * 32 + v, Val(rest));
    ModUnique(q * 32 + v, 32, q, v);
  }

  /** The last symbol: the outstanding bits, shifted up over zero padding. */
  lemma PadLast(buffer: nat, bitsLeft: nat, todo: seq<bit>)
    requires 0 < bitsLeft < 5 && |todo| == bitsLeft && buffer % Pow2(bitsLeft) == Val(todo)
    ensures buffer * Pow2(5 - bitsLeft) % U32_BOUND % 32 == Val(todo + Zeros(5 - bitsLeft))
  {
    hide Val, Pow2;
    var k := 5 - bitsLeft;
    ValSplit(todo, Zeros(k));
    ValZeros(k);
    SmallPowers();
    PowAdd(bitsLeft, k);
    var q, p := buffer / Pow2(bitsLeft), Pow2(k);
    assert buffer == q * Pow2(bitsLeft) + Val(todo);
    Scale(q, Pow2(bitsLeft), Val(todo), p);
    assert Val(todo + Zeros(k)) < 32;
    ModUnique(buffer * p, 32, q, Val(todo) * p);
    LowBits(buffer * p);
  }

  lemma Scale(q: int, a: int, v: int, p: int)
    ensures (q * a + v) * p == q * (a * p) + v * p
  {
  }

  lemma LowBits(x: nat)
    ensures x % U32_BOUND % 32 == x % 32
  {
  }

  lemma {:induction false} ValZeros(k: nat)
    ensures Val(Zeros(k)) == 0
  {
    if k > 0 {
      ValZeros(k - 1);
      assert Zeros(k)[..k - 1] == Zeros(k - 1);
    }
  }

  lemma {:induction false} GroupsSnoc(written: seq<bit>, five: seq<bit>)
    requires |written| % 5 == 0 && |five| == 5
    ensures Groups(written + five) == Groups(written) + [Val(five)]
  {
    GroupsAppend(written, five);
    assert five[5..] == [] && five[..5] == five;
  }

  lemma {:induction false} GroupsAppend(written: seq<bit>, rest: seq<bit>)
    requires |written| % 5 == 0
    ensures Groups(written + rest) == Groups(written) + Groups(rest)
  {
    if |written| == 0 {
      assert written + rest == rest;
    } else {
      assert (written + rest)[..5] == written[..5];
      assert (written + rest)[5..] == written[5..] + rest;
      GroupsAppend(written[5..], rest);
    }
  }

  // ----- injectivity -----

  lemma {:induction false} ValInjective(a: seq<bit>, b: seq<bit>)
    requires |a| == |b| && Val(a) == Val(b)
    ensures a == b
  {
    if |a| > 0 {
      var p, q := a[..|a| - 1], b[..|b| - 1];
      ValInjective(p, q);
      assert a == p + [a[|a| - 1]] && b == q + [b[|b| - 1]];
    }
  }

  lemma {:induction false} GroupsInjective(a: seq<bit>, b: seq<bit>)
    requires |a| == |b| && Groups(a) == Groups(b)
    ensures a == b
  {
    if 0 < |a| < 5 {
      var z := Zeros(5 - |a|);
      ValInjective(a + z, b + z);
      assert a == (a + z)[..|a|] && b == (b + z)[..|b|];
    } else if |a| >= 5 {
      assert Groups(a)[0] == Groups(b)[0];
      assert Groups(a)[1..] == Groups(a[5..]) && Groups(b)[1..] == Groups(b[5..]);
      ValInjective(a[..5], b[..5]);
      GroupsInjective(a[5..], b[5..]);
      assert a == a[..5] + a[5..] && b == b[..5] + b[5..];
    }
  }

  lemma {:induction false} BitsInjective(a: bytes, b: bytes)
    requires Bits(a) == Bits(b)
    ensures a == b
  {
    if |a| > 0 {
      var p, q := a[..|a| - 1], b[..|b| - 1];
      var x, y := a[|a| - 1], b[|b| - 1];
      assert Bits(p) == Bits(a)[..8 * |p|] && Bits(q) == Bits(b)[..8 * |q|];
      assert ByteBits(x) == Bits(a)[8 * |p|..] && ByteBits(y) == Bits(b)[8 * |q|..];
      BitsInjective(p, q);
      ValOfByte(x);
      ValOfByte(y);
      assert a == p + [x] && b == q + [y];
    }
  }

  lemma LettersDistinct(i: nat, j: nat)
    requires i < 32 && j < 32 && Letter(i) == Letter(j)
    ensures i == j
  {
  }

  /** The text of `data` has one letter per five bits, rounded up, and determines `data`, whatever its length. */
  lemma Base32Injective(a: bytes, b: bytes)
    ensures |Letters(Groups(Bits(a)))| == (8 * |a| + 4) / 5
    ensures Letters(Groups(Bits(a))) == Letters(Groups(Bits(b))) ==> a == b
  {
    hide Bits, Groups, Val, Letter;
    var x, y := Groups(Bits(a)), Groups(Bits(b));
    if Letters(x) == Letters(y) {
      assert |x| == |y|;
      forall i | 0 <= i < |x| ensures x[i] == y[i] {
        assert Letters(x)[i] == Letters(y)[i];
        LettersDistinct(x[i], y[i]);
      }
      GroupsInjective(Bits(a), Bits(b));
      BitsInjective(a, b);
    }
  }

  // ----- varints and CIDs -----

  function Varint(v: nat): bytes
    decreases v
  {
    if v < 128 then [v] else [v % 128 + 128] + Varint(v / 128)
  }

  /** `push_varint`. */
  method PushVarint(v: u64, out: bytes) returns (r: bytes)
    ensures r == out + Varint(v)
  {
    r := out;
    var rest: nat := v;
    while true
      invariant r + Varint(rest) == out + Varint(v)
      decreases rest
    {
      var b := rest % 128;
      rest := rest / 128;
      if rest != 0 {
        b := b + 128;
        r := r + [b];
      } else {
        r := r + [b];
        break;
      }
    }
  }

  /** Varints can be told apart inside any byte string: equal strings start with equal varints. */
  lemma {:induction false} VarintPrefixFree(v: nat, w: nat, s: bytes, t: bytes)
    requires Varint(v) + s == Varint(w) + t
    ensures v == w && s == t
    decreases v
  {
    var l, r := Varint(v) + s, Varint(w) + t;
    assert l[0] == r[0];
    if v < 128 {
      assert l[1..] == s && r[1..] == t;
    } else {
      assert l[1..] == Varint(v / 128) + s && r[1..] == Varint(w / 128) + t;
      VarintPrefixFree(v / 128, w / 128, s, t);
    }
  }

  /** `derive_cid_v1_dag_cbor_sha256`, with the digest function as a parameter. */
  method DeriveCid(data: bytes, sha256: bytes -> bytes) returns (r: string)
    ensures r == CidText(sha256(data))
    ensures r == "b" + Letters(Groups(Bits([0x01, 0x71, 0x12, 0x20] + sha256(data))))
  {
    var b := PushVarint(1, []);
    b := PushVarint(0x71, b);
    b := PushVarint(0x12, b);
    b := PushVarint(32, b);
    b := b + sha256(data);
    assert b == CidBytes(sha256(data));
    var text := Base32(b);
    r := "b" + text;
  }

  function CidBytes(digest: bytes): bytes {
    [0x01, 0x71, 0x12, 0x20] + digest
  }

  function CidText(digest: bytes): string {
    "b" + Letters(Groups(Bits(CidBytes(digest))))
  }

  /** A CID text determines the digest it was made from. */
  lemma CidDeterminesDigest(d: bytes, e: bytes)
    requires CidText(d) == CidText(e)
    ensures d == e
  {
    hide Bits, Groups, Letters;
    var x, y := Letters(Groups(Bits(CidBytes(d)))), Letters(Groups(Bits(CidBytes(e))));
    assert CidText(d)[1..] == x && CidText(e)[1..] == y;
    Base32Injective(CidBytes(d), CidBytes(e));
    assert CidBytes(d)[4..] == d && CidBytes(e)[4..] == e;
  }

  // ----- texts and varints as numbers -----

  const ALPHABET := "abcdefghijklmnopqrstuvwxyz" + "234567"

  lemma LetterIsListed(d: nat)
    requires d < 32
    ensures |ALPHABET| == 32 && Letter(d) == ALPHABET[d]
  {
    if d < 26 {
      LowerCase(d);
    }
  }

  lemma LowerCase(i: nat)
    requires i < 26
    ensures "abcdefghijklmnopqrstuvwxyz"[i] == 'a' + i as char
  {
    if i < 13 {
      assert "abcdefghijklmnopqrstuvwxyz"[..13] == "abcdefghijklm";
      assert "abcdefghijklm"[i] == 'a' + i as char;
    } else {
      assert "abcdefghijklmnopqrstuvwxyz"[13..] == "nopqrstuvwxyz";
      assert "nopqrstuvwxyz"[i - 13] == 'a' + i as char;
    }
  }

  /** The number a text denotes in base 32, most significant letter first. */
  ghost predicate Denotes(text: string, n: int)
    decreases |text|
  {
    if |text| == 0 then n == 0
    else exists d, rest :: 0 <= d < |ALPHABET| && text[0] == ALPHABET[d] && n == d * Pow2(5 * (|text| - 1)) + rest && Denotes(text[1..], rest)
  }

  /** The number that bytes denote, most significant byte first. */
  function BigEndian(b: bytes): nat {
    if |b| == 0 then 0 else BigEndian(b[..|b| - 1]) * 256 + b[|b| - 1]
  }

  lemma {:induction false} BitsDenote(data: bytes)
    ensures Val(Bits(data)) == BigEndian(data)
  {
    hide Val, Pow2;
    if |data| == 0 {
      ValOfNothing();
    } else {
      var front, last := data[..|data| - 1], data[|data| - 1];
      BitsDenote(front);
      ValSplit(Bits(front), ByteBits(last));
      ValOfByte(last);
      SmallPowers();
    }
  }

  lemma {:induction false} GroupsDenote(bits: seq<bit>)
    ensures 5 * |Groups(bits)| >= |bits| && Denotes(Letters(Groups(bits)), Val(bits) * Pow2(5 * |Groups(bits)| - |bits|))
    decreases |bits|
  {
    hide Val, Pow2, Letter, Letters, Denotes;
    if |bits| == 0 {
      ValOfNothing();
      NothingDenotesZero();
    } else {
      var five, rest := if |bits| < 5 then bits + Zeros(5 - |bits|) else bits[..5], if |bits| < 5 then [] else bits[5..];
      var pad := 5 * |Groups(rest)| - |rest|;
      GroupsDenote(rest);
      SmallPowers();
      assert Groups(bits) == [Val(five)] + Groups(rest);
      OneMoreLetter(Val(five), Groups(rest), Val(rest) * Pow2(pad));
      if |bits| < 5 {
        ValSplit(bits, Zeros(5 - |bits|));
        ValZeros(5 - |bits|);
        ValOfNothing();
        PowZero();
      } else {
        assert bits == five + rest;
        ValSplit(five, rest);
        PowAdd(|rest|, pad);
        Scale(Val(five), Pow2(|rest|), Val(rest), Pow2(pad));
      }
    }
  }

  lemma PowZero()
    ensures Pow2(0) == 1
  {
  }

  lemma NothingDenotesZero()
    ensures Letters([]) == "" && Denotes("", 0)
  {
  }

  lemma OneMoreLetter(d: nat, symbols: seq<nat>, n: int)
    requires d < 32 && (forall i :: 0 <= i < |symbols| ==> symbols[i] < 32) && Denotes(Letters(symbols), n)
    ensures Denotes(Letters([d] + symbols), d * Pow2(5 * |symbols|) + n)
  {
    hide Pow2, Letter, ALPHABET;
    LetterIsListed(d);
    assert Letters([d] + symbols)[1..] == Letters(symbols);
  }

  /** Base32 keeps the number: read in base 32, the text of `data` is the number its bytes denote, shifted by the
      zero bits that fill the last letter. */
  lemma Base32Denotes(data: bytes)
    ensures var text := Letters(Groups(Bits(data)));
            5 * |text| >= 8 * |data| && 5 * |text| < 8 * |data| + 5 && Denotes(text, BigEndian(data) * Pow2(5 * |text| - 8 * |data|))
  {
    hide Bits, Groups, Val, Pow2, Letter, Denotes;
    GroupsDenote(Bits(data));
    BitsDenote(data);
  }

  /** The number that a varint denotes: base 128, least significant group first. */
  function Base128(b: bytes): nat {
    if |b| == 0 then 0 else b[0] % 128 + 128 * Base128(b[1..])
  }

  /** A varint denotes its number; the top bit is set on every byte but the last, and no shorter form exists. */
  lemma {:induction false} VarintDenotes(v: nat)
    ensures var b := Varint(v);
            |b| > 0 && Base128(b) == v && b[|b| - 1] < 128 && (forall i :: 0 <= i < |b| - 1 ==> b[i] >= 128) && (|b| > 1 ==> b[|b| - 1] > 0)
    decreases v
  {
    if v >= 128 {
      VarintDenotes(v / 128);
      assert Varint(v)[1..] == Varint(v / 128);
    }
  }
}
