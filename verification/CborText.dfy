/** What the decoder takes for text: exactly the UTF-8 form of strings of Unicode scalar values
    (core/rust/grain-core/src/cbor.rs:215-225). */
module CborText {
  import opened Prelude
  import opened Cbor
  import opened CborCanonical
  import opened Texts

  predicate Scalar(n: int) {
    0 <= n < 0xd800 || 0xe000 <= n < 0x11_0000
  }

  /** The form of one scalar value, byte by byte. */
  lemma CharShape(n: nat)
    requires Scalar(n)
    ensures var c := Utf8Char(n);
            1 <= |c| <= 4 && (forall i :: 1 <= i < |c| ==> Cont(c[i])) &&
            (|c| == 1 ==> c[0] < 0x80) && (|c| == 2 ==> 0xc2 <= c[0] <= 0xdf) &&
            (|c| == 3 ==> 0xe0 <= c[0] <= 0xef && (c[0] == 0xe0 ==> c[1] >= 0xa0) && (c[0] == 0xed ==> c[1] <= 0x9f)) &&
            (|c| == 4 ==> 0xf0 <= c[0] <= 0xf4 && (c[0] == 0xf0 ==> c[1] >= 0x90) && (c[0] == 0xf4 ==> c[1] <= 0x8f))
  {
    SecondByte(n);
    SecondByte(n / 64);
  }

  lemma SecondByte(n: nat)
    ensures n / 64 == n / 4096 * 64 + n / 64 % 64 && n / 4096 == n / 64 / 64 && n / 262144 == n / 64 / 4096
  {
  }

  lemma CharWidth(n: nat, rest: bytes)
    requires Scalar(n)
    ensures Utf8Width(Utf8Char(n) + rest) == |Utf8Char(n)|
  {
    hide Utf8Char;
    CharShape(n);
    var c := Utf8Char(n);
    var s := c + rest;
    assert forall i :: 0 <= i < |c| ==> s[i] == c[i];
  }

  /** The UTF-8 form of every string is valid. */
  lemma {:induction false} StringsAreValid(s: string)
    ensures Utf8Valid(Utf8(s))
  {
    hide Utf8Char, Utf8Width;
    if |s| > 0 {
      CharWidth(s[0] as int, Utf8(s[1..]));
      CharNotEmpty(s[0] as int);
      StringsAreValid(s[1..]);
      assert Utf8(s)[|Utf8Char(s[0] as int)|..] == Utf8(s[1..]);
    }
  }

  /** The head that the width check admits is the form of one scalar value. */
  lemma HeadIsChar(b: bytes) returns (c: char)
    requires Utf8Width(b) > 0
    ensures Utf8Char(c as int) == b[..Utf8Width(b)]
  {
    var h := b[..Utf8Width(b)];
    var n := FromUtf8(h);
    assert Scalar(n) && Utf8Char(n) == h by { HeadForm(b); }
    c := n as char;
  }

  lemma HeadForm(b: bytes)
    requires Utf8Width(b) > 0
    ensures var h := b[..Utf8Width(b)]; Scalar(FromUtf8(h)) && Utf8Char(FromUtf8(h)) == h
  {
    var w := Utf8Width(b);
    if w == 1 {
      assert b[..1] == [b[0]];
    } else if w == 2 {
      TwoBytes(b[0], b[1]);
      assert b[..2] == [b[0], b[1]];
    } else if w == 3 {
      ThreeBytes(b[0], b[1], b[2]);
      assert b[..3] == [b[0], b[1], b[2]];
    } else {
      FourBytes(b[0], b[1], b[2], b[3]);
      assert b[..4] == [b[0], b[1], b[2], b[3]];
    }
  }

  lemma TwoBytes(a: byte, b: byte)
    requires 0xc2 <= a <= 0xdf && 0x80 <= b <= 0xbf
    ensures var n := FromUtf8([a, b]); Scalar(n) && Utf8Char(n) == [a, b]
  {
  }

  lemma ThreeBytes(a: byte, b: byte, c: byte)
    requires 0xe0 <= a <= 0xef && 0x80 <= b <= 0xbf && 0x80 <= c <= 0xbf
    requires (a == 0xe0 ==> b >= 0xa0) && (a == 0xed ==> b <= 0x9f)
    ensures var n := FromUtf8([a, b, c]); Scalar(n) && Utf8Char(n) == [a, b, c]
  {
    var n := FromUtf8([a, b, c]);
    assert n / 64 == (a - 0xe0) * 64 + (b - 0x80);
    assert n / 4096 == a - 0xe0;
  }

  lemma FourBytes(a: byte, b: byte, c: byte, d: byte)
    requires 0xf0 <= a <= 0xf4 && 0x80 <= b <= 0xbf && 0x80 <= c <= 0xbf && 0x80 <= d <= 0xbf
    requires (a == 0xf0 ==> b >= 0x90) && (a == 0xf4 ==> b <= 0x8f)
    ensures var n := FromUtf8([a, b, c, d]); Scalar(n) && Utf8Char(n) == [a, b, c, d]
  {
    var n := FromUtf8([a, b, c, d]);
    assert n / 4096 == (a - 0xf0) * 64 + (b - 0x80);
    assert n / 64 == (a - 0xf0) * 4096 + (b - 0x80) * 64 + (c - 0x80);
  }

  /** Valid bytes are the UTF-8 form of a string. */
  lemma {:induction false} ValidIsString(b: bytes) returns (s: string)
    requires Utf8Valid(b)
    ensures Utf8(s) == b
    decreases |b|
  {
    hide Utf8Char, Utf8Width;
    if |b| == 0 {
      s := "";
    } else {
      var w := Utf8Width(b);
      var c := HeadIsChar(b);
      var rest := ValidIsString(b[w..]);
      s := [c] + rest;
      assert s[1..] == rest && b == b[..w] + b[w..];
    }
  }

  /** Validity, exactly. */
  lemma ValidIff(b: bytes)
    ensures Utf8Valid(b) <==> exists s :: Utf8(s) == b
  {
    hide Utf8Valid, Utf8;
    if Utf8Valid(b) {
      var s := ValidIsString(b);
    }
    if s :| Utf8(s) == b {
      StringsAreValid(s);
    }
  }

  /** In every mode, whatever follows, a text item holds a string, and every string within the size limit can
      stand in one. */
  lemma TextItems(s: string, t: bytes, depth: nat, o: Options)
    requires depth <= o.limits.maxDepth && |Utf8(s)| < U64_BOUND
    ensures Item(Encode(Text(Utf8(s))) + t, depth, o) ==
            if |Utf8(s)| <= o.limits.maxText then Parsed(Text(Utf8(s)), |Encode(Text(Utf8(s)))|) else Failed(Fail(Limit))
  {
    hide Utf8Valid, Utf8, Head, UintArg;
    StringsAreValid(s);
    var b := Utf8(s);
    ArgOfHead(3, |b|, b + t);
    var input := Encode(Text(b)) + t;
    assert input == Head(3, |b|) + (b + t);
    ArgInAnyMode(input[1..], input[0] % 32, o.canonical);
    assert (b + t)[..|b|] == b;
  }

  /** What canonical mode reads, lenient mode reads alike. */
  lemma ArgInAnyMode(s: bytes, ai: nat, canonical: bool)
    requires UintArg(s, ai, true).Parsed?
    ensures UintArg(s, ai, canonical) == UintArg(s, ai, true)
  {
  }

  /** Decoded text is the UTF-8 form of a string. */
  lemma DecodedText(s: bytes, depth: nat, o: Options) returns (t: string)
    requires Item(s, depth, o).Parsed? && Item(s, depth, o).value.Text?
    ensures Item(s, depth, o).value == Text(Utf8(t)) && |Utf8(t)| <= o.limits.maxText
  {
    hide Utf8Valid, Utf8, UintArg, Item, Items, Pairs;
    var b := TextOf(s, depth, o);
    t := ValidIsString(b);
  }

  lemma TextOf(s: bytes, depth: nat, o: Options) returns (b: bytes)
    requires Item(s, depth, o).Parsed? && Item(s, depth, o).value.Text?
    ensures Item(s, depth, o).value == Text(b) && Utf8Valid(b) && |b| <= o.limits.maxText
  {
    hide Utf8Valid, UintArg, Items, Pairs;
    b := Item(s, depth, o).value.t;
  }

  /** The encoding of every string within the limit is decoded to that string. */
  lemma TextRoundTrip(s: string, o: Options)
    requires |Utf8(s)| <= o.limits.maxText
    ensures ParseExact(Encode(Text(Utf8(s))), o) == Ok(Text(Utf8(s)))
  {
    hide Utf8, Item, Encode;
    TextItems(s, [], 0, o);
    assert Encode(Text(Utf8(s))) + [] == Encode(Text(Utf8(s)));
  }
}
