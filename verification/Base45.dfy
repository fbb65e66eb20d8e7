/** Base45 (section 4 of RFC 9285): the issuer's encoder and the core decoder. */
module Base45 {
  import opened Prelude

  /** The alphabet: 0-9, A-Z, then " $%*+-./:". */
  function Symbol(d: nat): char
    requires d < 45
  {
    if d < 10 then '0' + d as char
    else if d < 36 then 'A' + (d - 10) as char
    else match d
      case 36 => ' '
      case 37 => '$'
      case 38 => '%'
      case 39 => '*'
      case 40 => '+'
      case 41 => '-'
      case 42 => '.'
      case 43 => '/'
      case _ => ':'
  }

  /** Look-up of a character in the decoder's table, which is filled from the alphabet in order. */
  function Digit(c: char): (r: Option<nat>)
    ensures r.Some? ==> r.value < 45 && Symbol(r.value) == c
  {
    DigitFrom(c, 0)
  }

  function DigitFrom(c: char, i: nat): (r: Option<nat>)
    requires i <= 45
    ensures r.Some? ==> r.value < 45 && Symbol(r.value) == c
    ensures r.None? ==> forall k :: i <= k < 45 ==> Symbol(k) != c
    decreases 45 - i
  {
    if i == 45 then None else if Symbol(i) == c then Some(i) else DigitFrom(c, i + 1)
  }

  lemma SymbolsDistinct(i: nat, j: nat)
    requires i < 45 && j < 45
    ensures Symbol(i) == Symbol(j) ==> i == j
  {
  }

  lemma DigitOfSymbol(d: nat)
    requires d < 45
    ensures Digit(Symbol(d)) == Some(d)
  {
    hide DigitFrom;
    forall k | 0 <= k < 45 ensures Symbol(k) == Symbol(d) ==> k == d {
      SymbolsDistinct(k, d);
    }
  }

  function Encode(b: bytes): string {
    if |b| == 0 then ""
    else if |b| == 1 then [Symbol(b[0] % 45), Symbol(b[0] / 45)]
    else EncodePair(b[0], b[1]) + Encode(b[2..])
  }

  function EncodePair(hi: byte, lo: byte): (r: string)
    ensures |r| == 3
  {
    var v := hi * 256 + lo;
    Split45(v);
    [Symbol(v % 45), Symbol((v / 45) % 45), Symbol(v / 2025)]
  }

  lemma Split45(v: nat)
    requires v < 65536
    ensures v / 2025 < 45 && v == v % 45 + (v / 45) % 45 * 45 + v / 2025 * 45 * 45
  {
    assert v / 2025 == v / 45 / 45;
  }

  lemma Join45(x: nat, y: nat, z: nat)
    requires x < 45 && y < 45
    ensures var v := x + y * 45 + z * 45 * 45; v % 45 == x && (v / 45) % 45 == y && v / 2025 == z
  {
    var v := x + y * 45 + z * 45 * 45;
    assert v / 45 == y + z * 45;
    assert v / 2025 == v / 45 / 45;
  }

  function DecodeTriple(a: char, b: char, c: char): Option<bytes> {
    var x, y, z := Digit(a), Digit(b), Digit(c);
    if x.None? || y.None? || z.None? then None
    else
      var v := x.value + y.value * 45 + z.value * 45 * 45;
      if v > 65535 then None else Some([v / 256, v % 256])
  }

  function DecodeTail(a: char, b: char): Option<bytes> {
    var x, y := Digit(a), Digit(b);
    if x.None? || y.None? then None
    else
      var v := x.value + y.value * 45;
      if v > 255 then None else Some([v])
  }

  function Decode(s: string): Option<bytes> {
    if |s| == 0 then Some([])
    else if |s| == 1 then None
    else if |s| == 2 then DecodeTail(s[0], s[1])
    else
      var head := DecodeTriple(s[0], s[1], s[2]);
      var rest := Decode(s[3..]);
      if head.None? || rest.None? then None else Some(head.value + rest.value)
  }

  /** `base45_encode`: whole pairs first, then the odd byte. */
  method Base45Encode(b: bytes) returns (out: string)
    ensures out == Encode(b)
  {
    hide EncodePair, Symbol;
    out := "";
    assert b[0..] == b && "" + Encode(b) == Encode(b);
    var i := 0;
    while i + 2 <= |b|
      invariant 0 <= i <= |b|
      invariant out + Encode(b[i..]) == Encode(b)
    {
      assert b[i..][2..] == b[i + 2..];
      out := out + EncodePair(b[i], b[i + 1]);
      i := i + 2;
    }
    if i < |b| {
      out := out + [Symbol(b[i] % 45), Symbol(b[i] / 45)];
    }
  }

  /** `base45_decode`: the cursor loop over triples and a final pair. */
  method Base45Decode(s: string) returns (r: Option<bytes>)
    ensures r == Decode(s)
  {
    hide DecodeTriple, DecodeTail;
    if |s| == 0 {
      return Some([]);
    }
    var out: bytes := [];
    var i := 0;
    assert s[0..] == s;
    while i < |s|
      invariant 0 <= i <= |s|
      invariant Decode(s).Some? ==> Decode(s[i..]).Some? && Decode(s).value == out + Decode(s[i..]).value
      invariant Decode(s).None? ==> Decode(s[i..]).None?
      decreases |s| - i
    {
      var remain := |s| - i;
      assert remain >= 3 ==> s[i..][3..] == s[i + 3..];
      if remain >= 3 {
        var pair := DecodeTriple(s[i], s[i + 1], s[i + 2]);
        if pair.None? {
          return None;
        }
        out := out + pair.value;
        i := i + 3;
      } else if remain == 2 {
        var single := DecodeTail(s[i], s[i + 1]);
        if single.None? {
          return None;
        }
        out := out + single.value;
        i := i + 2;
      } else {
        return None;
      }
    }
    assert s[i..] == [] && out + [] == out;
    return Some(out);
  }

  lemma TripleOfPair(hi: byte, lo: byte)
    ensures var e := EncodePair(hi, lo); DecodeTriple(e[0], e[1], e[2]) == Some([hi, lo])
  {
    hide Digit, Symbol;
    var v := hi * 256 + lo;
    Split45(v);
    DigitOfSymbol(v % 45);
    DigitOfSymbol((v / 45) % 45);
    DigitOfSymbol(v / 2025);
  }

  lemma PairOfTriple(a: char, b: char, c: char)
    requires DecodeTriple(a, b, c).Some?
    ensures var d := DecodeTriple(a, b, c).value; |d| == 2 && EncodePair(d[0], d[1]) == [a, b, c]
  {
    hide Digit, Symbol;
    var x, y, z := Digit(a).value, Digit(b).value, Digit(c).value;
    Join45(x, y, z);
  }

  /** Decoding undoes encoding, for every byte string. */
  lemma {:induction false} DecodeOfEncode(b: bytes)
    ensures Decode(Encode(b)) == Some(b)
  {
    hide Digit, Symbol, DecodeTriple, EncodePair, DecodeTail;
    if |b| == 1 {
      TailOfByte(b[0]);
      assert b == [b[0]];
    } else if |b| >= 2 {
      var e := EncodePair(b[0], b[1]);
      DecodeOfEncode(b[2..]);
      TripleOfPair(b[0], b[1]);
      assert (e + Encode(b[2..]))[3..] == Encode(b[2..]);
      assert [b[0], b[1]] + b[2..] == b;
    }
  }

  lemma TailOfByte(x: byte)
    ensures DecodeTail(Symbol(x % 45), Symbol(x / 45)) == Some([x])
  {
    hide Symbol, Digit;
    DigitOfSymbol(x % 45);
    DigitOfSymbol(x / 45);
  }

  lemma ByteOfTail(a: char, b: char)
    requires DecodeTail(a, b).Some?
    ensures var d := DecodeTail(a, b).value; |d| == 1 && Encode(d) == [a, b]
  {
    hide Digit, Symbol;
    Join45(Digit(a).value, Digit(b).value, 0);
  }

  /** Encoding undoes decoding, for every accepted string; so no two strings decode to the same bytes. */
  lemma {:induction false} EncodeOfDecode(s: string)
    requires Decode(s).Some?
    ensures Encode(Decode(s).value) == s
  {
    hide Digit, Symbol, DecodeTriple, EncodePair, DecodeTail;
    if |s| == 2 {
      ByteOfTail(s[0], s[1]);
      assert s == [s[0], s[1]];
    } else if |s| >= 3 {
      EncodeOfDecode(s[3..]);
      PairOfTriple(s[0], s[1], s[2]);
      var d, rest := DecodeTriple(s[0], s[1], s[2]).value, Decode(s[3..]).value;
      assert (d + rest)[2..] == rest;
      assert s == [s[0], s[1], s[2]] + s[3..];
    }
  }

  // ----- the text, digit by digit -----

  const ALPHABET := "0123456789" + "ABCDEFGHIJKLMNOPQRSTUVWXYZ" + " $%*+-./:"

  lemma SymbolIsListed(d: nat)
    requires d < 45
    ensures |ALPHABET| == 45 && Symbol(d) == ALPHABET[d]
  {
    if 10 <= d < 36 {
      Letters(d - 10);
    }
  }

  lemma Letters(i: nat)
    requires i < 26
    ensures "ABCDEFGHIJKLMNOPQRSTUVWXYZ"[i] == 'A' + i as char
  {
    if i < 13 {
      assert "ABCDEFGHIJKLMNOPQRSTUVWXYZ"[..13] == "ABCDEFGHIJKLM";
      assert "ABCDEFGHIJKLM"[i] == 'A' + i as char;
    } else {
      assert "ABCDEFGHIJKLMNOPQRSTUVWXYZ"[13..] == "NOPQRSTUVWXYZ";
      assert "NOPQRSTUVWXYZ"[i - 13] == 'A' + i as char;
    }
  }

  /** These characters stand for this number, least significant digit first. */
  predicate Writes(s: string, n: nat) {
    if |s| == 0 then n == 0
    else exists d :: 0 <= d < |ALPHABET| && s[0] == ALPHABET[d] && n % 45 == d && Writes(s[1..], n / 45)
  }

  /** Three characters for every pair of bytes, two for a last odd byte. */
  lemma {:induction false} EncodedDigits(b: bytes, k: nat)
    ensures |Encode(b)| == |b| / 2 * 3 + |b| % 2 * 2
    ensures 2 * k + 1 < |b| ==> Writes(Encode(b)[3 * k..3 * k + 3], b[2 * k] as int * 256 + b[2 * k + 1])
    ensures |b| % 2 == 1 ==> Writes(Encode(b)[|Encode(b)| - 2..], b[|b| - 1])
  {
    hide Symbol, EncodePair, Writes;
    if |b| == 1 {
      LastByte(b[0]);
      assert Encode(b)[0..] == Encode(b);
    } else if |b| >= 2 {
      var head, rest := EncodePair(b[0], b[1]), Encode(b[2..]);
      EncodedDigits(b[2..], if k == 0 then 0 else k - 1);
      PairDigits(b[0], b[1]);
      assert Encode(b)[0..3] == head;
      if k > 0 && 2 * k + 1 < |b| {
        assert Encode(b)[3 * k..3 * k + 3] == rest[3 * (k - 1)..3 * (k - 1) + 3];
      }
      if |b| % 2 == 1 {
        assert Encode(b)[|Encode(b)| - 2..] == rest[|rest| - 2..];
      }
    }
  }

  lemma OneDigit(c: char, s: string, d: nat, rest: nat)
    requires d < 45 && c == Symbol(d) && Writes(s, rest)
    ensures Writes([c] + s, d + 45 * rest)
  {
    hide Symbol, ALPHABET;
    SymbolIsListed(d);
    assert (d + 45 * rest) % 45 == d && (d + 45 * rest) / 45 == rest;
    assert ([c] + s)[1..] == s;
    assert ([c] + s)[0] == ALPHABET[d];
  }

  lemma LastByte(x: byte)
    ensures Writes([Symbol(x % 45), Symbol(x / 45)], x)
  {
    hide Symbol, Writes;
    EmptyWrites();
    OneDigit(Symbol(x / 45), "", x / 45, 0);
    OneDigit(Symbol(x % 45), [Symbol(x / 45)] + "", x % 45, x / 45 + 45 * 0);
    assert [Symbol(x % 45)] + ([Symbol(x / 45)] + "") == [Symbol(x % 45), Symbol(x / 45)];
  }

  lemma PairDigits(hi: byte, lo: byte)
    ensures Writes(EncodePair(hi, lo), hi * 256 + lo)
  {
    hide Symbol, Writes;
    var v := hi * 256 + lo;
    Split45(v);
    var a, b, c := v % 45, v / 45 % 45, v / 2025;
    EmptyWrites();
    OneDigit(Symbol(c), "", c, 0);
    OneDigit(Symbol(b), [Symbol(c)] + "", b, c + 45 * 0);
    OneDigit(Symbol(a), [Symbol(b)] + ([Symbol(c)] + ""), a, b + 45 * (c + 45 * 0));
    assert [Symbol(a)] + ([Symbol(b)] + ([Symbol(c)] + "")) == EncodePair(hi, lo);
  }

  lemma EmptyWrites()
    ensures Writes("", 0)
  {
  }
}
