/** Lower-case hexadecimal, as the identifiers print it. */
module Hex {
  import opened Prelude

  function Digit(d: nat): char
    requires d < 16
  {
    if d < 10 then '0' + d as char else 'a' + (d - 10) as char
  }

  function Encode(b: bytes): (r: string)
    ensures |r| == 2 * |b|
  {
    if |b| == 0 then "" else [Digit(b[0] / 16), Digit(b[0] % 16)] + Encode(b[1..])
  }

  lemma {:induction false} Injective(a: bytes, b: bytes)
    requires Encode(a) == Encode(b)
    ensures a == b
  {
    assert |a| == |b|;
    if |a| > 0 {
      assert Encode(a)[2..] == Encode(a[1..]) && Encode(b)[2..] == Encode(b[1..]);
      Injective(a[1..], b[1..]);
      assert Encode(a)[0] == Encode(b)[0] && Encode(a)[1] == Encode(b)[1];
      assert a == [a[0]] + a[1..] && b == [b[0]] + b[1..];
    }
  }

  lemma {:induction false} Prefix(b: bytes, k: nat)
    requires k <= |b|
    ensures Encode(b)[..2 * k] == Encode(b[..k])
  {
    if k > 0 {
      Prefix(b[1..], k - 1);
      assert b[..k][1..] == b[1..][..k - 1];
      assert b[..k][0] == b[0];
      assert Encode(b)[..2 * k] == [Digit(b[0] / 16), Digit(b[0] % 16)] + Encode(b[1..])[..2 * (k - 1)];
    }
  }

  /** Two digits a byte, the high one first. */
  lemma {:induction false} EncodedDigits(b: bytes, k: nat)
    requires k < |b|
    ensures Encode(b)[2 * k] == "0123456789abcdef"[b[k] / 16] && Encode(b)[2 * k + 1] == "0123456789abcdef"[b[k] % 16]
  {
    hide Digit;
    DigitIsListed(b[0] / 16);
    DigitIsListed(b[0] % 16);
    if k > 0 {
      EncodedDigits(b[1..], k - 1);
      assert Encode(b)[2..] == Encode(b[1..]);
    }
  }

  lemma DigitIsListed(d: nat)
    requires d < 16
    ensures Digit(d) == "0123456789abcdef"[d]
  {
  }
}
