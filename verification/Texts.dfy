/** Text as Rust holds it: the UTF-8 bytes of a string, that this form is unambiguous, and that it keeps the
    order of strings. */
module Texts {
  import opened Prelude
  import Lex

  /** UTF-8 bytes of a string. */
  function Utf8(s: string): bytes {
    if |s| == 0 then [] else Utf8Char(s[0] as int) + Utf8(s[1..])
  }

  function Utf8Char(n: int): bytes
    requires 0 <= n < 0x11_0000
  {
    if n < 0x80 then [n]
    else if n < 0x800 then [0xc0 + n / 64, 0x80 + n % 64]
    else if n < 0x1_0000 then [0xe0 + n / 4096, 0x80 + n / 64 % 64, 0x80 + n % 64]
    else [0xf0 + n / 262144, 0x80 + n / 4096 % 64, 0x80 + n / 64 % 64, 0x80 + n % 64]
  }

  /** UTF-8 is self-delimiting: two code points followed by anything can be told apart. */
  lemma Utf8CharPrefixFree(m: nat, n: nat, x: bytes, y: bytes)
    requires m < 0x11_0000 && n < 0x11_0000 && Utf8Char(m) + x == Utf8Char(n) + y
    ensures m == n && x == y
  {
    var a, b := Utf8Char(m), Utf8Char(n);
    var l, r := a + x, b + y;
    assert l[0] == a[0] && r[0] == b[0];
    assert |a| == |b|;
    assert a == l[..|a|] && b == r[..|a|];
    assert x == l[|a|..] && y == r[|a|..];
    SameCode(m, n);
  }

  lemma SameCode(m: nat, n: nat)
    requires m < 0x11_0000 && n < 0x11_0000 && Utf8Char(m) == Utf8Char(n)
    ensures m == n
  {
    var a, b := Utf8Char(m), Utf8Char(n);
    Decoded(m);
    Decoded(n);
    assert a == b;
  }

  /** The code point read back from its bytes. */
  function FromUtf8(a: bytes): int {
    if |a| == 1 then a[0]
    else if |a| == 2 then (a[0] as int - 0xc0) * 64 + (a[1] as int - 0x80)
    else if |a| == 3 then (a[0] as int - 0xe0) * 4096 + (a[1] as int - 0x80) * 64 + (a[2] as int - 0x80)
    else if |a| == 4 then (a[0] as int - 0xf0) * 262144 + (a[1] as int - 0x80) * 4096 + (a[2] as int - 0x80) * 64 + (a[3] as int - 0x80)
    else 0
  }

  lemma Decoded(n: nat)
    requires n < 0x11_0000
    ensures FromUtf8(Utf8Char(n)) == n
  {
    assert n / 4096 == n / 64 / 64 && n / 262144 == n / 64 / 64 / 64;
  }

  lemma {:induction false} Utf8Injective(s: string, t: string)
    requires Utf8(s) == Utf8(t)
    ensures s == t
  {
    hide Utf8Char;
    if |s| > 0 && |t| > 0 {
      Utf8CharPrefixFree(s[0] as int, t[0] as int, Utf8(s[1..]), Utf8(t[1..]));
      Utf8Injective(s[1..], t[1..]);
      assert s == [s[0]] + s[1..] && t == [t[0]] + t[1..];
    } else if |s| > 0 {
      CharNotEmpty(s[0] as int);
    } else if |t| > 0 {
      CharNotEmpty(t[0] as int);
    }
  }

  lemma CharNotEmpty(n: nat)
    requires n < 0x11_0000
    ensures |Utf8Char(n)| > 0
  {
  }

  // ----- order -----

  /** The first byte, and then the next ones, grow with the code point. */
  lemma CharOrder(m: nat, n: nat, x: bytes, y: bytes)
    requires m < n < 0x11_0000
    ensures Lex.Less(Utf8Char(m) + x, Utf8Char(n) + y)
  {
    var a, b := Utf8Char(m), Utf8Char(n);
    if |a| == |b| {
      SameLengthOrder(m, n);
      Lex.Irreflexive(a);
      Lex.DecidedEarly(a, b, x, y);
    } else {
      assert (a + x)[0] < (b + y)[0];
    }
  }

  lemma SameLengthOrder(m: nat, n: nat)
    requires m < n < 0x11_0000 && |Utf8Char(m)| == |Utf8Char(n)|
    ensures Lex.Less(Utf8Char(m), Utf8Char(n))
  {
    var a, b := Utf8Char(m), Utf8Char(n);
    Decoded(m);
    Decoded(n);
    LessByDigits(a, b);
  }

  /** Bytewise order of equally long sequences of one form is the order of the code points. */
  lemma LessByDigits(a: bytes, b: bytes)
    requires |a| == |b| && 1 <= |a| <= 4 && FromUtf8(a) < FromUtf8(b)
    requires forall i :: 1 <= i < |a| ==> 0x80 <= a[i] < 0xc0 && 0x80 <= b[i] < 0xc0
    ensures Lex.Less(a, b)
  {
    if a[0] == b[0] {
      assert |a| > 1;
      if a[1] == b[1] {
        assert |a| > 2;
        if a[2] == b[2] {
          assert |a| > 3;
          assert a[3] < b[3];
          assert Lex.Less(a[1..][1..][1..], b[1..][1..][1..]);
        }
        assert Lex.Less(a[1..][1..], b[1..][1..]);
      }
      assert Lex.Less(a[1..], b[1..]);
    }
  }

  /** Comparing strings by code point, as the model does, is comparing their bytes, as Rust does. */
  lemma {:induction false} StringOrder(a: string, b: string)
    ensures Lex.StrLess(a, b) <==> Lex.Less(Utf8(a), Utf8(b))
  {
    hide Utf8Char;
    if |a| > 0 && |b| > 0 {
      var m, n := a[0] as int, b[0] as int;
      assert Lex.Codes(a)[1..] == Lex.Codes(a[1..]) && Lex.Codes(b)[1..] == Lex.Codes(b[1..]);
      StringOrder(a[1..], b[1..]);
      if m == n {
        Lex.CommonPrefix(Utf8Char(m), Utf8(a[1..]), Utf8(b[1..]));
      } else if m < n {
        CharOrder(m, n, Utf8(a[1..]), Utf8(b[1..]));
      } else {
        CharOrder(n, m, Utf8(b[1..]), Utf8(a[1..]));
        Lex.Asymmetric(Utf8(b), Utf8(a));
      }
    } else if |b| > 0 {
      CharNotEmpty(b[0] as int);
    }
  }

  /** ASCII literals are their own UTF-8. */
  lemma {:induction false} AsciiIsUtf8(s: string)
    requires forall i :: 0 <= i < |s| ==> s[i] as int < 0x80
    ensures Ascii(s) == Utf8(s)
  {
    if |s| > 0 {
      AsciiIsUtf8(s[1..]);
      assert Ascii(s) == [s[0] as int] + Ascii(s[1..]);
    }
  }
}
