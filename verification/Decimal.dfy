/** Decimal text of 64-bit counters: what `u64::to_string` writes and what `str::parse::<u64>` accepts. */
module Decimal {
  import opened Prelude

  predicate IsDigit(c: char) { '0' <= c <= '9' }

  predicate AllDigits(s: string) {
    |s| == 0 || (IsDigit(s[|s| - 1]) && AllDigits(s[..|s| - 1]))
  }

  function Value(s: string): nat
    requires AllDigits(s)
  {
    if |s| == 0 then 0 else Value(s[..|s| - 1]) * 10 + (s[|s| - 1] as int - '0' as int)
  }

  /** Parsing: an optional plus sign, at least one digit, leading zeros allowed, no overflow. */
  function Parse(s: string): (r: Option<u64>) {
    var t := if |s| > 0 && s[0] == '+' then s[1..] else s;
    if |t| == 0 || !AllDigits(t) || Value(t) >= U64_BOUND then None else Some(Value(t))
  }

  function Print(n: nat): (s: string)
    ensures |s| > 0
  {
    if n < 10 then [(n + '0' as int) as char] else Print(n / 10) + [(n % 10 + '0' as int) as char]
  }

  lemma {:induction false} PrintDigits(n: nat)
    ensures AllDigits(Print(n)) && Value(Print(n)) == n && IsDigit(Print(n)[0])
  {
    if n < 10 {
      assert Print(n)[..0] == "";
    } else {
      PrintDigits(n / 10);
      var s := Print(n);
      assert s[..|s| - 1] == Print(n / 10);
    }
  }

  /** What is printed parses back. */
  lemma ParseOfPrint(n: u64)
    ensures Parse(Print(n)) == Some(n)
  {
    PrintDigits(n);
  }

  lemma PrintInjective(m: nat, n: nat)
    requires Print(m) == Print(n)
    ensures m == n
  {
    PrintDigits(m);
    PrintDigits(n);
  }

  lemma {:induction false} DigitsNoColon(s: string)
    requires AllDigits(s)
    ensures ':' !in s
  {
    if |s| > 0 {
      DigitsNoColon(s[..|s| - 1]);
      assert s == s[..|s| - 1] + [s[|s| - 1]];
    }
  }

  lemma FirstColon(p: string, x: string)
    requires ':' !in p
    ensures var s := p + ":" + x; s[|p|] == ':' && forall k :: 0 <= k < |p| ==> s[k] != ':'
  {
    var s := p + ":" + x;
    forall k | 0 <= k < |p| ensures s[k] != ':' {
      assert s[k] == p[k];
    }
  }

  /** Two printed numbers, each ended by a colon, can be told apart whatever follows. */
  lemma ColonEnds(m: nat, n: nat, x: string, y: string)
    requires Print(m) + ":" + x == Print(n) + ":" + y
    ensures m == n && x == y
  {
    var p, q := Print(m), Print(n);
    PrintDigits(m);
    PrintDigits(n);
    DigitsNoColon(p);
    DigitsNoColon(q);
    var l, r := p + ":" + x, q + ":" + y;
    FirstColon(p, x);
    FirstColon(q, y);
    assert |p| == |q|;
    assert l[..|p|] == p && r[..|q|] == q;
    assert l[|p| + 1..] == x && r[|q| + 1..] == y;
    PrintInjective(m, n);
  }

  // ----- the accepted texts -----

  predicate Zeros(s: string) {
    forall i :: 0 <= i < |s| ==> s[i] == '0'
  }

  /** Decimal notation: digit by digit, with no leading zero. */
  lemma PrintByDigits(n: nat)
    ensures n < 10 ==> Print(n) == ["0123456789"[n]]
    ensures n >= 10 ==> Print(n) == Print(n / 10) + ["0123456789"[n % 10]]
  {
    DigitChar(n % 10);
  }

  lemma DigitChar(d: nat)
    requires d < 10
    ensures (d + '0' as int) as char == "0123456789"[d]
  {
  }

  /** Digits are leading zeros before a printed number. */
  lemma {:induction false} DigitsArePrinted(s: string) returns (zeros: string)
    requires |s| > 0 && AllDigits(s)
    ensures Zeros(zeros) && s == zeros + Print(Value(s))
  {
    var front, last := s[..|s| - 1], s[|s| - 1];
    assert s == front + [last];
    if |front| == 0 {
      assert s == [last];
      zeros := "";
    } else {
      zeros := DigitsArePrinted(front);
      if Value(front) == 0 {
        zeros := zeros + "0";
        assert Print(0) == "0";
        assert Print(Value(s)) == [last];
      } else {
        assert Value(s) / 10 == Value(front);
        assert Print(Value(s)) == Print(Value(front)) + [last];
      }
    }
  }

  lemma {:induction false} ZerosFirst(zeros: string, s: string)
    requires Zeros(zeros) && AllDigits(s)
    ensures AllDigits(zeros + s) && Value(zeros + s) == Value(s)
    decreases |zeros| + |s|
  {
    if |s| > 0 {
      var t := zeros + s;
      assert t[..|t| - 1] == zeros + s[..|s| - 1];
      ZerosFirst(zeros, s[..|s| - 1]);
    } else if |zeros| > 0 {
      assert zeros + s == zeros;
      ZerosFirst(zeros[..|zeros| - 1], "");
      assert zeros[..|zeros| - 1] + "" == zeros[..|zeros| - 1];
    }
  }

  /** Which texts are read as a number: its decimal form, with any leading zeros and at most one plus sign. */
  lemma ParseExactly(s: string, n: u64)
    ensures Parse(s) == Some(n) <==> exists zeros :: Zeros(zeros) && (s == zeros + Print(n) || s == "+" + zeros + Print(n))
  {
    hide Print, AllDigits, Value;
    var t := if |s| > 0 && s[0] == '+' then s[1..] else s;
    if Parse(s) == Some(n) {
      var zeros := DigitsArePrinted(t);
      assert s[0] == '+' ==> s == ['+'] + t;
    }
    if zeros :| Zeros(zeros) && (s == zeros + Print(n) || s == "+" + zeros + Print(n)) {
      PrintDigits(n);
      ZerosFirst(zeros, Print(n));
      assert (zeros + Print(n))[0] == if |zeros| > 0 then zeros[0] else Print(n)[0];
      assert t == zeros + Print(n);
    }
  }
}
