/** strconv.Itoa and strconv.Atoi. */
module Decimal {
  import opened Common

  const MIN_INT64 := -0x8000_0000_0000_0000
  const MAX_INT64 := 0x7FFF_FFFF_FFFF_FFFF

  predicate IsDigit(c: char) { '0' <= c <= '9' }

  function DigitOf(n: nat): (c: char)
    requires n < 10
    ensures IsDigit(c) && c as int - '0' as int == n
  {
    ('0' as int + n) as char
  }

  function Digits(n: nat): (s: string)
    ensures |s| > 0 && forall i :: 0 <= i < |s| ==> IsDigit(s[i])
  {
    if n < 10 then [DigitOf(n)] else Digits(n / 10) + [DigitOf(n % 10)]
  }

  function Itoa(n: int): (s: string)
    ensures ':' !in s && '>' !in s
  {
    if n < 0 then "-" + Digits(-n) else Digits(n)
  }

  /** The value of a digit string, most significant digit first. */
  function Value(s: string): (v: nat)
    requires forall i :: 0 <= i < |s| ==> IsDigit(s[i])
  {
    if s == [] then 0
    else
      assert IsDigit(s[|s| - 1]);
      10 * Value(s[..|s| - 1]) + ((s[|s| - 1] as int) - ('0' as int))
  }

  predicate AllDigits(s: string) {
    s != [] && forall i :: 0 <= i < |s| ==> IsDigit(s[i])
  }

  /** An optional sign, then at least one decimal digit, within the int64 range. */
  function Atoi(s: string): (r: Option<int>)
    ensures r.Some? ==> forall i :: 0 <= i < |s| ==> IsDigit(s[i]) || s[i] == '-' || s[i] == '+'
  {
    var body := if s != [] && (s[0] == '-' || s[0] == '+') then s[1..] else s;
    if !AllDigits(body) then None
    else
      var v := if s[0] == '-' then -(Value(body) as int) else Value(body);
      if MIN_INT64 <= v <= MAX_INT64 then Some(v) else None
  }

  lemma {:induction false} ValueOfDigits(n: nat)
    ensures Value(Digits(n)) == n
  {
    if n < 10 {
      assert Value([]) == 0;
      assert Digits(n)[..0] == [];
    } else {
      ValueOfDigits(n / 10);
      assert Digits(n)[..|Digits(n)| - 1] == Digits(n / 10);
    }
  }

  /** Each digit weighs ten times the next. */
  lemma AppendDigit(s: string, c: char)
    requires AllDigits(s) && '0' <= c <= '9'
    ensures Value(s + [c]) == 10 * Value(s) + (c as int - 48) && Value([c]) == c as int - 48
  {
    assert (s + [c])[..|s|] == s;
    assert [c][..0] == [];
  }

  /** No number but 0 is written with a leading zero. */
  lemma {:induction false} NoLeadingZero(n: nat)
    ensures Digits(n)[0] == '0' <==> n == 0
  {
    if n >= 10 { NoLeadingZero(n / 10); }
  }

  lemma ItoaInjective(m: int, n: int)
    requires Itoa(m) == Itoa(n)
    ensures m == n
  {
    if m < 0 {
      assert n < 0;
      ValueOfDigits(-m);
      ValueOfDigits(-n);
      assert Itoa(m)[1..] == Digits(-m) && Itoa(n)[1..] == Digits(-n);
    } else {
      assert n >= 0 by {
        assert IsDigit(Itoa(m)[0]);
      }
      ValueOfDigits(m);
      ValueOfDigits(n);
    }
  }

  predicate InInt64(v: int) {
    -0x8000_0000_0000_0000 <= v <= 0x7FFF_FFFF_FFFF_FFFF
  }

  /** What an optionally signed text of digits says. */
  predicate Reads(s: string, v: int) {
    || (AllDigits(s) && v == Value(s))
    || (s != [] && s[0] == '+' && AllDigits(s[1..]) && v == Value(s[1..]))
    || (s != [] && s[0] == '-' && AllDigits(s[1..]) && v == -(Value(s[1..]) as int))
  }

  /** Exactly what Atoi reads: an optional sign and digits, within the range. */
  lemma AtoiIs(s: string, v: int)
    ensures Atoi(s) == Some(v) <==> InInt64(v) && Reads(s, v)
  {
    hide Value;
    if s != [] && (s[0] == '-' || s[0] == '+') {
      assert !IsDigit(s[0]);
    }
  }

  /** Every number in the range is read back from its own text. */
  lemma AtoiItoa(n: int)
    requires -0x8000_0000_0000_0000 <= n <= 0x7FFF_FFFF_FFFF_FFFF
    ensures Atoi(Itoa(n)) == Some(n)
  {
    hide Atoi;
    AtoiIs(Itoa(n), n);
    if n < 0 {
      ValueOfDigits(-n);
      assert Itoa(n)[1..] == Digits(-n);
    } else {
      ValueOfDigits(n);
    }
  }

  /** Leading zeros do not count. */
  lemma {:induction false} LeadingZero(s: string)
    requires AllDigits(s)
    ensures AllDigits("0" + s) && Value("0" + s) == Value(s)
    decreases |s|
  {
    var init := s[..|s| - 1];
    assert ("0" + s)[..|s|] == "0" + init;
    if init == [] {
      assert Value("0" + init) == 0 by { assert "0" + init == "0" && "0"[..0] == []; }
    } else {
      LeadingZero(init);
    }
  }
}
