/** Decimal printing of 32-bit integers. */
module Itoa {
  import opened Machine

  type int32 = x: int | -0x8000_0000 <= x < 0x8000_0000

  function Digit(d: nat): (c: char)
    requires d < 10
  {
    '0' + d as char
  }

  /** The decimal digits of a number, most significant first. */
  function Digits(n: nat): (s: string)
    ensures s != []
  {
    if n < 10 then [Digit(n)] else Digits(n / 10) + [Digit(n % 10)]
  }

  function Text(i: int): string {
    if i < 0 then "-" + Digits(-i) else Digits(i)
  }

  /** Reading back: the value of a digit string and of a signed one. */
  predicate IsDigits(s: string) {
    forall k :: 0 <= k < |s| ==> '0' <= s[k] <= '9'
  }

  function NatValue(s: string): nat
    requires IsDigits(s)
  {
    if s == [] then 0 else 10 * NatValue(s[..|s| - 1]) + (s[|s| - 1] - '0') as nat
  }

  predicate IsNumber(s: string) {
    var digits := if s != [] && s[0] == '-' then s[1..] else s;
    digits != [] && IsDigits(digits)
  }

  function Value(s: string): int
    requires IsNumber(s)
  {
    if s[0] == '-' then -(NatValue(s[1..]) as int) else NatValue(s)
  }

  /** No superfluous leading zero, and no minus sign before zero. */
  predicate Canonical(s: string) {
    && IsNumber(s)
    && (s[0] == '0' ==> |s| == 1)
    && (s[0] == '-' ==> s[1] != '0')
  }

  lemma {:induction false} DigitsReadBack(n: nat)
    ensures IsDigits(Digits(n)) && NatValue(Digits(n)) == n
    ensures Digits(n)[0] == '0' <==> n == 0
    ensures n == 0 ==> |Digits(n)| == 1
  {
    if n < 10 {
      assert Digits(n)[..0] == [];
      assert NatValue([]) == 0;
    } else {
      DigitsReadBack(n / 10);
      var front := Digits(n / 10);
      assert Digits(n)[..|front|] == front;
    }
  }

  /** Printing then reading is the identity, and what is printed is canonical. */
  lemma TextReadsBack(i: int)
    ensures Canonical(Text(i)) && Value(Text(i)) == i
  {
    var n := if i < 0 then -i else i;
    DigitsReadBack(n);
    assert i < 0 ==> Text(i)[1..] == Digits(n);
  }

  lemma TextExample()
    ensures Text(-2048) == "-2048" && Text(0) == "0"
  {
    assert Digits(2) == "2" && Digits(20) == "20" && Digits(204) == "204";
  }

  /** A canonical text has only one value, and a value only one canonical text. */
  lemma {:induction false} CanonicalDigitsAreUnique(s: string)
    requires s != [] && IsDigits(s) && (s[0] == '0' ==> |s| == 1)
    ensures s == Digits(NatValue(s))
    decreases |s|
  {
    var front := s[..|s| - 1];
    if front == [] {
      assert NatValue(front) == 0;
    } else {
      CanonicalDigitsAreUnique(front);
      DigitsReadBack(NatValue(front));
      assert NatValue(front) > 0;
    }
  }

  lemma CanonicalTextIsUnique(s: string)
    requires Canonical(s)
    ensures s == Text(Value(s))
  {
    if s[0] == '-' {
      CanonicalDigitsAreUnique(s[1..]);
      DigitsReadBack(NatValue(s[1..]));
    } else {
      CanonicalDigitsAreUnique(s);
    }
  }

  function Pow10(k: nat): nat {
    if k == 0 then 1 else 10 * Pow10(k - 1)
  }

  /** The digits of `rest` are still to be written in front of `done` to get those of n. */
  predicate Printing(n: nat, rest: nat, done: string) {
    && rest <= n
    && if rest > 0 then Digits(rest) + done == Digits(n) else done == if n == 0 then "" else Digits(n)
  }

  lemma PrintingStarts(n: nat, done: string)
    requires done == ""
    ensures Printing(n, n, done)
  {
    assert Digits(n) + done == Digits(n);
  }

  lemma PrintingEnds(n: nat, done: string)
    requires Printing(n, 0, done)
    ensures if n == 0 then done == "" && Digits(n) == "0" else done == Digits(n) && done != ""
  {
  }

  lemma PrintingStep(n: nat, rest: nat, done: string, k: nat)
    requires Printing(n, rest, done) && 0 < rest < Pow10(k)
    ensures k > 0 && rest / 10 < Pow10(k - 1)
    ensures Printing(n, rest / 10, [Digit(rest % 10)] + done)
  {
    if rest < 10 {
      assert Digits(rest) == [Digit(rest % 10)];
    } else {
      assert Digits(rest / 10) + ([Digit(rest % 10)] + done) == Digits(rest) + done;
    }
  }

  lemma TenDigits()
    ensures Pow10(10) == 10_000_000_000
  {
    assert Pow10(5) == 100_000;
  }

  /** Truncating division of a negative number: the remainder is the negated digit. */
  lemma DigitOfNegative(i: int32)
    requires i <= 0
    ensures -TruncRem(i, 10) == -(i as int) % 10 && 0 <= -TruncRem(i, 10) < 10
    ensures TruncDiv(i, 10) == -(-(i as int) / 10) && -0x8000_0000 <= TruncDiv(i, 10) <= 0
  {
  }

  /** `itoa`, given its static buffer: the position where the text starts. The remainders of a negative number
      are negative, so the digits of the smallest integer need no special case. */
  method Print(value: int32, s: array<char>) returns (idx: nat)
    requires s.Length == 12
    modifies s
    ensures idx < 11 && s[11] == '\0'
    ensures s[idx..11] == Text(value)
  {
    hide Printing, Pow10, Digits, Digit, TruncRem, TruncDiv;
    var i: int32 := value;
    idx := 11;
    s[11] := '\0';
    var neg := true;
    if i >= 0 {
      neg := false;
      i := -i;
    }
    ghost var n: nat := -(i as int);
    TenDigits();
    PrintingStarts(n, s[11..11]);
    while i != 0
      invariant 1 <= idx <= 11 && s[11] == '\0'
      invariant i <= 0 && -(i as int) < Pow10(idx - 1)
      invariant Printing(n, -(i as int), s[idx..11])
      decreases -(i as int)
    {
      ghost var rest, done := -(i as int), s[idx..11];
      PrintingStep(n, rest, done, idx - 1);
      DigitOfNegative(i);
      idx := idx - 1;
      s[idx] := Digit(-TruncRem(i, 10));
      i := TruncDiv(i, 10);
      assert s[idx..11] == [Digit(rest % 10)] + done;
    }
    PrintingEnds(n, s[idx..11]);
    if idx == 11 {
      idx := idx - 1;
      s[idx] := '0';
    }
    assert s[idx..11] == Digits(n);
    if neg {
      ghost var done := s[idx..11];
      idx := idx - 1;
      s[idx] := '-';
      assert s[idx..11] == "-" + done;
    }
  }
}
