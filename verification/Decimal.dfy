/** Decimal numerals: what digits denote, and how a number is printed. */
module Decimal {

  predicate Digit(c: char) { '0' <= c <= '9' }

  function Ordinal(c: char): (d: nat)
    requires Digit(c)
    ensures d <= 9
  {
    c as int - '0' as int
  }

  predicate Digits(s: string) {
    forall k :: 0 <= k < |s| ==> Digit(s[k])
  }

  /** The natural number that decimal digits denote. */
  function Denoted(s: string): nat
    requires Digits(s)
  {
    if s == [] then 0 else Denoted(s[..|s| - 1]) * 10 + Ordinal(s[|s| - 1])
  }

  function Peek(text: string, i: nat): char {
    if i < |text| then text[i] else '\0'
  }

  function RunEnd(text: string, i: nat): (j: nat)
    requires i <= |text|
    ensures i <= j <= |text| && Digits(text[i..j])
    ensures !Digit(Peek(text, j))
    decreases |text| - i
  {
    if i < |text| && Digit(text[i]) then
      var j := RunEnd(text, i + 1);
      assert text[i..j] == [text[i]] + text[i + 1..j];
      j
    else i
  }

  lemma DenotedNext(text: string, i: nat, j: nat)
    requires i <= j < |text| && Digits(text[i..j]) && Digit(text[j])
    ensures Digits(text[i..j + 1])
    ensures Denoted(text[i..j + 1]) == Denoted(text[i..j]) * 10 + Ordinal(text[j])
  {
    assert text[i..j + 1] == text[i..j] + [text[j]];
  }

  /** More digits never denote less. */
  lemma DenotedGrows(text: string, i: nat, j: nat, k: nat)
    requires i <= j <= k <= |text| && Digits(text[i..k])
    ensures Digits(text[i..j]) && Denoted(text[i..j]) <= Denoted(text[i..k])
    decreases k - j
  {
    assert text[i..j] == text[i..k][..j - i];
    if j < k {
      assert text[i..k - 1] == text[i..k][..k - i - 1];
      DenotedGrows(text, i, j, k - 1);
    }
  }

  function PrintDigit(d: nat): (c: char)
    requires d <= 9
    ensures Digit(c) && Ordinal(c) == d
  {
    '0' + d as char
  }

  /** The numeral of a number, without leading zeros. */
  function Print(n: nat): (s: string)
    ensures Digits(s) && s != []
  {
    if n <= 9 then [PrintDigit(n)] else Print(n / 10) + [PrintDigit(n % 10)]
  }

  lemma {:induction false} PrintDenotes(n: nat)
    ensures Denoted(Print(n)) == n
    ensures Print(n)[0] == '0' ==> n == 0
  {
    if n <= 9 {
      assert Print(n)[..0] == [];
    } else {
      PrintDenotes(n / 10);
      var s := Print(n / 10) + [PrintDigit(n % 10)];
      assert s[..|s| - 1] == Print(n / 10);
    }
  }

  /** A numeral ends where its digits end. */
  lemma {:induction false} RunEndOf(before: string, digits: string, rest: string)
    requires Digits(digits) && (rest != [] ==> !Digit(rest[0]))
    ensures RunEnd(before + digits + rest, |before|) == |before| + |digits|
    decreases digits
  {
    var text := before + digits + rest;
    if digits != [] {
      RunEndOf(before + digits[..1], digits[1..], rest);
      assert before + digits[..1] + digits[1..] + rest == text;
    }
  }

  /** Numerals without leading zeros are printed numbers. */
  lemma {:induction false} DenotedPrints(s: string)
    requires s != [] && Digits(s) && (s[0] == '0' ==> |s| == 1)
    ensures Print(Denoted(s)) == s
    ensures |s| > 1 ==> Denoted(s) >= 10
  {
    var d := Ordinal(s[|s| - 1]);
    assert PrintDigit(d) == s[|s| - 1];
    var front := s[..|s| - 1];
    if |s| == 1 {
      assert Denoted(s) == d;
    } else {
      DenotedPrints(front);
      assert front[0] == s[0];
      assert front[..0] == [];
    }
  }
}
