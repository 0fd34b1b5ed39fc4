/**
 Number literals without fraction or exponent: the accumulators of the number scanner, which are
 machine words, and the event that it publishes.
 */
module JsonInteger {
  import opened Decimal
  import opened JsonEvents
  import JsonNumber

  /** The end of the integer part whose first digit is at `i`: one zero, or digits not led by zero. */
  function IntegerEnd(text: string, i: nat): (j: nat)
    requires i < |text| && Digit(text[i])
    ensures i < j <= |text| && Digits(text[i..j])
    ensures if text[i] == '0' then j == i + 1 else !Digit(Peek(text, j))
  {
    if text[i] == '0' then i + 1
    else
      var j := RunEnd(text, i + 1);
      assert text[i..j] == [text[i]] + text[i + 1..j];
      j
  }

  // The accumulators. Each loop stops at the first digit that its word could not take.

  /** The largest magnitude that a 32-bit word may hold, signed when the literal has a minus. */
  function Top32(minus: bool): nat { if minus then TWO_31 else TWO_32 - 1 }

  function Top64(minus: bool): nat { if minus then TWO_63 else TWO_64 - 1 }

  /** The test of the loops: one digit more would pass ten times the limit and the last digit. */
  predicate Passes(v: nat, c: char, limit: nat, last: char) {
    v >= limit && (v != limit || c > last)
  }

  lemma PassesTop(v: nat, c: char, minus: bool)
    requires Digit(c)
    ensures Passes(v, c, if minus then 214748364 else 429496729, if minus then '8' else '5')
            <==> v * 10 + Ordinal(c) > Top32(minus)
    ensures Passes(v, c, if minus then 0x0CCC_CCCC_CCCC_CCCC else 0x1999_9999_9999_9999, if minus then '8' else '5')
            <==> v * 10 + Ordinal(c) > Top64(minus)
  {
  }

  lemma NoWrap(v: nat, minus: bool)
    ensures v <= Top32(minus) ==> v % TWO_32 == v
    ensures v <= Top64(minus) ==> v % TWO_64 == v
  {
  }

  /** The 32-bit accumulator; `use64bit` when a digit is left that it cannot take. */
  method Accumulate32(text: string, start: nat, minus: bool) returns (i: Uint32, use64bit: bool, pos: nat)
    requires start < |text| && Digit(text[start]) && text[start] != '0'
    ensures start < pos <= IntegerEnd(text, start) == RunEnd(text, pos) && Digits(text[start..pos])
    ensures i == Denoted(text[start..pos]) <= Top32(minus)
    ensures use64bit <==> pos < IntegerEnd(text, start)
    ensures use64bit ==> i * 10 + Ordinal(text[pos]) > Top32(minus)
  {
    ghost var end := IntegerEnd(text, start);
    i, use64bit, pos := Ordinal(text[start]), false, start + 1;
    DenotedNext(text, start, start);
    var limit: Uint32, last := if minus then 214748364 else 429496729, if minus then '8' else '5';
    while Digit(Peek(text, pos))
      invariant start < pos <= end && end == RunEnd(text, pos) && Digits(text[start..pos])
      invariant i == Denoted(text[start..pos]) <= Top32(minus)
      decreases |text| - pos
    {
      PassesTop(i, text[pos], minus);
      if Passes(i, text[pos], limit, last) {
        use64bit := true;
        return;
      }
      DenotedNext(text, start, pos);
      NoWrap(i * 10 + Ordinal(text[pos]), minus);
      i := (i * 10 + Ordinal(text[pos])) % TWO_32;
      pos := pos + 1;
    }
  }

  /** The 64-bit accumulator, from where the 32-bit one stopped. */
  method Accumulate64(text: string, ghost start: nat, minus: bool, i: Uint32, at: nat)
    returns (i64: Uint64, useDouble: bool, pos: nat)
    requires start < at < |text| && Digits(text[start..at]) && i == Denoted(text[start..at]) && Digit(text[at])
    requires i <= Top32(minus) < i * 10 + Ordinal(text[at])
    ensures at <= pos <= RunEnd(text, at) == RunEnd(text, pos) && Digits(text[start..pos])
    ensures Top32(minus) < i64 == Denoted(text[start..pos]) <= Top64(minus)
    ensures useDouble <==> pos < RunEnd(text, at)
    ensures useDouble ==> i64 * 10 + Ordinal(text[pos]) > Top64(minus)
  {
    i64, useDouble, pos := i, false, at;
    var limit: Uint64, last :=
      if minus then 0x0CCC_CCCC_CCCC_CCCC else 0x1999_9999_9999_9999, if minus then '8' else '5';
    while Digit(Peek(text, pos))
      invariant at <= pos <= |text| && RunEnd(text, at) == RunEnd(text, pos) && Digits(text[start..pos])
      invariant i64 == Denoted(text[start..pos]) <= Top64(minus)
      invariant if pos == at then i64 == i else i64 > Top32(minus)
      decreases |text| - pos
    {
      PassesTop(i64, text[pos], minus);
      if Passes(i64, text[pos], limit, last) {
        useDouble := true;
        return;
      }
      DenotedNext(text, start, pos);
      NoWrap(i64 * 10 + Ordinal(text[pos]), minus);
      i64 := (i64 * 10 + Ordinal(text[pos])) % TWO_64;
      pos := pos + 1;
    }
  }

  function Pow10(n: nat): (p: nat)
    ensures p >= 1
    ensures n >= 4 ==> p >= 10000
  {
    if n == 0 then 1
    else
      assert n == 4 ==> Pow10(1) == 10 && Pow10(2) == 100 && Pow10(3) == 1000;
      10 * Pow10(n - 1)
  }

  /** A tenth of the largest double. */
  function Limit(): nat { 17976931348623157 * Pow10(291) }

  /** What the digits before the last denote. */
  function Before(text: string, i: nat, j: nat): nat
    requires i < j <= |text| && Digits(text[i..j])
  {
    assert text[i..j - 1] == text[i..j][..j - 1 - i];
    Denoted(text[i..j - 1])
  }

  /** The double accumulator, without rounding; it refuses to pass the largest double. */
  method AccumulateDouble(text: string, ghost start: nat, i64: Uint64, at: nat)
    returns (d: real, tooBig: bool, pos: nat)
    requires start < at < |text| && Digits(text[start..at]) && i64 == Denoted(text[start..at]) && Digit(text[at])
    ensures at <= pos <= RunEnd(text, at) == RunEnd(text, pos) && Digits(text[start..pos])
    ensures d == Denoted(text[start..pos]) as real
    ensures tooBig <==> pos < RunEnd(text, at)
    ensures tooBig ==> Denoted(text[start..pos]) >= Limit()
    ensures !tooBig ==> Before(text, start, pos) < Limit()
  {
    d, tooBig, pos := i64 as real, false, at;
    while Digit(Peek(text, pos))
      invariant at <= pos <= |text| && RunEnd(text, at) == RunEnd(text, pos) && Digits(text[start..pos])
      invariant d == Denoted(text[start..pos]) as real
      invariant pos > at ==> Before(text, start, pos) < Limit()
      decreases |text| - pos
    {
      if d >= Limit() as real {
        tooBig := true;
        return;
      }
      DenotedNext(text, start, pos);
      assert Before(text, start, pos + 1) == Denoted(text[start..pos]);
      d := d * 10.0 + Ordinal(text[pos]) as real;
      pos := pos + 1;
    }
  }

  datatype Literal =
    | NotANumber(at: nat)
    | TooBig
    | Whole(n: Number, next: nat)
    | Continues(next: nat)

  /** A fraction or an exponent follows the integer part. */
  predicate Follows(c: char) { c == '.' || c == 'e' || c == 'E' }

  function Signed(minus: bool, v: int): int { if minus then -v else v }

  /** The event of an integer: the narrowest pair of words that holds it, signed when it has a minus. */
  ghost predicate Exact(e: Number, minus: bool, v: nat) {
    var n := Signed(minus, v);
    if -TWO_63 <= n < TWO_64 then
      && (if minus then (if -TWO_31 <= n then e.Int? else e.Int64?) else (if n < TWO_32 then e.Uint? else e.Uint64?))
      && JsonNumber.Carried(e) == n
      && JsonNumber.Holds(JsonNumber.Build(e), n)
    else e == Double(n as real)
  }

  lemma BeforeGrows(text: string, i: nat, j: nat, k: nat)
    requires i <= j < k <= |text| && Digits(text[i..k])
    ensures Digits(text[i..j]) && Denoted(text[i..j]) <= Before(text, i, k)
  {
    assert text[i..k - 1] == text[i..k][..k - 1 - i];
    DenotedGrows(text, i, j, k - 1);
  }

  /** A digit past the 64-bit words takes the whole literal past them. */
  lemma BigGrows(text: string, start: nat, pos: nat, end: nat, minus: bool)
    requires start <= pos < end <= |text| && Digits(text[start..end])
    requires Digits(text[start..pos])
    requires Denoted(text[start..pos]) * 10 + Ordinal(text[pos]) > Top64(minus)
    ensures Denoted(text[start..end]) > Top64(minus)
  {
    DenotedNext(text, start, pos);
    DenotedGrows(text, start, pos + 1, end);
  }

  lemma IntegerBelowLimit(text: string, i: nat, j: nat)
    requires i < j <= |text| && Digits(text[i..j]) && Denoted(text[i..j]) < TWO_64
    ensures Before(text, i, j) < Limit()
  {
    DenotedGrows(text, i, j - 1, j);
  }

  /** The accumulator that the digits of an integer part end in. */
  datatype Accumulated =
    | Word32(i: Uint32)
    | Word64(i64: Uint64)
    | Float(d: real)
    | Overflow

  /** The accumulator is the first that holds the value, and holds it exactly. */
  ghost predicate Holds(a: Accumulated, minus: bool, v: nat, before: nat) {
    && (a.Overflow? <==> before >= Limit())
    && (a.Word32? <==> v <= Top32(minus))
    && (a.Word64? <==> Top32(minus) < v <= Top64(minus))
    && (a.Word32? ==> a.i == v)
    && (a.Word64? ==> a.i64 == v)
    && (a.Float? ==> a.d == v as real)
  }

  /** The event of an accumulator; a minus complements the word and adds one. */
  function EventOf(a: Accumulated, minus: bool): Number
    requires !a.Overflow?
  {
    match a
    case Word32(i) => if minus then Int(JsonNumber.AsInt((TWO_32 - i) % TWO_32)) else Uint(i)
    case Word64(i64) => if minus then Int64(JsonNumber.AsInt64((TWO_64 - i64) % TWO_64)) else Uint64(i64)
    case Float(d) => Double(if minus then -d else d)
  }

  lemma Negated(i: Uint32, i64: Uint64)
    ensures i <= TWO_31 ==> JsonNumber.AsInt((TWO_32 - i) % TWO_32) == 0 - i
    ensures i64 <= TWO_63 ==> JsonNumber.AsInt64((TWO_64 - i64) % TWO_64) == 0 - i64
  {
  }

  lemma EventExact(a: Accumulated, minus: bool, v: nat, before: nat)
    requires !a.Overflow? && Holds(a, minus, v, before)
    ensures Exact(EventOf(a, minus), minus, v)
  {
    if a.Word32? {
      Negated(a.i, 0);
    } else if a.Word64? {
      Negated(0, a.i64);
    }
    JsonNumber.BuildHolds(EventOf(a, minus));
  }

  method Accumulate(text: string, start: nat, minus: bool) returns (a: Accumulated, pos: nat)
    requires start < |text| && Digit(text[start])
    ensures
      var end := IntegerEnd(text, start);
      && Holds(a, minus, Denoted(text[start..end]), Before(text, start, end))
      && (!a.Overflow? ==> pos == end)
  {
    ghost var end := IntegerEnd(text, start);
    if text[start] == '0' {
      DenotedNext(text, start, start);
      IntegerBelowLimit(text, start, end);
      return Word32(0), start + 1;
    }
    var i, use64bit;
    i, use64bit, pos := Accumulate32(text, start, minus);
    if !use64bit {
      IntegerBelowLimit(text, start, end);
      return Word32(i), pos;
    }
    var i64, useDouble;
    i64, useDouble, pos := Accumulate64(text, start, minus, i, pos);
    if !useDouble {
      IntegerBelowLimit(text, start, end);
      return Word64(i64), pos;
    }
    BigGrows(text, start, pos, end, minus);
    var d, tooBig;
    d, tooBig, pos := AccumulateDouble(text, start, i64, pos);
    a := if tooBig then Overflow else Float(d);
    if tooBig {
      BeforeGrows(text, start, pos, end);
    }
  }

  /** The integer part of a literal, and its event when nothing else follows. */
  method ParseInteger(text: string, at: nat) returns (r: Literal)
    requires at <= |text|
    ensures
      var minus := Peek(text, at) == '-';
      var start := if minus then at + 1 else at;
      if !Digit(Peek(text, start)) then r == NotANumber(start)
      else
        var end := IntegerEnd(text, start);
        var v := Denoted(text[start..end]);
        if Before(text, start, end) >= Limit() then r == TooBig
        else if Peek(text, end) in ".eE" then r == Continues(end)
        else r.Whole? && r.next == end && Exact(r.n, minus, v)
  {
    var minus := Peek(text, at) == '-';
    var pos := if minus then at + 1 else at;
    if !Digit(Peek(text, pos)) {
      return NotANumber(pos);
    }
    ghost var start := pos;
    var a;
    a, pos := Accumulate(text, pos, minus);
    if a.Overflow? {
      return TooBig;
    }
    if Follows(Peek(text, pos)) {
      return Continues(pos);
    }
    r := Whole(EventOf(a, minus), pos);
    EventExact(a, minus, Denoted(text[start..pos]), Before(text, start, pos));
  }
}
