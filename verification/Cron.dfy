/**
 The time patterns of the scheduler: one item of a pattern is parsed into the values it allows,
 and the next second is found among those of its first item.
 */
module Cron {
  import opened Decimal

  const INT_MIN := -0x8000_0000
  const INT_MAX := 0x7FFF_FFFF

  // Reading an integer from the start of a string, as the standard library does.

  datatype Reading = NoDigits | OutOfRange | Read(value: int, consumed: nat)

  predicate Space(c: char) {
    c == ' ' || c == '\t' || c == '\n' || c == '\r' || c as int == 11 || c as int == 12
  }

  function SkipSpace(s: string, i: nat): (j: nat)
    requires i <= |s|
    ensures i <= j <= |s|
    decreases |s| - i
  {
    if i < |s| && Space(s[i]) then SkipSpace(s, i + 1) else i
  }

  predicate Sign(c: char) { c == '-' || c == '+' }

  /** Where the digits of the number start. */
  function DigitsStart(s: string): (j: nat)
    ensures j <= |s|
  {
    var i := SkipSpace(s, 0);
    if Sign(Peek(s, i)) then i + 1 else i
  }

  function Convert(digits: string, minus: bool, consumed: nat): Reading
    requires Digits(digits)
  {
    var n: int := Denoted(digits);
    var v := if minus then 0 - n else n;
    if INT_MIN <= v <= INT_MAX then Read(v, consumed) else OutOfRange
  }

  function ReadInt(s: string): (r: Reading)
    ensures r.Read? ==> 0 < r.consumed <= |s|
  {
    var j := DigitsStart(s);
    var k := RunEnd(s, j);
    if k == j then NoDigits else Convert(s[j..k], j > 0 && s[j - 1] == '-', k)
  }

  /** A number as text: blanks, a sign or none, digits, and then what is no digit. */
  predicate Numeral(s: string, blanks: string, sign: string, digits: string, rest: string) {
    && s == blanks + sign + digits + rest
    && (forall k :: 0 <= k < |blanks| ==> blanks[k] in " \t\n\r\U{0B}\U{0C}")
    && (sign == "" || sign == "+" || sign == "-")
    && digits != "" && (forall k :: 0 <= k < |digits| ==> '0' <= digits[k] <= '9')
    && (rest != "" ==> !('0' <= rest[0] <= '9'))
  }

  lemma {:induction false} SpacesSkipped(blanks: string, rest: string, i: nat)
    requires i <= |blanks| && forall k :: 0 <= k < |blanks| ==> blanks[k] in " \t\n\r\U{0B}\U{0C}"
    requires rest != "" && rest[0] in "+-0123456789"
    ensures SkipSpace(blanks + rest, i) == |blanks|
    decreases |blanks| - i
  {
    if i < |blanks| {
      SpacesSkipped(blanks, rest, i + 1);
    }
  }

  /** Where the digits start, and whether a minus stands before them. */
  lemma SignRead(s: string, blanks: string, sign: string, digits: string, rest: string)
    requires Numeral(s, blanks, sign, digits, rest)
    ensures var j := |blanks| + |sign|; DigitsStart(s) == j && (j > 0 && s[j - 1] == '-' <==> sign == "-")
  {
    var tail := sign + digits + rest;
    assert s == blanks + tail;
    assert tail[0] == if sign == "" then digits[0] else sign[0];
    SpacesSkipped(blanks, tail, 0);
    assert s[|blanks|] == tail[0];
    assert sign == "" && blanks != "" ==> s[|blanks| - 1] == blanks[|blanks| - 1];
  }

  lemma {:induction false} DigitsRead(s: string, j: nat, k: nat)
    requires DigitsStart(s) == j < k == RunEnd(s, j)
    ensures ReadInt(s) == Convert(s[j..k], j > 0 && s[j - 1] == '-', k)
  {
  }

  /** Any number is read, with all that stands before it, if it is an int. */
  lemma {:induction false} ReadIntNumeral(s: string, blanks: string, sign: string, digits: string, rest: string)
    requires Numeral(s, blanks, sign, digits, rest)
    ensures
      var v := if sign == "-" then 0 - Denoted(digits) else Denoted(digits);
      ReadInt(s) == if -2147483648 <= v <= 2147483647 then Read(v, |blanks| + |sign| + |digits|) else OutOfRange
  {
    var j := |blanks| + |sign|;
    SignRead(s, blanks, sign, digits, rest);
    RunEndOf(blanks + sign, digits, rest);
    assert s[j..j + |digits|] == digits;
    DigitsRead(s, j, j + |digits|);
  }

  lemma {:induction false} SkippedSpaces(s: string, i: nat)
    requires i <= |s|
    ensures forall k :: i <= k < SkipSpace(s, i) ==> s[k] in " \t\n\r\U{0B}\U{0C}"
    decreases |s| - i
  {
    if i < |s| && Space(s[i]) {
      SkippedSpaces(s, i + 1);
    }
  }

  /** And what is no number is not. */
  lemma ReadIntOnly(s: string) returns (blanks: string, sign: string, digits: string, rest: string)
    requires !ReadInt(s).NoDigits?
    ensures Numeral(s, blanks, sign, digits, rest)
  {
    var i, j := SkipSpace(s, 0), DigitsStart(s);
    var k := RunEnd(s, j);
    SkippedSpaces(s, 0);
    blanks, sign, digits, rest := s[..i], s[i..j], s[j..k], s[k..];
    assert s == blanks + sign + digits + rest;
    assert sign == if j == i then "" else [s[i]];
    assert rest != "" ==> rest[0] == s[k];
  }

  lemma DigitsStartAt(s: string)
    requires s != [] && Digit(s[0])
    ensures DigitsStart(s) == 0
  {
  }

  lemma {:induction false} ReadDigits(digits: string, rest: string)
    requires digits != [] && Digits(digits) && Denoted(digits) <= INT_MAX && (rest != [] ==> !Digit(rest[0]))
    ensures ReadInt(digits + rest) == Read(Denoted(digits), |digits|)
  {
    var s := digits + rest;
    DigitsStartAt(s);
    assert RunEnd(s, 0) == |digits| by {
      RunEndOf([], digits, rest);
      assert [] + digits + rest == s;
    }
    ConvertOf(s, digits);
  }

  lemma {:induction false} ConvertOf(s: string, digits: string)
    requires digits != [] && Digits(digits) && Denoted(digits) <= INT_MAX
    requires digits <= s && DigitsStart(s) == 0 && RunEnd(s, 0) == |digits|
    ensures ReadInt(s) == Read(Denoted(digits), |digits|)
  {
    assert s[0..|digits|] == digits;
  }

  /** Reading back a printed number, whatever follows it. */
  lemma {:induction false} ReadPrinted(n: nat, rest: string)
    requires n <= INT_MAX && (rest != [] ==> !Digit(rest[0]))
    ensures ReadInt(Print(n) + rest) == Read(n, |Print(n)|)
  {
    PrintDenotes(n);
    ReadDigits(Print(n), rest);
  }

  // The two loops of an item, as functions.

  datatype Parsed = Items(values: seq<int>) | Refused(why: Refusal)
  datatype Refusal = BadFormat | BadValue | Conversion

  /** From `val` in steps of `divid`, up to `mxm`. */
  function Steps(val: int, divid: int, mxm: int, offset: int): (r: seq<int>)
    requires divid > 0
    decreases mxm - val
  {
    if val > mxm then [] else [val + offset] + Steps(val + divid, divid, mxm, offset)
  }

  function Appended(vec: seq<int>, rest: Parsed): Parsed {
    match rest
    case Refused(why) => rest
    case Items(values) => Items(vec + values)
  }

  /** Numbers with one character between them; the character after the last number is optional. */
  function ListItems(s: string, mnm: int, mxm: int, offset: int): Parsed
    decreases |s|
  {
    match ReadInt(s)
    case NoDigits => Refused(Conversion)
    case OutOfRange => Refused(Conversion)
    case Read(val, position) =>
      if val < mnm || val > mxm then Refused(BadValue)
      else if position + 1 >= |s| then Items([val + offset])
      else Appended([val + offset], ListItems(s[position + 1..], mnm, mxm, offset))
  }

  function Insert(x: int, s: seq<int>): seq<int> {
    if s == [] || x <= s[0] then [x] + s else [s[0]] + Insert(x, s[1..])
  }

  function Sort(s: seq<int>): seq<int> {
    if s == [] then [] else Insert(s[0], Sort(s[1..]))
  }

  predicate Sorted(s: seq<int>) {
    forall i, j :: 0 <= i < j < |s| ==> s[i] <= s[j]
  }

  lemma {:induction false} InsertSorts(x: int, s: seq<int>)
    requires Sorted(s)
    ensures Sorted(Insert(x, s)) && multiset(Insert(x, s)) == multiset(s) + multiset{x}
  {
    if s == [] || x <= s[0] {
      assert multiset([x] + s) == multiset{x} + multiset(s);
    } else {
      var rest := Insert(x, s[1..]);
      assert s == [s[0]] + s[1..];
      InsertSorts(x, s[1..]);
      assert multiset([s[0]] + rest) == multiset{s[0]} + multiset(rest);
      InsertLeast(s[0], x, s[1..], rest);
    }
  }

  lemma InsertLeast(least: int, x: int, s: seq<int>, rest: seq<int>)
    requires least <= x && forall k :: 0 <= k < |s| ==> least <= s[k]
    requires Sorted(rest) && multiset(rest) == multiset(s) + multiset{x}
    ensures Sorted([least] + rest)
  {
    forall k | 0 <= k < |rest| ensures least <= rest[k] {
      assert rest[k] in multiset(rest);
    }
  }

  lemma {:induction false} SortSorts(s: seq<int>)
    ensures Sorted(Sort(s)) && multiset(Sort(s)) == multiset(s)
  {
    if s != [] {
      SortSorts(s[1..]);
      InsertSorts(s[0], Sort(s[1..]));
      assert s == [s[0]] + s[1..];
    }
  }

  lemma {:induction false} SortKeeps(s: seq<int>, x: int)
    ensures x in Sort(s) <==> x in s
  {
    SortSorts(s);
    assert x in Sort(s) <==> x in multiset(Sort(s));
  }

  function Find(s: string, c: char, i: nat): (p: nat)
    requires i <= |s|
    ensures i <= p <= |s| && (p < |s| ==> s[p] == c)
    ensures forall k :: i <= k < p ==> s[k] != c
    decreases |s| - i
  {
    if i == |s| || s[i] == c then i else Find(s, c, i + 1)
  }

  /** The multiples of the number that the text starts with. */
  function StepItems(text: string, mnm: int, mxm: int, offset: int): Parsed {
    match ReadInt(text)
    case NoDigits => Refused(Conversion)
    case OutOfRange => Refused(Conversion)
    case Read(divid, _) =>
      if divid <= 0 then Refused(BadValue) else Items(Steps(FirstMultiple(mnm, divid), divid, mxm, offset))
  }

  function Ordered(r: Parsed): Parsed {
    match r
    case Refused(why) => r
    case Items(values) => Items(Sort(values))
  }

  /** The values an item allows; a single -1 stands for any. */
  function Item(item: string, mnm: int, mxm: int, offset: int): Parsed {
    if item == "*" then Items([-1])
    else if Find(item, '/', 0) < |item| then
      var position := Find(item, '/', 0) + 1;
      if position >= |item| then Refused(BadFormat)
      else Ordered(StepItems(item[position..], mnm, mxm, offset))
    else if Find(item, ',', 0) < |item| then Ordered(ListItems(item, mnm, mxm, offset))
    else
      match ReadInt(item)
      case NoDigits => Refused(Conversion)
      case OutOfRange => Refused(Conversion)
      case Read(val, _) => if val < mnm || val > mxm then Refused(BadValue) else Items([val + offset])
  }

  /** The remainder truncates toward zero, like the language's; the bounds of every item are not negative. */
  function FirstMultiple(mnm: int, divid: int): int
    requires divid > 0
  {
    var val := if mnm < 0 then -((-mnm) % divid) else mnm % divid;
    if val == 0 then mnm else mnm - val + divid
  }

  // What the items denote.

  lemma Multiples(d: int, z: int)
    requires d > 0
    ensures z >= 1 ==> d * z >= d
    ensures z <= -1 ==> d * z <= -d
  {
  }

  lemma Remainder(q: int, k: int, d: int)
    requires 0 <= k < d
    ensures (d * q + k) % d == k
  {
    var x := d * q + k;
    assert x == d * (x / d) + x % d;
    assert d * (q - x / d) == x % d - k;
    Multiples(d, q - x / d);
  }

  /** From a multiple of `d`, the next is `d` further. */
  lemma NextMultiple(val: int, d: int, k: int)
    requires d > 0 && val % d == 0 && 0 <= k <= d
    ensures (val + k) % d == 0 <==> k == 0 || k == d
  {
    var q := val / d;
    assert val == d * q && val + d == d * (q + 1) + 0;
    if k < d {
      Remainder(q, k, d);
    } else {
      Remainder(q + 1, 0, d);
    }
  }

  predicate InSteps(y: int, val: int, divid: int, mxm: int, offset: int)
    requires divid > 0
  {
    val <= y - offset <= mxm && (y - offset) % divid == 0
  }

  lemma {:induction false} StepsAre(val: int, divid: int, mxm: int, offset: int, y: int)
    requires divid > 0 && val % divid == 0
    ensures y in Steps(val, divid, mxm, offset) <==> InSteps(y, val, divid, mxm, offset)
    decreases mxm - val
  {
    if val <= mxm {
      NextMultiple(val, divid, divid);
      StepsAre(val + divid, divid, mxm, offset, y);
      if val <= y - offset < val + divid {
        NextMultiple(val, divid, y - offset - val);
      }
    }
  }

  lemma FirstMultipleIs(mnm: nat, divid: int)
    requires divid > 0
    ensures var v := FirstMultiple(mnm, divid);
            v % divid == 0 && mnm <= v < mnm + divid
  {
    var r, q := mnm % divid, mnm / divid;
    assert mnm - r + divid == divid * (q + 1) + 0;
    Remainder(q + 1, 0, divid);
  }

  /** An item with a solidus allows exactly the multiples, in range, of the number after it. */
  lemma {:induction false} SolidusItem(before: string, n: nat, mnm: nat, mxm: int, offset: int)
    requires '/' !in before && 0 < n <= INT_MAX
    ensures
      var r := Item(before + "/" + Print(n), mnm, mxm, offset);
      r.Items? && Sorted(r.values) && forall y :: y in r.values <==> InSteps(y, mnm, n, mxm, offset)
  {
    var item := before + "/" + Print(n);
    var first := FirstMultiple(mnm, n);
    var steps := Steps(first, n, mxm, offset);
    SolidusRead(before, n);
    assert Item(item, mnm, mxm, offset) == Items(Sort(steps));
    SortSorts(steps);
    FirstMultipleIs(mnm, n);
    forall y ensures y in Sort(steps) <==> InSteps(y, mnm, n, mxm, offset) {
      SortKeeps(steps, y);
      StepsAre(first, n, mxm, offset, y);
      if mnm <= y - offset < first {
        NextMultiple(first, n, n);
        BeforeFirst(first, n, y - offset);
      }
    }
  }

  lemma BeforeFirst(first: int, n: int, x: int)
    requires n > 0 && first % n == 0 && first - n < x < first
    ensures x % n != 0
  {
    var q := first / n;
    assert first == n * q && first - n == n * (q - 1) + 0;
    Remainder(q - 1, 0, n);
    NextMultiple(first - n, n, x - (first - n));
  }

  lemma {:induction false} SolidusRead(before: string, n: nat)
    requires '/' !in before && 0 < n <= INT_MAX
    ensures
      var item := before + "/" + Print(n);
      && item != "*" && Find(item, '/', 0) == |before| < |item| - 1
      && ReadInt(item[|before| + 1..]) == Read(n, |Print(n)|)
  {
    var item := before + "/" + Print(n);
    assert item[|before|] == '/';
    assert before + ("/" + Print(n)) == item;
    FindIs(before, "/" + Print(n), '/');
    assert item[|before| + 1..] == Print(n) + [];
    ReadPrinted(n, []);
  }

  lemma {:induction false} FindIs(before: string, after: string, c: char)
    requires c !in before && after != [] && after[0] == c
    ensures Find(before + after, c, 0) == |before|
  {
    var p := Find(before + after, c, 0);
    assert (before + after)[|before|] == c;
    assert forall k :: 0 <= k < |before| ==> (before + after)[k] == before[k];
  }

  /** Numbers printed with commas between them. */
  function Joined(ns: seq<nat>): (s: string)
    requires ns != []
    ensures s != []
  {
    if |ns| == 1 then Print(ns[0]) else Print(ns[0]) + ("," + Joined(ns[1..]))
  }

  function Shifted(ns: seq<nat>, offset: int): seq<int> {
    if ns == [] then [] else [ns[0] + offset] + Shifted(ns[1..], offset)
  }

  predicate Within(ns: seq<nat>, mnm: int, mxm: int) {
    ns == [] || (mnm <= ns[0] <= mxm && Within(ns[1..], mnm, mxm))
  }

  lemma {:induction false} JoinedItems(ns: seq<nat>, mnm: nat, mxm: int, offset: int)
    requires ns != [] && mxm <= INT_MAX
    requires Within(ns, mnm, mxm)
    ensures ListItems(Joined(ns), mnm, mxm, offset) == Items(Shifted(ns, offset))
  {
    ShiftedNext(ns, offset);
    if |ns| == 1 {
      ListLast(ns[0], mnm, mxm, offset);
    } else {
      JoinedItems(ns[1..], mnm, mxm, offset);
      JoinedStep(ns, Joined(ns[1..]), Shifted(ns[1..], offset), mnm, mxm, offset);
    }
  }

  lemma {:induction false} JoinedStep(ns: seq<nat>, tail: string, values: seq<int>, mnm: nat, mxm: int, offset: int)
    requires |ns| > 1 && mnm <= ns[0] <= mxm <= INT_MAX && tail == Joined(ns[1..])
    requires ListItems(tail, mnm, mxm, offset) == Items(values)
    ensures ListItems(Joined(ns), mnm, mxm, offset) == Items([ns[0] + offset] + values)
  {
    ListStep(ns[0], tail, values, mnm, mxm, offset);
  }

  lemma {:induction false} ListStep(n: nat, tail: string, values: seq<int>, mnm: nat, mxm: int, offset: int)
    requires mnm <= n <= mxm <= INT_MAX && tail != [] && ListItems(tail, mnm, mxm, offset) == Items(values)
    ensures ListItems(Print(n) + ("," + tail), mnm, mxm, offset) == Items([n + offset] + values)
  {
    ListNext(n, tail, mnm, mxm, offset);
  }

  lemma {:induction false} ShiftedNext(ns: seq<nat>, offset: int)
    requires ns != []
    ensures Shifted(ns, offset) == [ns[0] + offset] + Shifted(ns[1..], offset)
    ensures |ns| == 1 ==> Shifted(ns, offset) == [ns[0] + offset]
  {
  }

  lemma {:induction false} ListLast(n: nat, mnm: nat, mxm: int, offset: int)
    requires mnm <= n <= mxm <= INT_MAX
    ensures ListItems(Print(n), mnm, mxm, offset) == Items([n + offset])
  {
    ReadPrinted(n, []);
    assert Print(n) + [] == Print(n);
  }

  lemma {:induction false} ListAfter(s: string, comma: nat, tail: string, val: int, mnm: nat, mxm: int, offset: int)
    requires comma + 1 < |s| && s[comma + 1..] == tail && ReadInt(s) == Read(val, comma) && mnm <= val <= mxm
    ensures ListItems(s, mnm, mxm, offset) == Appended([val + offset], ListItems(tail, mnm, mxm, offset))
  {
  }

  lemma {:induction false} ListNext(n: nat, tail: string, mnm: nat, mxm: int, offset: int)
    requires mnm <= n <= mxm <= INT_MAX && tail != []
    ensures ListItems(Print(n) + ("," + tail), mnm, mxm, offset)
         == Appended([n + offset], ListItems(tail, mnm, mxm, offset))
  {
    ReadPrinted(n, "," + tail);
    AfterComma(Print(n), tail);
    ListAfter(Print(n) + ("," + tail), |Print(n)|, tail, n, mnm, mxm, offset);
  }

  lemma AfterComma(n: string, tail: string)
    ensures (n + ("," + tail))[|n| + 1..] == tail
  {
  }

  lemma {:induction false} JoinedSymbols(ns: seq<nat>)
    requires ns != []
    ensures forall c :: c in Joined(ns) ==> Digit(c) || c == ','
  {
    if |ns| > 1 {
      JoinedSymbols(ns[1..]);
    }
  }

  lemma {:induction false} ListForm(item: string, comma: nat, mnm: int, mxm: int, offset: int)
    requires comma < |item| && item[comma] == ',' && '/' !in item
    ensures Item(item, mnm, mxm, offset) == Ordered(ListItems(item, mnm, mxm, offset))
  {
  }

  /** A list of at least two numbers in range allows exactly those numbers, in order. */
  lemma {:induction false} ListItem(ns: seq<nat>, mnm: nat, mxm: int, offset: int)
    requires |ns| >= 2 && mxm <= INT_MAX
    requires Within(ns, mnm, mxm)
    ensures
      var r := Item(Joined(ns), mnm, mxm, offset);
      r.Items? && Sorted(r.values) && multiset(r.values) == multiset(Shifted(ns, offset))
  {
    var item := Joined(ns);
    JoinedItems(ns, mnm, mxm, offset);
    JoinedSymbols(ns);
    ListForm(item, |Print(ns[0])|, mnm, mxm, offset);
    SortSorts(Shifted(ns, offset));
  }

  /** A number that a list starts with, if it is out of range. */
  lemma {:induction false} FirstOut(n: nat, rest: string, mnm: nat, mxm: int, offset: int)
    requires !(mnm <= n <= mxm) && mxm <= INT_MAX && (rest != "" ==> rest[0] == ',')
    ensures ListItems(Print(n) + rest, mnm, mxm, offset).Refused?
  {
    var s := Print(n) + rest;
    PrintDenotes(n);
    assert Numeral(s, "", "", Print(n), rest) by {
      assert "" + "" + Print(n) + rest == s;
    }
    ReadIntNumeral(s, "", "", Print(n), rest);
  }

  lemma {:induction false} ListOut(ns: seq<nat>, mnm: nat, mxm: int, offset: int)
    requires ns != [] && mxm <= INT_MAX && !Within(ns, mnm, mxm)
    ensures ListItems(Joined(ns), mnm, mxm, offset).Refused?
  {
    if !(mnm <= ns[0] <= mxm) {
      FirstOut(ns[0], if |ns| == 1 then "" else "," + Joined(ns[1..]), mnm, mxm, offset);
      assert Print(ns[0]) + "" == Print(ns[0]);
    } else {
      ListOut(ns[1..], mnm, mxm, offset);
      ListNext(ns[0], Joined(ns[1..]), mnm, mxm, offset);
    }
  }

  /** A list is accepted exactly when all its numbers are in range. */
  lemma {:induction false} ListAccepted(ns: seq<nat>, mnm: nat, mxm: int, offset: int)
    requires |ns| >= 2 && mxm <= INT_MAX
    ensures Item(Joined(ns), mnm, mxm, offset).Items? <==> Within(ns, mnm, mxm)
  {
    if Within(ns, mnm, mxm) {
      ListItem(ns, mnm, mxm, offset);
    } else {
      ListOut(ns, mnm, mxm, offset);
      JoinedSymbols(ns);
      ListForm(Joined(ns), |Print(ns[0])|, mnm, mxm, offset);
    }
  }

  /** An item with a solidus is accepted exactly when a positive number can be read after it, whatever is before. */
  lemma SolidusAccepted(before: string, after: string, mnm: int, mxm: int, offset: int)
    requires '/' !in before
    ensures Item(before + "/" + after, mnm, mxm, offset).Items? <==> ReadInt(after).Read? && ReadInt(after).value > 0
  {
    var item := before + "/" + after;
    assert item == before + ("/" + after) && item[|before|] == '/';
    FindIs(before, "/" + after, '/');
    assert item[|before| + 1..] == after;
  }

  /** So it is refused with a star there. */
  lemma {:induction false} StarAfterSolidus(n: nat, mnm: int, mxm: int, offset: int)
    ensures Item(Print(n) + "/*", mnm, mxm, offset) == Refused(Conversion)
  {
    var item := Print(n) + "/*";
    assert item[|Print(n)|] == '/';
    FindIs(Print(n), "/*", '/');
    assert item[|Print(n)| + 1..] == "*";
  }

  lemma AppendedNone(rest: Parsed)
    ensures Appended([], rest) == rest
  {
  }

  lemma AppendedTwice(vec: seq<int>, x: int, rest: Parsed)
    ensures Appended(vec, Appended([x], rest)) == Appended(vec + [x], rest)
    ensures Appended(vec + [x], Items([])) == Items(vec + [x])
  {
  }

  /** A number at the front of a text. */
  method Stoi(s: string) returns (r: Reading)
    ensures r == ReadInt(s) && (r.Read? ==> 0 < r.consumed <= |s|)
  {
    r := ReadInt(s);
  }

  method CountUp(first: int, divid: int, mxm: int, offset: int) returns (vec: seq<int>)
    requires divid > 0
    ensures vec == Steps(first, divid, mxm, offset)
  {
    vec := [];
    var val := first;
    while val <= mxm
      invariant vec + Steps(val, divid, mxm, offset) == Steps(first, divid, mxm, offset)
      decreases mxm - val
    {
      vec := vec + [val + offset];
      val := val + divid;
    }
  }

  method ParseSteps(text: string, mnm: int, mxm: int, offset: int) returns (r: Parsed)
    ensures r == StepItems(text, mnm, mxm, offset)
  {
    var reading := Stoi(text);
    if !reading.Read? {
      return Refused(Conversion);
    }
    var divid := reading.value;
    if divid <= 0 {
      return Refused(BadValue);
    }
    var vec := CountUp(FirstMultiple(mnm, divid), divid, mxm, offset);
    r := Items(vec);
  }

  /** What one number of a list, read from its front, contributes after those in `vec`. */
  lemma {:induction false} ListFront(vec: seq<int>, s: string, mnm: int, mxm: int, offset: int, reading: Reading)
    requires reading == ReadInt(s)
    ensures
      var r := Appended(vec, ListItems(s, mnm, mxm, offset));
      if !reading.Read? then r == Refused(Conversion)
      else
        var (val, position) := (reading.value, reading.consumed + 1);
        if val < mnm || val > mxm then r == Refused(BadValue)
        else if position >= |s| then r == Items(vec + [val + offset])
        else r == Appended(vec + [val + offset], ListItems(s[position..], mnm, mxm, offset))
  {
    if reading.Read? && mnm <= reading.value <= mxm {
      var (x, position) := (reading.value + offset, reading.consumed + 1);
      if position < |s| {
        AppendedTwice(vec, x, ListItems(s[position..], mnm, mxm, offset));
      }
    }
  }

  method ParseList(item: string, mnm: int, mxm: int, offset: int) returns (r: Parsed)
    ensures r == ListItems(item, mnm, mxm, offset)
  {
    var vec: seq<int> := [];
    var substr := item;
    AppendedNone(ListItems(item, mnm, mxm, offset));
    while true
      invariant Appended(vec, ListItems(substr, mnm, mxm, offset)) == ListItems(item, mnm, mxm, offset)
      decreases |substr|
    {
      var reading := Stoi(substr);
      ListFront(vec, substr, mnm, mxm, offset, reading);
      if !reading.Read? {
        return Refused(Conversion);
      }
      var val := reading.value;
      if val < mnm || val > mxm {
        return Refused(BadValue);
      }
      vec := vec + [val + offset];
      var position := reading.consumed + 1;
      if position > |substr| - 1 {
        return Items(vec);
      }
      substr := substr[position..];
    }
  }

  /** Parses one item of a time pattern. */
  method ParseItem(item: string, mnm: int, mxm: int, offset: int) returns (r: Parsed)
    ensures r == Item(item, mnm, mxm, offset)
  {
    if item == "*" {
      return Items([-1]);
    }
    var position := Find(item, '/', 0);
    if position < |item| {
      position := position + 1;
      if position > |item| - 1 {
        return Refused(BadFormat);
      }
      r := ParseSteps(item[position..], mnm, mxm, offset);
    } else if Find(item, ',', 0) < |item| {
      r := ParseList(item, mnm, mxm, offset);
    } else {
      var reading := Stoi(item);
      if !reading.Read? {
        return Refused(Conversion);
      }
      if reading.value < mnm || reading.value > mxm {
        return Refused(BadValue);
      }
      return Items([reading.value + offset]);
    }
    if r.Items? {
      r := Items(Sort(r.values));
    }
  }

  // The next second that a pattern allows.

  /** The seconds of an item: a star stands for second 0. */
  predicate Allows(vsec: seq<int>, sec: int)
    requires vsec != []
  {
    if vsec[0] < 0 then sec == 0 else sec in vsec
  }

  predicate AllowsAfter(vsec: seq<int>, asec: int, d: int)
    requires vsec != []
  {
    Allows(vsec, (asec + d) % 60)
  }

  predicate Seconds(vsec: seq<int>) {
    vsec == [-1] || (vsec != [] && Sorted(vsec) && forall k :: 0 <= k < |vsec| ==> 0 <= vsec[k] <= 59)
  }

  predicate Bounded(s: seq<int>, low: int, high: int) {
    forall k :: 0 <= k < |s| ==> low <= s[k] <= high
  }

  lemma {:induction false} SortBounded(s: seq<int>, low: int, high: int)
    requires Bounded(s, low, high)
    ensures Bounded(Sort(s), low, high) && |Sort(s)| == |s|
  {
    SortSorts(s);
    assert |multiset(Sort(s))| == |multiset(s)|;
    forall k | 0 <= k < |Sort(s)| ensures low <= Sort(s)[k] <= high {
      SortKeeps(s, Sort(s)[k]);
    }
  }

  lemma {:induction false} StepsBounded(val: int, divid: int, mxm: int)
    requires divid > 0
    ensures Bounded(Steps(val, divid, mxm, 0), val, mxm)
    decreases mxm - val
  {
    if val <= mxm {
      StepsBounded(val + divid, divid, mxm);
    }
  }

  lemma {:induction false} ListBounded(s: string, mnm: int, mxm: int)
    ensures
      var r := ListItems(s, mnm, mxm, 0);
      r.Items? ==> r.values != [] && Bounded(r.values, mnm, mxm)
    decreases |s|
  {
    var reading := ReadInt(s);
    ListFront([], s, mnm, mxm, 0, reading);
    AppendedNone(ListItems(s, mnm, mxm, 0));
    if reading.Read? && reading.consumed + 1 < |s| {
      ListBounded(s[reading.consumed + 1..], mnm, mxm);
    }
  }

  /** Whatever an accepted item for the seconds is, a next second is found in what it parses to. */
  lemma ItemSeconds(item: string)
    ensures Item(item, 0, 59, 0).Items? ==> Seconds(Item(item, 0, 59, 0).values)
  {
    var position := Find(item, '/', 0);
    if item != "*" && Item(item, 0, 59, 0).Items? {
      if position < |item| {
        var divid := ReadInt(item[position + 1..]).value;
        assert FirstMultiple(0, divid) == 0;
        StepsBounded(0, divid, 59);
        SortSeconds(Steps(0, divid, 59, 0));
      } else if Find(item, ',', 0) < |item| {
        ListBounded(item, 0, 59);
        SortSeconds(ListItems(item, 0, 59, 0).values);
      }
    }
  }

  lemma {:induction false} SortSeconds(s: seq<int>)
    requires s != [] && Bounded(s, 0, 59)
    ensures Seconds(Sort(s))
  {
    SortSorts(s);
    SortBounded(s, 0, 59);
  }

  /** The seconds that an item with a solidus allows are the multiples of its number. */
  lemma {:induction false} SolidusAllows(before: string, n: nat, sec: int)
    requires '/' !in before && 0 < n <= INT_MAX
    ensures
      var r := Item(before + "/" + Print(n), 0, 59, 0);
      r.Items? && Seconds(r.values) && (Allows(r.values, sec) <==> 0 <= sec <= 59 && sec % n == 0)
  {
    var r := Item(before + "/" + Print(n), 0, 59, 0);
    SolidusItem(before, n, 0, 59, 0);
    ItemSeconds(before + "/" + Print(n));
    assert InSteps(0, 0, n, 59, 0);
    assert 0 in r.values && r.values[0] in r.values;
  }

  /** The least delay after which the second is one the item allows; at a leap second, no delay past a minute. */
  method NextSecond(vsec: seq<int>, asec: int) returns (dsec: int)
    requires Seconds(vsec) && 0 <= asec <= 60
    ensures 0 <= dsec <= 60
    ensures asec <= 59 ==>
              && 1 <= dsec && AllowsAfter(vsec, asec, dsec)
              && forall d :: 1 <= d < dsec ==> !AllowsAfter(vsec, asec, d)
  {
    var fsec := asec;
    if vsec[0] < 0 {
      fsec := 0;
    } else {
      fsec := vsec[0];
      var k := 0;
      while k < |vsec|
        invariant k <= |vsec|
        invariant fsec == vsec[0]
        invariant forall j :: 0 <= j < k ==> vsec[j] <= asec
      {
        if vsec[k] > asec {
          fsec := vsec[k];
          break;
        }
        k := k + 1;
      }
      assert forall j :: 0 <= j < |vsec| ==> vsec[j] <= asec || fsec <= vsec[j];
      assert fsec in vsec;
    }
    dsec := fsec - asec;
    if fsec <= asec {
      dsec := dsec + 60;
    }
    if asec <= 59 {
      assert (asec + dsec) % 60 == fsec;
      forall d | 1 <= d < dsec ensures !AllowsAfter(vsec, asec, d) {
        var s := (asec + d) % 60;
        assert if asec + d < 60 then s == asec + d else s == asec + d - 60;
      }
    }
  }

  // A field of the clock against an item.

  /** An item without values, or whose first is negative, fits any. */
  predicate Fits(cval: int, values: seq<int>) {
    values == [] || values[0] < 0 || cval in values
  }

  method Matches(cval: int, tvalV: seq<int>) returns (ok: bool)
    ensures ok <==> Fits(cval, tvalV)
  {
    if |tvalV| > 0 && tvalV[0] >= 0 {
      for k := 0 to |tvalV|
        invariant cval !in tvalV[..k]
      {
        if tvalV[k] == cval {
          return true;
        }
      }
      return false;
    }
    return true;
  }

  /** A star fits whatever the clock shows, in every field. */
  lemma StarFits(mnm: int, mxm: int, offset: int, cval: int)
    ensures var r := Item("*", mnm, mxm, offset); r.Items? && Fits(cval, r.values)
  {
  }

  /** A number alone fits just that number, shifted; out of range it is refused. */
  lemma {:induction false} NumeralFits(n: nat, mnm: int, mxm: int, offset: int, cval: int)
    requires n <= INT_MAX
    ensures
      var r := Item(Print(n), mnm, mxm, offset);
      && (r.Items? <==> mnm <= n <= mxm) && (r.Refused? ==> r.why == BadValue)
      && (r.Items? && n + offset >= 0 ==> (Fits(cval, r.values) <==> cval == n + offset))
  {
    PrintDenotes(n);
    ReadPrinted(n, []);
    assert Print(n) + [] == Print(n);
    assert forall k :: 0 <= k < |Print(n)| ==> Digit(Print(n)[k]);
  }
}
