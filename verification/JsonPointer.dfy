/**
 JSON Pointers: the parser of their string and URI-fragment forms, which writes every name into one
 buffer, and the printer of both forms. Sections 3 to 6 of RFC 6901.
 */
module JsonPointer {
  import opened Utf8
  import JsonEvents
  import opened Options

  const SOLIDUS: bv8 := 0x2F
  const TILDE: bv8 := 0x7E
  const HASH: bv8 := 0x23
  const PERCENT: bv8 := 0x25
  const ZERO: bv8 := 0x30
  const ONE: bv8 := 0x31

  const INVALID_INDEX := 0xFFFF_FFFF

  datatype ErrorCode =
    | TokenMustBeginWithSolidus
    | InvalidEscape
    | InvalidPercentEncoding
    | CharacterMustPercentEncode

  datatype Result<+T> = Ok(value: T) | Bad(code: ErrorCode, at: nat)

  predicate IsDigit(c: bv8) { 0x30 <= c <= 0x39 }

  predicate NeedPercentEncode(c: bv8) {
    !(IsDigit(c) || 0x41 <= c <= 0x5A || 0x61 <= c <= 0x7A || c == 0x2D || c == 0x2E || c == 0x5F || c == TILDE)
  }

  // Indices.

  function DigitValue(c: bv8): (d: nat)
    requires IsDigit(c)
    ensures d <= 9
  {
    (c - 0x30) as int
  }

  predicate AllDigits(name: Bytes) {
    forall k :: 0 <= k < |name| ==> IsDigit(name[k])
  }

  /** A token is an array index when it is a numeral without leading zeros. */
  predicate Numeric(name: Bytes) {
    name != [] && AllDigits(name) && (|name| > 1 ==> name[0] != ZERO)
  }

  function Denoted(name: Bytes): nat
    requires AllDigits(name)
  {
    if name == [] then 0 else Denoted(name[..|name| - 1]) * 10 + DigitValue(name[|name| - 1])
  }

  /** The 32-bit accumulator; it stops when it gets smaller. */
  function Accumulated(name: Bytes): Option<JsonEvents.Uint32>
    requires AllDigits(name)
  {
    if name == [] then Some(0)
    else
      match Accumulated(name[..|name| - 1])
      case None => None
      case Some(n) =>
        var m := (n * 10 + DigitValue(name[|name| - 1])) % JsonEvents.TWO_32;
        if m < n then None else Some(m)
  }

  function IndexOf(name: Bytes): JsonEvents.Uint32 {
    if Numeric(name) && Accumulated(name).Some? then Accumulated(name).value else INVALID_INDEX
  }

  datatype Token = Token(name: Bytes, index: JsonEvents.Uint32)

  function TokenOf(name: Bytes): Token {
    Token(name, IndexOf(name))
  }

  // Reading.

  function Hex(h: bv8): Option<bv8> {
    if IsDigit(h) then Some(h - 0x30)
    else if 0x41 <= h <= 0x46 then Some(h - 0x41 + 10)
    else if 0x61 <= h <= 0x66 then Some(h - 0x61 + 10)
    else None
  }

  /** The byte that a percent sign and two hexadecimal digits stand for. */
  function Triple(s: Bytes, i: nat): Option<bv8> {
    if i + 3 > |s| || s[i] != PERCENT then None
    else
      match (Hex(s[i + 1]), Hex(s[i + 2]))
      case (Some(h), Some(l)) => Some((h << 4) + l)
      case _ => None
  }

  /** As many bytes as there are, percent-encoded; none when one is not. */
  function Triples(s: Bytes, i: nat, n: nat): (r: Option<Bytes>)
    ensures r.Some? ==> |r.value| == n && (n > 0 ==> i + 3 * n <= |s|)
    decreases n
  {
    if n == 0 then Some([])
    else
      match (Triple(s, i), Triples(s, i + 3, n - 1))
      case (Some(b), Some(rest)) => Some([b] + rest)
      case _ => None
  }

  /** The UTF-8 sequence percent-encoded at `i`. */
  function PercentSequence(s: Bytes, i: nat): (r: Option<Bytes>)
    ensures r.Some? ==> WellFormed(r.value) && i + 3 * |r.value| <= |s|
  {
    match Triple(s, i)
    case None => None
    case Some(b) =>
      match Triples(s, i, Length(b))
      case None => None
      case Some(t) => if WellFormed(t) then Some(t) else None
  }

  datatype Unit = Unit(bytes: Bytes, next: nat)

  /** What a character, read up to `i`, stands for: a tilde makes the next one an escape. */
  function Unescaped(s: Bytes, c: bv8, i: nat): (r: Result<Unit>)
    requires i <= |s|
    ensures r.Ok? ==> i <= r.value.next <= |s| && |r.value.bytes| == 1
  {
    if c != TILDE then Ok(Unit([c], i))
    else if i < |s| && s[i] == ZERO then Ok(Unit([TILDE], i + 1))
    else if i < |s| && s[i] == ONE then Ok(Unit([SOLIDUS], i + 1))
    else Bad(InvalidEscape, i)
  }

  /** One unit of a name: a character, an escape, or a percent-encoded sequence. */
  function UnitAt(s: Bytes, i: nat, uri: bool): (r: Result<Unit>)
    requires i < |s|
    ensures r.Ok? ==> i + |r.value.bytes| <= r.value.next <= |s| && r.value.bytes != []
  {
    if uri && s[i] == PERCENT then
      match PercentSequence(s, i)
      case None => Bad(InvalidPercentEncoding, i)
      case Some(t) => if |t| == 1 then Unescaped(s, t[0], i + 3) else Ok(Unit(t, i + 3 * |t|))
    else if uri && NeedPercentEncode(s[i]) then Bad(CharacterMustPercentEncode, i)
    else Unescaped(s, s[i], i + 1)
  }

  /** A name, from `i` to the next solidus or the end. */
  function NameAt(s: Bytes, i: nat, uri: bool): (r: Result<Unit>)
    requires i <= |s|
    ensures r.Ok? ==> i + |r.value.bytes| <= r.value.next <= |s|
    ensures r.Ok? && r.value.next < |s| ==> s[r.value.next] == SOLIDUS
    decreases |s| - i
  {
    if i == |s| || s[i] == SOLIDUS then Ok(Unit([], i))
    else
      match UnitAt(s, i, uri)
      case Bad(code, at) => Bad(code, at)
      case Ok(u) =>
        match NameAt(s, u.next, uri)
        case Bad(code, at) => Bad(code, at)
        case Ok(rest) => Ok(Unit(u.bytes + rest.bytes, rest.next))
  }

  function NamesAt(s: Bytes, i: nat, uri: bool): Result<seq<Bytes>>
    requires i <= |s| && (i < |s| ==> s[i] == SOLIDUS)
    decreases |s| - i
  {
    if i == |s| then Ok([])
    else
      match NameAt(s, i + 1, uri)
      case Bad(code, at) => Bad(code, at)
      case Ok(u) =>
        match NamesAt(s, u.next, uri)
        case Bad(code, at) => Bad(code, at)
        case Ok(rest) => Ok([u.bytes] + rest)
  }

  predicate IsUri(s: Bytes) { s != [] && s[0] == HASH }

  function ParsedNames(s: Bytes): Result<seq<Bytes>> {
    var i := if IsUri(s) then 1 else 0;
    if i < |s| && s[i] != SOLIDUS then Bad(TokenMustBeginWithSolidus, i) else NamesAt(s, i, IsUri(s))
  }

  function TokensOf(names: seq<Bytes>): seq<Token> {
    seq(|names|, k requires 0 <= k < |names| => TokenOf(names[k]))
  }

  function NamesOf(tokens: seq<Token>): seq<Bytes> {
    seq(|tokens|, k requires 0 <= k < |tokens| => tokens[k].name)
  }

  /** The pointer that a text denotes. */
  function Parsed(s: Bytes): Result<seq<Token>> {
    match ParsedNames(s)
    case Bad(code, at) => Bad(code, at)
    case Ok(names) => Ok(TokensOf(names))
  }

  // What the bytes mean, as sections 3, 4 and 6 have it.

  /** After a tilde a zero makes a tilde and a one makes a solidus; nothing else may follow it. */
  lemma TildeMeans(s: Bytes, i: nat, uri: bool)
    requires i < |s| && s[i] == 0x7E
    ensures
      var r := UnitAt(s, i, uri);
      if i + 1 < |s| && s[i + 1] == 0x30 then r == Ok(Unit([0x7E], i + 2))
      else if i + 1 < |s| && s[i + 1] == 0x31 then r == Ok(Unit([0x2F], i + 2))
      else r == Bad(InvalidEscape, i + 1)
  {
  }

  /** Hexadecimal digits, in either case. */
  lemma HexMeans(h: bv8, v: bv8)
    ensures Hex(h) == Some(v) <==>
              && v < 16
              && h in (if v < 10 then [0x30 + v] else [0x41 + (v - 10), 0x61 + (v - 10)])
  {
  }

  /** A percent sign with two digits is the byte whose upper half the first of them is. */
  lemma TripleMeans(s: Bytes, i: nat, h: bv8, l: bv8)
    requires i + 3 <= |s| && s[i] == 0x25 && Hex(s[i + 1]) == Some(h) && Hex(s[i + 2]) == Some(l)
    ensures Triple(s, i) == Some(16 * h + l)
  {
    assert h << 4 == 16 * h;
  }

  /** In a URI letters, digits and `-`, `.`, `_` and `~` stand for themselves, everything else is percent-encoded. */
  lemma PlainMeans(c: bv8)
    ensures NeedPercentEncode(c) <==>
              c < 45 || c == 47 || 57 < c < 65 || 90 < c < 95 || c == 96 || 122 < c < 126 || c > 126
  {
  }

  /** A byte that is neither a tilde nor a percent sign is itself, unless the URI form would encode it. */
  lemma ByteMeans(s: Bytes, i: nat, uri: bool)
    requires i < |s| && s[i] != 0x7E && (uri ==> s[i] != 0x25)
    ensures UnitAt(s, i, uri) == if uri && NeedPercentEncode(s[i]) then Bad(CharacterMustPercentEncode, i)
                                 else Ok(Unit([s[i]], i + 1))
  {
  }

  /** In the URI form a percent sign without a sequence is refused. */
  lemma PercentMeans(s: Bytes, i: nat)
    requires i < |s| && s[i] == 0x25 && PercentSequence(s, i).None?
    ensures UnitAt(s, i, true) == Bad(InvalidPercentEncoding, i)
  {
  }

  /** An index: a zero, or digits that a zero does not lead. */
  lemma NumericMeans(name: Bytes)
    ensures Numeric(name) <==>
              || name == [0x30]
              || (name != [] && 0x31 <= name[0] <= 0x39 && forall k :: 1 <= k < |name| ==> 0x30 <= name[k] <= 0x39)
  {
  }

  /** The first character: a number sign for the URI form, a solidus for each name. */
  lemma StartMeans(c: bv8)
    ensures ParsedNames([]) == Ok([])
    ensures ParsedNames([c]) ==
              if c == 0x23 then Ok([]) else if c == 0x2F then Ok([[]]) else Bad(TokenMustBeginWithSolidus, 0)
    ensures ParsedNames([0x23, c]) == if c == 0x2F then Ok([[]]) else Bad(TokenMustBeginWithSolidus, 1)
  {
    LastSolidus([c], 0, false);
    LastSolidus([0x23, c], 1, true);
  }

  lemma LastSolidus(s: Bytes, i: nat, uri: bool)
    requires |s| == i + 1
    ensures s[i] == 0x2F ==> NamesAt(s, i, uri) == Ok([[]])
    ensures NamesAt(s, i + 1, uri) == Ok([])
  {
    var none: Bytes := [];
    assert NameAt(s, i + 1, uri) == Ok(Unit(none, i + 1));
    assert NamesAt(s, i + 1, uri) == Ok([]) && [none] + [] == [none];
  }

  // Printing.

  function Escape(c: bv8): Bytes {
    if c == TILDE then [TILDE, ZERO] else if c == SOLIDUS then [TILDE, ONE] else [c]
  }

  function PrintName(name: Bytes): Bytes {
    if name == [] then [] else Escape(name[0]) + PrintName(name[1..])
  }

  function PrintNames(names: seq<Bytes>): Bytes {
    if names == [] then [] else [SOLIDUS] + PrintName(names[0]) + PrintNames(names[1..])
  }

  function Print(tokens: seq<Token>): Bytes {
    PrintNames(NamesOf(tokens))
  }

  function HexDigit(d: bv8): bv8 { if d <= 9 then d + 0x30 else d - 10 + 0x41 }

  function PercentEncode(b: bv8): (r: Bytes)
    ensures |r| == 3 && r[0] == PERCENT
  {
    [PERCENT, HexDigit(b >> 4), HexDigit(b & 15)]
  }

  function PercentEncodeAll(s: Bytes): Bytes {
    if s == [] then [] else PercentEncode(s[0]) + PercentEncodeAll(s[1..])
  }

  /** What the URI printer takes from a name at `j`, and prints for it; a name ends with a zero. */
  function UriUnit(name: Bytes, j: nat): (r: Option<(Bytes, Bytes)>)
    requires j < |name|
    ensures r.Some? ==> r.value.0 != []
  {
    var c := name[j];
    if c == TILDE || c == SOLIDUS || !NeedPercentEncode(c) then Some(([c], Escape(c)))
    else
      match Sequence(name, j)
      case None => None
      case Some(t) => Some((t, PercentEncodeAll(t)))
  }

  /** The URI form of a name from `j`; none when a sequence in it is malformed. */
  function PrintUriName(name: Bytes, j: nat): Option<Bytes>
    decreases |name| - j
  {
    if j >= |name| then Some([])
    else
      match UriUnit(name, j)
      case None => None
      case Some(u) =>
        match PrintUriName(name, j + |u.0|)
        case None => None
        case Some(rest) => Some(u.1 + rest)
  }

  function PrintUriNames(names: seq<Bytes>): Option<Bytes> {
    if names == [] then Some([])
    else
      match (PrintUriName(names[0], 0), PrintUriNames(names[1..]))
      case (Some(first), Some(rest)) => Some([SOLIDUS] + first + rest)
      case _ => None
  }

  function PrintUri(tokens: seq<Token>): Option<Bytes> {
    match PrintUriNames(NamesOf(tokens))
    case None => None
    case Some(text) => Some([HASH] + text)
  }

  // The string form: printing undoes parsing and parsing undoes printing.

  ghost predicate Indexed(tokens: seq<Token>) {
    forall k :: 0 <= k < |tokens| ==> tokens[k] == TokenOf(tokens[k].name)
  }

  /** `text` stands in `s` at `i`. */
  predicate Stands(s: Bytes, i: nat, text: Bytes)
    decreases |text|
  {
    if text == [] then i <= |s| else i < |s| && s[i] == text[0] && Stands(s, i + 1, text[1..])
  }

  lemma {:induction false} StandsSplit(s: Bytes, i: nat, a: Bytes, b: Bytes)
    requires Stands(s, i, a + b)
    ensures Stands(s, i, a) && Stands(s, i + |a|, b) && i + |a| <= |s|
    decreases |a|
  {
    if a == [] {
      assert a + b == b;
      StandsInside(s, i, b);
    } else {
      assert (a + b)[1..] == a[1..] + b;
      StandsSplit(s, i + 1, a[1..], b);
    }
  }

  lemma {:induction false} StandsInside(s: Bytes, i: nat, text: Bytes)
    requires Stands(s, i, text)
    ensures i + |text| <= |s|
    decreases |text|
  {
    if text != [] {
      StandsInside(s, i + 1, text[1..]);
    }
  }

  lemma {:induction false} StandsWhole(s: Bytes, i: nat)
    requires i <= |s|
    ensures Stands(s, i, s[i..])
    decreases |s| - i
  {
    if i < |s| {
      assert s[i..][1..] == s[i + 1..];
      StandsWhole(s, i + 1);
    }
  }

  lemma {:induction false} SolidusSplit(s: Bytes, i: nat, printed: Bytes, tail: Bytes)
    requires Stands(s, i, [SOLIDUS] + printed + tail)
    ensures i < |s| && s[i] == SOLIDUS && Stands(s, i + 1, printed) && Stands(s, i + 1 + |printed|, tail)
  {
    StandsSplit(s, i, [SOLIDUS] + printed, tail);
    StandsSplit(s, i, [SOLIDUS], printed);
  }

  /** A name ends at the end of the text, or where the next begins. */
  predicate Ends(s: Bytes, i: nat) {
    i == |s| || (i < |s| && s[i] == SOLIDUS)
  }

  lemma {:induction false} NameNext(s: Bytes, i: nat, uri: bool, u: Unit, rest: Unit)
    requires i < |s| && s[i] != SOLIDUS && UnitAt(s, i, uri) == Ok(u) && NameAt(s, u.next, uri) == Ok(rest)
    ensures NameAt(s, i, uri) == Ok(Unit(u.bytes + rest.bytes, rest.next))
  {
  }

  lemma {:induction false} UnitOfEscape(s: Bytes, i: nat, c: bv8)
    requires Stands(s, i, Escape(c))
    ensures i < |s| && s[i] != SOLIDUS && UnitAt(s, i, false) == Ok(Unit([c], i + |Escape(c)|))
  {
  }

  lemma {:induction false} NameOfPrint(s: Bytes, i: nat, name: Bytes)
    requires Stands(s, i, PrintName(name)) && Ends(s, i + |PrintName(name)|)
    ensures NameAt(s, i, false) == Ok(Unit(name, i + |PrintName(name)|))
    decreases |name|
  {
    if name != [] {
      var c, rest := name[0], name[1..];
      var next := i + |Escape(c)|;
      StandsSplit(s, i, Escape(c), PrintName(rest));
      UnitOfEscape(s, i, c);
      NameOfPrint(s, next, rest);
      NameNext(s, i, false, Unit([c], next), Unit(rest, next + |PrintName(rest)|));
      assert [c] + rest == name;
    }
  }

  lemma {:induction false} NamesNext(s: Bytes, i: nat, uri: bool, u: Unit, rest: seq<Bytes>)
    requires i < |s| && s[i] == SOLIDUS
    requires NameAt(s, i + 1, uri) == Ok(u) && NamesAt(s, u.next, uri) == Ok(rest)
    ensures NamesAt(s, i, uri) == Ok([u.bytes] + rest)
  {
  }

  lemma {:induction false} NamesOfPrint(s: Bytes, i: nat, names: seq<Bytes>)
    requires Stands(s, i, PrintNames(names)) && i + |PrintNames(names)| == |s|
    ensures Ends(s, i) && NamesAt(s, i, false) == Ok(names)
    decreases |names|
  {
    if names != [] {
      var name, rest := names[0], names[1..];
      var next := i + 1 + |PrintName(name)|;
      SolidusSplit(s, i, PrintName(name), PrintNames(rest));
      NamesOfPrint(s, next, rest);
      NameOfPrint(s, i + 1, name);
      NamesNext(s, i, false, Unit(name, next), rest);
      assert [name] + rest == names;
    }
  }

  lemma TokensOfNames(tokens: seq<Token>)
    requires Indexed(tokens)
    ensures TokensOf(NamesOf(tokens)) == tokens
  {
  }

  /** Parsing the printed form of a pointer gives the pointer back. */
  lemma ParsePrint(tokens: seq<Token>)
    requires Indexed(tokens)
    ensures Parsed(Print(tokens)) == Ok(tokens)
  {
    var s := Print(tokens);
    StandsWhole(s, 0);
    assert s[0..] == s;
    NamesOfPrint(s, 0, NamesOf(tokens));
    TokensOfNames(tokens);
  }

  lemma PrintOfUnit(s: Bytes, i: nat)
    requires i < |s| && s[i] != SOLIDUS && UnitAt(s, i, false).Ok?
    ensures var u := UnitAt(s, i, false).value; PrintName(u.bytes) == s[i..u.next]
  {
  }

  lemma {:induction false} PrintNameConcat(a: Bytes, b: Bytes)
    ensures PrintName(a + b) == PrintName(a) + PrintName(b)
    decreases |a|
  {
    if a == [] {
      assert a + b == b;
    } else {
      assert (a + b)[1..] == a[1..] + b;
      PrintNameConcat(a[1..], b);
    }
  }

  lemma {:induction false} PrintOfName(s: Bytes, i: nat)
    requires i <= |s| && NameAt(s, i, false).Ok?
    ensures var u := NameAt(s, i, false).value; PrintName(u.bytes) == s[i..u.next]
    decreases |s| - i
  {
    if i < |s| && s[i] != SOLIDUS {
      var u := UnitAt(s, i, false).value;
      PrintOfUnit(s, i);
      PrintOfName(s, u.next);
      PrintTurn(s, i, u, NameAt(s, u.next, false).value);
    }
  }

  lemma PrintTurn(s: Bytes, i: nat, u: Unit, rest: Unit)
    requires i <= u.next <= rest.next <= |s|
    requires PrintName(u.bytes) == s[i..u.next] && PrintName(rest.bytes) == s[u.next..rest.next]
    ensures PrintName(u.bytes + rest.bytes) == s[i..rest.next]
  {
    PrintNameConcat(u.bytes, rest.bytes);
  }

  lemma Sliced(s: Bytes, i: nat, m: nat)
    requires i < m <= |s|
    ensures s[i..] == [s[i]] + s[i + 1..m] + s[m..]
  {
  }

  lemma {:induction false} PrintNext(name: Bytes, rest: seq<Bytes>)
    ensures PrintNames([name] + rest) == [SOLIDUS] + PrintName(name) + PrintNames(rest)
  {
  }

  lemma {:induction false} PrintOfNames(s: Bytes, i: nat)
    requires i <= |s| && (i < |s| ==> s[i] == SOLIDUS) && NamesAt(s, i, false).Ok?
    ensures PrintNames(NamesAt(s, i, false).value) == s[i..]
    decreases |s| - i
  {
    if i < |s| {
      var u := NameAt(s, i + 1, false).value;
      var rest := NamesAt(s, u.next, false).value;
      PrintOfName(s, i + 1);
      PrintOfNames(s, u.next);
      PrintNext(u.bytes, rest);
      Sliced(s, i, u.next);
    }
  }

  /** Printing what an accepted string parses to gives the string back. */
  lemma PrintParse(s: Bytes)
    requires !IsUri(s) && Parsed(s).Ok?
    ensures Print(Parsed(s).value) == s
  {
    var names := ParsedNames(s).value;
    PrintOfNames(s, 0);
    assert s[0..] == s;
    assert NamesOf(TokensOf(names)) == names;
  }

  /** Every parsed pointer has the indices of its names. */
  lemma ParsedIndexed(s: Bytes)
    requires Parsed(s).Ok?
    ensures Indexed(Parsed(s).value)
  {
  }

  // The URI form.

  lemma HexOfDigit(d: bv8)
    requires d <= 15
    ensures Hex(HexDigit(d)) == Some(d)
  {
  }

  lemma Nibbles(b: bv8)
    ensures b >> 4 <= 15 && b & 15 <= 15 && ((b >> 4) << 4) + (b & 15) == b
  {
  }

  lemma {:induction false} TripleOfEncode(s: Bytes, i: nat, b: bv8)
    requires Stands(s, i, PercentEncode(b))
    ensures Triple(s, i) == Some(b)
  {
    var t := PercentEncode(b);
    assert Stands(s, i + 1, t[1..]) && Stands(s, i + 2, t[1..][1..]);
    Nibbles(b);
    HexOfDigit(b >> 4);
    HexOfDigit(b & 15);
  }

  lemma {:induction false} PercentEncodeLength(t: Bytes)
    ensures |PercentEncodeAll(t)| == 3 * |t|
    ensures t != [] ==> PercentEncodeAll(t)[0] == PERCENT
  {
    if t != [] {
      PercentEncodeLength(t[1..]);
    }
  }

  lemma {:induction false} TriplesOfEncode(s: Bytes, i: nat, t: Bytes)
    requires Stands(s, i, PercentEncodeAll(t))
    ensures Triples(s, i, |t|) == Some(t)
    decreases |t|
  {
    if t != [] {
      StandsSplit(s, i, PercentEncode(t[0]), PercentEncodeAll(t[1..]));
      TripleOfEncode(s, i, t[0]);
      TriplesOfEncode(s, i + 3, t[1..]);
      assert [t[0]] + t[1..] == t;
    }
  }

  /** A sequence's percent-encoding is read as that sequence. */
  lemma {:induction false} UnitOfSequence(s: Bytes, i: nat, t: Bytes)
    requires WellFormed(t) && t != [TILDE] && Stands(s, i, PercentEncodeAll(t))
    ensures i < |s| && s[i] != SOLIDUS && UnitAt(s, i, true) == Ok(Unit(t, i + 3 * |t|))
  {
    PercentEncodeLength(t);
    TriplesOfEncode(s, i, t);
    assert Triple(s, i) == Some(t[0]);
    assert PercentSequence(s, i) == Some(t);
    if |t| == 1 {
      assert t == [t[0]];
    }
  }

  lemma UriUnitInside(name: Bytes, j: nat)
    requires j < |name| && UriUnit(name, j).Some?
    ensures var t := UriUnit(name, j).value.0; j + |t| <= |name| && t + name[j + |t|..] == name[j..]
  {
    if Sequence(name, j).Some? {
      SequenceInside(name, j);
    }
  }

  lemma {:induction false} UnitOfUriUnit(s: Bytes, i: nat, name: Bytes, j: nat)
    requires j < |name| && UriUnit(name, j).Some? && Stands(s, i, UriUnit(name, j).value.1)
    ensures var (t, printed) := UriUnit(name, j).value;
            i < |s| && s[i] != SOLIDUS && UnitAt(s, i, true) == Ok(Unit(t, i + |printed|))
  {
    var c := name[j];
    var (t, printed) := UriUnit(name, j).value;
    if c == TILDE || c == SOLIDUS || !NeedPercentEncode(c) {
      UnitOfEscape(s, i, c);
    } else {
      assert t[0] == c;
      PercentEncodeLength(t);
      UnitOfSequence(s, i, t);
    }
  }

  /** The printed units of a name from `j` stand in the text from `i` to `end`. */
  predicate UriStands(s: Bytes, i: nat, name: Bytes, j: nat, end: nat)
    requires j <= |name|
    decreases |name| - j
  {
    if j == |name| then i == end <= |s|
    else
      match UriUnit(name, j)
      case None => false
      case Some(u) =>
        && j + |u.0| <= |name| && Stands(s, i, u.1)
        && UriStands(s, i + |u.1|, name, j + |u.0|, end)
  }

  lemma {:induction false} UriStandsOfPrint(s: Bytes, i: nat, name: Bytes, j: nat, text: Bytes)
    requires j <= |name| && PrintUriName(name, j) == Some(text) && Stands(s, i, text)
    ensures UriStands(s, i, name, j, i + |text|)
    decreases |name| - j
  {
    if j < |name| {
      var u := UriUnit(name, j).value;
      var rest := PrintUriName(name, j + |u.0|).value;
      UriUnitInside(name, j);
      StandsSplit(s, i, u.1, rest);
      UriStandsOfPrint(s, i + |u.1|, name, j + |u.0|, rest);
    }
  }

  lemma NameAfterUnit(s: Bytes, i: nat, name: Bytes, j: nat, u: (Bytes, Bytes), end: nat)
    requires j < |name| && UriUnit(name, j) == Some(u) && j + |u.0| <= |name|
    requires Stands(s, i, u.1) && i + |u.1| <= |s|
    requires NameAt(s, i + |u.1|, true) == Ok(Unit(name[j + |u.0|..], end))
    ensures NameAt(s, i, true) == Ok(Unit(name[j..], end))
  {
    UriUnitInside(name, j);
    UnitOfUriUnit(s, i, name, j);
    NameAround(s, i, Unit(u.0, i + |u.1|), name[j + |u.0|..], end, name[j..]);
  }

  lemma {:induction false} NameAround(s: Bytes, i: nat, u: Unit, rest: Bytes, end: nat, bytes: Bytes)
    requires i < |s| && s[i] != SOLIDUS && UnitAt(s, i, true) == Ok(u) && u.bytes + rest == bytes
    requires u.next <= |s| && NameAt(s, u.next, true) == Ok(Unit(rest, end))
    ensures NameAt(s, i, true) == Ok(Unit(bytes, end))
  {
    NameNext(s, i, true, u, Unit(rest, end));
  }

  lemma {:induction false} NameOfUri(s: Bytes, i: nat, name: Bytes, j: nat, end: nat)
    requires j <= |name| && i <= |s| && UriStands(s, i, name, j, end) && Ends(s, end)
    ensures NameAt(s, i, true) == Ok(Unit(name[j..], end))
    decreases |name| - j
  {
    if j < |name| {
      var u := UriUnit(name, j).value;
      NameOfUri(s, i + |u.1|, name, j + |u.0|, end);
      NameAfterUnit(s, i, name, j, u, end);
    } else {
      assert name[j..] == [];
    }
  }

  lemma {:induction false} NameOfPrintUri(s: Bytes, i: nat, name: Bytes, text: Bytes)
    requires PrintUriName(name, 0) == Some(text) && i <= |s| && Stands(s, i, text) && Ends(s, i + |text|)
    ensures NameAt(s, i, true) == Ok(Unit(name, i + |text|))
  {
    UriStandsOfPrint(s, i, name, 0, text);
    NameOfUri(s, i, name, 0, i + |text|);
    assert name[0..] == name;
  }

  lemma {:induction false} NamesOfPrintUri(s: Bytes, i: nat, names: seq<Bytes>)
    requires PrintUriNames(names).Some?
    requires Stands(s, i, PrintUriNames(names).value) && i + |PrintUriNames(names).value| == |s|
    ensures Ends(s, i) && NamesAt(s, i, true) == Ok(names)
    decreases |names|
  {
    if names != [] {
      var name, rest := names[0], names[1..];
      var first, tail := PrintUriName(name, 0).value, PrintUriNames(rest).value;
      var next := i + 1 + |first|;
      SolidusSplit(s, i, first, tail);
      NamesOfPrintUri(s, next, rest);
      NameOfPrintUri(s, i + 1, name, first);
      NamesNext(s, i, true, Unit(name, next), rest);
      assert [name] + rest == names;
    }
  }

  /** Parsing the URI form of a pointer gives the pointer back. */
  lemma ParsePrintUri(tokens: seq<Token>)
    requires Indexed(tokens) && PrintUri(tokens).Some?
    ensures Parsed(PrintUri(tokens).value) == Ok(tokens)
  {
    var s := PrintUri(tokens).value;
    StandsWhole(s, 1);
    assert s[1..] == PrintUriNames(NamesOf(tokens)).value;
    NamesOfPrintUri(s, 1, NamesOf(tokens));
    TokensOfNames(tokens);
  }

  lemma {:induction false} PrintUriNameUtf8(name: Bytes, j: nat)
    requires j <= |name|
    ensures PrintUriName(name, j).Some? <==> DecodeAll(name, j).Some?
    decreases |name| - j
  {
    if j < |name| {
      var c := name[j];
      if c == TILDE || c == SOLIDUS || !NeedPercentEncode(c) {
        Ascii(name, j);
      }
      if UriUnit(name, j).Some? {
        UriUnitInside(name, j);
        PrintUriNameUtf8(name, j + |UriUnit(name, j).value.0|);
      }
    }
  }

  lemma {:induction false} PrintUriNamesUtf8(names: seq<Bytes>)
    ensures PrintUriNames(names).Some? <==> forall k :: 0 <= k < |names| ==> DecodeAll(names[k], 0).Some?
  {
    if names != [] {
      PrintUriNameUtf8(names[0], 0);
      PrintUriNamesUtf8(names[1..]);
      assert forall k :: 1 <= k < |names| ==> names[k] == names[1..][k - 1];
    }
  }

  /** The URI form exists exactly when every name is UTF-8. */
  lemma PrintUriUtf8(tokens: seq<Token>)
    ensures PrintUri(tokens).Some? <==> forall k :: 0 <= k < |tokens| ==> DecodeAll(tokens[k].name, 0).Some?
  {
    PrintUriNamesUtf8(NamesOf(tokens));
    assert forall k :: 0 <= k < |tokens| ==> NamesOf(tokens)[k] == tokens[k].name;
  }

  // Indices.

  /** While it fits 32 bits, the accumulator holds the number; once it has wrapped it never holds it again. */
  lemma {:induction false} AccumulatedIs(name: Bytes)
    requires AllDigits(name)
    ensures Denoted(name) < JsonEvents.TWO_32 ==> Accumulated(name) == Some(Denoted(name))
  {
    if name != [] {
      var front, d := name[..|name| - 1], DigitValue(name[|name| - 1]);
      AccumulatedIs(front);
      assert Denoted(name) == Denoted(front) * 10 + d;
      Unwrapped(Denoted(front), d);
    }
  }

  lemma Unwrapped(n: nat, d: nat)
    ensures n * 10 + d < JsonEvents.TWO_32 ==> (n * 10 + d) % JsonEvents.TWO_32 == n * 10 + d >= n
  {
  }

  /** The index is the number exactly when that fits 32 bits; no other token than a numeral has an index. */
  lemma {:induction false} IndexExact(name: Bytes)
    ensures Numeric(name) ==> (IndexOf(name) == Denoted(name) <==> Denoted(name) < JsonEvents.TWO_32)
    ensures !Numeric(name) ==> IndexOf(name) == INVALID_INDEX
  {
    if Numeric(name) {
      AccumulatedIs(name);
    }
  }

  /** Of the prefixes of a numeral, modulo 2^32, none is smaller than the one before it. */
  predicate Climbs(name: Bytes)
    requires AllDigits(name)
  {
    name == []
    || (Climbs(name[..|name| - 1])
        && Denoted(name[..|name| - 1]) % JsonEvents.TWO_32 <= Denoted(name) % JsonEvents.TWO_32)
  }

  /** The wrap test passes exactly the numerals whose prefixes climb, and then the index is the number modulo 2^32. */
  lemma {:induction false} WrappedIndex(name: Bytes)
    requires Numeric(name)
    ensures IndexOf(name) == if Climbs(name) then Denoted(name) % JsonEvents.TWO_32 else INVALID_INDEX
  {
    AccumulatedClimbs(name);
  }

  lemma {:induction false} AccumulatedClimbs(name: Bytes)
    requires AllDigits(name)
    ensures Accumulated(name) == if Climbs(name) then Some(Denoted(name) % JsonEvents.TWO_32) else None
  {
    if name != [] {
      var front, d := name[..|name| - 1], DigitValue(name[|name| - 1]);
      AccumulatedClimbs(front);
      WrapNext(Denoted(front), d);
    }
  }

  lemma WrapNext(n: nat, d: nat)
    ensures (n % JsonEvents.TWO_32 * 10 + d) % JsonEvents.TWO_32 == (n * 10 + d) % JsonEvents.TWO_32
  {
    var q, r := n / JsonEvents.TWO_32, n % JsonEvents.TWO_32;
    assert n * 10 + d == 10 * q * JsonEvents.TWO_32 + (r * 10 + d);
    Cycle(r * 10 + d, 10 * q);
  }

  lemma Cycle(r: nat, q: nat)
    ensures (q * JsonEvents.TWO_32 + r) % JsonEvents.TWO_32 == r % JsonEvents.TWO_32
    decreases q
  {
    if q > 0 {
      Cycle(r + JsonEvents.TWO_32, q - 1);
      assert (r + JsonEvents.TWO_32) % JsonEvents.TWO_32 == r % JsonEvents.TWO_32;
    }
  }

  /** A five and zeros. */
  function FiveZeros(k: nat): (name: Bytes)
    ensures name != [] && name[0] == 0x35 && AllDigits(name)
  {
    if k == 0 then [0x35] else FiveZeros(k - 1) + [ZERO]
  }

  lemma {:induction false} ZeroDenotes(name: Bytes)
    requires AllDigits(name)
    ensures AllDigits(name + [ZERO]) && Denoted(name + [ZERO]) == Denoted(name) * 10
  {
  }

  function FiveTimes(k: nat): nat {
    if k == 0 then 5 else FiveTimes(k - 1) * 10
  }

  lemma {:induction false} FiveZerosDenote(k: nat)
    ensures Denoted(FiveZeros(k)) == FiveTimes(k)
  {
    if k == 0 {
      assert FiveZeros(0)[..0] == [];
    } else {
      FiveZerosDenote(k - 1);
      ZeroDenotes(FiveZeros(k - 1));
    }
  }

  /** The wrap-around test notices some numbers that do not fit, but not all: 5000000000 gets an index. */
  lemma OverflowUnnoticed()
    ensures Numeric(FiveZeros(9)) && Denoted(FiveZeros(9)) == 5000000000 && IndexOf(FiveZeros(9)) == 705032704
  {
    FiveZerosDenote(8);
    FiveZerosDenote(9);
    assert FiveTimes(3) == 5000;
    assert FiveTimes(6) == 5000000;
    assert FiveTimes(8) == 500000000;
    AccumulatedIs(FiveZeros(8));
    assert FiveZeros(9)[..|FiveZeros(9)| - 1] == FiveZeros(8);
  }

  // The parser. It reads percent-encoded bytes through a stream that goes on, with zeros, after a bad one.

  datatype Take = Take(byte: bv8, next: nat, valid: bool)

  function TakeAt(s: Bytes, i: nat): Take {
    if At(s, i) != PERCENT || i + 3 > |s| then Take(0, i, false)
    else
      match Hex(s[i + 1])
      case None => Take(0, i + 1, false)
      case Some(h) =>
        match Hex(s[i + 2])
        case None => Take(0, i + 2, false)
        case Some(l) => Take((h << 4) + l, i + 3, true)
  }

  function Takes(s: Bytes, i: nat, n: nat): (r: seq<Take>)
    ensures |r| == n
    decreases n
  {
    if n == 0 then [] else [TakeAt(s, i)] + Takes(s, TakeAt(s, i).next, n - 1)
  }

  function BytesOf(takes: seq<Take>): (r: Bytes)
    ensures |r| == |takes|
  {
    seq(|takes|, k requires 0 <= k < |takes| => takes[k].byte)
  }

  predicate AllValid(takes: seq<Take>) {
    forall k :: 0 <= k < |takes| ==> takes[k].valid
  }

  lemma TakeIsTriple(s: Bytes, i: nat)
    ensures TakeAt(s, i).valid <==> Triple(s, i).Some?
    ensures TakeAt(s, i).valid ==> Triple(s, i) == Some(TakeAt(s, i).byte) && TakeAt(s, i).next == i + 3
    ensures !TakeAt(s, i).valid ==> TakeAt(s, i).byte == 0
  {
  }

  lemma AllValidCons(first: Take, rest: seq<Take>)
    ensures AllValid([first] + rest) <==> first.valid && AllValid(rest)
  {
    var all := [first] + rest;
    assert all[0] == first;
    if AllValid(all) {
      forall k | 0 <= k < |rest| ensures rest[k].valid {
        assert all[k + 1] == rest[k];
      }
    }
  }

  lemma {:induction false} TakesAreTriples(s: Bytes, i: nat, n: nat)
    ensures AllValid(Takes(s, i, n)) <==> Triples(s, i, n).Some?
    ensures AllValid(Takes(s, i, n)) ==> Triples(s, i, n) == Some(BytesOf(Takes(s, i, n)))
    ensures AllValid(Takes(s, i, n)) && n > 0 ==> Takes(s, i, n)[n - 1].next == i + 3 * n
    decreases n
  {
    if n > 0 {
      var first := TakeAt(s, i);
      var rest := Takes(s, first.next, n - 1);
      TakeIsTriple(s, i);
      TakesAreTriples(s, first.next, n - 1);
      AllValidCons(first, rest);
      assert BytesOf([first] + rest) == [first.byte] + BytesOf(rest);
    }
  }

  lemma {:induction false} FewerTakes(s: Bytes, i: nat, m: nat, n: nat)
    requires m <= n
    ensures Takes(s, i, n)[..m] == Takes(s, i, m)
    decreases m
  {
    if m > 0 {
      FewerTakes(s, TakeAt(s, i).next, m - 1, n - 1);
    }
  }

  /** Validating four takes, and asking whether those it consumed were valid, finds the sequence. */
  lemma {:induction false} PercentIs(s: Bytes, i: nat, takes: seq<Take>, n: nat)
    requires takes == Takes(s, i, 4) && n <= 4
    requires Sequence(BytesOf(takes), 0).Some? ==> n == |Sequence(BytesOf(takes), 0).value|
    ensures PercentSequence(s, i).Some? <==> Sequence(BytesOf(takes), 0).Some? && AllValid(takes[..n])
    ensures PercentSequence(s, i).Some? ==>
              PercentSequence(s, i) == Sequence(BytesOf(takes), 0) && n > 0 && takes[n - 1].next == i + 3 * n
  {
    var b := takes[0].byte;
    TakeIsTriple(s, i);
    assert takes[0] == TakeAt(s, i) && At(BytesOf(takes), 0) == b;
    if takes[0].valid {
      var m := Length(b);
      FewerTakes(s, i, m, 4);
      TakesAreTriples(s, i, m);
      assert Taken(BytesOf(takes), 0, m) == BytesOf(takes[..m]);
      assert m > 0 ==> takes[..m][m - 1] == takes[m - 1];
    } else {
      assert n > 0 ==> !takes[..n][0].valid;
      Ascii(BytesOf(takes), 0);
    }
  }

  /** After a bad triple only one byte is decoded, so no more is written than the text has room for. */
  lemma {:induction false} FirstTake(s: Bytes, i: nat, takes: seq<Take>, n: nat)
    requires takes == Takes(s, i, 4)
    requires Sequence(BytesOf(takes), 0).Some? ==> n == |Sequence(BytesOf(takes), 0).value|
    ensures i + 3 <= |s| || n == 1
  {
  }

  function NextOf(r: Result<Unit>): Result<nat> {
    match r
    case Bad(code, at) => Bad(code, at)
    case Ok(u) => Ok(u.next)
  }

  // The number of tokens.

  /** The solidi of a text from `i`. */
  function Solidi(s: Bytes, i: nat): nat
    requires i <= |s|
    decreases |s| - i
  {
    if i == |s| then 0 else (if s[i] == SOLIDUS then 1 else 0) + Solidi(s, i + 1)
  }

  lemma TripleSolidi(s: Bytes, i: nat)
    requires Triple(s, i).Some?
    ensures i + 3 <= |s| && Solidi(s, i) == Solidi(s, i + 3)
  {
    assert Solidi(s, i + 1) == Solidi(s, i + 2);
    assert Solidi(s, i + 2) == Solidi(s, i + 3);
  }

  lemma {:induction false} TriplesSolidi(s: Bytes, i: nat, n: nat)
    requires Triples(s, i, n).Some? && i + 3 * n <= |s|
    ensures Solidi(s, i) == Solidi(s, i + 3 * n)
    decreases n
  {
    if n > 0 {
      TripleSolidi(s, i);
      TriplesSolidi(s, i + 3, n - 1);
    }
  }

  lemma {:induction false} UnescapedSolidi(s: Bytes, c: bv8, i: nat)
    requires i <= |s| && Unescaped(s, c, i).Ok?
    ensures Solidi(s, i) == Solidi(s, Unescaped(s, c, i).value.next)
  {
  }

  lemma {:induction false} UnitSolidi(s: Bytes, i: nat, uri: bool)
    requires i < |s| && s[i] != SOLIDUS && UnitAt(s, i, uri).Ok?
    ensures Solidi(s, i) == Solidi(s, UnitAt(s, i, uri).value.next)
  {
    if uri && s[i] == PERCENT {
      var t := PercentSequence(s, i).value;
      TriplesSolidi(s, i, |t|);
      if |t| == 1 {
        UnescapedSolidi(s, t[0], i + 3);
      }
    } else {
      UnescapedSolidi(s, s[i], i + 1);
    }
  }

  /** A name has no solidus in the text. */
  lemma {:induction false} NameSolidi(s: Bytes, i: nat, uri: bool)
    requires i <= |s| && NameAt(s, i, uri).Ok?
    ensures Solidi(s, i) == Solidi(s, NameAt(s, i, uri).value.next)
    decreases |s| - i
  {
    if i < |s| && s[i] != SOLIDUS {
      UnitSolidi(s, i, uri);
      NameSolidi(s, UnitAt(s, i, uri).value.next, uri);
    }
  }

  /** A token as the parser keeps it: where its name stands in the buffer, and its index. */
  datatype Slot = Slot(start: nat, length: nat, index: JsonEvents.Uint32)

  /** The slot is the name's, in a buffer that starts with `text`. */
  predicate InText(t: Slot, name: Bytes, text: Bytes) {
    && t.length == |name| && t.start + t.length < |text|
    && text[t.start..t.start + t.length] == name && text[t.start + t.length] == 0
    && t.index == IndexOf(name)
  }

  lemma InLongerText(t: Slot, name: Bytes, text: Bytes, longer: Bytes)
    requires InText(t, name, text) && text <= longer
    ensures InText(t, name, longer)
  {
  }

  /** Text before what is printed next. */
  function With(before: Bytes, next: Option<Bytes>): Option<Bytes> {
    match next
    case None => None
    case Some(text) => Some(before + text)
  }

  lemma WithNone(next: Option<Bytes>)
    ensures With([], next) == next
  {
    assert next.Some? ==> [] + next.value == next.value;
  }

  lemma WithTwice(a: Bytes, b: Bytes, next: Option<Bytes>)
    ensures With(a, With(b, next)) == With(a + b, next)
  {
    assert next.Some? ==> a + (b + next.value) == a + b + next.value;
  }

  lemma NotDigits(t: Bytes)
    requires WellFormed(t) && |t| > 1
    ensures !AllDigits(t)
  {
  }

  lemma Glued(was: Bytes, now: Bytes, name: nat, end: nat, count: nat)
    requires name <= end <= end + count <= |now| == |was| && now[..end] == was[..end]
    ensures now[..name] == was[..name] && now[name..end + count] == was[name..end] + now[end..end + count]
  {
  }

  function Joined(done: Bytes, r: Result<Unit>): Result<Unit> {
    match r
    case Bad(code, at) => r
    case Ok(u) => Ok(Unit(done + u.bytes, u.next))
  }

  lemma JoinedNone(r: Result<Unit>)
    ensures Joined([], r) == r
  {
    assert r.Ok? ==> [] + r.value.bytes == r.value.bytes;
  }

  lemma JoinedTwice(done: Bytes, bytes: Bytes, r: Result<Unit>)
    ensures Joined(done, Joined(bytes, r)) == Joined(done + bytes, r)
  {
    assert r.Ok? ==> done + (bytes + r.value.bytes) == done + bytes + r.value.bytes;
  }

  function NamesJoined(done: seq<Bytes>, r: Result<seq<Bytes>>): Result<seq<Bytes>> {
    match r
    case Bad(code, at) => r
    case Ok(names) => Ok(done + names)
  }

  lemma NamesJoinedNone(r: Result<seq<Bytes>>)
    ensures NamesJoined([], r) == r
  {
    assert r.Ok? ==> [] + r.value == r.value;
  }

  lemma NamesJoinedTwice(done: seq<Bytes>, name: Bytes, r: Result<seq<Bytes>>)
    ensures NamesJoined(done, NamesJoined([name], r)) == NamesJoined(done + [name], r)
  {
    assert r.Ok? ==> done + ([name] + r.value) == done + [name] + r.value;
  }

  lemma PrintNamesTurn(done: Bytes, names: seq<Bytes>, k: nat)
    requires k < |names|
    ensures done + PrintNames(names[k..]) == done + ([SOLIDUS] + PrintName(names[k])) + PrintNames(names[k + 1..])
  {
  }

  lemma {:induction false} NamesTurn(s: Bytes, i: nat, uri: bool, names: seq<Bytes>)
    requires i < |s| && s[i] == SOLIDUS
    ensures match NameAt(s, i + 1, uri)
            case Bad(code, at) => NamesJoined(names, NamesAt(s, i, uri)) == Bad(code, at)
            case Ok(u) =>
              && NamesJoined(names, NamesAt(s, i, uri)) == NamesJoined(names + [u.bytes], NamesAt(s, u.next, uri))
              && Solidi(s, i) == 1 + Solidi(s, u.next)
  {
    match NameAt(s, i + 1, uri)
    case Bad(code, at) =>
    case Ok(u) =>
      NameSolidi(s, i + 1, uri);
      NamesJoinedTwice(names, u.bytes, NamesAt(s, u.next, uri));
  }

  lemma DigitsJoined(a: Bytes, b: Bytes)
    ensures AllDigits(a + b) <==> AllDigits(a) && AllDigits(b)
  {
    if AllDigits(a + b) {
      assert forall k :: 0 <= k < |a| ==> a[k] == (a + b)[k];
      assert forall k :: 0 <= k < |b| ==> b[k] == (a + b)[|a| + k];
    }
  }

  lemma {:induction false} OverflowStays(name: Bytes, j: nat)
    requires AllDigits(name) && j <= |name| && AllDigits(name[..j]) && Accumulated(name[..j]).None?
    ensures Accumulated(name).None?
    decreases |name|
  {
    if j < |name| {
      var front := name[..|name| - 1];
      assert front[..j] == name[..j];
      OverflowStays(front, j);
    } else {
      assert name[..j] == name;
    }
  }

  class Pointer {
    const nameBuffer: array<bv8>
    /** The tokens, and how many there is room for. */
    var slots: seq<Slot>
    var tokenCount: nat
    var error: Option<ErrorCode>
    var errorOffset: nat

    /** The names in the buffer below `end`, each with a zero after it. */
    ghost predicate Holds(names: seq<Bytes>, end: nat)
      reads this, nameBuffer
    {
      && |slots| == |names|
      && forall k :: 0 <= k < |slots| ==> HoldsAt(slots[k], names[k], end)
    }

    ghost predicate HoldsAt(t: Slot, name: Bytes, end: nat)
      reads nameBuffer
    {
      end <= nameBuffer.Length && InText(t, name, nameBuffer[..end])
    }

    /** What is held in the first bytes is held in all of them. */
    lemma HoldsInAll(names: seq<Bytes>, end: nat)
      requires Holds(names, end)
      ensures Holds(names, nameBuffer.Length)
    {
      forall k | 0 <= k < |slots| ensures HoldsAt(slots[k], names[k], nameBuffer.Length) {
        assert HoldsAt(slots[k], names[k], end);
      }
    }

    lemma HeldIs(t: Slot, name: Bytes, end: nat)
      requires HoldsAt(t, name, end)
      ensures t.length == |name| && t.start + t.length < nameBuffer.Length && t.index == IndexOf(name)
      ensures nameBuffer[t.start..t.start + t.length] == name && nameBuffer[t.start + t.length] == 0
    {
    }

    /** Writes bytes at a place in the buffer. */
    method Put(at: nat, bytes: Bytes)
      requires at + |bytes| <= nameBuffer.Length
      modifies nameBuffer
      ensures nameBuffer[..at] == old(nameBuffer[..at]) && nameBuffer[at..at + |bytes|] == bytes
    {
      for k := 0 to |bytes|
        invariant nameBuffer[..at] == old(nameBuffer[..at])
        invariant nameBuffer[at..at + k] == bytes[..k]
      {
        nameBuffer[at + k] := bytes[k];
      }
      assert bytes[..|bytes|] == bytes;
    }

    /** A percent sign: decodes into the buffer what may be a sequence. */
    method DecodePercent(source: Bytes, i: nat, name: nat) returns (r: Option<nat>)
      requires i < |source| == nameBuffer.Length && name < i
      modifies nameBuffer
      ensures nameBuffer[..name] == old(nameBuffer[..name])
      ensures r.Some? <==> PercentSequence(source, i).Some?
      ensures r.Some? ==>
                && name + r.value <= nameBuffer.Length && r.value == |PercentSequence(source, i).value|
                && nameBuffer[name..name + r.value] == PercentSequence(source, i).value
    {
      var takes := Takes(source, i, 4);
      var result, n, decoded := Validate(BytesOf(takes), 0, []);
      PercentIs(source, i, takes, n);
      FirstTake(source, i, takes, n);
      Put(name, decoded);
      r := if result && AllValid(takes[..n]) then Some(n) else None;
    }

    /** An escape, or the character itself, into the buffer. */
    method PutUnescaped(source: Bytes, c: bv8, i: nat, name: nat) returns (r: Result<nat>, digit: bool)
      requires i <= |source| == nameBuffer.Length && name < i
      modifies nameBuffer
      ensures nameBuffer[..name] == old(nameBuffer[..name])
      ensures r == NextOf(Unescaped(source, c, i))
      ensures r.Ok? ==> nameBuffer[name..name + 1] == Unescaped(source, c, i).value.bytes
      ensures r.Ok? ==> (digit <==> AllDigits(Unescaped(source, c, i).value.bytes))
    {
      digit := false;
      var d, next := c, i;
      if c == TILDE {
        if i >= |source| {
          return Bad(InvalidEscape, i), digit;
        }
        d := source[i];
        if d == ZERO {
          d := TILDE;
        } else if d == ONE {
          d := SOLIDUS;
        } else {
          return Bad(InvalidEscape, i), digit;
        }
        next := i + 1;
      }
      digit := IsDigit(d);
      nameBuffer[name] := d;
      assert nameBuffer[name..name + 1] == [d];
      r := Ok(next);
    }

    /** One unit of a name into the buffer. */
    method ReadUnit(source: Bytes, i: nat, uri: bool, name: nat) returns (r: Result<nat>, count: nat, digit: bool)
      requires i < |source| == nameBuffer.Length && name < i
      modifies nameBuffer
      ensures nameBuffer[..name] == old(nameBuffer[..name])
      ensures r == NextOf(UnitAt(source, i, uri))
      ensures r.Ok? ==>
                && count == |UnitAt(source, i, uri).value.bytes| && name + count < r.value <= nameBuffer.Length
                && nameBuffer[name..name + count] == UnitAt(source, i, uri).value.bytes
                && (digit <==> AllDigits(UnitAt(source, i, uri).value.bytes))
    {
      count, digit := 1, false;
      var c := source[i];
      if uri && c == PERCENT {
        var decoded := DecodePercent(source, i, name);
        if decoded.None? {
          return Bad(InvalidPercentEncoding, i), count, digit;
        }
        if decoded.value == 1 {
          c := nameBuffer[name];
          assert nameBuffer[name..name + 1] == [c];
          r, digit := PutUnescaped(source, c, i + 3, name);
        } else {
          count := decoded.value;
          NotDigits(PercentSequence(source, i).value);
          r := Ok(i + 3 * count);
        }
      } else if uri && NeedPercentEncode(c) {
        r := Bad(CharacterMustPercentEncode, i);
      } else {
        r, digit := PutUnescaped(source, c, i + 1, name);
      }
    }

    /** One unit more, the name read so far being `done`. */
    method ExtendName(source: Bytes, i: nat, uri: bool, name: nat, end: nat, isNumber: bool, ghost done: Bytes)
      returns (r: Result<nat>, newEnd: nat, stillNumber: bool, ghost bytes: Bytes)
      requires i < |source| == nameBuffer.Length && name <= end < i
      requires nameBuffer[name..end] == done && (isNumber <==> AllDigits(done))
      modifies nameBuffer
      ensures nameBuffer[..name] == old(nameBuffer[..name])
      ensures r == NextOf(UnitAt(source, i, uri))
      ensures r.Ok? ==>
                && bytes == done + UnitAt(source, i, uri).value.bytes
                && newEnd == name + |bytes| && newEnd < r.value <= nameBuffer.Length
                && nameBuffer[name..newEnd] == bytes && (stillNumber <==> AllDigits(bytes))
    {
      ghost var was := nameBuffer[..];
      var count, digit;
      r, count, digit := ReadUnit(source, i, uri, end);
      newEnd, stillNumber, bytes := end + count, isNumber && digit, done;
      if r.Ok? {
        bytes := done + UnitAt(source, i, uri).value.bytes;
        DigitsJoined(done, UnitAt(source, i, uri).value.bytes);
        Glued(was, nameBuffer[..], name, end, count);
      } else {
        assert nameBuffer[..name] == nameBuffer[..end][..name];
      }
    }

    /** The inner loop: the name up to the next solidus, into the buffer from `name`. */
    method ReadName(source: Bytes, start: nat, uri: bool, name: nat) returns (r: Result<nat>, end: nat, isNumber: bool)
      requires start <= |source| == nameBuffer.Length && name < start
      modifies nameBuffer
      ensures nameBuffer[..name] == old(nameBuffer[..name])
      ensures r == NextOf(NameAt(source, start, uri))
      ensures r.Ok? ==>
                && end == name + |NameAt(source, start, uri).value.bytes| && end < r.value <= nameBuffer.Length
                && nameBuffer[name..end] == NameAt(source, start, uri).value.bytes
                && (isNumber <==> AllDigits(NameAt(source, start, uri).value.bytes))
    {
      var i := start;
      end, isNumber := name, true;
      ghost var whole, done := NameAt(source, start, uri), [];
      JoinedNone(whole);
      while i < |source| && source[i] != SOLIDUS
        invariant start <= i <= |source| && name <= end < i
        invariant nameBuffer[..name] == old(nameBuffer[..name]) && nameBuffer[name..end] == done
        invariant isNumber <==> AllDigits(done)
        invariant whole == Joined(done, NameAt(source, i, uri))
        decreases |source| - i
      {
        var unit;
        ghost var bytes;
        unit, end, isNumber, bytes := ExtendName(source, i, uri, name, end, isNumber, done);
        if unit.Bad? {
          return Bad(unit.code, unit.at), end, isNumber;
        }
        JoinedTwice(done, UnitAt(source, i, uri).value.bytes, NameAt(source, unit.value, uri));
        i, done := unit.value, bytes;
      }
      r := Ok(i);
      assert done + [] == done;
    }

    /** The index of the name in the buffer, given whether it is all digits. */
    method ReadIndex(start: nat, length: nat, allDigits: bool) returns (index: JsonEvents.Uint32)
      requires start + length <= nameBuffer.Length
      requires allDigits <==> AllDigits(nameBuffer[start..start + length])
      ensures index == IndexOf(nameBuffer[start..start + length])
    {
      ghost var name := nameBuffer[start..start + length];
      var isNumber := allDigits && length != 0;
      if isNumber && length > 1 && nameBuffer[start] == ZERO {
        isNumber := false;
      }
      assert isNumber <==> Numeric(name);
      var n: JsonEvents.Uint32 := 0;
      if isNumber {
        for j := 0 to length
          invariant AllDigits(name[..j]) && Accumulated(name[..j]) == Some(n)
        {
          assert name[..j + 1][..j] == name[..j] && name[..j + 1][j] == name[j] == nameBuffer[start + j];
          var m: JsonEvents.Uint32 := (n * 10 + DigitValue(nameBuffer[start + j])) % JsonEvents.TWO_32;
          if m < n {
            assert Accumulated(name[..j + 1]).None?;
            OverflowStays(name, j + 1);
            return INVALID_INDEX;
          }
          n := m;
        }
        assert name[..length] == name;
      }
      index := if isNumber then n else INVALID_INDEX;
    }

    /** Adds a token, whose name has just been read, and its zero. */
    method AddToken(start: nat, end: nat, isNumber: bool, ghost names: seq<Bytes>)
      requires start <= end < nameBuffer.Length && Holds(names, start) && |slots| < tokenCount
      requires isNumber <==> AllDigits(nameBuffer[start..end])
      modifies this`slots, nameBuffer
      ensures Holds(names + [old(nameBuffer[start..end])], end + 1)
    {
      ghost var name, before := nameBuffer[start..end], nameBuffer[..start];
      nameBuffer[end] := 0;
      assert nameBuffer[start..start + (end - start)] == name;
      var index := ReadIndex(start, end - start, isNumber);
      ghost var after := nameBuffer[..end + 1];
      assert after == before + name + [0];
      forall k | 0 <= k < |slots| ensures InText(slots[k], names[k], after) {
        assert HoldsAt(slots[k], names[k], start);
        InLongerText(slots[k], names[k], before, after);
      }
      slots := slots + [Slot(start, end - start, index)];
    }

    /** What is held stays held while the buffer is written behind it. */
    twostate lemma StillHolds(held: (seq<Bytes>, nat))
      requires old(Holds(held.0, held.1)) && slots == old(slots)
      requires held.1 <= nameBuffer.Length && nameBuffer[..held.1] == old(nameBuffer[..held.1])
      ensures Holds(held.0, held.1)
    {
      forall k | 0 <= k < |slots| ensures HoldsAt(slots[k], held.0[k], held.1) {
        assert old(HoldsAt(slots[k], held.0[k], held.1));
      }
    }

    /** One turn of the outer loop: after a solidus, a name and its token. */
    method ReadToken(source: Bytes, i: nat, uri: bool, name: nat, ghost names: seq<Bytes>)
      returns (r: Result<nat>, end: nat, ghost bytes: Bytes)
      requires i < |source| == nameBuffer.Length && source[i] == SOLIDUS && name <= i && Holds(names, name)
      requires |names| + Solidi(source, i) == tokenCount
      modifies this`slots, nameBuffer
      ensures match r
              case Bad(code, at) => NamesJoined(names, NamesAt(source, i, uri)) == Bad(code, at)
              case Ok(next) =>
                && i < next <= |source| && Ends(source, next)
                && NamesJoined(names, NamesAt(source, i, uri))
                   == NamesJoined(names + [bytes], NamesAt(source, next, uri))
                && end <= next && Holds(names + [bytes], end) && |names| + 1 + Solidi(source, next) == tokenCount
    {
      var isNumber;
      r, end, isNumber := ReadName(source, i + 1, uri, name);
      NamesTurn(source, i, uri, names);
      bytes := [];
      if r.Ok? {
        bytes := nameBuffer[name..end];
        StillHolds((names, name));
        AddToken(name, end, isNumber, names);
        end := end + 1;
      }
    }

    /** What parsing a text comes to. */
    ghost predicate Reflects(r: Result<seq<Bytes>>)
      reads this, nameBuffer
    {
      match r
      case Bad(code, at) => error == Some(code) && errorOffset == at && slots == [] && tokenCount == 0
      case Ok(names) => error == None && Holds(names, nameBuffer.Length) && |slots| == tokenCount
    }

    /**
     Parses a text. The buffer is as long as the text, and no write goes past it; there is room for as many tokens
     as the text has solidi, and an accepted text fills it.
     */
    constructor (source: Bytes)
      ensures fresh(nameBuffer) && nameBuffer.Length == |source| && Reflects(ParsedNames(source))
      ensures error == None ==> tokenCount == Solidi(source, 0)
    {
      nameBuffer := new bv8[|source|];
      slots, tokenCount, error, errorOffset := [], 0, None, 0;
      new;
      Parse(source);
    }

    /** Counts the tokens that a text may have. */
    method CountTokens(source: Bytes)
      modifies this`tokenCount
      ensures tokenCount == Solidi(source, 0)
    {
      tokenCount := 0;
      for k := 0 to |source|
        invariant tokenCount + Solidi(source, k) == Solidi(source, 0)
      {
        if source[k] == SOLIDUS {
          tokenCount := tokenCount + 1;
        }
      }
    }

    method Fail(code: ErrorCode, i: nat)
      modifies this`slots, this`tokenCount, this`error, this`errorOffset
      ensures slots == [] && tokenCount == 0 && error == Some(code) && errorOffset == i
    {
      slots, tokenCount := [], 0;
      error, errorOffset := Some(code), i;
    }

    method Parse(source: Bytes)
      requires |source| == nameBuffer.Length && slots == [] && error == None
      modifies this, nameBuffer
      ensures Reflects(ParsedNames(source)) && (error == None ==> tokenCount == Solidi(source, 0))
    {
      CountTokens(source);
      var i: nat := 0;
      var uriFragment := false;
      if At(source, i) == HASH {
        uriFragment := true;
        i := i + 1;
      }
      if i != |source| && source[i] != SOLIDUS {
        Fail(TokenMustBeginWithSolidus, i);
        return;
      }
      ParseTokens(source, i, uriFragment);
    }

    /** The outer loop. */
    method ParseTokens(source: Bytes, first: nat, uri: bool)
      requires |source| == nameBuffer.Length && first <= |source| && Ends(source, first) && slots == [] && error == None
      requires tokenCount == Solidi(source, first)
      modifies this, nameBuffer
      ensures Reflects(NamesAt(source, first, uri)) && (error == None ==> tokenCount == old(tokenCount))
    {
      var i, name: nat := first, 0;
      ghost var names: seq<Bytes> := [];
      NamesJoinedNone(NamesAt(source, first, uri));
      while i < |source|
        invariant name <= i <= |source| && Ends(source, i)
        invariant error == None && Holds(names, name)
        invariant |names| + Solidi(source, i) == tokenCount == old(tokenCount)
        invariant NamesAt(source, first, uri) == NamesJoined(names, NamesAt(source, i, uri))
        decreases |source| - i
      {
        ghost var bytes;
        var r, end;
        r, end, bytes := ReadToken(source, i, uri, name, names);
        if r.Bad? {
          Fail(r.code, r.at);
          return;
        }
        names := names + [bytes];
        i, name := r.value, end;
      }
      assert names + [] == names;
      assert NamesAt(source, i, uri) == Ok([]);
      assert NamesAt(source, first, uri) == Ok(names) && |slots| == tokenCount;
      HoldsInAll(names, name);
    }

    /** Prints one name of the string form. */
    method StringifyName(t: Slot, ghost name: Bytes) returns (os: Bytes)
      requires HoldsAt(t, name, nameBuffer.Length)
      ensures os == PrintName(name)
    {
      os := [];
      HeldIs(t, name, nameBuffer.Length);
      var chars := nameBuffer[t.start..t.start + t.length];
      for j := 0 to t.length
        invariant os == PrintName(name[..j])
      {
        var c := chars[j];
        assert name[..j + 1] == name[..j] + [c];
        PrintNameConcat(name[..j], [c]);
        assert PrintName([c]) == Escape(c);
        if c == TILDE {
          os := os + [TILDE, ZERO];
        } else if c == SOLIDUS {
          os := os + [TILDE, ONE];
        } else {
          os := os + [c];
        }
      }
      assert name[..t.length] == name;
    }

    method Stringify(ghost names: seq<Bytes>) returns (os: Bytes)
      requires error == None && Holds(names, nameBuffer.Length)
      ensures os == PrintNames(names)
    {
      os := [];
      assert names[0..] == names;
      for k := 0 to |slots|
        invariant PrintNames(names) == os + PrintNames(names[k..])
      {
        PrintNamesTurn(os, names, k);
        assert HoldsAt(slots[k], names[k], nameBuffer.Length);
        var printed := StringifyName(slots[k], names[k]);
        os := os + ([SOLIDUS] + printed);
      }
    }

    /** One unit of the URI form. */
    static method StringifyUnit(chars: Bytes, j: nat) returns (ok: bool, next: nat, os: Bytes)
      requires j < |chars|
      ensures ok <==> UriUnit(chars, j).Some?
      ensures ok ==> next == j + |UriUnit(chars, j).value.0| <= |chars| && os == UriUnit(chars, j).value.1
    {
      var c := chars[j];
      ok, next := true, j + 1;
      if c == TILDE {
        os := [TILDE, ZERO];
      } else if c == SOLIDUS {
        os := [TILDE, ONE];
      } else if NeedPercentEncode(c) {
        var sequence;
        ok, next, sequence := Validate(chars, j, []);
        os := PercentEncodeAll(sequence);
        if ok {
          SequenceInside(chars, j);
          assert sequence == Sequence(chars, j).value;
        }
      } else {
        os := [c];
      }
    }

    /** Prints one name of the URI form; fails at a malformed sequence. */
    method StringifyUriName(t: Slot, ghost name: Bytes) returns (ok: bool, os: Bytes)
      requires HoldsAt(t, name, nameBuffer.Length)
      ensures ok <==> PrintUriName(name, 0).Some?
      ensures ok ==> os == PrintUriName(name, 0).value
    {
      os, ok := [], true;
      HeldIs(t, name, nameBuffer.Length);
      var chars := nameBuffer[t.start..t.start + t.length];
      var j: nat := 0;
      WithNone(PrintUriName(name, 0));
      while j < t.length
        invariant j <= t.length && PrintUriName(name, 0) == With(os, PrintUriName(name, j))
        decreases t.length - j
      {
        var next, printed;
        ok, next, printed := StringifyUnit(chars, j);
        if !ok {
          return false, os;
        }
        WithTwice(os, printed, PrintUriName(name, next));
        os, j := os + printed, next;
      }
      ok := true;
    }

    method StringifyUriFragment(ghost names: seq<Bytes>) returns (ok: bool, os: Bytes)
      requires error == None && Holds(names, nameBuffer.Length)
      ensures ok <==> PrintUriNames(names).Some?
      ensures ok ==> os == [HASH] + PrintUriNames(names).value
    {
      var text: Bytes := [];
      WithNone(PrintUriNames(names));
      assert names[0..] == names;
      for k := 0 to |slots|
        invariant PrintUriNames(names) == With(text, PrintUriNames(names[k..]))
      {
        assert names[k..][1..] == names[k + 1..];
        assert HoldsAt(slots[k], names[k], nameBuffer.Length);
        var printed;
        ok, printed := StringifyUriName(slots[k], names[k]);
        if !ok {
          return false, [HASH] + text;
        }
        WithTwice(text, [SOLIDUS] + printed, PrintUriNames(names[k + 1..]));
        text := text + ([SOLIDUS] + printed);
      }
      assert text + [] == text;
      return true, [HASH] + text;
    }

    /** Two valid pointers are equal exactly when their names are. */
    method Equals(rhs: Pointer, ghost names: seq<Bytes>, ghost names': seq<Bytes>) returns (equal: bool)
      requires error == None ==> Holds(names, nameBuffer.Length)
      requires rhs.error == None ==> rhs.Holds(names', rhs.nameBuffer.Length)
      ensures equal <==> error == None && rhs.error == None && names == names'
    {
      if error != None || rhs.error != None || |slots| != |rhs.slots| {
        return false;
      }
      for i := 0 to |slots|
        invariant forall k :: 0 <= k < i ==> names[k] == names'[k]
      {
        var (a, b) := (slots[i], rhs.slots[i]);
        HeldIs(a, names[i], nameBuffer.Length);
        rhs.HeldIs(b, names'[i], rhs.nameBuffer.Length);
        if a.index != b.index || a.length != b.length
           || nameBuffer[a.start..a.start + a.length] != rhs.nameBuffer[b.start..b.start + b.length]
        {
          return false;
        }
      }
      return true;
    }
  }
}
