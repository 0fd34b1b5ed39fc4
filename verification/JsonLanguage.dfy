/**
 The JSON language by its tokens, apart from any parser: a tree has a sequence of tokens, as section 2 of
 RFC 8259 has it, and a text spells the tree when it reads as that sequence. With the default flags the
 parser accepts exactly the texts that spell a tree.
 */
module JsonLanguage {
  import opened JsonEvents
  import opened JsonGrammar
  import opened JsonDocument
  import opened Options

  /** A structural character, a string, or any other scalar. */
  datatype Token = Mark(c: char) | Text(s: string) | Atom(e: Event)

  // The tokens of a tree.

  function LeafToken(e: Event): Token {
    if e.Str? then Text(e.s) else Atom(e)
  }

  function Tokens(t: Tree): seq<Token> {
    match t
    case Leaf(e) => [LeafToken(e)]
    case Items(items) =>
      if items == [] then [Mark('['), Mark(']')] else [Mark('[')] + (Tokens(items[0]) + MoreItems(items[1..]))
    case Fields(fields) =>
      if fields == [] then [Mark('{'), Mark('}')] else [Mark('{')] + (FieldTokens(fields[0]) + MoreFields(fields[1..]))
  }

  /** The items that follow one, each after a comma, and the end of the array. */
  function MoreItems(items: seq<Tree>): seq<Token> {
    if items == [] then [Mark(']')] else [Mark(',')] + (Tokens(items[0]) + MoreItems(items[1..]))
  }

  function FieldTokens(field: Field): seq<Token> {
    [Text(field.name), Mark(':')] + Tokens(field.tree)
  }

  function MoreFields(fields: seq<Field>): seq<Token> {
    if fields == [] then [Mark('}')] else [Mark(',')] + (FieldTokens(fields[0]) + MoreFields(fields[1..]))
  }

  // The tokens of a text, by its characters.

  /** The token stands from `i` to `j`; strings and numbers are what the scanners take. */
  predicate Stands(src: Source, i: nat, token: Token, j: nat) {
    && i < j <= |src.text|
    && match token
       case Mark(c) => src.text[i..j] == [c] && c in "[]{},:"
       case Text(s) => src.text[i] == '"' && src.strings(src.text, i) == Scanned(s, j)
       case Atom(Null) => src.text[i..j] == "null"
       case Atom(Bool(b)) => src.text[i..j] == if b then "true" else "false"
       case Atom(Num(n)) => src.text[i] in "-0123456789NI" && src.numbers(src.text, i) == Scanned(n, j)
       case Atom(_) => false
  }

  /** White space stands from `i` to `j`, and none after it. */
  predicate White(text: seq<char>, i: nat, j: nat) {
    && i <= j <= |text| && (forall k :: i <= k < j ==> text[k] in " \n\r\t")
    && (j < |text| ==> text[j] !in " \n\r\t")
  }

  /** From `i` the first end mark ends at `j`. */
  predicate Marked(text: seq<char>, i: nat, j: nat) {
    && i + 2 <= j <= |text| && text[j - 2..j] == "*/"
    && forall k :: i <= k < j - 2 ==> text[k] != '\0' && text[k..k + 2] != "*/"
  }

  /** A comment between marks, which ends with the first end mark. */
  predicate BlockComment(text: seq<char>, i: nat, j: nat) {
    i + 2 <= |text| && text[i..i + 2] == "/*" && Marked(text, i + 2, j)
  }

  /** From `i` the line goes on to `end`. */
  predicate Line(text: seq<char>, i: nat, end: nat) {
    && i <= end <= |text| && (forall k :: i <= k < end ==> text[k] !in "\n\0")
    && (end < |text| ==> text[end] in "\n\0")
  }

  /** A comment to the end of the line, with the character that ends it, or of the text. */
  ghost predicate LineComment(text: seq<char>, i: nat, j: nat) {
    && i + 2 <= |text| && text[i..i + 2] == "//"
    && exists end: nat :: Line(text, i + 2, end) && j == if end < |text| && text[end] == '\n' then end + 1 else end
  }

  /** What stands between tokens: white space and, if they are allowed, comments with white space after each. */
  ghost predicate Between(text: seq<char>, comments: bool, i: nat, j: nat)
    requires i <= |text|
    decreases |text| - i
  {
    exists a: nat :: White(text, i, a) &&
      if comments && a < |text| && text[a] == '/' then
        exists b: nat ::
          a < b <= |text| && (BlockComment(text, a, b) || LineComment(text, a, b)) && Between(text, comments, b, j)
      else j == a
  }

  /** From `i` to `j` these tokens stand, each with what may stand after it. */
  ghost predicate Spelt(src: Source, i: nat, tokens: seq<Token>, j: nat)
    decreases |tokens|
  {
    if tokens == [] then i == j
    else
      exists p: nat, q: nat ::
        Stands(src, i, tokens[0], p) && Between(src.text, src.flags.comments, p, q) && Spelt(src, q, tokens[1..], j)
  }

  /** The text is the tree's tokens, up to its end. */
  ghost predicate Spells(src: Source, t: Tree) {
    exists i: nat, j: nat ::
      && Between(src.text, src.flags.comments, 0, i) && Spelt(src, i, Tokens(t), j)
      && (j < |src.text| ==> src.text[j] == '\0')
  }

  // The same, as one goes through the text.

  predicate Structural(c: char) {
    c == '[' || c == ']' || c == '{' || c == '}' || c == ',' || c == ':'
  }

  /** The token at `i` and where it ends. */
  function TokenAt(src: Source, i: nat): (r: Option<(Token, nat)>)
    requires i <= |src.text|
    ensures r.Some? ==> i < r.value.1 <= |src.text|
  {
    if Structural(src.Peek(i)) then Some((Mark(src.Peek(i)), i + 1))
    else
      match src.ScalarAt(i)
      case Fail(_, _, _) => None
      case Done(p, evs) => if |evs| == 1 then Some((LeafToken(evs[0]), p)) else None
  }

  /** From `i` the text reads as these tokens, with what may stand between tokens after each, to `j`. */
  predicate Reads(src: Source, i: nat, tokens: seq<Token>, j: nat)
    requires i <= |src.text|
    decreases |tokens|
  {
    if tokens == [] then i == j
    else
      match TokenAt(src, i)
      case None => false
      case Some((token, p)) =>
        token == tokens[0] && src.Skip(p).At? && Reads(src, src.Skip(p).pos, tokens[1..], j)
  }

  lemma {:induction false} ReadsFirst(src: Source, i: nat, token: Token, rest: seq<Token>, j: nat)
    requires i <= |src.text|
    ensures Reads(src, i, [token] + rest, j) <==>
              TokenAt(src, i).Some? && TokenAt(src, i).value.0 == token
              && var next := src.Skip(TokenAt(src, i).value.1);
                 next.At? && Reads(src, next.pos, rest, j)
  {
    assert ([token] + rest)[1..] == rest;
  }

  lemma {:induction false} ReadsMark(src: Source, i: nat, c: char, rest: seq<Token>, j: nat)
    requires i <= |src.text| && Structural(c)
    ensures Reads(src, i, [Mark(c)] + rest, j) <==>
              src.Peek(i) == c && i < |src.text| && src.Skip(i + 1).At? && Reads(src, src.Skip(i + 1).pos, rest, j)
  {
    ReadsFirst(src, i, Mark(c), rest, j);
  }

  lemma {:induction false} WhiteSkips(src: Source, i: nat, j: nat)
    requires i <= |src.text|
    ensures White(src.text, i, j) <==> j == src.SkipBlanks(i)
    decreases |src.text| - i
  {
    if i < |src.text| && Blank(src.text[i]) {
      WhiteSkips(src, i + 1, j);
      assert White(src.text, i, j) <==> i != j && White(src.text, i + 1, j);
    }
  }

  lemma MarkAt(text: seq<char>, i: nat)
    ensures i + 2 <= |text| ==> (text[i..i + 2] == "*/" <==> text[i] == '*' && text[i + 1] == '/')
  {
    assert i + 2 <= |text| ==> text[i..i + 2] == [text[i], text[i + 1]];
  }

  /** One character on. */
  lemma MarkedNext(text: seq<char>, i: nat, j: nat)
    requires i < |text| && text[i] != '\0' && (i + 2 <= |text| ==> text[i..i + 2] != "*/")
    ensures Marked(text, i, j) <==> Marked(text, i + 1, j)
  {
  }

  lemma {:induction false} BlockEnds(src: Source, i: nat, j: nat)
    ensures src.BlockEnd(i) == At(j) <==> Marked(src.text, i, j)
    decreases |src.text| - i
  {
    MarkAt(src.text, i);
    if src.Peek(i) != '\0' && !(src.Peek(i) == '*' && src.Peek(i + 1) == '/') {
      BlockEnds(src, i + 1, j);
      MarkedNext(src.text, i, j);
    }
  }

  /** Where the line ends, not counting the character that ends it. */
  lemma {:induction false} LineEnds(src: Source, i: nat) returns (end: nat)
    requires i <= |src.text|
    ensures forall e: nat :: Line(src.text, i, e) <==> e == end
    ensures src.LineEnd(i) == if end < |src.text| && src.text[end] == '\n' then end + 1 else end
    decreases |src.text| - i
  {
    end := i;
    if i < |src.text| && src.text[i] !in "\n\0" {
      end := LineEnds(src, i + 1);
      assert forall e: nat :: Line(src.text, i, e) <==> i < e && Line(src.text, i + 1, e);
    }
  }

  lemma CommentEnds(src: Source, i: nat, j: nat)
    requires i < |src.text| && src.text[i] == '/'
    ensures BlockComment(src.text, i, j) || LineComment(src.text, i, j) <==> src.CommentEnd(i) == At(j)
    ensures src.CommentEnd(i) == At(j) ==> i < j <= |src.text|
  {
    var t := src.text;
    assert i + 2 <= |t| ==> t[i..i + 2] == [t[i], t[i + 1]];
    BlockEnds(src, i + 2, j);
    if src.Peek(i + 1) == '/' {
      var end := LineEnds(src, i + 2);
    }
  }

  lemma {:induction false} BetweenSkips(src: Source, i: nat, j: nat)
    requires i <= |src.text|
    ensures Between(src.text, src.flags.comments, i, j) <==> src.Skip(i) == At(j)
    decreases |src.text| - i
  {
    var a := src.SkipBlanks(i);
    WhiteSkips(src, i, a);
    forall b: nat ensures White(src.text, i, b) ==> b == a {
      WhiteSkips(src, i, b);
    }
    if src.flags.comments && src.Peek(a) == '/' {
      forall b: nat
        ensures BlockComment(src.text, a, b) || LineComment(src.text, a, b) <==> src.CommentEnd(a) == At(b)
        ensures src.CommentEnd(a) == At(b) ==> (Between(src.text, true, b, j) <==> src.Skip(b) == At(j))
      {
        CommentEnds(src, a, b);
        if src.CommentEnd(a) == At(b) {
          BetweenSkips(src, b, j);
        }
      }
    }
  }

  lemma {:induction false} WordStands(src: Source, i: nat, word: string)
    requires '\0' !in word && i <= |src.text|
    ensures src.Mismatch(i, word) == i + |word| <==>
              i + |word| <= |src.text| && src.text[i..i + |word|] == word
    decreases |word|
  {
    if word != [] && src.Peek(i) == word[0] {
      WordStands(src, i + 1, word[1..]);
      if i + |word| <= |src.text| {
        assert src.text[i..i + |word|] == [src.text[i]] + src.text[i + 1..i + |word|];
        assert word == [word[0]] + word[1..];
      }
    }
  }

  lemma LiteralStands(src: Source, i: nat, word: string, e: Event, j: nat)
    requires word != [] && '\0' !in word && i <= |src.text|
    ensures src.Literal(i, word, e) == Done(j, [e]) <==> i <= j <= |src.text| && src.text[i..j] == word
  {
    WordStands(src, i, word);
  }

  /** A token of letters: what its first letter leads to. */
  lemma AtomStands(src: Source, i: nat, word: string, e: Event, j: nat)
    requires i <= |src.text| && word != [] && '\0' !in word && !Structural(word[0]) && (e == Null || e.Bool?)
    requires src.Peek(i) == word[0] ==> src.ScalarAt(i) == src.Literal(i, word, e)
    requires src.Peek(i) != word[0] ==> src.ScalarAt(i).Fail? || src.ScalarAt(i).events != [e]
    ensures TokenAt(src, i) == Some((Atom(e), j)) <==> i < j <= |src.text| && src.text[i..j] == word
  {
    LiteralStands(src, i, word, e, j);
    if i < j <= |src.text| {
      assert src.text[i] == src.text[i..j][0];
    }
  }

  lemma WordScalar(src: Source, i: nat)
    requires i <= |src.text|
    ensures src.Peek(i) == 'n' ==> src.ScalarAt(i) == src.Literal(i, "null", Null)
    ensures src.Peek(i) == 't' ==> src.ScalarAt(i) == src.Literal(i, "true", Bool(true))
    ensures src.Peek(i) == 'f' ==> src.ScalarAt(i) == src.Literal(i, "false", Bool(false))
    ensures src.Peek(i) != 'n' ==> src.ScalarAt(i).Fail? || src.ScalarAt(i).events != [Null]
    ensures src.Peek(i) != 't' ==> src.ScalarAt(i).Fail? || src.ScalarAt(i).events != [Bool(true)]
    ensures src.Peek(i) != 'f' ==> src.ScalarAt(i).Fail? || src.ScalarAt(i).events != [Bool(false)]
  {
  }

  lemma OtherStands(src: Source, i: nat, token: Token, j: nat)
    requires i <= |src.text| && (token.Atom? ==> token.e != Null && !token.e.Bool?)
    ensures Stands(src, i, token, j) <==> TokenAt(src, i) == Some((token, j))
  {
    if i < j <= |src.text| {
      assert src.text[i] == src.text[i..j][0];
    }
  }

  lemma StandsAt(src: Source, i: nat, token: Token, j: nat)
    requires i <= |src.text|
    ensures Stands(src, i, token, j) <==> TokenAt(src, i) == Some((token, j))
  {
    WordScalar(src, i);
    match token
    case Atom(Null) => AtomStands(src, i, "null", Null, j);
    case Atom(Bool(b)) =>
      if b {
        AtomStands(src, i, "true", Bool(true), j);
      } else {
        AtomStands(src, i, "false", Bool(false), j);
      }
    case _ => OtherStands(src, i, token, j);
  }

  lemma {:induction false} SpeltReads(src: Source, i: nat, tokens: seq<Token>, j: nat)
    requires i <= |src.text|
    ensures Spelt(src, i, tokens, j) <==> Reads(src, i, tokens, j)
    decreases |tokens|
  {
    if tokens != [] {
      forall p: nat, q: nat | Stands(src, i, tokens[0], p) && Between(src.text, src.flags.comments, p, q)
        ensures TokenAt(src, i) == Some((tokens[0], p)) && src.Skip(p) == At(q)
        ensures Spelt(src, q, tokens[1..], j) <==> Reads(src, q, tokens[1..], j)
      {
        StandsAt(src, i, tokens[0], p);
        BetweenSkips(src, p, q);
        SpeltReads(src, q, tokens[1..], j);
      }
      if Reads(src, i, tokens, j) {
        var p := TokenAt(src, i).value.1;
        var q := src.Skip(p).pos;
        StandsAt(src, i, tokens[0], p);
        BetweenSkips(src, p, q);
        SpeltReads(src, q, tokens[1..], j);
      }
    }
  }

  /** A text that spells a tree reads as its tokens, one after the other. */
  lemma {:induction false} SpellsReads(src: Source, t: Tree)
    ensures Spells(src, t) <==>
              src.Skip(0).At? && exists j: nat :: Reads(src, src.Skip(0).pos, Tokens(t), j) && src.Peek(j) == '\0'
  {
    if Spells(src, t) {
      var i: nat, j: nat :| Between(src.text, src.flags.comments, 0, i) && Spelt(src, i, Tokens(t), j)
        && (j < |src.text| ==> src.text[j] == '\0');
      BetweenSkips(src, 0, i);
      SpeltReads(src, i, Tokens(t), j);
      assert Reads(src, src.Skip(0).pos, Tokens(t), j) && src.Peek(j) == '\0';
    }
    if src.Skip(0).At? {
      var i := src.Skip(0).pos;
      BetweenSkips(src, 0, i);
      if j: nat :| Reads(src, i, Tokens(t), j) && src.Peek(j) == '\0' {
        SpeltReads(src, i, Tokens(t), j);
      }
    }
  }

  // Whatever spells a tree is parsed, with that tree's events.

  /** After a value that parsed as `o`, the text reads as `rest` from `m`. */
  ghost predicate Followed(src: Source, o: Outcome, events: seq<Event>, m: nat, rest: seq<Token>, j: nat) {
    && o.Done? && o.pos <= |src.text| && o.events == events
    && src.Skip(o.pos) == At(m) && m <= |src.text| && Reads(src, m, rest, j)
  }

  predicate AllWellFormed(items: seq<Tree>) {
    forall k :: 0 <= k < |items| ==> WellFormed(items[k])
  }

  lemma LeafParsed(src: Source, i: nat, e: Event, rest: seq<Token>, j: nat) returns (m: nat)
    requires i <= |src.text| && IsScalar(e) && Reads(src, i, [LeafToken(e)] + rest, j)
    ensures Followed(src, src.ValueAt(i), [e], m, rest, j)
  {
    ReadsFirst(src, i, LeafToken(e), rest, j);
    m := src.Skip(TokenAt(src, i).value.1).pos;
    assert src.ValueAt(i) == src.ScalarAt(i);
  }

  lemma ValueParsed(src: Source, i: nat, t: Tree, rest: seq<Token>, j: nat) returns (m: nat)
    requires i <= |src.text| && !src.flags.trailingCommas && WellFormed(t) && Reads(src, i, Tokens(t) + rest, j)
    ensures Followed(src, src.ValueAt(i), Flat(t), m, rest, j)
    decreases t, 1
  {
    match t
    case Leaf(e) =>
      assert Tokens(t) == [LeafToken(e)] && Flat(t) == [e];
      m := LeafParsed(src, i, e, rest, j);
    case Items(items) => m := ArrayParsed(src, i, items, rest, j);
    case Fields(fields) => m := ObjectParsed(src, i, fields, rest, j);
  }

  /** A bracket opens what is parsed after it. */
  lemma {:induction false} ArrayOpened(src: Source, i: nat, k: nat, events: seq<Event>, m: nat, rest: seq<Token>,
      j: nat)
    requires i <= |src.text| && k <= |src.text| && src.Peek(i) == '[' && src.Skip(i + 1) == At(k)
    requires Followed(src, src.ArrayOpen(k, 0), events, m, rest, j)
    ensures Followed(src, src.ValueAt(i), [StartArray] + events, m, rest, j)
  {
  }

  lemma {:induction false} FlatArray(items: seq<Tree>)
    ensures Flat(Items(items)) == [StartArray] + (FlatItems(items) + [EndArray(|items|)])
  {
  }

  lemma ArrayCloses(src: Source, k: nat, rest: seq<Token>, j: nat) returns (m: nat)
    requires k <= |src.text| && Reads(src, k, [Mark(']')] + rest, j)
    ensures Followed(src, src.ArrayOpen(k, 0), [EndArray(0)], m, rest, j)
  {
    ReadsMark(src, k, ']', rest, j);
    m := src.Skip(k + 1).pos;
  }

  lemma {:induction false} ArrayContinues(src: Source, i: nat, k: nat, events: seq<Event>, m: nat, rest: seq<Token>,
      j: nat)
    requires i <= |src.text| && k <= |src.text| && src.Peek(i) == '[' && src.Skip(i + 1) == At(k)
    requires src.Peek(k) != ']' && Followed(src, src.ElementAt(k, 0), events, m, rest, j)
    ensures Followed(src, src.ValueAt(i), [StartArray] + events, m, rest, j)
  {
    ArrayOpened(src, i, k, events, m, rest, j);
  }

  lemma AfterBracket(items: seq<Tree>, rest: seq<Token>)
    ensures items == [] ==> Tokens(Items(items)) + rest == [Mark('[')] + ([Mark(']')] + rest)
    ensures items != [] ==>
              Tokens(Items(items)) + rest == [Mark('[')] + (Tokens(items[0]) + (MoreItems(items[1..]) + rest))
  {
  }

  lemma EmptyArrayParsed(src: Source, i: nat, rest: seq<Token>, j: nat) returns (m: nat)
    requires i <= |src.text| && Reads(src, i, [Mark('[')] + ([Mark(']')] + rest), j)
    ensures Followed(src, src.ValueAt(i), [StartArray] + [EndArray(0)], m, rest, j)
  {
    ReadsMark(src, i, '[', [Mark(']')] + rest, j);
    var k := src.Skip(i + 1).pos;
    m := ArrayCloses(src, k, rest, j);
    ArrayOpened(src, i, k, [EndArray(0)], m, rest, j);
  }

  lemma FilledArrayParsed(src: Source, i: nat, k: nat, items: seq<Tree>, events: seq<Event>,
      rest: seq<Token>, j: nat)
    returns (m: nat)
    requires i <= |src.text| && k <= |src.text| && src.Peek(i) == '[' && src.Skip(i + 1) == At(k)
    requires !src.flags.trailingCommas && items != [] && AllWellFormed(items)
    requires Reads(src, k, Tokens(items[0]) + (MoreItems(items[1..]) + rest), j)
    requires events == FlatItems(items) + [EndArray(0 + |items|)]
    ensures Followed(src, src.ValueAt(i), [StartArray] + events, m, rest, j)
    decreases items, 4
  {
    m := ElementParsed(src, k, items, 0, rest, j);
    ArrayContinues(src, i, k, events, m, rest, j);
  }

  lemma ArrayParsed(src: Source, i: nat, items: seq<Tree>, rest: seq<Token>, j: nat) returns (m: nat)
    requires i <= |src.text| && !src.flags.trailingCommas && AllWellFormed(items)
    requires Reads(src, i, Tokens(Items(items)) + rest, j)
    ensures Followed(src, src.ValueAt(i), Flat(Items(items)), m, rest, j)
    decreases items, 5
  {
    AfterBracket(items, rest);
    FlatArray(items);
    if items == [] {
      m := EmptyArrayParsed(src, i, rest, j);
    } else {
      var after := Tokens(items[0]) + (MoreItems(items[1..]) + rest);
      ReadsMark(src, i, '[', after, j);
      var events := FlatItems(items) + [EndArray(|items|)];
      m := FilledArrayParsed(src, i, src.Skip(i + 1).pos, items, events, rest, j);
    }
  }

  /** An item and those after it, `n` being complete before it. */
  lemma ElementParsed(src: Source, i: nat, items: seq<Tree>, n: nat, rest: seq<Token>, j: nat)
    returns (m: nat)
    requires i <= |src.text| && !src.flags.trailingCommas && items != [] && AllWellFormed(items)
    requires Reads(src, i, Tokens(items[0]) + (MoreItems(items[1..]) + rest), j)
    ensures src.Peek(i) != ']'
    ensures Followed(src, src.ElementAt(i, n), FlatItems(items) + [EndArray(n + |items|)], m, rest, j)
    decreases items, 1
  {
    var more := MoreItems(items[1..]) + rest;
    var k := ValueParsed(src, i, items[0], more, j);
    m := MoreItemsParsed(src, k, items[1..], n + 1, rest, j);
    var events := FlatItems(items[1..]) + [EndArray(n + |items|)];
    ElementFollowed(src, i, n, Flat(items[0]), k, more, events, m, rest, j);
    assert Flat(items[0]) + events == FlatItems(items) + [EndArray(n + |items|)];
  }

  lemma {:induction false} ElementFollowed(src: Source, i: nat, n: nat, first: seq<Event>, k: nat, more: seq<Token>,
      events: seq<Event>, m: nat, rest: seq<Token>, j: nat)
    requires i <= |src.text| && k <= |src.text| && Followed(src, src.ValueAt(i), first, k, more, j)
    requires Followed(src, src.ElementTail(k, n + 1), events, m, rest, j)
    ensures src.Peek(i) != ']' && Followed(src, src.ElementAt(i, n), first + events, m, rest, j)
  {
  }

  lemma {:induction false} AfterItem(items: seq<Tree>, rest: seq<Token>)
    requires items != []
    ensures MoreItems(items) + rest == [Mark(',')] + (Tokens(items[0]) + (MoreItems(items[1..]) + rest))
  {
    assert MoreItems(items) == [Mark(',')] + (Tokens(items[0]) + MoreItems(items[1..]));
  }

  lemma {:induction false} AfterField(fields: seq<Field>, rest: seq<Token>)
    requires fields != []
    ensures MoreFields(fields) + rest == [Mark(',')] + (FieldTokens(fields[0]) + (MoreFields(fields[1..]) + rest))
  {
    assert MoreFields(fields) == [Mark(',')] + (FieldTokens(fields[0]) + MoreFields(fields[1..]));
  }

  lemma MoreItemsParsed(src: Source, i: nat, items: seq<Tree>, n: nat, rest: seq<Token>, j: nat)
    returns (m: nat)
    requires i <= |src.text| && !src.flags.trailingCommas && AllWellFormed(items)
    requires Reads(src, i, MoreItems(items) + rest, j)
    ensures Followed(src, src.ElementTail(i, n), FlatItems(items) + [EndArray(n + |items|)], m, rest, j)
    decreases items, 2
  {
    if items == [] {
      ReadsMark(src, i, ']', rest, j);
      m := src.Skip(i + 1).pos;
    } else {
      var after := Tokens(items[0]) + (MoreItems(items[1..]) + rest);
      AfterItem(items, rest);
      ReadsMark(src, i, ',', after, j);
      m := ElementParsed(src, src.Skip(i + 1).pos, items, n, rest, j);
    }
  }

  predicate AllFieldsWellFormed(fields: seq<Field>) {
    forall k :: 0 <= k < |fields| ==> WellFormed(fields[k].tree)
  }

  lemma {:induction false} ObjectOpened(src: Source, i: nat, k: nat, events: seq<Event>, m: nat, rest: seq<Token>,
      j: nat)
    requires i <= |src.text| && k <= |src.text| && src.Peek(i) == '{' && src.Skip(i + 1) == At(k)
    requires Followed(src, src.ObjectOpen(k, 0), events, m, rest, j)
    ensures Followed(src, src.ValueAt(i), [StartObject] + events, m, rest, j)
  {
  }

  lemma {:induction false} FlatObject(fields: seq<Field>)
    ensures Flat(Fields(fields)) == [StartObject] + (FlatFields(fields) + [EndObject(|fields|)])
  {
  }

  lemma ObjectCloses(src: Source, k: nat, rest: seq<Token>, j: nat) returns (m: nat)
    requires k <= |src.text| && Reads(src, k, [Mark('}')] + rest, j)
    ensures Followed(src, src.ObjectOpen(k, 0), [EndObject(0)], m, rest, j)
  {
    ReadsMark(src, k, '}', rest, j);
    m := src.Skip(k + 1).pos;
  }

  lemma {:induction false} ObjectContinues(src: Source, i: nat, k: nat, events: seq<Event>, m: nat, rest: seq<Token>,
      j: nat)
    requires i <= |src.text| && k <= |src.text| && src.Peek(i) == '{' && src.Skip(i + 1) == At(k)
    requires src.Peek(k) != '}' && Followed(src, src.MemberAt(k, 0), events, m, rest, j)
    ensures Followed(src, src.ValueAt(i), [StartObject] + events, m, rest, j)
  {
    ObjectOpened(src, i, k, events, m, rest, j);
  }

  lemma AfterBrace(fields: seq<Field>, rest: seq<Token>)
    ensures fields == [] ==> Tokens(Fields(fields)) + rest == [Mark('{')] + ([Mark('}')] + rest)
    ensures fields != [] ==>
              Tokens(Fields(fields)) + rest == [Mark('{')] + (FieldTokens(fields[0]) + (MoreFields(fields[1..]) + rest))
  {
  }

  lemma EmptyObjectParsed(src: Source, i: nat, rest: seq<Token>, j: nat) returns (m: nat)
    requires i <= |src.text| && Reads(src, i, [Mark('{')] + ([Mark('}')] + rest), j)
    ensures Followed(src, src.ValueAt(i), [StartObject] + [EndObject(0)], m, rest, j)
  {
    ReadsMark(src, i, '{', [Mark('}')] + rest, j);
    var k := src.Skip(i + 1).pos;
    m := ObjectCloses(src, k, rest, j);
    ObjectOpened(src, i, k, [EndObject(0)], m, rest, j);
  }

  lemma FilledObjectParsed(src: Source, i: nat, k: nat, fields: seq<Field>, events: seq<Event>,
      rest: seq<Token>, j: nat)
    returns (m: nat)
    requires i <= |src.text| && k <= |src.text| && src.Peek(i) == '{' && src.Skip(i + 1) == At(k)
    requires !src.flags.trailingCommas && fields != [] && AllFieldsWellFormed(fields)
    requires Reads(src, k, FieldTokens(fields[0]) + (MoreFields(fields[1..]) + rest), j)
    requires events == FlatFields(fields) + [EndObject(0 + |fields|)]
    ensures Followed(src, src.ValueAt(i), [StartObject] + events, m, rest, j)
    decreases fields, 4
  {
    m := MemberParsed(src, k, fields, 0, rest, j);
    ObjectContinues(src, i, k, events, m, rest, j);
  }

  lemma ObjectParsed(src: Source, i: nat, fields: seq<Field>, rest: seq<Token>, j: nat)
    returns (m: nat)
    requires i <= |src.text| && !src.flags.trailingCommas && AllFieldsWellFormed(fields)
    requires Reads(src, i, Tokens(Fields(fields)) + rest, j)
    ensures Followed(src, src.ValueAt(i), Flat(Fields(fields)), m, rest, j)
    decreases fields, 5
  {
    AfterBrace(fields, rest);
    FlatObject(fields);
    if fields == [] {
      m := EmptyObjectParsed(src, i, rest, j);
    } else {
      var after := FieldTokens(fields[0]) + (MoreFields(fields[1..]) + rest);
      ReadsMark(src, i, '{', after, j);
      var events := FlatFields(fields) + [EndObject(|fields|)];
      m := FilledObjectParsed(src, i, src.Skip(i + 1).pos, fields, events, rest, j);
    }
  }

  /** The name of a member, and the colon after it. */
  lemma NameParsed(src: Source, i: nat, name: string, n: nat, after: seq<Token>, j: nat)
    returns (k: nat)
    requires i <= |src.text| && Reads(src, i, [Text(name), Mark(':')] + after, j)
    ensures src.Peek(i) == '"' && k <= |src.text| && Reads(src, k, after, j)
    ensures src.MemberAt(i, n) == src.MemberValueAt(k, n).Prepend([Key(name)])
  {
    assert [Text(name), Mark(':')] + after == [Text(name)] + ([Mark(':')] + after);
    var p := TextRead(src, i, name, [Mark(':')] + after, j);
    var colon := src.Skip(p).pos;
    ReadsMark(src, colon, ':', after, j);
    k := src.Skip(colon + 1).pos;
    MemberJoins(src, i, n, name, p);
  }

  lemma TextRead(src: Source, i: nat, name: string, after: seq<Token>, j: nat) returns (p: nat)
    requires i <= |src.text| && Reads(src, i, [Text(name)] + after, j)
    ensures src.Peek(i) == '"' && src.strings(src.text, i) == Scanned(name, p) && p <= |src.text|
    ensures src.Skip(p).At? && Reads(src, src.Skip(p).pos, after, j)
  {
    ReadsFirst(src, i, Text(name), after, j);
    p := src.strings(src.text, i).next;
  }

  lemma {:induction false} MemberJoins(src: Source, i: nat, n: nat, name: string, p: nat)
    requires i <= |src.text| && src.Peek(i) == '"' && src.strings(src.text, i) == Scanned(name, p) && p <= |src.text|
    requires src.Skip(p).At? && src.Peek(src.Skip(p).pos) == ':' && src.Skip(p).pos < |src.text|
    requires src.Skip(src.Skip(p).pos + 1).At?
    ensures src.MemberAt(i, n) == src.MemberValueAt(src.Skip(src.Skip(p).pos + 1).pos, n).Prepend([Key(name)])
  {
  }

  lemma MemberParsed(src: Source, i: nat, fields: seq<Field>, n: nat, rest: seq<Token>, j: nat)
    returns (m: nat)
    requires i <= |src.text| && !src.flags.trailingCommas && fields != [] && AllFieldsWellFormed(fields)
    requires Reads(src, i, FieldTokens(fields[0]) + (MoreFields(fields[1..]) + rest), j)
    ensures src.Peek(i) != '}'
    ensures Followed(src, src.MemberAt(i, n), FlatFields(fields) + [EndObject(n + |fields|)], m, rest, j)
    decreases fields, 2
  {
    var (name, tree) := (fields[0].name, fields[0].tree);
    var after := Tokens(tree) + (MoreFields(fields[1..]) + rest);
    assert FieldTokens(fields[0]) + (MoreFields(fields[1..]) + rest) == [Text(name), Mark(':')] + after;
    var v := NameParsed(src, i, name, n, after, j);
    var k := ValueParsed(src, v, tree, MoreFields(fields[1..]) + rest, j);
    m := MoreFieldsParsed(src, k, fields[1..], n + 1, rest, j);
    MemberEvents(fields, n);
  }

  lemma {:induction false} MemberEvents(fields: seq<Field>, n: nat)
    requires fields != []
    ensures [Key(fields[0].name)] + (Flat(fields[0].tree) + (FlatFields(fields[1..]) + [EndObject(n + |fields|)]))
         == FlatFields(fields) + [EndObject(n + |fields|)]
  {
  }

  lemma MoreFieldsParsed(src: Source, i: nat, fields: seq<Field>, n: nat, rest: seq<Token>, j: nat)
    returns (m: nat)
    requires i <= |src.text| && !src.flags.trailingCommas && AllFieldsWellFormed(fields)
    requires Reads(src, i, MoreFields(fields) + rest, j)
    ensures Followed(src, src.MemberTail(i, n), FlatFields(fields) + [EndObject(n + |fields|)], m, rest, j)
    decreases fields, 3
  {
    if fields == [] {
      ReadsMark(src, i, '}', rest, j);
      m := src.Skip(i + 1).pos;
    } else {
      var after := FieldTokens(fields[0]) + (MoreFields(fields[1..]) + rest);
      AfterField(fields, rest);
      ReadsMark(src, i, ',', after, j);
      m := MemberParsed(src, src.Skip(i + 1).pos, fields, n, rest, j);
    }
  }

  // Whatever is parsed spells a tree, with that tree's events.

  /** The token at `i`, and what may stand after it up to `next`. */
  predicate TokenThen(src: Source, i: nat, token: Token, next: nat)
    requires i <= |src.text|
  {
    && next <= |src.text|
    && TokenAt(src, i).Some? && TokenAt(src, i).value.0 == token && src.Skip(TokenAt(src, i).value.1) == At(next)
  }

  lemma {:induction false} ReadsNext(src: Source, i: nat, tokens: seq<Token>, j: nat) returns (next: nat)
    requires i <= |src.text| && tokens != [] && Reads(src, i, tokens, j)
    ensures TokenThen(src, i, tokens[0], next) && Reads(src, next, tokens[1..], j)
  {
    next := src.Skip(TokenAt(src, i).value.1).pos;
  }

  lemma {:induction false} ReadsBefore(src: Source, i: nat, tokens: seq<Token>, next: nat, j: nat)
    requires i <= |src.text| && tokens != [] && TokenThen(src, i, tokens[0], next) && Reads(src, next, tokens[1..], j)
    ensures Reads(src, i, tokens, j)
  {
  }

  lemma {:induction false} ReadsJoined(src: Source, i: nat, a: seq<Token>, k: nat, b: seq<Token>, m: nat)
    requires i <= |src.text| && k <= |src.text| && Reads(src, i, a, k) && Reads(src, k, b, m)
    ensures Reads(src, i, a + b, m)
    decreases |a|
  {
    if a == [] {
      assert a + b == b;
    } else {
      var next := ReadsNext(src, i, a, k);
      ReadsJoined(src, next, a[1..], k, b, m);
      assert (a + b)[1..] == a[1..] + b;
      ReadsBefore(src, i, a + b, next, m);
    }
  }

  lemma {:induction false} MarkSpells(src: Source, i: nat, c: char, rest: seq<Token>, m: nat)
    requires i < |src.text| && src.Peek(i) == c && Structural(c) && src.Skip(i + 1).At?
    requires Reads(src, src.Skip(i + 1).pos, rest, m)
    ensures Reads(src, i, [Mark(c)] + rest, m)
  {
    ReadsMark(src, i, c, rest, m);
  }

  lemma {:induction false} LastMarkSpells(src: Source, i: nat, c: char)
    requires i < |src.text| && src.Peek(i) == c && Structural(c) && src.Skip(i + 1).At?
    ensures Reads(src, i, [Mark(c)], src.Skip(i + 1).pos)
  {
    MarkSpells(src, i, c, [], src.Skip(i + 1).pos);
    assert [Mark(c)] + [] == [Mark(c)];
  }

  lemma LeafSpells(src: Source, i: nat) returns (t: Tree)
    requires i <= |src.text| && src.Peek(i) != '[' && src.Peek(i) != '{' && src.ScalarAt(i).Done?
    requires src.Skip(src.ScalarAt(i).pos).At?
    ensures WellFormed(t) && src.ScalarAt(i).events == Flat(t)
    ensures Reads(src, i, Tokens(t), src.Skip(src.ScalarAt(i).pos).pos)
  {
    var e := src.ScalarAt(i).events[0];
    t := Leaf(e);
    assert TokenAt(src, i) == Some((LeafToken(e), src.ScalarAt(i).pos));
    ReadsFirst(src, i, LeafToken(e), [], src.Skip(src.ScalarAt(i).pos).pos);
    assert Tokens(t) == [LeafToken(e)] + [];
  }

  /** A value that parsed is a tree's tokens. */
  lemma ValueSpells(src: Source, i: nat) returns (t: Tree)
    requires i <= |src.text| && !src.flags.trailingCommas && src.ValueAt(i).Done? && src.Skip(src.ValueAt(i).pos).At?
    ensures WellFormed(t) && src.ValueAt(i).events == Flat(t)
    ensures Reads(src, i, Tokens(t), src.Skip(src.ValueAt(i).pos).pos)
    decreases |src.text| - i, 4
  {
    if src.Peek(i) == '[' {
      t := ArraySpells(src, i);
    } else if src.Peek(i) == '{' {
      t := ObjectSpells(src, i);
    } else {
      t := LeafSpells(src, i);
    }
  }

  lemma ArraySplits(src: Source, i: nat)
    requires i < |src.text| && src.Peek(i) == '[' && src.ArrayAt(i).Done?
    ensures src.Skip(i + 1).At?
    ensures
      var k := src.Skip(i + 1).pos;
      && k <= |src.text|
      && src.ArrayAt(i) == (if src.Peek(k) == ']' then Done(k + 1, [EndArray(0)])
                            else src.ElementAt(k, 0)).Prepend([StartArray])
      && (src.Peek(k) == ']' ==> k < |src.text|)
  {
  }

  lemma ArraySpells(src: Source, i: nat) returns (t: Tree)
    requires i < |src.text| && !src.flags.trailingCommas && src.Peek(i) == '[' && src.ArrayAt(i).Done?
    requires src.Skip(src.ArrayAt(i).pos).At?
    ensures WellFormed(t) && src.ArrayAt(i).events == Flat(t)
    ensures Reads(src, i, Tokens(t), src.Skip(src.ArrayAt(i).pos).pos)
    decreases |src.text| - i, 3
  {
    ArraySplits(src, i);
    var (k, m) := (src.Skip(i + 1).pos, src.Skip(src.ArrayAt(i).pos).pos);
    var items: seq<Tree> := [];
    if src.Peek(k) == ']' {
      LastMarkSpells(src, k, ']');
      MarkSpells(src, i, '[', [Mark(']')], m);
    } else {
      items := ElementSpells(src, k, 0);
      MarkSpells(src, i, '[', Tokens(items[0]) + MoreItems(items[1..]), m);
    }
    t := Items(items);
    FlatArray(items);
    ArrayTokens(items);
  }

  lemma {:induction false} ArrayTokens(items: seq<Tree>)
    ensures items == [] ==>
              FlatItems(items) + [EndArray(0)] == [EndArray(0)] && Tokens(Items(items)) == [Mark('[')] + [Mark(']')]
    ensures items != [] ==> Tokens(Items(items)) == [Mark('[')] + (Tokens(items[0]) + MoreItems(items[1..]))
  {
  }

  lemma {:induction false} ElementTailSplits(src: Source, i: nat, n: nat)
    requires i <= |src.text| && !src.flags.trailingCommas && src.ElementTail(i, n).Done?
    ensures i < |src.text| && (src.Peek(i) == ']' || src.Peek(i) == ',')
    ensures src.Peek(i) == ']' ==> src.ElementTail(i, n) == Done(i + 1, [EndArray(n)])
    ensures src.Peek(i) == ',' ==>
              src.Skip(i + 1).At? && src.ElementTail(i, n) == src.ElementAt(src.Skip(i + 1).pos, n)
  {
  }

  lemma {:induction false} MemberSplits(src: Source, i: nat, n: nat)
    requires i <= |src.text| && src.MemberAt(i, n).Done?
    ensures src.Peek(i) == '"' && src.strings(src.text, i).Scanned?
    ensures
      var (name, p) := (src.strings(src.text, i).value, src.strings(src.text, i).next);
      && src.Skip(p).At? && src.Peek(src.Skip(p).pos) == ':' && src.Skip(p).pos < |src.text|
      && src.Skip(src.Skip(p).pos + 1).At?
      && src.MemberAt(i, n) == src.MemberValueAt(src.Skip(src.Skip(p).pos + 1).pos, n).Prepend([Key(name)])
  {
  }

  lemma {:induction false} MemberValueSplits(src: Source, i: nat, n: nat)
    requires i <= |src.text| && src.MemberValueAt(i, n).Done?
    ensures src.ValueAt(i).Done? && src.Skip(src.ValueAt(i).pos).At?
    ensures src.MemberValueAt(i, n)
         == src.MemberTail(src.Skip(src.ValueAt(i).pos).pos, n + 1).Prepend(src.ValueAt(i).events)
  {
  }

  lemma {:induction false} MemberTailSplits(src: Source, i: nat, n: nat)
    requires i <= |src.text| && !src.flags.trailingCommas && src.MemberTail(i, n).Done?
    ensures i < |src.text| && (src.Peek(i) == '}' || src.Peek(i) == ',')
    ensures src.Peek(i) == '}' ==> src.MemberTail(i, n) == Done(i + 1, [EndObject(n)])
    ensures src.Peek(i) == ',' ==>
              src.Skip(i + 1).At? && src.MemberTail(i, n) == src.MemberAt(src.Skip(i + 1).pos, n)
  {
  }

  lemma ObjectSplits(src: Source, i: nat)
    requires i < |src.text| && src.Peek(i) == '{' && src.ObjectAt(i).Done?
    ensures src.Skip(i + 1).At?
    ensures
      var k := src.Skip(i + 1).pos;
      src.ObjectAt(i) == (if src.Peek(k) == '}' then Done(k + 1, [EndObject(0)])
                          else src.MemberAt(k, 0)).Prepend([StartObject])
  {
  }

  lemma {:induction false} ElementSplits(src: Source, i: nat, n: nat)
    requires i <= |src.text| && src.ElementAt(i, n).Done?
    ensures src.ValueAt(i).Done? && src.Skip(src.ValueAt(i).pos).At?
    ensures src.ElementAt(i, n)
         == src.ElementTail(src.Skip(src.ValueAt(i).pos).pos, n + 1).Prepend(src.ValueAt(i).events)
  {
  }

  lemma ElementSpells(src: Source, i: nat, n: nat) returns (items: seq<Tree>)
    requires i <= |src.text| && !src.flags.trailingCommas && src.ElementAt(i, n).Done?
    requires src.Skip(src.ElementAt(i, n).pos).At?
    ensures items != [] && AllWellFormed(items)
    ensures src.ElementAt(i, n).events == FlatItems(items) + [EndArray(n + |items|)]
    ensures Reads(src, i, Tokens(items[0]) + MoreItems(items[1..]), src.Skip(src.ElementAt(i, n).pos).pos)
    decreases |src.text| - i, 5
  {
    ElementSplits(src, i, n);
    var k := src.Skip(src.ValueAt(i).pos).pos;
    var t := ValueSpells(src, i);
    var more := MoreItemsSpell(src, k, n + 1);
    items := [t] + more;
    assert items[1..] == more;
    ReadsJoined(src, i, Tokens(t), k, MoreItems(more), src.Skip(src.ElementAt(i, n).pos).pos);
    assert Flat(t) + (FlatItems(more) + [EndArray(n + |items|)]) == FlatItems(items) + [EndArray(n + |items|)];
  }

  lemma MoreItemsSpell(src: Source, i: nat, n: nat) returns (items: seq<Tree>)
    requires i <= |src.text| && !src.flags.trailingCommas && src.ElementTail(i, n).Done?
    requires src.Skip(src.ElementTail(i, n).pos).At?
    ensures AllWellFormed(items) && src.ElementTail(i, n).events == FlatItems(items) + [EndArray(n + |items|)]
    ensures Reads(src, i, MoreItems(items), src.Skip(src.ElementTail(i, n).pos).pos)
    decreases |src.text| - i, 2
  {
    ElementTailSplits(src, i, n);
    if src.Peek(i) == ']' {
      items := [];
      LastMarkSpells(src, i, ']');
    } else {
      items := ElementSpells(src, src.Skip(i + 1).pos, n);
      MarkSpells(src, i, ',', Tokens(items[0]) + MoreItems(items[1..]), src.Skip(src.ElementTail(i, n).pos).pos);
    }
  }

  lemma ObjectSpells(src: Source, i: nat) returns (t: Tree)
    requires i < |src.text| && !src.flags.trailingCommas && src.Peek(i) == '{' && src.ObjectAt(i).Done?
    requires src.Skip(src.ObjectAt(i).pos).At?
    ensures WellFormed(t) && src.ObjectAt(i).events == Flat(t)
    ensures Reads(src, i, Tokens(t), src.Skip(src.ObjectAt(i).pos).pos)
    decreases |src.text| - i, 3
  {
    ObjectSplits(src, i);
    var (k, m) := (src.Skip(i + 1).pos, src.Skip(src.ObjectAt(i).pos).pos);
    var fields: seq<Field> := [];
    if src.Peek(k) == '}' {
      LastMarkSpells(src, k, '}');
      MarkSpells(src, i, '{', [Mark('}')], m);
    } else {
      fields := MemberSpells(src, k, 0);
      MarkSpells(src, i, '{', FieldTokens(fields[0]) + MoreFields(fields[1..]), m);
    }
    t := Fields(fields);
    FlatObject(fields);
    ObjectTokens(fields);
  }

  lemma {:induction false} ObjectTokens(fields: seq<Field>)
    ensures fields == [] ==>
              && FlatFields(fields) + [EndObject(0)] == [EndObject(0)]
              && Tokens(Fields(fields)) == [Mark('{')] + [Mark('}')]
    ensures fields != [] ==> Tokens(Fields(fields)) == [Mark('{')] + (FieldTokens(fields[0]) + MoreFields(fields[1..]))
  {
  }

  /** A name and its colon. */
  lemma {:induction false} NameSpells(src: Source, i: nat, name: string, p: nat)
    requires i <= |src.text| && src.Peek(i) == '"' && src.strings(src.text, i) == Scanned(name, p) && src.Skip(p).At?
    requires src.Peek(src.Skip(p).pos) == ':' && src.Skip(src.Skip(p).pos + 1).At?
    ensures Reads(src, i, [Text(name), Mark(':')], src.Skip(src.Skip(p).pos + 1).pos)
  {
    LastMarkSpells(src, src.Skip(p).pos, ':');
    assert TokenAt(src, i) == Some((Text(name), p));
    ReadsFirst(src, i, Text(name), [Mark(':')], src.Skip(src.Skip(p).pos + 1).pos);
    assert [Text(name), Mark(':')] == [Text(name)] + [Mark(':')];
  }

  lemma MemberSpells(src: Source, i: nat, n: nat) returns (fields: seq<Field>)
    requires i <= |src.text| && !src.flags.trailingCommas && src.MemberAt(i, n).Done?
    requires src.Skip(src.MemberAt(i, n).pos).At?
    ensures fields != [] && AllFieldsWellFormed(fields)
    ensures src.MemberAt(i, n).events == FlatFields(fields) + [EndObject(n + |fields|)]
    ensures Reads(src, i, FieldTokens(fields[0]) + MoreFields(fields[1..]), src.Skip(src.MemberAt(i, n).pos).pos)
    decreases |src.text| - i, 6
  {
    MemberSplits(src, i, n);
    var (name, p) := (src.strings(src.text, i).value, src.strings(src.text, i).next);
    var (v, m) := (src.Skip(src.Skip(p).pos + 1).pos, src.Skip(src.MemberAt(i, n).pos).pos);
    var t, more := MemberValueSpells(src, v, n);
    fields := [Field(name, t)] + more;
    assert fields[1..] == more;
    NameSpells(src, i, name, p);
    ReadsJoined(src, i, [Text(name), Mark(':')], v, Tokens(t) + MoreFields(more), m);
    assert [Text(name), Mark(':')] + (Tokens(t) + MoreFields(more)) == FieldTokens(fields[0]) + MoreFields(more);
    MemberEvents(fields, n);
  }

  lemma MemberValueSpells(src: Source, i: nat, n: nat) returns (t: Tree, more: seq<Field>)
    requires i <= |src.text| && !src.flags.trailingCommas && src.MemberValueAt(i, n).Done?
    requires src.Skip(src.MemberValueAt(i, n).pos).At?
    ensures WellFormed(t) && AllFieldsWellFormed(more)
    ensures src.MemberValueAt(i, n).events == Flat(t) + (FlatFields(more) + [EndObject(n + 1 + |more|)])
    ensures Reads(src, i, Tokens(t) + MoreFields(more), src.Skip(src.MemberValueAt(i, n).pos).pos)
    decreases |src.text| - i, 5
  {
    MemberValueSplits(src, i, n);
    var k := src.Skip(src.ValueAt(i).pos).pos;
    t := ValueSpells(src, i);
    more := MoreFieldsSpell(src, k, n + 1);
    ReadsJoined(src, i, Tokens(t), k, MoreFields(more), src.Skip(src.MemberValueAt(i, n).pos).pos);
  }

  lemma MoreFieldsSpell(src: Source, i: nat, n: nat) returns (fields: seq<Field>)
    requires i <= |src.text| && !src.flags.trailingCommas && src.MemberTail(i, n).Done?
    requires src.Skip(src.MemberTail(i, n).pos).At?
    ensures AllFieldsWellFormed(fields) && src.MemberTail(i, n).events == FlatFields(fields) + [EndObject(n + |fields|)]
    ensures Reads(src, i, MoreFields(fields), src.Skip(src.MemberTail(i, n).pos).pos)
    decreases |src.text| - i, 2
  {
    MemberTailSplits(src, i, n);
    if src.Peek(i) == '}' {
      fields := [];
      LastMarkSpells(src, i, '}');
    } else {
      fields := MemberSpells(src, src.Skip(i + 1).pos, n);
      MarkSpells(src, i, ',', FieldTokens(fields[0]) + MoreFields(fields[1..]), src.Skip(src.MemberTail(i, n).pos).pos);
    }
  }

  // The document.

  /** A text that spells a tree is accepted, with the tree's events. */
  lemma {:induction false} SpelledAccepted(src: Source, t: Tree)
    requires !src.flags.trailingCommas && !src.flags.stopWhenDone && WellFormed(t) && Spells(src, t)
    ensures src.Document().Done? && src.Document().events == Flat(t)
  {
    SpellsReads(src, t);
    var i := src.Skip(0).pos;
    var j: nat :| Reads(src, i, Tokens(t), j) && src.Peek(j) == '\0';
    assert Tokens(t) + [] == Tokens(t);
    var m := ValueParsed(src, i, t, [], j);
    assert Flat(t) + [] == Flat(t);
  }

  /** An accepted text spells a tree. */
  lemma AcceptedSpells(src: Source) returns (t: Tree)
    requires !src.flags.trailingCommas && !src.flags.stopWhenDone && src.Document().Done?
    ensures WellFormed(t) && Spells(src, t)
  {
    var i := src.Skip(0).pos;
    var j := src.Skip(src.ValueAt(i).pos).pos;
    t := ValueSpells(src, i);
    SpellsReads(src, t);
  }

  /** With the default flags, comments or not, the parser accepts exactly the texts of the language. */
  lemma Language(src: Source)
    requires !src.flags.trailingCommas && !src.flags.stopWhenDone
    ensures src.Document().Done? <==> exists t :: WellFormed(t) && Spells(src, t)
    ensures forall t :: WellFormed(t) && Spells(src, t) ==> src.Document().events == Flat(t)
  {
    if src.Document().Done? {
      var t := AcceptedSpells(src);
    }
    forall t | WellFormed(t) && Spells(src, t) ensures src.Document().Done? && src.Document().events == Flat(t) {
      SpelledAccepted(src, t);
    }
  }
}
