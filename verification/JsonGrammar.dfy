/**
 The recursive-descent JSON parser as a function of the text: what it accepts, the events it
 publishes and the error it reports. Each function below is one program point of the parser,
 so that the pushdown parser can be compared with it between any two tokens.
 */
module JsonGrammar {
  import opened JsonEvents

  type Text = seq<char>

  datatype Flags = Flags(comments: bool, trailingCommas: bool, stopWhenDone: bool)

  /** `Scalar` stands for the codes that only the string and number scanners report. */
  datatype ErrorCode =
    | DocumentEmpty
    | DocumentRootNotSingular
    | ValueInvalid
    | ObjectMissName
    | ObjectMissColon
    | ObjectMissCommaOrCurlyBracket
    | ArrayMissCommaOrSquareBracket
    | UnspecificSyntaxError
    | Scalar(reason: nat)

  datatype Scan<+T> = Scanned(value: T, next: nat) | Rejected(code: ErrorCode, at: nat)

  /** A scanner for one scalar: when it succeeds it has consumed something, and nothing past the end. */
  type StringScanner = f: (Text, nat) -> Scan<string>
    | forall t: Text, i: nat :: f(t, i).Scanned? ==> i < f(t, i).next <= |t|
    witness (t: Text, i: nat) => Rejected(ValueInvalid, i)
  type NumberScanner = f: (Text, nat) -> Scan<Number>
    | forall t: Text, i: nat :: f(t, i).Scanned? ==> i < f(t, i).next <= |t|
    witness (t: Text, i: nat) => Rejected(ValueInvalid, i)

  datatype Skipped = At(pos: nat) | Unclosed(at: nat)

  datatype Outcome =
    | Done(pos: nat, events: seq<Event>)
    | Fail(code: ErrorCode, at: nat, events: seq<Event>)
  {
    function Prepend(before: seq<Event>): (o: Outcome)
      ensures events == [] ==> o.events == before
      ensures before == [] ==> o == this
    {
      this.(events := before + events)
    }
  }

  lemma PrependTwice(o: Outcome, a: seq<Event>, b: seq<Event>)
    ensures o.Prepend(b).Prepend(a) == o.Prepend(a + b)
  {
  }

  predicate Blank(c: char) {
    c == ' ' || c == '\n' || c == '\r' || c == '\t'
  }

  /** Characters that no JSON value starts with and that are tokens of their own. */
  predicate Misplaced(c: char) {
    c == ']' || c == '}' || c == ',' || c == ':'
  }

  datatype Source = Source(text: Text, flags: Flags, strings: StringScanner, numbers: NumberScanner) {

    /** The stream reads a null character at its end. */
    function Peek(i: nat): char {
      if i < |text| then text[i] else '\0'
    }

    function SkipBlanks(i: nat): (j: nat)
      ensures i <= j && (i <= |text| ==> j <= |text|)
      decreases |text| - i
    {
      if i < |text| && Blank(text[i]) then SkipBlanks(i + 1) else i
    }

    /** The end of a block comment, or where the text ends inside it. */
    function BlockEnd(i: nat): (r: Skipped)
      ensures r.At? ==> i < r.pos <= |text|
      decreases |text| - i
    {
      if Peek(i) == '\0' then Unclosed(i)
      else if Peek(i) == '*' && Peek(i + 1) == '/' then At(i + 2)
      else BlockEnd(i + 1)
    }

    function LineEnd(i: nat): (j: nat)
      ensures i <= j && (i <= |text| ==> j <= |text|)
      decreases |text| - i
    {
      if Peek(i) == '\0' then i
      else if Peek(i) == '\n' then i + 1
      else LineEnd(i + 1)
    }

    /** The end of the comment whose first solidus is at `i`. */
    function CommentEnd(i: nat): (r: Skipped)
      requires i < |text|
      ensures r.At? ==> i < r.pos <= |text|
    {
      if Peek(i + 1) == '*' then BlockEnd(i + 2)
      else if Peek(i + 1) == '/' then At(LineEnd(i + 2))
      else Unclosed(i + 1)
    }

    /** Comments, each with the blanks after it. */
    function SkipComments(i: nat): (r: Skipped)
      requires i <= |text|
      ensures r.At? ==> i <= r.pos <= |text|
      decreases |text| - i
    {
      if Peek(i) != '/' then At(i)
      else
        match CommentEnd(i)
        case Unclosed(at) => Unclosed(at)
        case At(j) => SkipComments(SkipBlanks(j))
    }

    function Skip(i: nat): (r: Skipped)
      requires i <= |text|
      ensures r.At? ==> i <= r.pos <= |text|
    {
      if flags.comments then SkipComments(SkipBlanks(i)) else At(SkipBlanks(i))
    }

    /** Where `word` and the text at `i` first differ. */
    function Mismatch(i: nat, word: string): (j: nat)
      requires '\0' !in word
      ensures i <= j <= i + |word|
      ensures i <= |text| ==> j <= |text|
      decreases |word|
    {
      if word == [] || Peek(i) != word[0] then i else Mismatch(i + 1, word[1..])
    }

    function Literal(i: nat, word: string, e: Event): (o: Outcome)
      requires '\0' !in word && word != []
      requires i <= |text|
      ensures o.Done? ==> i < o.pos <= |text|
    {
      var j := Mismatch(i, word);
      if j == i + |word| then Done(j, [e]) else Fail(ValueInvalid, j, [])
    }

    predicate StartsNumber(c: char) {
      c == '-' || '0' <= c <= '9' || c == 'N' || c == 'I'
    }

    /** Any value that is neither an object nor an array. */
    function ScalarAt(i: nat): (o: Outcome)
      requires i <= |text|
      ensures o.Done? ==> i < o.pos <= |text|
    {
      if Peek(i) == 'n' then Literal(i, "null", Null)
      else if Peek(i) == 't' then Literal(i, "true", Bool(true))
      else if Peek(i) == 'f' then Literal(i, "false", Bool(false))
      else if Peek(i) == '"' then
        match strings(text, i)
        case Rejected(code, at) => Fail(code, at, [])
        case Scanned(s, j) => Done(j, [Str(s)])
      else if StartsNumber(Peek(i)) then
        match numbers(text, i)
        case Rejected(code, at) => Fail(code, at, [])
        case Scanned(n, j) => Done(j, [Num(n)])
      else Fail(ValueInvalid, i, [])
    }

    function ValueAt(i: nat): (o: Outcome)
      requires i <= |text|
      ensures o.Done? ==> i < o.pos <= |text|
      decreases |text| - i, 1
    {
      if Peek(i) == '{' then ObjectAt(i)
      else if Peek(i) == '[' then ArrayAt(i)
      else ScalarAt(i)
    }

    // Arrays: `n` elements are complete.

    function ArrayAt(i: nat): (o: Outcome)
      requires i <= |text| && Peek(i) == '['
      ensures o.Done? ==> i < o.pos <= |text|
      decreases |text| - i, 0
    {
      match Skip(i + 1)
      case Unclosed(at) => Fail(UnspecificSyntaxError, at, [StartArray])
      case At(j) => ArrayOpen(j, 0).Prepend([StartArray])
    }

    function ArrayOpen(i: nat, n: nat): (o: Outcome)
      requires i <= |text|
      ensures o.Done? ==> i < o.pos <= |text|
      decreases |text| - i, 3
    {
      if Peek(i) == ']' then Done(i + 1, [EndArray(n)]) else ElementAt(i, n)
    }

    function ElementAt(i: nat, n: nat): (o: Outcome)
      requires i <= |text|
      ensures o.Done? ==> i < o.pos <= |text|
      decreases |text| - i, 2
    {
      match ValueAt(i)
      case Fail(code, at, evs) => Fail(code, at, evs)
      case Done(p, evs) =>
        match Skip(p)
        case Unclosed(at) => Fail(UnspecificSyntaxError, at, evs)
        case At(j) => ElementTail(j, n + 1).Prepend(evs)
    }

    function ElementTail(i: nat, n: nat): (o: Outcome)
      requires i <= |text|
      ensures o.Done? ==> i < o.pos <= |text|
      decreases |text| - i, 0
    {
      if Peek(i) == ',' then
        match Skip(i + 1)
        case Unclosed(at) => Fail(UnspecificSyntaxError, at, [])
        case At(j) => ElementAfterComma(j, n)
      else if Peek(i) == ']' then Done(i + 1, [EndArray(n)])
      else Fail(ArrayMissCommaOrSquareBracket, i, [])
    }

    function ElementAfterComma(i: nat, n: nat): (o: Outcome)
      requires i <= |text|
      ensures o.Done? ==> i < o.pos <= |text|
      decreases |text| - i, 3
    {
      if flags.trailingCommas && Peek(i) == ']' then Done(i + 1, [EndArray(n)])
      else ElementAt(i, n)
    }

    // Objects: `n` members are complete.

    function ObjectAt(i: nat): (o: Outcome)
      requires i <= |text| && Peek(i) == '{'
      ensures o.Done? ==> i < o.pos <= |text|
      decreases |text| - i, 0
    {
      match Skip(i + 1)
      case Unclosed(at) => Fail(UnspecificSyntaxError, at, [StartObject])
      case At(j) => ObjectOpen(j, 0).Prepend([StartObject])
    }

    function ObjectOpen(i: nat, n: nat): (o: Outcome)
      requires i <= |text|
      ensures o.Done? ==> i < o.pos <= |text|
      decreases |text| - i, 3
    {
      if Peek(i) == '}' then Done(i + 1, [EndObject(n)]) else MemberAt(i, n)
    }

    function MemberAt(i: nat, n: nat): (o: Outcome)
      requires i <= |text|
      ensures o.Done? ==> i < o.pos <= |text|
      decreases |text| - i, 2
    {
      if Peek(i) != '"' then Fail(ObjectMissName, i, [])
      else
        match strings(text, i)
        case Rejected(code, at) => Fail(code, at, [])
        case Scanned(k, p) =>
          match Skip(p)
          case Unclosed(at) => Fail(UnspecificSyntaxError, at, [Key(k)])
          case At(j) => ColonAt(j, n).Prepend([Key(k)])
    }

    function ColonAt(i: nat, n: nat): (o: Outcome)
      requires i <= |text|
      ensures o.Done? ==> i < o.pos <= |text|
      decreases |text| - i, 0
    {
      if Peek(i) != ':' then Fail(ObjectMissColon, i, [])
      else
        match Skip(i + 1)
        case Unclosed(at) => Fail(UnspecificSyntaxError, at, [])
        case At(j) => MemberValueAt(j, n)
    }

    function MemberValueAt(i: nat, n: nat): (o: Outcome)
      requires i <= |text|
      ensures o.Done? ==> i < o.pos <= |text|
      decreases |text| - i, 2
    {
      match ValueAt(i)
      case Fail(code, at, evs) => Fail(code, at, evs)
      case Done(p, evs) =>
        match Skip(p)
        case Unclosed(at) => Fail(UnspecificSyntaxError, at, evs)
        case At(j) => MemberTail(j, n + 1).Prepend(evs)
    }

    function MemberTail(i: nat, n: nat): (o: Outcome)
      requires i <= |text|
      ensures o.Done? ==> i < o.pos <= |text|
      decreases |text| - i, 0
    {
      if Peek(i) == ',' then
        match Skip(i + 1)
        case Unclosed(at) => Fail(UnspecificSyntaxError, at, [])
        case At(j) => MemberAfterComma(j, n)
      else if Peek(i) == '}' then Done(i + 1, [EndObject(n)])
      else Fail(ObjectMissCommaOrCurlyBracket, i, [])
    }

    function MemberAfterComma(i: nat, n: nat): (o: Outcome)
      requires i <= |text|
      ensures o.Done? ==> i < o.pos <= |text|
      decreases |text| - i, 3
    {
      if flags.trailingCommas && Peek(i) == '}' then Done(i + 1, [EndObject(n)])
      else MemberAt(i, n)
    }

    // The document: one value and, unless the flag says otherwise, nothing after it.

    function RootEnd(i: nat): Outcome
      requires i <= |text|
    {
      if flags.stopWhenDone then Done(i, [])
      else
        match Skip(i)
        case Unclosed(at) => Fail(UnspecificSyntaxError, at, [])
        case At(j) => if Peek(j) != '\0' then Fail(DocumentRootNotSingular, j, []) else Done(j, [])
    }

    function RootAt(i: nat): Outcome
      requires i <= |text|
    {
      if Peek(i) == '\0' then Fail(DocumentEmpty, i, [])
      else
        match ValueAt(i)
        case Fail(code, at, evs) => Fail(code, at, evs)
        case Done(p, evs) => RootEnd(p).Prepend(evs)
    }

    function Document(): Outcome {
      match Skip(0)
      case Unclosed(at) => Fail(UnspecificSyntaxError, at, [])
      case At(i) => RootAt(i)
    }

    /** The first significant character of the text is one that no value starts with. */
    predicate StartsMisplaced() {
      Skip(0).At? && Misplaced(Peek(Skip(0).pos))
    }

    /** What the pushdown parser reports: the same, but for one error code. */
    function Pushdown(): Outcome {
      if StartsMisplaced() then Fail(DocumentEmpty, Skip(0).pos, []) else Document()
    }
  }

  /** Exactly the texts that start misplaced tell the two parsers apart, and only by that code. */
  lemma MisplacedStart(src: Source)
    ensures src.Pushdown() != src.Document() <==> src.StartsMisplaced()
    ensures src.StartsMisplaced() ==> src.Document() == src.Pushdown().(code := ValueInvalid)
  {
    if src.StartsMisplaced() {
      var i := src.Skip(0).pos;
      assert src.ValueAt(i) == src.ScalarAt(i);
    }
  }

  /** A text that is a closing bracket. */
  lemma BracketAlone(flags: Flags, strings: StringScanner, numbers: NumberScanner)
    ensures
      var src := Source("]", flags, strings, numbers);
      src.StartsMisplaced()
      && src.Document() == Fail(ValueInvalid, 0, []) && src.Pushdown() == Fail(DocumentEmpty, 0, [])
  {
    MisplacedStart(Source("]", flags, strings, numbers));
  }
}
