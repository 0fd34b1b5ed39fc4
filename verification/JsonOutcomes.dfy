/**
 Every outcome of the JSON parser, with any flags, by the tokens of the text: which token may follow which, the
 events that tokens stand for, and the error code, which says what was missing where no token could follow.
 */
module JsonOutcomes {
  import opened JsonEvents
  import opened JsonGrammar
  import opened JsonLanguage
  import opened Options

  type Words = seq<Token>

  /** A bracket that is open, and how many values are complete in it. */
  datatype Bracket = Bracket(c: char, n: nat)

  function Final(w: Words): Token
    requires w != []
  {
    w[|w| - 1]
  }

  /** One value more is complete in the innermost bracket. */
  function Counted(open: seq<Bracket>): seq<Bracket> {
    if open == [] then []
    else
      var b := open[|open| - 1];
      open[..|open| - 1] + [b.(n := b.n + 1)]
  }

  function OpenAfter(open: seq<Bracket>, name: bool, t: Token): seq<Bracket> {
    match t
    case Mark(c) =>
      if c in "[{" then open + [Bracket(c, 0)]
      else if c in "]}" then Counted(if open == [] then [] else open[..|open| - 1])
      else open
    case Text(_) => if name then open else Counted(open)
    case Atom(_) => Counted(open)
  }

  /** The brackets that are open after these tokens, the innermost last. */
  function Open(w: Words): seq<Bracket>
    decreases |w|, 0
  {
    if w == [] then []
    else
      var front := w[..|w| - 1];
      OpenAfter(Open(front), NameNext(front), Final(w))
  }

  predicate In(w: Words, c: char)
    decreases |w|, 1
  {
    Open(w) != [] && Open(w)[|Open(w)| - 1].c == c
  }

  /** A name is next: after a brace, or a comma between members. */
  predicate NameNext(w: Words)
    decreases |w|, 2
  {
    w != [] && (Final(w) == Mark('{') || (Final(w) == Mark(',') && In(w, '{')))
  }

  predicate ValueNext(w: Words) {
    w == [] || Final(w) == Mark('[') || Final(w) == Mark(':') || (Final(w) == Mark(',') && In(w, '['))
  }

  predicate NameLast(w: Words) {
    w != [] && Final(w).Text? && NameNext(w[..|w| - 1])
  }

  predicate ValueLast(w: Words) {
    && w != []
    && match Final(w)
       case Mark(c) => c in "]}"
       case Text(_) => !NameNext(w[..|w| - 1])
       case Atom(_) => true
  }

  /** The tokens are a document. */
  predicate Whole(w: Words) { ValueLast(w) && Open(w) == [] }

  predicate MayClose(flags: Flags, w: Words, bracket: char) {
    && w != [] && In(w, bracket)
    && (ValueLast(w) || Final(w) == Mark(bracket) || (flags.trailingCommas && Final(w) == Mark(',')))
  }

  predicate MayFollow(flags: Flags, w: Words, t: Token) {
    match t
    case Mark('[') => ValueNext(w)
    case Mark('{') => ValueNext(w)
    case Mark(':') => NameLast(w)
    case Mark(',') => ValueLast(w) && Open(w) != []
    case Mark(']') => MayClose(flags, w, '[')
    case Mark('}') => MayClose(flags, w, '{')
    case Mark(_) => false
    case Text(_) => ValueNext(w) || NameNext(w)
    case Atom(_) => ValueNext(w)
  }

  predicate Viable(flags: Flags, w: Words) {
    forall k :: 0 <= k < |w| ==> MayFollow(flags, w[..k], w[k])
  }

  /** How many values are complete in the innermost bracket. */
  function Complete(w: Words): nat {
    if Open(w) == [] then 0 else Open(w)[|Open(w)| - 1].n
  }

  function EventsOf(before: Words, t: Token): seq<Event> {
    match t
    case Mark('[') => [StartArray]
    case Mark('{') => [StartObject]
    case Mark(']') => [EndArray(Complete(before))]
    case Mark('}') => [EndObject(Complete(before))]
    case Mark(_) => []
    case Text(s) => if NameNext(before) then [Key(s)] else [Str(s)]
    case Atom(e) => [e]
  }

  function Events(w: Words): seq<Event> {
    if w == [] then [] else Events(w[..|w| - 1]) + EventsOf(w[..|w| - 1], Final(w))
  }

  // Reading the text.

  /** The text begins with these tokens, the last of which ends at `p`. */
  ghost predicate SpeltTo(src: Source, w: Words, p: nat)
    decreases |w|, 0
  {
    if w == [] then p == 0
    else exists q: nat :: SpeltPast(src, w[..|w| - 1], q) && Stands(src, q, Final(w), p)
  }

  /** And with what may stand after it, which ends at `q`. */
  ghost predicate SpeltPast(src: Source, w: Words, q: nat)
    decreases |w|, 1
  {
    exists p: nat :: SpeltTo(src, w, p) && p <= |src.text| && Between(src.text, src.flags.comments, p, q)
  }

  /** From `i` the text goes on to `at`, its end, without an end mark. */
  predicate Endless(text: seq<char>, i: nat, at: nat) {
    && i <= at <= |text| && (at < |text| ==> text[at] == '\0')
    && forall k :: i <= k < at ==> text[k] != '\0' && (k + 2 <= |text| ==> text[k..k + 2] != "*/")
  }

  /** After white space and comments, a solidus that begins no comment, or a comment that does not end. */
  ghost predicate Unfinished(text: seq<char>, i: nat, at: nat)
    requires i <= |text|
    decreases |text| - i
  {
    exists a: nat :: White(text, i, a) && a < |text| && text[a] == '/' && (
      || (at == a + 1 && (a + 1 == |text| || text[a + 1] !in "*/"))
      || (a + 2 <= |text| && text[a + 1] == '*' && Endless(text, a + 2, at))
      || (exists b: nat ::
            a < b <= |text| && (BlockComment(text, a, b) || LineComment(text, a, b)) && Unfinished(text, b, at)))
  }

  /** The text has the first letters of the word up to `at`, and not the next. */
  predicate Breaks(src: Source, word: string, i: nat, at: nat) {
    && i < at <= |src.text| && at < i + |word|
    && src.text[i..at] == word[..at - i] && src.Peek(at) != word[at - i]
  }

  /** No value begins at `i`, or a word that is broken off. */
  predicate Misspelt(src: Source, i: nat, at: nat) {
    || (at == i && src.Peek(i) !in "[{\"ntf-0123456789NI")
    || Breaks(src, "null", i, at) || Breaks(src, "true", i, at) || Breaks(src, "false", i, at)
  }

  /** A scanner refuses what begins at `i`. */
  predicate Unscanned(src: Source, w: Words, i: nat, code: ErrorCode, at: nat) {
    || (src.Peek(i) == '"' && (ValueNext(w) || NameNext(w)) && src.strings(src.text, i) == Rejected(code, at))
    || (src.Peek(i) in "-0123456789NI" && ValueNext(w) && src.numbers(src.text, i) == Rejected(code, at))
  }

  /** After the tokens, `code` says what should stand at `i`. */
  predicate Expected(src: Source, w: Words, i: nat, code: ErrorCode, at: nat) {
    match code
    case DocumentEmpty => w == [] && src.Peek(i) == '\0' && at == i
    case DocumentRootNotSingular => Whole(w) && src.Peek(i) != '\0' && at == i
    case ValueInvalid => ValueNext(w) && (w == [] ==> src.Peek(i) != '\0') && Misspelt(src, i, at)
    case ObjectMissName => NameNext(w) && src.Peek(i) != '"' && at == i
    case ObjectMissColon => NameLast(w) && src.Peek(i) != ':' && at == i
    case ObjectMissCommaOrCurlyBracket => ValueLast(w) && In(w, '{') && src.Peek(i) !in ",}" && at == i
    case ArrayMissCommaOrSquareBracket => ValueLast(w) && In(w, '[') && src.Peek(i) !in ",]" && at == i
    case _ => false
  }

  /** No token that may follow stands at `i`, and `code` says why. */
  ghost predicate Missing(src: Source, w: Words, i: nat, code: ErrorCode, at: nat) {
    && (forall t: Token, p: nat :: Stands(src, i, t, p) ==> !MayFollow(src.flags, w, t))
    && (Unscanned(src, w, i, code, at) || Expected(src, w, i, code, at))
  }

  /** The text goes no further than these tokens. */
  ghost predicate Halts(src: Source, w: Words, code: ErrorCode, at: nat) {
    && !(src.flags.stopWhenDone && Whole(w))
    && (|| (exists i: nat :: SpeltPast(src, w, i) && Missing(src, w, i, code, at))
        || (code == UnspecificSyntaxError && src.flags.comments
            && exists p: nat :: SpeltTo(src, w, p) && p <= |src.text| && Unfinished(src.text, p, at)))
  }

  ghost predicate Accepted(src: Source, w: Words, pos: nat, events: seq<Event>) {
    && Viable(src.flags, w) && Whole(w) && Events(w) == events
    && if src.flags.stopWhenDone then SpeltTo(src, w, pos) else SpeltPast(src, w, pos) && src.Peek(pos) == '\0'
  }

  ghost predicate Refused(src: Source, w: Words, code: ErrorCode, at: nat, events: seq<Event>) {
    Viable(src.flags, w) && Events(w) == events && Halts(src, w, code, at)
  }

  /** The text is accepted, or refused, with these tokens. */
  ghost predicate Ends(src: Source, w: Words, o: Outcome) {
    match o
    case Done(pos, events) => Accepted(src, w, pos, events)
    case Fail(code, at, events) => Refused(src, w, code, at, events)
  }

  // One token more.

  lemma {:induction false} Appended(src: Source, w: Words, i: nat, t: Token, p: nat)
    requires i <= |src.text| && SpeltPast(src, w, i) && TokenAt(src, i) == Some((t, p))
    requires Viable(src.flags, w) && MayFollow(src.flags, w, t)
    ensures var v := w + [t];
            && SpeltTo(src, v, p) && Viable(src.flags, v)
            && v[..|v| - 1] == w && Final(v) == t
            && Open(v) == OpenAfter(Open(w), NameNext(w), t) && Events(v) == Events(w) + EventsOf(w, t)
  {
    var v := w + [t];
    assert v[..|w|] == w;
    StandsAt(src, i, t, p);
    forall k | 0 <= k < |v| ensures MayFollow(src.flags, v[..k], v[k]) {
      assert k < |w| ==> v[..k] == w[..k] && v[k] == w[k];
    }
    assert SpeltPast(src, v[..|v| - 1], i) && Stands(src, i, Final(v), p);
  }

  lemma {:induction false} EndlessBlock(src: Source, i: nat, at: nat)
    requires i <= |src.text|
    ensures Endless(src.text, i, at) <==> src.BlockEnd(i) == Unclosed(at)
    decreases |src.text| - i
  {
    MarkAt(src.text, i);
    if src.Peek(i) != '\0' && !(src.Peek(i) == '*' && src.Peek(i + 1) == '/') {
      EndlessBlock(src, i + 1, at);
      assert Endless(src.text, i, at) <==> i != at && Endless(src.text, i + 1, at);
    }
  }

  /** A comment does not end exactly when skipping it fails. */
  lemma {:induction false} UnfinishedComments(src: Source, i: nat, at: nat)
    requires i <= |src.text| && src.flags.comments
    ensures Unfinished(src.text, i, at) <==> src.Skip(i) == Unclosed(at)
    decreases |src.text| - i
  {
    var a := src.SkipBlanks(i);
    WhiteSkips(src, i, a);
    forall b: nat ensures White(src.text, i, b) ==> b == a {
      WhiteSkips(src, i, b);
    }
    if src.Peek(a) == '/' {
      UnfinishedComment(src, a, at);
      forall b: nat
        ensures BlockComment(src.text, a, b) || LineComment(src.text, a, b) <==> src.CommentEnd(a) == At(b)
        ensures src.CommentEnd(a) == At(b) ==> (Unfinished(src.text, b, at) <==> src.Skip(b) == Unclosed(at))
      {
        CommentEnds(src, a, b);
        if src.CommentEnd(a) == At(b) {
          UnfinishedComments(src, b, at);
        }
      }
    }
  }

  lemma UnfinishedComment(src: Source, a: nat, at: nat)
    requires a < |src.text| && src.text[a] == '/'
    ensures src.CommentEnd(a) == Unclosed(at) <==>
              || (at == a + 1 && (a + 1 == |src.text| || src.text[a + 1] !in "*/"))
              || (a + 2 <= |src.text| && src.text[a + 1] == '*' && Endless(src.text, a + 2, at))
  {
    if src.Peek(a + 1) == '*' {
      EndlessBlock(src, a + 2, at);
    }
  }

  /** After the last token. */
  lemma {:induction false} Passed(src: Source, w: Words, p: nat)
    requires p <= |src.text| && SpeltTo(src, w, p)
    ensures src.Skip(p).At? ==> SpeltPast(src, w, src.Skip(p).pos)
    ensures src.Skip(p).Unclosed? && !(src.flags.stopWhenDone && Whole(w)) ==>
              Halts(src, w, UnspecificSyntaxError, src.Skip(p).at)
  {
    match src.Skip(p) {
      case At(q) => BetweenSkips(src, p, q);
      case Unclosed(at) => UnfinishedComments(src, p, at);
    }
  }

  /** The text does not go on. */
  lemma {:induction false} Stopped(src: Source, w: Words, i: nat, code: ErrorCode, at: nat)
    requires i <= |src.text| && SpeltPast(src, w, i) && !(src.flags.stopWhenDone && Whole(w))
    requires TokenAt(src, i).Some? ==> !MayFollow(src.flags, w, TokenAt(src, i).value.0)
    requires Unscanned(src, w, i, code, at) || Expected(src, w, i, code, at)
    ensures Halts(src, w, code, at)
  {
    forall t: Token, p: nat | Stands(src, i, t, p) ensures !MayFollow(src.flags, w, t) {
      StandsAt(src, i, t, p);
    }
    assert Missing(src, w, i, code, at);
  }

  // Values.

  lemma {:induction false} MismatchBreaks(src: Source, word: string, i: nat)
    requires '\0' !in word && i <= |src.text|
    ensures var at := src.Mismatch(i, word);
            && (at < i + |word| ==> src.Peek(at) != word[at - i])
            && at <= |src.text| && src.text[i..at] == word[..at - i]
    decreases |word|
  {
    if word != [] && src.Peek(i) == word[0] {
      MismatchBreaks(src, word[1..], i + 1);
      var at := src.Mismatch(i, word);
      assert src.text[i..at] == [src.text[i]] + src.text[i + 1..at];
      assert word[..at - i] == [word[0]] + word[1..][..at - i - 1];
    }
  }

  lemma WordMissing(src: Source, i: nat, word: string, e: Event)
    requires '\0' !in word && word != [] && i <= |src.text| && src.Peek(i) == word[0] && src.Literal(i, word, e).Fail?
    ensures var o := src.Literal(i, word, e); o.code == ValueInvalid && Breaks(src, word, i, o.at) && o.events == []
  {
    MismatchBreaks(src, word, i);
    assert src.Mismatch(i, word) == src.Mismatch(i + 1, word[1..]);
  }

  /** A scalar that is not scanned. */
  lemma ScalarMissing(src: Source, w: Words, i: nat)
    requires i <= |src.text| && src.Peek(i) !in "[{" && ValueNext(w) && (w == [] ==> src.Peek(i) != '\0')
    requires src.ScalarAt(i).Fail?
    ensures Unscanned(src, w, i, src.ScalarAt(i).code, src.ScalarAt(i).at)
         || Expected(src, w, i, src.ScalarAt(i).code, src.ScalarAt(i).at)
    ensures src.ScalarAt(i).events == []
  {
    if src.Peek(i) == 'n' {
      WordMissing(src, i, "null", Null);
    } else if src.Peek(i) == 't' {
      WordMissing(src, i, "true", Bool(true));
    } else if src.Peek(i) == 'f' {
      WordMissing(src, i, "false", Bool(false));
    }
  }

  /** What a value, or the rest of an array or object, is read as: after `w` as `v`. */
  ghost predicate Traced(src: Source, w: Words, o: Outcome, v: Words, open: seq<Bracket>) {
    && Viable(src.flags, v) && Events(v) == Events(w) + o.events
    && match o
       case Done(p, _) => SpeltTo(src, v, p) && ValueLast(v) && Open(v) == open
       case Fail(code, at, _) => Halts(src, v, code, at)
  }

  /** A mark that is none of a value, and ends no array, does not follow. */
  lemma MarkMisplaced(flags: Flags, w: Words, c: char)
    requires ValueNext(w) && c !in "[{" && (c == ']' ==> !MayClose(flags, w, '['))
    ensures !MayFollow(flags, w, Mark(c))
  {
  }

  lemma ScalarScanned(src: Source, w: Words, i: nat) returns (v: Words)
    requires i <= |src.text| && SpeltPast(src, w, i) && Viable(src.flags, w) && ValueNext(w)
    requires src.Peek(i) !in "[{" && src.ScalarAt(i).Done?
    ensures Traced(src, w, src.ScalarAt(i), v, Counted(Open(w)))
  {
    var (p, e) := (src.ScalarAt(i).pos, src.ScalarAt(i).events[0]);
    v := w + [LeafToken(e)];
    Appended(src, w, i, LeafToken(e), p);
  }

  lemma {:induction false} ScalarRefused(src: Source, w: Words, i: nat)
    requires i <= |src.text| && SpeltPast(src, w, i) && Viable(src.flags, w)
    requires ValueNext(w) && (w == [] ==> src.Peek(i) != '\0') && src.Peek(i) !in "[{"
    requires src.Peek(i) == ']' ==> !MayClose(src.flags, w, '[')
    requires src.ScalarAt(i).Fail?
    ensures Traced(src, w, src.ScalarAt(i), w, Counted(Open(w)))
  {
    ScalarMissing(src, w, i);
    MarkMisplaced(src.flags, w, src.Peek(i));
    Stopped(src, w, i, src.ScalarAt(i).code, src.ScalarAt(i).at);
    assert Events(w) + [] == Events(w);
  }

  lemma ScalarTraced(src: Source, w: Words, i: nat) returns (v: Words)
    requires i <= |src.text| && SpeltPast(src, w, i) && Viable(src.flags, w)
    requires ValueNext(w) && (w == [] ==> src.Peek(i) != '\0') && src.Peek(i) !in "[{"
    requires src.Peek(i) == ']' ==> !MayClose(src.flags, w, '[')
    ensures Traced(src, w, src.ScalarAt(i), v, Counted(Open(w)))
  {
    v := w;
    if src.ScalarAt(i).Done? {
      v := ScalarScanned(src, w, i);
    } else {
      ScalarRefused(src, w, i);
    }
  }

  /** What was read before, and its events. */
  lemma {:induction false} TracedAfter(src: Source, w: Words, before: seq<Event>, u: Words, o: Outcome, v: Words,
      open: seq<Bracket>)
    requires Events(u) == Events(w) + before && Traced(src, u, o, v, open)
    ensures Traced(src, w, o.Prepend(before), v, open)
  {
    assert Events(w) + before + o.events == Events(w) + (before + o.events);
  }

  /** A comment that does not end after what was read. */
  lemma {:induction false} HaltedTraced(src: Source, w: Words, before: seq<Event>, u: Words, p: nat, open: seq<Bracket>)
    requires p <= |src.text| && SpeltTo(src, u, p) && src.Skip(p).Unclosed? && Open(u) != []
    requires Events(u) == Events(w) + before && Viable(src.flags, u)
    ensures Traced(src, w, Fail(UnspecificSyntaxError, src.Skip(p).at, before), u, open)
  {
    Passed(src, u, p);
  }

  /** The tokens end in a bracket of this kind, `n` values of it being complete. */
  predicate Inside(flags: Flags, w: Words, open: seq<Bracket>, c: char, n: nat) {
    w != [] && Viable(flags, w) && Open(w) == open + [Bracket(c, n)]
  }

  lemma {:induction false} InsideIs(flags: Flags, w: Words, open: seq<Bracket>, c: char, n: nat)
    requires Inside(flags, w, open, c, n)
    ensures Complete(w) == n && In(w, c) && Open(w)[..|Open(w)| - 1] == open && Open(w) != []
  {
  }

  lemma {:induction false} MarkRead(src: Source, w: Words, i: nat, c: char)
    requires i <= |src.text| && src.Peek(i) == c && Structural(c)
    requires SpeltPast(src, w, i) && Viable(src.flags, w) && MayFollow(src.flags, w, Mark(c))
    ensures
      var v := w + [Mark(c)];
      && i < |src.text| && SpeltTo(src, v, i + 1) && Viable(src.flags, v)
      && v[..|v| - 1] == w && Final(v) == Mark(c)
      && Open(v) == OpenAfter(Open(w), NameNext(w), Mark(c)) && Events(v) == Events(w) + EventsOf(w, Mark(c))
  {
    Appended(src, w, i, Mark(c), i + 1);
  }

  lemma Closed(src: Source, w: Words, i: nat, open: seq<Bracket>, n: nat, c: char, end: char) returns (v: Words)
    requires i <= |src.text| && SpeltPast(src, w, i) && Inside(src.flags, w, open, c, n)
    requires (c == '[' && end == ']') || (c == '{' && end == '}')
    requires src.Peek(i) == end && MayClose(src.flags, w, c)
    ensures Traced(src, w, Done(i + 1, [if c == '[' then EndArray(n) else EndObject(n)]), v, Counted(open))
  {
    v := w + [Mark(end)];
    InsideIs(src.flags, w, open, c, n);
    MarkRead(src, w, i, end);
    assert EventsOf(w, Mark(end)) == [if c == '[' then EndArray(n) else EndObject(n)];
    assert Open(v) == Counted(open);
  }

  /** A comma or a colon. */
  lemma InnerMark(src: Source, w: Words, i: nat, open: seq<Bracket>, c: char, n: nat, mark: char) returns (u: Words)
    requires i <= |src.text| && SpeltPast(src, w, i) && Inside(src.flags, w, open, c, n)
    requires src.Peek(i) == mark && (mark == ',' || mark == ':') && MayFollow(src.flags, w, Mark(mark))
    ensures i < |src.text| && Inside(src.flags, u, open, c, n) && Final(u) == Mark(mark) && u[..|u| - 1] == w
    ensures SpeltTo(src, u, i + 1) && Events(u) == Events(w) + []
  {
    u := w + [Mark(mark)];
    MarkRead(src, w, i, mark);
    assert Open(u) == Open(w) && EventsOf(w, Mark(mark)) == [];
  }

  lemma {:induction false} InnerPassed(src: Source, w: Words, u: Words, p: nat, open: seq<Bracket>, c: char, n: nat)
    requires p <= |src.text| && SpeltTo(src, u, p) && Inside(src.flags, u, open, c, n) && Events(u) == Events(w) + []
    ensures src.Skip(p).At? ==> SpeltPast(src, u, src.Skip(p).pos)
    ensures src.Skip(p).Unclosed? ==>
              Traced(src, w, Fail(UnspecificSyntaxError, src.Skip(p).at, []), u, Counted(open))
  {
    InsideIs(src.flags, u, open, c, n);
    Passed(src, u, p);
    if src.Skip(p).Unclosed? {
      HaltedTraced(src, w, [], u, p, Counted(open));
    }
  }

  /** A comma or a colon, and what stands after it. */
  lemma MarkInside(src: Source, w: Words, i: nat, open: seq<Bracket>, c: char, n: nat, mark: char) returns (u: Words)
    requires i <= |src.text| && SpeltPast(src, w, i) && Inside(src.flags, w, open, c, n)
    requires src.Peek(i) == mark && (mark == ',' || mark == ':') && MayFollow(src.flags, w, Mark(mark))
    ensures i < |src.text| && Inside(src.flags, u, open, c, n) && Final(u) == Mark(mark) && Events(u) == Events(w) + []
    ensures src.Skip(i + 1).At? ==> SpeltPast(src, u, src.Skip(i + 1).pos)
    ensures src.Skip(i + 1).Unclosed? ==>
              Traced(src, w, Fail(UnspecificSyntaxError, src.Skip(i + 1).at, []), u, Counted(open))
  {
    u := InnerMark(src, w, i, open, c, n, mark);
    InnerPassed(src, w, u, i + 1, open, c, n);
  }

  /** A value inside a bracket, and what stands after it. */
  lemma {:induction false} ValueInside(src: Source, w: Words, u: Words, p: nat, events: seq<Event>,
      open: seq<Bracket>, c: char, n: nat)
    requires p <= |src.text| && Traced(src, w, Done(p, events), u, Counted(open + [Bracket(c, n)]))
    ensures Inside(src.flags, u, open, c, n + 1) && ValueLast(u) && Events(u) == Events(w) + events
    ensures src.Skip(p).At? ==> SpeltPast(src, u, src.Skip(p).pos)
    ensures src.Skip(p).Unclosed? ==>
              Traced(src, w, Fail(UnspecificSyntaxError, src.Skip(p).at, events), u, Counted(open))
  {
    assert Open(u) == open + [Bracket(c, n + 1)];
    Passed(src, u, p);
    if src.Skip(p).Unclosed? {
      HaltedTraced(src, w, events, u, p, Counted(open));
    }
  }

  // Arrays.

  lemma {:induction false} NothingElse(src: Source, w: Words, i: nat, open: seq<Bracket>, c: char, end: char, n: nat,
      code: ErrorCode)
    requires i <= |src.text| && SpeltPast(src, w, i) && Inside(src.flags, w, open, c, n) && ValueLast(w)
    requires || (c == '[' && end == ']' && code == ArrayMissCommaOrSquareBracket)
             || (c == '{' && end == '}' && code == ObjectMissCommaOrCurlyBracket)
    requires src.Peek(i) != ',' && src.Peek(i) != end
    ensures Traced(src, w, Fail(code, i, []), w, Counted(open))
  {
    if TokenAt(src, i).Some? {
      assert TokenAt(src, i).value.0.Mark? ==> TokenAt(src, i).value.0.c == src.Peek(i);
    }
    Stopped(src, w, i, code, i);
    assert Events(w) + [] == Events(w);
  }

  lemma ValueTraced(src: Source, w: Words, i: nat) returns (v: Words)
    requires i <= |src.text| && SpeltPast(src, w, i) && Viable(src.flags, w)
    requires ValueNext(w) && (w == [] ==> src.Peek(i) != '\0')
    requires src.Peek(i) == ']' ==> !MayClose(src.flags, w, '[')
    ensures Traced(src, w, src.ValueAt(i), v, Counted(Open(w)))
    decreases |src.text| - i, 1
  {
    if src.Peek(i) == '{' {
      v := ObjectTraced(src, w, i);
    } else if src.Peek(i) == '[' {
      v := ArrayTraced(src, w, i);
    } else {
      v := ScalarTraced(src, w, i);
    }
  }

  lemma ArrayTraced(src: Source, w: Words, i: nat) returns (v: Words)
    requires i <= |src.text| && SpeltPast(src, w, i) && Viable(src.flags, w) && ValueNext(w) && src.Peek(i) == '['
    ensures Traced(src, w, src.ArrayAt(i), v, Counted(Open(w)))
    decreases |src.text| - i, 0
  {
    var u := w + [Mark('[')];
    MarkRead(src, w, i, '[');
    Passed(src, u, i + 1);
    match src.Skip(i + 1) {
      case Unclosed(at) =>
        v := u;
        HaltedTraced(src, w, [StartArray], u, i + 1, Counted(Open(w)));
      case At(j) =>
        v := ArrayOpenTraced(src, u, j, Open(w));
        TracedAfter(src, w, [StartArray], u, src.ArrayOpen(j, 0), v, Counted(Open(w)));
    }
  }

  lemma ArrayOpenTraced(src: Source, w: Words, i: nat, open: seq<Bracket>) returns (v: Words)
    requires i <= |src.text| && SpeltPast(src, w, i) && Inside(src.flags, w, open, '[', 0) && Final(w) == Mark('[')
    ensures Traced(src, w, src.ArrayOpen(i, 0), v, Counted(open))
    decreases |src.text| - i, 3
  {
    if src.Peek(i) == ']' {
      v := Closed(src, w, i, open, 0, '[', ']');
    } else {
      v := ElementTraced(src, w, i, open, 0);
    }
  }

  lemma ElementTraced(src: Source, w: Words, i: nat, open: seq<Bracket>, n: nat) returns (v: Words)
    requires i <= |src.text| && SpeltPast(src, w, i) && Inside(src.flags, w, open, '[', n) && ValueNext(w)
    requires src.Peek(i) == ']' ==> !MayClose(src.flags, w, '[')
    ensures Traced(src, w, src.ElementAt(i, n), v, Counted(open))
    decreases |src.text| - i, 2
  {
    v := ValueTraced(src, w, i);
    match src.ValueAt(i) {
      case Fail(_, _, _) =>
      case Done(p, events) =>
        var u := v;
        ValueInside(src, w, u, p, events, open, '[', n);
        match src.Skip(p) {
          case Unclosed(_) =>
          case At(j) =>
            v := ElementTailTraced(src, u, j, open, n + 1);
            TracedAfter(src, w, events, u, src.ElementTail(j, n + 1), v, Counted(open));
        }
    }
  }

  lemma ElementTailTraced(src: Source, w: Words, i: nat, open: seq<Bracket>, n: nat) returns (v: Words)
    requires i <= |src.text| && SpeltPast(src, w, i) && Inside(src.flags, w, open, '[', n) && ValueLast(w)
    ensures Traced(src, w, src.ElementTail(i, n), v, Counted(open))
    decreases |src.text| - i, 0
  {
    if src.Peek(i) == ',' {
      var u := MarkInside(src, w, i, open, '[', n, ',');
      match src.Skip(i + 1) {
        case Unclosed(_) => v := u;
        case At(j) =>
          v := AfterCommaTraced(src, u, j, open, n);
          TracedAfter(src, w, [], u, src.ElementAfterComma(j, n), v, Counted(open));
      }
    } else if src.Peek(i) == ']' {
      v := Closed(src, w, i, open, n, '[', ']');
    } else {
      v := w;
      NothingElse(src, w, i, open, '[', ']', n, ArrayMissCommaOrSquareBracket);
    }
  }

  lemma AfterCommaTraced(src: Source, w: Words, i: nat, open: seq<Bracket>, n: nat) returns (v: Words)
    requires i <= |src.text| && SpeltPast(src, w, i) && Inside(src.flags, w, open, '[', n) && Final(w) == Mark(',')
    ensures Traced(src, w, src.ElementAfterComma(i, n), v, Counted(open))
    decreases |src.text| - i, 3
  {
    if src.flags.trailingCommas && src.Peek(i) == ']' {
      v := Closed(src, w, i, open, n, '[', ']');
    } else {
      v := ElementTraced(src, w, i, open, n);
    }
  }

  // Objects.

  lemma ObjectTraced(src: Source, w: Words, i: nat) returns (v: Words)
    requires i <= |src.text| && SpeltPast(src, w, i) && Viable(src.flags, w) && ValueNext(w) && src.Peek(i) == '{'
    ensures Traced(src, w, src.ObjectAt(i), v, Counted(Open(w)))
    decreases |src.text| - i, 0
  {
    var u := w + [Mark('{')];
    MarkRead(src, w, i, '{');
    Passed(src, u, i + 1);
    match src.Skip(i + 1) {
      case Unclosed(at) =>
        v := u;
        HaltedTraced(src, w, [StartObject], u, i + 1, Counted(Open(w)));
      case At(j) =>
        v := ObjectOpenTraced(src, u, j, Open(w));
        TracedAfter(src, w, [StartObject], u, src.ObjectOpen(j, 0), v, Counted(Open(w)));
    }
  }

  lemma ObjectOpenTraced(src: Source, w: Words, i: nat, open: seq<Bracket>) returns (v: Words)
    requires i <= |src.text| && SpeltPast(src, w, i) && Inside(src.flags, w, open, '{', 0) && Final(w) == Mark('{')
    ensures Traced(src, w, src.ObjectOpen(i, 0), v, Counted(open))
    decreases |src.text| - i, 3
  {
    if src.Peek(i) == '}' {
      v := Closed(src, w, i, open, 0, '{', '}');
    } else {
      v := MemberTraced(src, w, i, open, 0);
    }
  }

  lemma {:induction false} NoName(src: Source, w: Words, i: nat, code: ErrorCode, at: nat)
    requires i <= |src.text| && SpeltPast(src, w, i) && Viable(src.flags, w) && NameNext(w) && In(w, '{')
    requires src.Peek(i) == '}' ==> !MayClose(src.flags, w, '{')
    requires if src.Peek(i) == '"' then src.strings(src.text, i) == Rejected(code, at)
             else code == ObjectMissName && at == i
    ensures Halts(src, w, code, at)
  {
    if TokenAt(src, i).Some? {
      assert TokenAt(src, i).value.0.Mark? ==> TokenAt(src, i).value.0.c == src.Peek(i);
      assert !TokenAt(src, i).value.0.Text?;
    }
    Stopped(src, w, i, code, at);
  }

  lemma MemberTraced(src: Source, w: Words, i: nat, open: seq<Bracket>, n: nat) returns (v: Words)
    requires i <= |src.text| && SpeltPast(src, w, i) && Inside(src.flags, w, open, '{', n) && NameNext(w)
    requires src.Peek(i) == '}' ==> !MayClose(src.flags, w, '{')
    ensures Traced(src, w, src.MemberAt(i, n), v, Counted(open))
    decreases |src.text| - i, 2
  {
    v := w;
    assert Events(w) + [] == Events(w);
    if src.Peek(i) != '"' {
      NoName(src, w, i, ObjectMissName, i);
    } else {
      match src.strings(src.text, i) {
        case Rejected(code, at) => NoName(src, w, i, code, at);
        case Scanned(k, p) =>
          var u := w + [Text(k)];
          Appended(src, w, i, Text(k), p);
          Passed(src, u, p);
          match src.Skip(p) {
            case Unclosed(at) =>
              v := u;
              HaltedTraced(src, w, [Key(k)], u, p, Counted(open));
            case At(j) =>
              v := ColonTraced(src, u, j, open, n);
              TracedAfter(src, w, [Key(k)], u, src.ColonAt(j, n), v, Counted(open));
          }
      }
    }
  }

  lemma {:induction false} NoColon(src: Source, w: Words, i: nat)
    requires i <= |src.text| && SpeltPast(src, w, i) && Viable(src.flags, w) && NameLast(w) && Open(w) != []
    requires src.Peek(i) != ':'
    ensures Halts(src, w, ObjectMissColon, i)
  {
    if TokenAt(src, i).Some? {
      assert TokenAt(src, i).value.0.Mark? ==> TokenAt(src, i).value.0.c == src.Peek(i);
    }
    Stopped(src, w, i, ObjectMissColon, i);
  }

  lemma ColonTraced(src: Source, w: Words, i: nat, open: seq<Bracket>, n: nat) returns (v: Words)
    requires i <= |src.text| && SpeltPast(src, w, i) && Inside(src.flags, w, open, '{', n) && NameLast(w)
    ensures Traced(src, w, src.ColonAt(i, n), v, Counted(open))
    decreases |src.text| - i, 0
  {
    v := w;
    assert Events(w) + [] == Events(w);
    if src.Peek(i) != ':' {
      NoColon(src, w, i);
    } else {
      var u := MarkInside(src, w, i, open, '{', n, ':');
      match src.Skip(i + 1) {
        case Unclosed(_) => v := u;
        case At(j) =>
          v := MemberValueTraced(src, u, j, open, n);
          TracedAfter(src, w, [], u, src.MemberValueAt(j, n), v, Counted(open));
      }
    }
  }

  lemma {:induction false} ColonLast(flags: Flags, w: Words, open: seq<Bracket>, n: nat)
    requires Inside(flags, w, open, '{', n) && Final(w) == Mark(':')
    ensures ValueNext(w) && w != [] && !MayClose(flags, w, '[')
  {
    InsideIs(flags, w, open, '{', n);
  }

  lemma MemberValueTraced(src: Source, w: Words, i: nat, open: seq<Bracket>, n: nat) returns (v: Words)
    requires i <= |src.text| && SpeltPast(src, w, i) && Inside(src.flags, w, open, '{', n) && Final(w) == Mark(':')
    ensures Traced(src, w, src.MemberValueAt(i, n), v, Counted(open))
    decreases |src.text| - i, 2
  {
    ColonLast(src.flags, w, open, n);
    v := ValueTraced(src, w, i);
    match src.ValueAt(i) {
      case Fail(_, _, _) =>
      case Done(p, events) =>
        var u := v;
        ValueInside(src, w, u, p, events, open, '{', n);
        match src.Skip(p) {
          case Unclosed(_) =>
          case At(j) =>
            v := MemberTailTraced(src, u, j, open, n + 1);
            TracedAfter(src, w, events, u, src.MemberTail(j, n + 1), v, Counted(open));
        }
    }
  }

  lemma MemberTailTraced(src: Source, w: Words, i: nat, open: seq<Bracket>, n: nat) returns (v: Words)
    requires i <= |src.text| && SpeltPast(src, w, i) && Inside(src.flags, w, open, '{', n) && ValueLast(w)
    ensures Traced(src, w, src.MemberTail(i, n), v, Counted(open))
    decreases |src.text| - i, 0
  {
    if src.Peek(i) == ',' {
      var u := MarkInside(src, w, i, open, '{', n, ',');
      match src.Skip(i + 1) {
        case Unclosed(_) => v := u;
        case At(j) =>
          v := MemberAfterCommaTraced(src, u, j, open, n);
          TracedAfter(src, w, [], u, src.MemberAfterComma(j, n), v, Counted(open));
      }
    } else if src.Peek(i) == '}' {
      v := Closed(src, w, i, open, n, '{', '}');
    } else {
      v := w;
      NothingElse(src, w, i, open, '{', '}', n, ObjectMissCommaOrCurlyBracket);
    }
  }

  lemma MemberAfterCommaTraced(src: Source, w: Words, i: nat, open: seq<Bracket>, n: nat) returns (v: Words)
    requires i <= |src.text| && SpeltPast(src, w, i) && Inside(src.flags, w, open, '{', n) && Final(w) == Mark(',')
    ensures Traced(src, w, src.MemberAfterComma(i, n), v, Counted(open))
    decreases |src.text| - i, 3
  {
    if src.flags.trailingCommas && src.Peek(i) == '}' {
      v := Closed(src, w, i, open, n, '{', '}');
    } else {
      v := MemberTraced(src, w, i, open, n);
    }
  }

  // The document.

  lemma {:induction false} Nothing(src: Source)
    ensures SpeltTo(src, [], 0) && Viable(src.flags, []) && Events([]) == []
  {
  }

  lemma {:induction false} RootEndTraced(src: Source, w: Words, p: nat, events: seq<Event>)
    requires p <= |src.text| && SpeltTo(src, w, p) && Viable(src.flags, w) && Whole(w) && Events(w) == events
    ensures Ends(src, w, src.RootEnd(p).Prepend(events))
  {
    assert events + [] == events;
    if !src.flags.stopWhenDone {
      Passed(src, w, p);
      match src.Skip(p) {
        case Unclosed(_) =>
        case At(j) =>
          if src.Peek(j) != '\0' {
            if TokenAt(src, j).Some? {
              assert !MayFollow(src.flags, w, TokenAt(src, j).value.0);
            }
            Stopped(src, w, j, DocumentRootNotSingular, j);
          }
      }
    }
  }

  lemma {:induction false} EmptyTraced(src: Source, i: nat)
    requires i <= |src.text| && SpeltPast(src, [], i) && src.Peek(i) == '\0'
    ensures Refused(src, [], DocumentEmpty, i, [])
  {
    Nothing(src);
    assert TokenAt(src, i).None?;
    Stopped(src, [], i, DocumentEmpty, i);
  }

  /** The document is accepted, or refused, with some tokens of the text. */
  lemma DocumentTraced(src: Source) returns (w: Words)
    ensures Ends(src, w, src.Document())
  {
    w := [];
    Nothing(src);
    Passed(src, [], 0);
    match src.Skip(0) {
      case Unclosed(_) =>
      case At(i) =>
        if src.Peek(i) == '\0' {
          EmptyTraced(src, i);
        } else {
          w := ValueTraced(src, [], i);
          assert [] + src.ValueAt(i).events == src.ValueAt(i).events;
          match src.ValueAt(i) {
            case Fail(_, _, _) =>
            case Done(p, events) => RootEndTraced(src, w, p, events);
          }
        }
    }
  }

  // There is one way to read a text.

  lemma SameToken(src: Source, i: nat, t: Token, p: nat, u: Token, q: nat)
    requires Stands(src, i, t, p) && Stands(src, i, u, q)
    ensures t == u && p == q
  {
    StandsAt(src, i, t, p);
    StandsAt(src, i, u, q);
  }

  lemma {:induction false} SameReading(src: Source, w: Words, v: Words, p: nat, q: nat)
    requires |w| == |v| && SpeltTo(src, w, p) && SpeltTo(src, v, q)
    ensures w == v && p == q
    decreases |w|, 0
  {
    if w != [] {
      var i: nat :| SpeltPast(src, w[..|w| - 1], i) && Stands(src, i, Final(w), p);
      var j: nat :| SpeltPast(src, v[..|v| - 1], j) && Stands(src, j, Final(v), q);
      SamePast(src, w[..|w| - 1], v[..|v| - 1], i, j);
      SameToken(src, i, Final(w), p, Final(v), q);
      assert w == w[..|w| - 1] + [Final(w)] && v == v[..|v| - 1] + [Final(v)];
    }
  }

  lemma {:induction false} SamePast(src: Source, w: Words, v: Words, i: nat, j: nat)
    requires |w| == |v| && SpeltPast(src, w, i) && SpeltPast(src, v, j)
    ensures w == v && i == j && i <= |src.text|
    decreases |w|, 1
  {
    var p: nat :| SpeltTo(src, w, p) && p <= |src.text| && Between(src.text, src.flags.comments, p, i);
    var q: nat :| SpeltTo(src, v, q) && q <= |src.text| && Between(src.text, src.flags.comments, q, j);
    SameReading(src, w, v, p, q);
    BetweenSkips(src, p, i);
    BetweenSkips(src, p, j);
  }

  /** The first tokens of a text, before the next. */
  lemma {:induction false} Begins(src: Source, v: Words, q: nat, k: nat) returns (p: nat, i: nat, e: nat)
    requires SpeltTo(src, v, q) && k < |v|
    ensures SpeltTo(src, v[..k], p) && p <= |src.text| && src.Skip(p) == At(i)
    ensures SpeltPast(src, v[..k], i) && Stands(src, i, v[k], e)
    decreases |v|
  {
    var front := v[..|v| - 1];
    i :| SpeltPast(src, front, i) && Stands(src, i, Final(v), q);
    p :| SpeltTo(src, front, p) && p <= |src.text| && Between(src.text, src.flags.comments, p, i);
    e := q;
    if k < |v| - 1 {
      assert front[..k] == v[..k];
      p, i, e := Begins(src, front, p, k);
    } else {
      BetweenSkips(src, p, i);
    }
  }

  /** Where a text goes on after `w`, it does not halt. */
  lemma {:induction false} GoesOn(src: Source, w: Words, code: ErrorCode, at: nat, v: Words, q: nat)
    requires |w| < |v| && SpeltTo(src, v, q) && Viable(src.flags, v)
    ensures !Halts(src, w, code, at)
  {
    var p, i, e := Begins(src, v, q, |w|);
    if Halts(src, w, code, at) {
      if j: nat :| SpeltPast(src, w, j) && Missing(src, w, j, code, at) {
        SamePast(src, w, v[..|w|], j, i);
      } else {
        var r: nat :| SpeltTo(src, w, r) && r <= |src.text| && Unfinished(src.text, r, at);
        SameReading(src, w, v[..|w|], r, p);
        UnfinishedComments(src, p, at);
      }
    }
  }

  lemma WholeEnds(flags: Flags, w: Words, t: Token)
    requires Whole(w)
    ensures !MayFollow(flags, w, t)
  {
  }

  /** How far the tokens of an outcome go. */
  lemma Reached(src: Source, w: Words, o: Outcome) returns (p: nat)
    requires Ends(src, w, o)
    ensures SpeltTo(src, w, p) && (o.Done? && src.flags.stopWhenDone ==> p == o.pos)
  {
    if o.Done? && src.flags.stopWhenDone {
      p := o.pos;
    } else if o.Done? {
      p :| SpeltTo(src, w, p) && p <= |src.text| && Between(src.text, src.flags.comments, p, o.pos);
    } else if i: nat :| SpeltPast(src, w, i) && Missing(src, w, i, o.code, o.at) {
      p :| SpeltTo(src, w, p) && p <= |src.text| && Between(src.text, src.flags.comments, p, i);
    } else {
      p :| SpeltTo(src, w, p) && p <= |src.text| && Unfinished(src.text, p, o.at);
    }
  }

  lemma NotShorter(src: Source, w: Words, o: Outcome, v: Words, r: Outcome)
    requires Ends(src, w, o) && Ends(src, v, r)
    ensures |v| <= |w|
  {
    if |w| < |v| {
      var q := Reached(src, v, r);
      if o.Fail? {
        GoesOn(src, w, o.code, o.at, v, q);
      } else {
        var p := Reached(src, w, o);
        var p', i, e := Begins(src, v, q, |w|);
        SameReading(src, w, v[..|w|], p, p');
        WholeEnds(src.flags, w, v[|w|]);
      }
    }
  }

  lemma LettersBefore(src: Source, i: nat, word: string, k: nat, at: nat)
    requires Breaks(src, word, i, at) && i <= k < at
    ensures src.Peek(k) == word[k - i]
  {
    assert src.text[i..at][k - i] == word[..at - i][k - i];
  }

  /** A word is broken off at one place, and only where its first letter stands. */
  lemma BreaksOnce(src: Source, i: nat, word: string, at: nat, at': nat)
    ensures Breaks(src, word, i, at) ==> src.Peek(i) == word[0]
    ensures Breaks(src, word, i, at) && Breaks(src, word, i, at') ==> at == at'
  {
    if Breaks(src, word, i, at) {
      LettersBefore(src, i, word, i, at);
      if Breaks(src, word, i, at') {
        if at < at' {
          LettersBefore(src, i, word, at, at');
        } else if at' < at {
          LettersBefore(src, i, word, at', at);
        }
      }
    }
  }

  lemma MisspeltOnce(src: Source, i: nat, at: nat, at': nat)
    ensures Misspelt(src, i, at) ==> src.Peek(i) !in "\"-0123456789NI"
    ensures Misspelt(src, i, at) && Misspelt(src, i, at') ==> at == at'
  {
    BreaksOnce(src, i, "null", at, at');
    BreaksOnce(src, i, "true", at, at');
    BreaksOnce(src, i, "false", at, at');
    BreaksOnce(src, i, "null", at', at);
    BreaksOnce(src, i, "true", at', at);
    BreaksOnce(src, i, "false", at', at);
  }

  /** What comes next is one of these. */
  lemma {:induction false} OneNext(w: Words)
    ensures ValueNext(w) ==> !NameNext(w) && !NameLast(w) && !ValueLast(w)
    ensures NameNext(w) ==> !NameLast(w) && !ValueLast(w)
    ensures NameLast(w) ==> !ValueLast(w)
  {
  }

  lemma UnscannedExpected(src: Source, w: Words, i: nat, code: ErrorCode, at: nat, code': ErrorCode, at': nat)
    requires Unscanned(src, w, i, code, at) && (w != [] ==> !Whole(w))
    ensures !Expected(src, w, i, code', at')
  {
    OneNext(w);
    MisspeltOnce(src, i, at', at');
  }

  lemma OneExpected(src: Source, w: Words, i: nat, code: ErrorCode, at: nat, code': ErrorCode, at': nat)
    requires Expected(src, w, i, code, at) && Expected(src, w, i, code', at')
    ensures code == code' && at == at'
  {
    OneNext(w);
    MisspeltOnce(src, i, at, at');
  }

  lemma OneReason(src: Source, w: Words, i: nat, code: ErrorCode, at: nat, code': ErrorCode, at': nat)
    requires Unscanned(src, w, i, code, at) || Expected(src, w, i, code, at)
    requires Unscanned(src, w, i, code', at') || Expected(src, w, i, code', at')
    ensures code == code' && at == at'
  {
    if Unscanned(src, w, i, code, at) {
      UnscannedExpected(src, w, i, code, at, code', at');
    } else if Unscanned(src, w, i, code', at') {
      UnscannedExpected(src, w, i, code', at', code, at);
    } else {
      OneExpected(src, w, i, code, at, code', at');
    }
  }

  lemma {:induction false} PassedFinished(src: Source, w: Words, i: nat, p: nat, at: nat)
    requires SpeltPast(src, w, i) && SpeltTo(src, w, p) && p <= |src.text| && src.flags.comments
    ensures !Unfinished(src.text, p, at)
  {
    var q: nat :| SpeltTo(src, w, q) && q <= |src.text| && Between(src.text, src.flags.comments, q, i);
    SameReading(src, w, w, p, q);
    BetweenSkips(src, p, i);
    UnfinishedComments(src, p, at);
  }

  lemma HaltsOnce(src: Source, w: Words, code: ErrorCode, at: nat, code': ErrorCode, at': nat)
    requires Halts(src, w, code, at) && Halts(src, w, code', at')
    ensures code == code' && at == at'
  {
    if i: nat :| SpeltPast(src, w, i) && Missing(src, w, i, code, at) {
      if j: nat :| SpeltPast(src, w, j) && Missing(src, w, j, code', at') {
        SamePast(src, w, w, i, j);
        OneReason(src, w, i, code, at, code', at');
      } else {
        var p: nat :| SpeltTo(src, w, p) && p <= |src.text| && Unfinished(src.text, p, at');
        PassedFinished(src, w, i, p, at');
      }
    } else {
      var p: nat :| SpeltTo(src, w, p) && p <= |src.text| && Unfinished(src.text, p, at);
      if j: nat :| SpeltPast(src, w, j) && Missing(src, w, j, code', at') {
        PassedFinished(src, w, j, p, at);
      } else {
        var q: nat :| SpeltTo(src, w, q) && q <= |src.text| && Unfinished(src.text, q, at');
        SameReading(src, w, w, p, q);
        UnfinishedComments(src, p, at);
        UnfinishedComments(src, p, at');
      }
    }
  }

  lemma AcceptedGoesOn(src: Source, w: Words, pos: nat, events: seq<Event>, code: ErrorCode, at: nat)
    requires Accepted(src, w, pos, events)
    ensures !Halts(src, w, code, at)
  {
    if Halts(src, w, code, at) {
      if i: nat :| SpeltPast(src, w, i) && Missing(src, w, i, code, at) {
        SamePast(src, w, w, i, pos);
      } else {
        var p: nat :| SpeltTo(src, w, p) && p <= |src.text| && Unfinished(src.text, p, at);
        PassedFinished(src, w, pos, p, at);
      }
    }
  }

  /** The text has one outcome. */
  lemma Same(src: Source, w: Words, o: Outcome, v: Words, r: Outcome)
    requires Ends(src, w, o) && Ends(src, v, r)
    ensures o == r
  {
    NotShorter(src, w, o, v, r);
    NotShorter(src, v, r, w, o);
    var p := Reached(src, w, o);
    var q := Reached(src, v, r);
    SameReading(src, w, v, p, q);
    if o.Done? && r.Done? && !src.flags.stopWhenDone {
      SamePast(src, w, w, o.pos, r.pos);
    } else if o.Done? && r.Fail? {
      AcceptedGoesOn(src, w, o.pos, o.events, r.code, r.at);
    } else if o.Fail? && r.Done? {
      AcceptedGoesOn(src, w, r.pos, r.events, o.code, o.at);
    } else if o.Fail? {
      HaltsOnce(src, w, o.code, o.at, r.code, r.at);
    }
  }

  /** The parser's outcome is the one that the text's tokens have, whatever the flags. */
  lemma OutcomeExact(src: Source, o: Outcome)
    ensures src.Document() == o <==> exists w :: Ends(src, w, o)
  {
    var v := DocumentTraced(src);
    forall w | Ends(src, w, o) ensures src.Document() == o {
      Same(src, w, o, v, src.Document());
    }
  }
}
