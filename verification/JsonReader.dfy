/**
 The two JSON parsers of the reader: recursive descent, and the table-driven pushdown automaton.
 Both are proved to publish the events, and to report the outcome, that the grammar functions give.
 */
module JsonReader {
  import opened JsonEvents
  import opened JsonGrammar

  datatype State =
    | Start | Finish | Error
    | ObjectInitial | MemberKey | KeyValueDelimiter | MemberValue | MemberDelimiter | ObjectFinish
    | ArrayInitial | Element | ElementDelimiter | ArrayFinish
    | Value

  datatype Token =
    | LeftBracket | RightBracket | LeftCurlyBracket | RightCurlyBracket | Comma | Colon
    | StringToken | FalseToken | TrueToken | NullToken | NumberToken

  function Tokenize(c: char): Token {
    match c
    case '[' => LeftBracket
    case ']' => RightBracket
    case '{' => LeftCurlyBracket
    case '}' => RightCurlyBracket
    case ',' => Comma
    case ':' => Colon
    case '"' => StringToken
    case 'f' => FalseToken
    case 't' => TrueToken
    case 'n' => NullToken
    case _ => NumberToken
  }

  predicate IsScalar(t: Token) {
    t.StringToken? || t.FalseToken? || t.TrueToken? || t.NullToken? || t.NumberToken?
  }

  /** One row of the table for each state. */
  function Predict(state: State, t: Token): State {
    match state
    case Start =>
      if t.LeftBracket? then ArrayInitial
      else if t.LeftCurlyBracket? then ObjectInitial
      else if IsScalar(t) then Value else Error
    case ObjectInitial =>
      if t.RightCurlyBracket? then ObjectFinish else if t.StringToken? then MemberKey else Error
    case MemberKey =>
      if t.Colon? then KeyValueDelimiter else Error
    case KeyValueDelimiter =>
      if t.LeftBracket? then ArrayInitial
      else if t.LeftCurlyBracket? then ObjectInitial
      else if IsScalar(t) then MemberValue else Error
    case MemberValue =>
      if t.RightCurlyBracket? then ObjectFinish else if t.Comma? then MemberDelimiter else Error
    case MemberDelimiter =>
      if t.RightCurlyBracket? then ObjectFinish else if t.StringToken? then MemberKey else Error
    case ArrayInitial =>
      if t.LeftBracket? then ArrayInitial
      else if t.RightBracket? then ArrayFinish
      else if t.LeftCurlyBracket? then ObjectInitial
      else if IsScalar(t) then Element else Error
    case Element =>
      if t.RightBracket? then ArrayFinish else if t.Comma? then ElementDelimiter else Error
    case ElementDelimiter =>
      if t.LeftBracket? then ArrayInitial
      else if t.RightBracket? then ArrayFinish
      else if t.LeftCurlyBracket? then ObjectInitial
      else if IsScalar(t) then Element else Error
    case Finish => Error
    case Error => Error
    case ObjectFinish => Error
    case ArrayFinish => Error
    case Value => Error
  }

  /** An open bracket on the parser's stack: the state to resume when it closes, and a count. */
  datatype Frame = Frame(resume: State, count: nat)

  /** The states in which some bracket is open. */
  predicate Inside(state: State) {
    state.ObjectInitial? || state.MemberKey? || state.KeyValueDelimiter? || state.MemberValue?
    || state.MemberDelimiter? || state.ArrayInitial? || state.Element? || state.ElementDelimiter?
  }

  predicate InObject(state: State) {
    state.ObjectInitial? || state.MemberKey? || state.KeyValueDelimiter? || state.MemberValue?
    || state.MemberDelimiter?
  }

  /** The frames, bottom to top, spell the brackets still open when the automaton is in `state`. */
  predicate Spells(stack: seq<Frame>, state: State) {
    if Inside(state) then
      && stack != []
      && stack[0].resume == Start
      && forall k :: 0 < k < |stack| ==> stack[k].resume == Element || stack[k].resume == MemberValue
    else
      stack == [] && (state == Start || state == Finish)
  }

  // The brackets, outermost first; true for an object, false for an array.

  /** The open brackets that a state and a stack spell. */
  function Brackets(stack: seq<Frame>, state: State): seq<bool> {
    seq(|stack|, k requires 0 <= k < |stack| =>
      if k + 1 < |stack| then stack[k + 1].resume == MemberValue else InObject(state))
  }

  /** The brackets that the published events have opened and not closed. */
  function OpenAfter(events: seq<Event>): seq<bool> {
    if events == [] then []
    else
      var before := OpenAfter(events[..|events| - 1]);
      match events[|events| - 1]
      case StartObject => before + [true]
      case StartArray => before + [false]
      case EndObject(_) => if before == [] then [] else before[..|before| - 1]
      case EndArray(_) => if before == [] then [] else before[..|before| - 1]
      case _ => before
  }

  /** The states that expect a value. */
  predicate AtValue(state: State) {
    state == Start || state == KeyValueDelimiter || state == ArrayInitial || state == ElementDelimiter
  }

  predicate IsBracket(e: Event) {
    e.StartObject? || e.StartArray? || e.EndObject? || e.EndArray?
  }

  /** What one step of the automaton does to its stack, with the event it publishes, if any. */
  datatype Effect = Opens(e: Event) | Closes(e: Event) | Stays(published: seq<Event>)

  predicate Acts(f: Effect, state: State, stack: seq<Frame>, next: State, newStack: seq<Frame>) {
    match f
    case Opens(e) =>
      && newStack == stack + [Frame(Enclosing(state), 0)]
      && (e == StartObject || e == StartArray) && InObject(next) == (e == StartObject)
    case Closes(e) =>
      && stack != [] && newStack == stack[..|stack| - 1] && next == Restore(stack[|stack| - 1].resume)
      && (if InObject(state) then e.EndObject? else e.EndArray?)
    case Stays(published) =>
      && |newStack| == |stack|
      && (forall k :: 0 <= k < |stack| ==> newStack[k].resume == stack[k].resume)
      && (stack != [] ==> InObject(next) == InObject(state))
      && (published == [] || (|published| == 1 && !IsBracket(published[0])))
  }

  function Published(f: Effect): seq<Event> {
    match f
    case Opens(e) => [e]
    case Closes(e) => [e]
    case Stays(published) => published
  }

  lemma {:induction false} OpenAfterOne(events: seq<Event>, e: Event)
    ensures
      var before := OpenAfter(events);
      OpenAfter(events + [e])
      == match e
         case StartObject => before + [true]
         case StartArray => before + [false]
         case EndObject(_) => if before == [] then [] else before[..|before| - 1]
         case EndArray(_) => if before == [] then [] else before[..|before| - 1]
         case _ => before
  {
  }

  lemma BracketsAfter(f: Effect, state: State, stack: seq<Frame>, next: State, newStack: seq<Frame>)
    requires Acts(f, state, stack, next, newStack) && Spells(stack, state)
    requires f.Opens? ==> AtValue(state)
    ensures
      var was := Brackets(stack, state);
      Brackets(newStack, next)
      == match f
         case Opens(e) => was + [e == StartObject]
         case Closes(_) => was[..|was| - 1]
         case Stays(_) => was
  {
    var now, was := Brackets(newStack, next), Brackets(stack, state);
    if f.Closes? {
      var top := stack[|stack| - 1].resume;
      assert |stack| > 1 ==> top == Element || top == MemberValue;
      forall k | 0 <= k < |now| ensures now[k] == was[k] {
        if k + 1 == |newStack| {
          assert was[k] == (top == MemberValue) == InObject(next);
        }
      }
      assert now == was[..|was| - 1];
    } else {
      forall k | 0 <= k < |was| ensures now[k] == was[k] {
        if k + 1 < |stack| {
          assert newStack[k + 1].resume == stack[k + 1].resume;
        } else if f.Opens? {
          assert newStack[k + 1].resume == Landing(state);
          assert InObject(state) == (state == KeyValueDelimiter);
        }
      }
    }
  }

  /** Every step keeps the frames spelling the open brackets, and closes a bracket with its own kind. */
  lemma {:induction false} ActsSpell(f: Effect, state: State, stack: seq<Frame>, next: State, newStack: seq<Frame>,
      events: seq<Event>)
    requires Acts(f, state, stack, next, newStack) && Spells(stack, state)
    requires f.Opens? ==> AtValue(state)
    requires OpenAfter(events) == Brackets(stack, state)
    ensures OpenAfter(events + Published(f)) == Brackets(newStack, next)
    ensures f.Closes? ==> OpenAfter(events) != [] && OpenAfter(events)[|stack| - 1] == f.e.EndObject?
  {
    BracketsAfter(f, state, stack, next, newStack);
    match f
    case Opens(e) => OpenAfterOne(events, e);
    case Closes(e) => OpenAfterOne(events, e);
    case Stays(published) =>
      if published == [] {
        assert events + published == events;
      } else {
        assert published == [published[0]];
        OpenAfterOne(events, published[0]);
      }
  }

  // What is left to parse, read off a state and a stack.

  /** The rest of the innermost open bracket, `c` being the count on top of the stack. */
  function Local(src: Source, state: State, i: nat, c: nat): (o: Outcome)
    requires i <= |src.text|
    requires Inside(state)
    ensures o.Done? ==> i < o.pos <= |src.text|
  {
    match state
    case ObjectInitial => src.ObjectOpen(i, c)
    case MemberKey => src.ColonAt(i, c)
    case KeyValueDelimiter => src.MemberValueAt(i, c)
    case MemberValue => src.MemberTail(i, c + 1)
    case MemberDelimiter => src.MemberAfterComma(i, c)
    case ArrayInitial => src.ArrayOpen(i, c)
    case Element => src.ElementTail(i, c + 1)
    case ElementDelimiter => src.ElementAfterComma(i, c)
  }

  function Restore(s: State): State {
    if s == Start then Finish else s
  }

  /** The rest of the document from the token at `i`. */
  function Resume(src: Source, state: State, stack: seq<Frame>, i: nat): Outcome
    requires i <= |src.text|
    requires Spells(stack, state)
    decreases |stack|, 1
  {
    if state == Start then src.RootAt(i)
    else if state == Finish then
      if src.Peek(i) != '\0' then Fail(DocumentRootNotSingular, i, []) else Done(i, [])
    else
      Unwind(src, stack, Local(src, state, i, stack[|stack| - 1].count))
  }

  /** Closes the innermost bracket, whose rest parsed as `o`. */
  function Unwind(src: Source, stack: seq<Frame>, o: Outcome): Outcome
    requires stack != [] && Spells(stack, Element)
    requires o.Done? ==> o.pos <= |src.text|
    decreases |stack|, 0
  {
    match o
    case Fail(_, _, _) => o
    case Done(p, evs) =>
      var rest := stack[..|stack| - 1];
      After(src, Restore(stack[|stack| - 1].resume), rest, p).Prepend(evs)
  }

  /** The rest of the document once a token has been consumed and the automaton is in `state`. */
  function After(src: Source, state: State, stack: seq<Frame>, i: nat): Outcome
    requires i <= |src.text|
    requires Spells(stack, state)
    decreases |stack|, 2
  {
    if state == Finish && src.flags.stopWhenDone then Done(i, [])
    else
      match src.Skip(i)
      case Unclosed(at) => Fail(UnspecificSyntaxError, at, [])
      case At(j) => Resume(src, state, stack, j)
  }

  // How the rest changes when the automaton takes one step.

  lemma {:induction false} UnwindPrepend(src: Source, stack: seq<Frame>, o: Outcome, before: seq<Event>)
    requires stack != [] && Spells(stack, Element)
    requires o.Done? ==> o.pos <= |src.text|
    ensures Unwind(src, stack, o.Prepend(before)) == Unwind(src, stack, o).Prepend(before)
  {
  }

  /** The automaton is at a value: it expects one, and the token is neither a closing bracket nor the end. */
  predicate ExpectsValue(src: Source, state: State, i: nat) {
    || (state == Start && src.Peek(i) != '\0')
    || state == KeyValueDelimiter
    || ((state == ArrayInitial || state == ElementDelimiter) && src.Peek(i) != ']')
  }

  /** The state after that value. */
  function Landing(state: State): State {
    if state == Start then Finish
    else if state == KeyValueDelimiter then MemberValue
    else Element
  }

  /** The rest of the document after a value that parsed as `v`. */
  function Land(src: Source, state: State, stack: seq<Frame>, v: Outcome): Outcome
    requires Spells(stack, Landing(state))
    requires v.Done? ==> v.pos <= |src.text|
  {
    if v.Fail? then v else After(src, Landing(state), stack, v.pos).Prepend(v.events)
  }

  /** The same, for the innermost bracket alone. */
  function LandInside(src: Source, state: State, c: nat, v: Outcome): Outcome
    requires state != Start && Inside(Landing(state))
    requires v.Done? ==> v.pos <= |src.text|
  {
    if v.Fail? then v
    else
      match src.Skip(v.pos)
      case Unclosed(at) => Fail(UnspecificSyntaxError, at, v.events)
      case At(j) => Local(src, Landing(state), j, c).Prepend(v.events)
  }

  lemma {:induction false} LocalValueStep(src: Source, state: State, i: nat, c: nat)
    requires i <= |src.text| && ExpectsValue(src, state, i) && state != Start
    ensures Local(src, state, i, c) == LandInside(src, state, c, src.ValueAt(i))
  {
    if state == KeyValueDelimiter {
      assert Local(src, state, i, c) == src.MemberValueAt(i, c);
    } else {
      assert Local(src, state, i, c) == src.ElementAt(i, c);
    }
  }

  lemma {:induction false} UnwindLand(src: Source, state: State, stack: seq<Frame>, v: Outcome)
    requires state != Start && Inside(Landing(state))
    requires stack != [] && Spells(stack, Element)
    requires v.Done? ==> v.pos <= |src.text|
    ensures Unwind(src, stack, LandInside(src, state, stack[|stack| - 1].count, v)) == Land(src, state, stack, v)
  {
    if v.Done? {
      match src.Skip(v.pos) {
        case Unclosed(at) => assert v.events + [] == v.events;
        case At(j) =>
          var tail := Local(src, Landing(state), j, stack[|stack| - 1].count);
          assert After(src, Landing(state), stack, v.pos) == Resume(src, Landing(state), stack, j)
                 == Unwind(src, stack, tail);
          UnwindPrepend(src, stack, tail, v.events);
      }
    }
  }

  /** Parsing a value recursively is what the automaton does between expecting it and landing. */
  lemma {:induction false} ValueStep(src: Source, state: State, stack: seq<Frame>, i: nat)
    requires i <= |src.text| && Spells(stack, state) && ExpectsValue(src, state, i)
    ensures Resume(src, state, stack, i) == Land(src, state, stack, src.ValueAt(i))
  {
    if state != Start {
      LocalValueStep(src, state, i, stack[|stack| - 1].count);
      UnwindLand(src, state, stack, src.ValueAt(i));
    }
  }

  predicate AtOpen(src: Source, i: nat) {
    src.Peek(i) == '[' || src.Peek(i) == '{'
  }

  /** The state inside the bracket at `i`, and the event of opening it. */
  function Opening(src: Source, i: nat): (State, Event)
    requires AtOpen(src, i)
  {
    if src.Peek(i) == '[' then (ArrayInitial, StartArray) else (ObjectInitial, StartObject)
  }

  /** The state that the frame of an opening bracket remembers. */
  function Enclosing(state: State): State {
    if state == Start then Start else Landing(state)
  }

  /** Opening a bracket pushes a frame whose closing resumes where the enclosing value lands. */
  lemma {:induction false} OpenStep(src: Source, state: State, stack: seq<Frame>, i: nat, before: seq<Event>)
    requires i <= |src.text| && Spells(stack, state) && ExpectsValue(src, state, i) && AtOpen(src, i)
    ensures
      var ((inner, e), pushed) := (Opening(src, i), stack + [Frame(Enclosing(state), 0)]);
      && Spells(pushed, inner)
      && Resume(src, state, stack, i).Prepend(before) == After(src, inner, pushed, i + 1).Prepend(before + [e])
  {
    ValueStep(src, state, stack, i);
    var ((inner, e), pushed) := (Opening(src, i), stack + [Frame(Enclosing(state), 0)]);
    assert pushed[..|pushed| - 1] == stack;
    assert Restore(pushed[|stack|].resume) == Landing(state);
    match src.Skip(i + 1) {
      case Unclosed(at) =>
      case At(j) =>
        var open := Local(src, inner, j, 0);
        assert src.ValueAt(i) == open.Prepend([e]);
        assert After(src, inner, pushed, i + 1) == Resume(src, inner, pushed, j) == Unwind(src, pushed, open);
        if open.Done? {
          PrependTwice(After(src, Landing(state), stack, open.pos), [e], open.events);
        }
    }
    PrependTwice(After(src, inner, pushed, i + 1), before, [e]);
  }

  /** A member name: the automaton lands in MemberKey, with the key's event. */
  lemma {:induction false} KeyStep(src: Source, state: State, stack: seq<Frame>, i: nat)
    requires i <= |src.text| && Spells(stack, state)
    requires (state == ObjectInitial || state == MemberDelimiter) && src.Peek(i) == '"'
    ensures match src.strings(src.text, i)
            case Rejected(code, at) => Resume(src, state, stack, i) == Fail(code, at, [])
            case Scanned(k, p) =>
              Resume(src, state, stack, i) == After(src, MemberKey, stack, p).Prepend([Key(k)])
  {
    var c := stack[|stack| - 1].count;
    assert Local(src, state, i, c) == src.MemberAt(i, c);
    match src.strings(src.text, i) {
      case Rejected(code, at) =>
      case Scanned(k, p) =>
        match src.Skip(p) {
          case Unclosed(at) =>
          case At(j) =>
            assert After(src, MemberKey, stack, p) == Resume(src, MemberKey, stack, j)
                   == Unwind(src, stack, src.ColonAt(j, c));
            UnwindPrepend(src, stack, src.ColonAt(j, c), [Key(k)]);
        }
    }
  }

  /** A colon, or the comma after a member or an element. */
  predicate AtPunctuation(src: Source, state: State, i: nat) {
    || (state == MemberKey && src.Peek(i) == ':')
    || ((state == MemberValue || state == Element) && src.Peek(i) == ',')
  }

  function Punctuated(state: State): State {
    if state == MemberKey then KeyValueDelimiter
    else if state == MemberValue then MemberDelimiter
    else ElementDelimiter
  }

  /** A comma counts the member or element before it; a colon counts nothing. */
  function Counted(stack: seq<Frame>, state: State): seq<Frame>
    requires stack != []
  {
    if state == MemberKey then stack
    else stack[|stack| - 1 := stack[|stack| - 1].(count := stack[|stack| - 1].count + 1)]
  }

  lemma {:induction false} PunctuationStep(src: Source, state: State, stack: seq<Frame>, i: nat)
    requires i <= |src.text| && Spells(stack, state) && AtPunctuation(src, state, i)
    ensures Spells(Counted(stack, state), Punctuated(state))
    ensures Resume(src, state, stack, i) == After(src, Punctuated(state), Counted(stack, state), i + 1)
  {
    var top, next, counted := stack[|stack| - 1], Punctuated(state), Counted(stack, state);
    assert counted[..|counted| - 1] == stack[..|stack| - 1];
    if src.Skip(i + 1).At? {
      var j := src.Skip(i + 1).pos;
      var rest := Local(src, next, j, counted[|counted| - 1].count);
      assert Local(src, state, i, top.count) == rest;
      assert After(src, next, counted, i + 1) == Resume(src, next, counted, j) == Unwind(src, counted, rest);
    }
  }

  /** The token closes the innermost bracket. */
  predicate AtClose(src: Source, state: State, i: nat) {
    if InObject(state) then
      src.Peek(i) == '}' && (state == ObjectInitial || state == MemberValue || state == MemberDelimiter)
    else
      src.Peek(i) == ']' && (state == ArrayInitial || state == Element || state == ElementDelimiter)
  }

  predicate AfterComma(state: State) {
    state == MemberDelimiter || state == ElementDelimiter
  }

  /** The event of closing, which counts the last member or element unless a comma did. */
  function Closing(state: State, c: nat): Event {
    match state
    case MemberValue => EndObject(c + 1)
    case Element => EndArray(c + 1)
    case _ => if InObject(state) then EndObject(c) else EndArray(c)
  }

  lemma {:induction false} CloseStep(src: Source, state: State, stack: seq<Frame>, i: nat, before: seq<Event>)
    requires i <= |src.text| && Spells(stack, state) && AtClose(src, state, i)
    requires src.flags.trailingCommas || !AfterComma(state)
    ensures
      var (top, rest) := (stack[|stack| - 1], stack[..|stack| - 1]);
      && Spells(rest, Restore(top.resume))
      && Resume(src, state, stack, i).Prepend(before)
         == After(src, Restore(top.resume), rest, i + 1).Prepend(before + [Closing(state, top.count)])
  {
    var top := stack[|stack| - 1];
    assert Local(src, state, i, top.count) == Done(i + 1, [Closing(state, top.count)]);
    PrependTwice(After(src, Restore(top.resume), stack[..|stack| - 1], i + 1), before, [Closing(state, top.count)]);
  }

  /** A closing bracket after a comma, when trailing commas are not allowed. */
  lemma {:induction false} UnclosedStep(src: Source, state: State, stack: seq<Frame>, i: nat)
    requires i <= |src.text| && Spells(stack, state) && AtClose(src, state, i)
    requires !src.flags.trailingCommas && AfterComma(state)
    ensures Resume(src, state, stack, i)
         == Fail(if state == MemberDelimiter then ObjectMissName else ValueInvalid, i, [])
  {
    var c := stack[|stack| - 1].count;
    if state == ElementDelimiter {
      assert src.ValueAt(i) == src.ScalarAt(i);
      assert Local(src, state, i, c) == src.ElementAt(i, c);
    } else {
      assert Local(src, state, i, c) == src.MemberAt(i, c);
    }
  }

  /** What the pushdown parser reports when the token at `i` fits no row of the table, or the text ends. */
  function ErrorIn(state: State): ErrorCode
    requires Inside(state) || state == Start || state == Finish
  {
    match state
    case Start => DocumentEmpty
    case Finish => DocumentRootNotSingular
    case ObjectInitial => ObjectMissName
    case MemberDelimiter => ObjectMissName
    case MemberKey => ObjectMissColon
    case MemberValue => ObjectMissCommaOrCurlyBracket
    case KeyValueDelimiter => ValueInvalid
    case ArrayInitial => ValueInvalid
    case ElementDelimiter => ValueInvalid
    case Element => ArrayMissCommaOrSquareBracket
  }

  /** No member name, in a state that wants one. */
  lemma NameMissing(src: Source, state: State, i: nat, c: nat)
    requires i <= |src.text| && (state == ObjectInitial || state == MemberDelimiter)
    requires src.Peek(i) != '"' && src.Peek(i) != '}'
    ensures Local(src, state, i, c) == Fail(ObjectMissName, i, [])
  {
    assert Local(src, state, i, c) == src.MemberAt(i, c);
  }

  /** No value, in a state that wants one. */
  lemma ValueMissing(src: Source, state: State, i: nat, c: nat)
    requires i <= |src.text| && state != Start && ExpectsValue(src, state, i)
    requires src.Peek(i) == '\0' || Misplaced(src.Peek(i))
    ensures Local(src, state, i, c) == Fail(ValueInvalid, i, [])
  {
    assert src.ValueAt(i) == src.ScalarAt(i);
    LocalValueStep(src, state, i, c);
  }

  lemma UnexpectedInside(src: Source, state: State, i: nat, c: nat)
    requires i <= |src.text| && Inside(state)
    requires src.Peek(i) == '\0' || Predict(state, Tokenize(src.Peek(i))) == Error
    ensures Local(src, state, i, c) == Fail(ErrorIn(state), i, [])
  {
    if state == ObjectInitial || state == MemberDelimiter {
      NameMissing(src, state, i, c);
    } else if ErrorIn(state) == ValueInvalid {
      ValueMissing(src, state, i, c);
    }
  }

  /** The recursive parser reports the same, except before the first token. */
  lemma {:induction false} UnexpectedStep(src: Source, state: State, stack: seq<Frame>, i: nat)
    requires i <= |src.text| && Spells(stack, state)
    requires if src.Peek(i) == '\0' then state != Finish else Predict(state, Tokenize(src.Peek(i))) == Error
    ensures Resume(src, state, stack, i)
         == Fail(if state == Start && src.Peek(i) != '\0' then ValueInvalid else ErrorIn(state), i, [])
  {
    if Inside(state) {
      UnexpectedInside(src, state, i, stack[|stack| - 1].count);
    } else if state == Start && src.Peek(i) != '\0' {
      assert src.ValueAt(i) == src.ScalarAt(i);
    }
  }

  datatype ParseResult = NoError | ParseError(code: ErrorCode, offset: nat)

  /** The reader over one stream, with a handler that records every event and never aborts. */
  class Reader {
    const src: Source
    var pos: nat
    var events: seq<Event>
    var parseResult: ParseResult
    var stack: seq<Frame>

    constructor (src: Source)
      ensures this.src == src && Ready() && pos == 0 && events == []
    {
      this.src := src;
      pos, events, parseResult, stack := 0, [], NoError, [];
    }

    predicate Ready()
      reads this
    {
      pos <= |src.text| && parseResult.NoError?
    }

    /** The reader has ended as `o` says, `o` holding all events since the reader was made. */
    ghost predicate Reports(o: Outcome)
      reads this
    {
      match o
      case Done(p, evs) => parseResult.NoError? && pos == p && events == evs
      case Fail(code, at, evs) => parseResult == ParseError(code, at) && events == evs
    }

    method Consume(c: char) returns (ok: bool)
      requires Ready() && c != '\0'
      modifies this`pos
      ensures ok == (src.Peek(old(pos)) == c)
      ensures pos == (if ok then old(pos) + 1 else old(pos)) <= |src.text|
    {
      ok := src.Peek(pos) == c;
      if ok {
        pos := pos + 1;
      }
    }

    method SkipWhitespace()
      requires Ready()
      modifies this`pos
      ensures pos == src.SkipBlanks(old(pos))
    {
      while Blank(src.Peek(pos))
        invariant pos <= |src.text|
        invariant src.SkipBlanks(pos) == src.SkipBlanks(old(pos))
        decreases |src.text| - pos
      {
        pos := pos + 1;
      }
    }

    /** The body of a block comment, after its opening. */
    method SkipBlockComment()
      requires Ready()
      modifies this`pos, this`parseResult
      ensures match src.BlockEnd(old(pos))
              case At(j) => Ready() && pos == j
              case Unclosed(at) => parseResult == ParseError(UnspecificSyntaxError, at)
    {
      while true
        invariant Ready()
        invariant src.BlockEnd(pos) == src.BlockEnd(old(pos))
        decreases |src.text| - pos
      {
        if src.Peek(pos) == '\0' {
          parseResult := ParseError(UnspecificSyntaxError, pos);
          return;
        }
        var star := Consume('*');
        if star {
          var close := Consume('/');
          if close {
            break;
          }
        } else {
          pos := pos + 1;
        }
      }
    }

    /** The body of a line comment, after its opening. */
    method SkipLineComment()
      requires Ready()
      modifies this`pos
      ensures pos == src.LineEnd(old(pos))
    {
      while src.Peek(pos) != '\0'
        invariant Ready()
        invariant src.LineEnd(pos) == src.LineEnd(old(pos))
        decreases |src.text| - pos
      {
        var c := src.Peek(pos);
        pos := pos + 1;
        if c == '\n' {
          break;
        }
      }
    }

    /** A comment, its first solidus already consumed. */
    method SkipComment()
      requires Ready() && 0 < pos
      modifies this`pos, this`parseResult
      ensures match src.CommentEnd(old(pos) - 1)
              case At(j) => Ready() && pos == j
              case Unclosed(at) => parseResult == ParseError(UnspecificSyntaxError, at)
    {
      var star := Consume('*');
      if star {
        SkipBlockComment();
      } else {
        var line := Consume('/');
        if line {
          SkipLineComment();
        } else {
          parseResult := ParseError(UnspecificSyntaxError, pos);
        }
      }
    }

    method SkipWhitespaceAndComments()
      requires Ready()
      modifies this`pos, this`parseResult
      ensures match src.Skip(old(pos))
              case At(j) => Ready() && pos == j
              case Unclosed(at) => parseResult == ParseError(UnspecificSyntaxError, at)
    {
      SkipWhitespace();
      if src.flags.comments {
        var slash := Consume('/');
        while slash
          invariant Ready()
          invariant slash ==> 0 < pos && src.Peek(pos - 1) == '/'
          invariant src.Skip(old(pos)) == src.SkipComments(if slash then pos - 1 else pos)
          invariant !slash ==> src.Peek(pos) != '/'
          decreases |src.text| - pos, slash
        {
          SkipComment();
          if !parseResult.NoError? {
            return;
          }
          SkipWhitespace();
          slash := Consume('/');
        }
      }
    }

    /** ParseNull, ParseTrue and ParseFalse: the first letter has been seen, the others are consumed in turn. */
    method ParseLiteral(word: string, e: Event)
      requires Ready() && '\0' !in word && word != [] && src.Peek(pos) == word[0]
      modifies this`pos, this`parseResult, this`events
      ensures Reports(src.Literal(old(pos), word, e).Prepend(old(events)))
    {
      pos := pos + 1;
      var k := 1;
      var matched := true;
      while matched && k < |word|
        invariant 1 <= k <= |word| && pos == old(pos) + k && Ready() && events == old(events)
        invariant src.Mismatch(pos, word[k..]) == src.Mismatch(old(pos), word)
        invariant !matched ==> k < |word| && src.Peek(pos) != word[k]
      {
        assert word[k..][1..] == word[k + 1..];
        matched := Consume(word[k]);
        if matched {
          k := k + 1;
        }
      }
      if matched {
        events := events + [e];
      } else {
        parseResult := ParseError(ValueInvalid, pos);
      }
    }

    method ParseString(isKey: bool)
      requires Ready() && src.Peek(pos) == '"'
      modifies this`pos, this`parseResult, this`events
      ensures match src.strings(src.text, old(pos))
              case Rejected(code, at) => parseResult == ParseError(code, at) && events == old(events)
              case Scanned(s, j) =>
                Ready() && pos == j && events == old(events) + [if isKey then Key(s) else Str(s)]
    {
      match src.strings(src.text, pos) {
        case Rejected(code, at) => parseResult := ParseError(code, at);
        case Scanned(s, j) =>
          pos := j;
          events := events + [if isKey then Key(s) else Str(s)];
      }
    }

    method ParseNumber()
      requires Ready() && src.Peek(pos) !in "ntf\"{["
      modifies this`pos, this`parseResult, this`events
      ensures Reports(src.ScalarAt(old(pos)).Prepend(old(events)))
    {
      if src.StartsNumber(src.Peek(pos)) {
        match src.numbers(src.text, pos) {
          case Rejected(code, at) => parseResult := ParseError(code, at);
          case Scanned(n, j) =>
            pos := j;
            events := events + [Num(n)];
        }
      } else {
        parseResult := ParseError(ValueInvalid, pos);
      }
    }

    // Recursive descent.

    method ParseValue()
      requires Ready()
      modifies this`pos, this`parseResult, this`events
      ensures Reports(src.ValueAt(old(pos)).Prepend(old(events)))
      decreases |src.text| - pos, 1
    {
      match src.Peek(pos) {
        case 'n' => ParseLiteral("null", Null);
        case 't' => ParseLiteral("true", Bool(true));
        case 'f' => ParseLiteral("false", Bool(false));
        case '"' => ParseString(false);
        case '{' => ParseObject();
        case '[' => ParseArray();
        case _ => ParseNumber();
      }
    }

    /** One turn of the loop of `ParseObject`, up to the comma or bracket after the member. */
    method ParseMember(memberCount: nat)
      requires Ready()
      modifies this`pos, this`parseResult, this`events
      ensures
        var whole := src.MemberAt(old(pos), memberCount).Prepend(old(events));
        if parseResult.NoError? then
          && old(pos) < pos <= |src.text|
          && src.MemberTail(pos, memberCount + 1).Prepend(events) == whole
        else Reports(whole)
      decreases |src.text| - pos, 3
    {
      if src.Peek(pos) != '"' {
        parseResult := ParseError(ObjectMissName, pos);
        return;
      }
      ghost var whole := src.MemberAt(pos, memberCount).Prepend(events);
      ghost var before := events;
      ParseString(true);
      if !parseResult.NoError? {
        return;
      }
      ghost var key := [events[|before|]];
      SkipWhitespaceAndComments();
      if !parseResult.NoError? {
        return;
      }
      PrependTwice(src.ColonAt(pos, memberCount), before, key);
      assert src.ColonAt(pos, memberCount).Prepend(events) == whole;
      var colon := Consume(':');
      if !colon {
        parseResult := ParseError(ObjectMissColon, pos);
        return;
      }
      SkipWhitespaceAndComments();
      if !parseResult.NoError? {
        return;
      }
      before := events;
      ghost var value := src.ValueAt(pos);
      assert src.MemberValueAt(pos, memberCount).Prepend(events) == whole;
      ParseValue();
      if !parseResult.NoError? {
        return;
      }
      SkipWhitespaceAndComments();
      if !parseResult.NoError? {
        return;
      }
      PrependTwice(src.MemberTail(pos, memberCount + 1), before, value.events);
    }

    method ParseObject()
      requires Ready() && src.Peek(pos) == '{'
      modifies this`pos, this`parseResult, this`events
      ensures Reports(src.ObjectAt(old(pos)).Prepend(old(events)))
      decreases |src.text| - pos, 0
    {
      ghost var whole := src.ObjectAt(pos).Prepend(events);
      pos := pos + 1;
      events := events + [StartObject];
      SkipWhitespaceAndComments();
      if !parseResult.NoError? {
        return;
      }
      PrependTwice(src.ObjectOpen(pos, 0), old(events), [StartObject]);
      var close := Consume('}');
      if close {
        events := events + [EndObject(0)];
        return;
      }
      var memberCount := 0;
      while true
        invariant Ready() && old(pos) < pos
        invariant src.MemberAt(pos, memberCount).Prepend(events) == whole
        decreases |src.text| - pos
      {
        ParseMember(memberCount);
        if !parseResult.NoError? {
          return;
        }
        memberCount := memberCount + 1;
        var comma := Consume(',');
        if comma {
          SkipWhitespaceAndComments();
          if !parseResult.NoError? {
            return;
          }
        } else {
          close := Consume('}');
          if close {
            events := events + [EndObject(memberCount)];
          } else {
            parseResult := ParseError(ObjectMissCommaOrCurlyBracket, pos);
          }
          return;
        }
        if src.flags.trailingCommas && src.Peek(pos) == '}' {
          events := events + [EndObject(memberCount)];
          pos := pos + 1;
          return;
        }
      }
    }

    /** One turn of the loop of `ParseArray`, up to the comma or bracket after the element. */
    method ParseElement(elementCount: nat)
      requires Ready()
      modifies this`pos, this`parseResult, this`events
      ensures
        var whole := src.ElementAt(old(pos), elementCount).Prepend(old(events));
        if parseResult.NoError? then
          && old(pos) < pos <= |src.text|
          && src.ElementTail(pos, elementCount + 1).Prepend(events) == whole
        else Reports(whole)
      decreases |src.text| - pos, 2
    {
      ghost var before, value := events, src.ValueAt(pos);
      ParseValue();
      if !parseResult.NoError? {
        return;
      }
      SkipWhitespaceAndComments();
      if !parseResult.NoError? {
        return;
      }
      PrependTwice(src.ElementTail(pos, elementCount + 1), before, value.events);
    }

    method ParseArray()
      requires Ready() && src.Peek(pos) == '['
      modifies this`pos, this`parseResult, this`events
      ensures Reports(src.ArrayAt(old(pos)).Prepend(old(events)))
      decreases |src.text| - pos, 0
    {
      ghost var whole := src.ArrayAt(pos).Prepend(events);
      pos := pos + 1;
      events := events + [StartArray];
      SkipWhitespaceAndComments();
      if !parseResult.NoError? {
        return;
      }
      PrependTwice(src.ArrayOpen(pos, 0), old(events), [StartArray]);
      var close := Consume(']');
      if close {
        events := events + [EndArray(0)];
        return;
      }
      var elementCount := 0;
      while true
        invariant Ready() && old(pos) < pos
        invariant src.ElementAt(pos, elementCount).Prepend(events) == whole
        decreases |src.text| - pos
      {
        ParseElement(elementCount);
        if !parseResult.NoError? {
          return;
        }
        elementCount := elementCount + 1;
        var comma := Consume(',');
        if comma {
          SkipWhitespaceAndComments();
          if !parseResult.NoError? {
            return;
          }
        } else {
          close := Consume(']');
          if close {
            events := events + [EndArray(elementCount)];
          } else {
            parseResult := ParseError(ArrayMissCommaOrSquareBracket, pos);
          }
          return;
        }
        if src.flags.trailingCommas && src.Peek(pos) == ']' {
          events := events + [EndArray(elementCount)];
          pos := pos + 1;
          return;
        }
      }
    }

    /** The recursive parser, for a reader just made. */
    method Parse()
      requires Ready() && pos == 0 && events == []
      modifies this`pos, this`parseResult, this`events
      ensures Reports(src.Document())
    {
      SkipWhitespaceAndComments();
      if !parseResult.NoError? {
        return;
      }
      if src.Peek(pos) == '\0' {
        parseResult := ParseError(DocumentEmpty, pos);
        return;
      }
      ParseValue();
      if !parseResult.NoError? {
        return;
      }
      if !src.flags.stopWhenDone {
        SkipWhitespaceAndComments();
        if !parseResult.NoError? {
          return;
        }
        if src.Peek(pos) != '\0' {
          parseResult := ParseError(DocumentRootNotSingular, pos);
        }
      }
    }

    // The pushdown parser.

    /** The frames spell the brackets that the events have left open. */
    ghost predicate Spelled(state: State)
      reads this
    {
      Spells(stack, state) && OpenAfter(events) == Brackets(stack, state)
    }

    /** The parser has taken one step of `whole`: the rest, after what is recorded, is still `whole`. */
    ghost predicate Arrived(next: State, whole: Outcome)
      reads this
    {
      if next != Error then
        Ready() && next != Start && Spells(stack, next) && After(src, next, stack, pos).Prepend(events) == whole
      else
        parseResult.ParseError? && Reports(whole)
    }

    /** Pushes a frame for the bracket that opens. */
    method Push(state: State)
      requires Ready() && ExpectsValue(src, state, pos) && AtOpen(src, pos)
      modifies this
      ensures Ready() && pos == old(pos) + 1
      ensures stack == old(stack) + [Frame(Enclosing(state), 0)]
      ensures events == old(events) + [Opening(src, old(pos)).1]
    {
      var n := state;
      if state == ArrayInitial || state == ElementDelimiter {
        n := Element;
      } else if state == KeyValueDelimiter {
        n := MemberValue;
      }
      stack := stack + [Frame(n, 0)];
      events := events + [if src.Peek(pos) == '{' then StartObject else StartArray];
      pos := pos + 1;
    }

    method Open(state: State, dst: State)
      returns (next: State, ghost f: Effect)
      requires Ready() && Spells(stack, state) && ExpectsValue(src, state, pos)
      requires AtOpen(src, pos) && dst == Opening(src, pos).0
      modifies this
      ensures next != Error ==> Acts(f, state, old(stack), next, stack) && (f.Opens? ==> AtValue(state))
      ensures next != Error ==> events == old(events) + Published(f)
      ensures next == dst && pos == old(pos) + 1
      ensures Arrived(next, Resume(src, state, old(stack), old(pos)).Prepend(old(events)))
    {
      OpenStep(src, state, stack, pos, events);
      Push(state);
      next, f := dst, Opens(Opening(src, old(pos)).1);
    }

    method ScalarValue(state: State, dst: State)
      returns (next: State, ghost f: Effect)
      requires Ready() && Spells(stack, state) && ExpectsValue(src, state, pos) && dst == Landing(state)
      requires !AtOpen(src, pos)
      modifies this
      ensures next != Error ==> Acts(f, state, old(stack), next, stack) && (f.Opens? ==> AtValue(state))
      ensures next != Error ==> events == old(events) + Published(f)
      ensures stack == old(stack) && (next != Error ==> next == dst && old(pos) < pos)
      ensures Arrived(next, Resume(src, state, old(stack), old(pos)).Prepend(old(events)))
    {
      ValueStep(src, state, stack, pos);
      ghost var v := src.ValueAt(pos);
      ParseValue();
      if !parseResult.NoError? {
        return Error, Stays([]);
      }
      PrependTwice(After(src, dst, stack, pos), old(events), v.events);
      next, f := dst, Stays(v.events);
    }

    /** Consumes a comma, counting the member or element before it. */
    method Count(state: State)
      requires Ready() && stack != [] && (state == MemberValue || state == Element) && src.Peek(pos) == ','
      modifies this`pos, this`stack
      ensures Ready() && pos == old(pos) + 1
      ensures stack == Counted(old(stack), state)
    {
      pos := pos + 1;
      stack := stack[|stack| - 1 := stack[|stack| - 1].(count := stack[|stack| - 1].count + 1)];
    }

    method Delimiter(state: State, dst: State)
      returns (next: State, ghost f: Effect)
      requires Ready() && Spells(stack, state) && src.Peek(pos) == ','
      requires (state == MemberValue && dst == MemberDelimiter) || (state == Element && dst == ElementDelimiter)
      modifies this
      ensures next == dst && pos == old(pos) + 1
      ensures f == Stays([]) && Acts(f, state, old(stack), next, stack) && events == old(events)
      ensures Arrived(next, Resume(src, state, old(stack), old(pos)).Prepend(old(events)))
    {
      PunctuationStep(src, state, stack, pos);
      Count(state);
      next, f := dst, Stays([]);
    }

    method RejectTrailingComma(state: State)
      requires Ready() && Spells(stack, state) && AtClose(src, state, pos)
      requires !src.flags.trailingCommas && AfterComma(state)
      modifies this`parseResult
      ensures parseResult.ParseError?
      ensures Reports(Resume(src, state, stack, old(pos)).Prepend(events))
    {
      UnclosedStep(src, state, stack, pos);
      parseResult := ParseError(if state == MemberDelimiter then ObjectMissName else ValueInvalid, pos);
    }

    /** Pops the frame of the bracket that closes, and counts its last member or element. */
    method Pop(state: State) returns (next: State)
      requires Ready() && Spells(stack, state) && AtClose(src, state, pos)
      modifies this
      ensures Ready() && pos == old(pos) + 1
      ensures
        var top := old(stack)[|old(stack)| - 1];
        && stack == old(stack)[..|old(stack)| - 1]
        && next == Restore(top.resume)
        && events == old(events) + [Closing(state, top.count)]
    {
      var top := stack[|stack| - 1];
      stack := stack[..|stack| - 1];
      var c := top.count;
      if state == MemberValue || state == Element {
        c := c + 1;
      }
      next := top.resume;
      if next == Start {
        next := Finish;
      }
      events := events + [if InObject(state) then EndObject(c) else EndArray(c)];
      pos := pos + 1;
    }

    method Close(state: State)
      returns (next: State, ghost f: Effect)
      requires Ready() && Spells(stack, state) && AtClose(src, state, pos)
      modifies this
      ensures next != Error ==> Acts(f, state, old(stack), next, stack) && (f.Opens? ==> AtValue(state))
      ensures next != Error ==> events == old(events) + Published(f)
      ensures next != Error ==> old(pos) < pos
      ensures Arrived(next, Resume(src, state, old(stack), old(pos)).Prepend(old(events)))
    {
      // A comma just before is only allowed when trailing commas are.
      if !src.flags.trailingCommas && AfterComma(state) {
        RejectTrailingComma(state);
        next, f := Error, Stays([]);
      } else {
        CloseStep(src, state, stack, pos, events);
        f := Closes(Closing(state, stack[|stack| - 1].count));
        next := Pop(state);
      }
    }

    method MemberName(state: State)
      returns (next: State, ghost f: Effect)
      requires Ready() && Spells(stack, state) && src.Peek(pos) == '"'
      requires state == ObjectInitial || state == MemberDelimiter
      modifies this
      ensures next != Error ==> Acts(f, state, old(stack), next, stack) && (f.Opens? ==> AtValue(state))
      ensures next != Error ==> events == old(events) + Published(f)
      ensures stack == old(stack) && (next != Error ==> next == MemberKey && old(pos) < pos)
      ensures Arrived(next, Resume(src, state, old(stack), old(pos)).Prepend(old(events)))
    {
      KeyStep(src, state, stack, pos);
      ParseString(true);
      if !parseResult.NoError? {
        return Error, Stays([]);
      }
      next, f := MemberKey, Stays([events[|old(events)|]]);
      PrependTwice(After(src, MemberKey, stack, pos), old(events), Published(f));
    }

    /** Acts on the state that the table predicts for the token, and returns the state reached. */
    method Transit(state: State, token: Token, dst: State)
      returns (next: State, ghost f: Effect)
      requires Ready() && Spells(stack, state)
      requires src.Peek(pos) != '\0' && token == Tokenize(src.Peek(pos)) && dst == Predict(state, token)
      modifies this
      ensures next != Error ==> Acts(f, state, old(stack), next, stack) && (f.Opens? ==> AtValue(state))
      ensures next != Error ==> events == old(events) + Published(f)
      ensures next != Error ==> old(pos) < pos
      ensures
        if dst == Error then next == Error && Ready() && pos == old(pos) && events == old(events)
        else Arrived(next, Resume(src, state, old(stack), old(pos)).Prepend(old(events)))
    {
      match dst {
        case Error =>
          next, f := Error, Stays([]);

        case ObjectInitial => next, f := Open(state, dst);
        case ArrayInitial => next, f := Open(state, dst);

        case MemberKey => next, f := MemberName(state);

        case KeyValueDelimiter =>
          PunctuationStep(src, state, stack, pos);
          pos := pos + 1;
          next, f := dst, Stays([]);

        case MemberValue => next, f := ScalarValue(state, dst);
        case Element => next, f := ScalarValue(state, dst);

        case MemberDelimiter => next, f := Delimiter(state, dst);
        case ElementDelimiter => next, f := Delimiter(state, dst);

        case ObjectFinish => next, f := Close(state);
        case ArrayFinish => next, f := Close(state);

        case Value => next, f := ScalarValue(state, Finish);

        case _ => assert false;
      }
    }

    method HandleError(state: State)
      requires Inside(state) || state == Start || state == Finish
      modifies this`parseResult
      ensures parseResult
           == if old(parseResult).ParseError? then old(parseResult) else ParseError(ErrorIn(state), pos)
    {
      if parseResult.NoError? {
        parseResult := ParseError(ErrorIn(state), pos);
      }
    }

    /** Between two tokens: the rest, after what is recorded, is still the whole document. */
    ghost predicate Running(state: State)
      reads this
    {
      && Ready() && Spelled(state)
      && src.Skip(0).At?
      && (if state == Start then pos == src.Skip(0).pos && events == [] else !src.StartsMisplaced())
      && Resume(src, state, stack, pos).Prepend(events) == src.Document()
    }

    /** The token fits no row, or the text has ended too early. */
    method Reject(state: State)
      requires Running(state)
      requires if src.Peek(pos) == '\0' then state != Finish else Predict(state, Tokenize(src.Peek(pos))) == Error
      modifies this`parseResult
      ensures Reports(src.Pushdown())
    {
      UnexpectedStep(src, state, stack, pos);
      HandleError(state);
    }

    /** One turn of the loop; `state` becomes Error when the parse has failed. */
    method Advance(state: State) returns (next: State)
      requires Running(state) && src.Peek(pos) != '\0'
      modifies this
      ensures if next == Error then Reports(src.Pushdown())
              else
                && Ready() && next != Start && Spelled(next) && old(pos) < pos
                && src.Skip(0).At? && !src.StartsMisplaced()
                && After(src, next, stack, pos).Prepend(events) == src.Document()
    {
      var t := Tokenize(src.Peek(pos));
      var n := Predict(state, t);
      if n == Error {
        Reject(state);
        return Error;
      }
      ghost var before, published, f := stack, events, Stays([]);
      next, f := Transit(state, t, n);
      if next != Error {
        ActsSpell(f, state, before, next, stack, published);
      }
    }

    /** The pushdown parser, for a reader just made. */
    method IterativeParse()
      requires Ready() && pos == 0 && events == []
      modifies this
      ensures stack == [] && Reports(src.Pushdown())
    {
      stack := [];
      var state := Start;
      SkipWhitespaceAndComments();
      if !parseResult.NoError? {
        return;
      }
      while src.Peek(pos) != '\0'
        invariant Running(state)
        decreases |src.text| - pos
      {
        state := Advance(state);
        if state == Error || (src.flags.stopWhenDone && state == Finish) {
          stack := [];
          return;
        }
        SkipWhitespaceAndComments();
        if !parseResult.NoError? {
          stack := [];
          return;
        }
      }
      if state != Finish {
        Reject(state);
      }
      stack := [];
    }
  }

  /** Both parsers on one text. */
  method ParseBoth(src: Source)
    returns (recursive: ParseResult, published: seq<Event>, iterative: ParseResult, published': seq<Event>)
    ensures published == published'
    ensures recursive.NoError? <==> iterative.NoError?
    ensures recursive.ParseError? ==> recursive.offset == iterative.offset
    ensures recursive == iterative <==> !src.StartsMisplaced()
    ensures src.StartsMisplaced() ==>
              recursive.ParseError? && recursive.code == ValueInvalid && iterative.code == DocumentEmpty
  {
    MisplacedStart(src);
    var first := new Reader(src);
    first.Parse();
    var second := new Reader(src);
    second.IterativeParse();
    recursive, published := first.parseResult, first.events;
    iterative, published' := second.parseResult, second.events;
  }
}
