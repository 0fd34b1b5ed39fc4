/**
 Parsing into a document: every parse drives the document's stack machine without underflow, and
 a successful one leaves exactly one root, the value that the text's event tree denotes.
 */
module JsonDom {
  import opened JsonEvents
  import opened JsonGrammar
  import opened JsonDocument
  import JsonNumber
  import JsonReader
  import opened Options

  // The events of a value are the flattening of one tree; those of a parse that fails still run.

  ghost predicate Runs(stack: seq<Value>, events: seq<Event>) {
    Run(stack, events).Some?
  }

  ghost predicate ItemsTail(o: Outcome, items: seq<Tree>, n: nat) {
    && (forall k :: 0 <= k < |items| ==> WellFormed(items[k]))
    && o.events == FlatItems(items) + [EndArray(n + |items|)]
  }

  ghost predicate FieldsTail(o: Outcome, fields: seq<Field>, n: nat) {
    && (forall k :: 0 <= k < |fields| ==> WellFormed(fields[k].tree))
    && o.events == FlatFields(fields) + [EndObject(n + |fields|)]
  }

  lemma {:induction false} RunsAfter(stack: seq<Value>, t: Tree, rest: seq<Event>)
    requires WellFormed(t) && Runs(stack + [ValueOf(t)], rest)
    ensures Runs(stack, Flat(t) + rest)
  {
    Replay(t, stack);
    RunConcat(stack, Flat(t), rest);
  }

  lemma RunsPush(stack: seq<Value>, e: Event, v: Value, rest: seq<Event>)
    requires Step(stack, e) == Some(stack + [v]) && Runs(stack + [v], rest)
    ensures Runs(stack, [e] + rest)
  {
  }

  lemma ValueTree(src: Source, i: nat, stack: seq<Value>) returns (t: Tree)
    requires i <= |src.text|
    ensures var o := src.ValueAt(i);
            if o.Done? then WellFormed(t) && o.events == Flat(t) else Runs(stack, o.events)
    decreases |src.text| - i, 1
  {
    var o := src.ValueAt(i);
    t := Leaf(Null);
    if src.Peek(i) == '{' {
      t := ObjectTree(src, i, stack);
    } else if src.Peek(i) == '[' {
      t := ArrayTree(src, i, stack);
    } else if o.Done? {
      t := Leaf(o.events[0]);
    }
  }

  lemma ArrayTree(src: Source, i: nat, stack: seq<Value>) returns (t: Tree)
    requires i <= |src.text| && src.Peek(i) == '['
    ensures var o := src.ArrayAt(i);
            if o.Done? then WellFormed(t) && o.events == Flat(t) else Runs(stack, o.events)
    decreases |src.text| - i, 0
  {
    t := Leaf(Null);
    var open := ArrayValue([]);
    assert Runs(stack + [open], []);
    if src.Skip(i + 1).At? {
      var j := src.Skip(i + 1).pos;
      if src.Peek(j) == ']' {
        t := Items([]);
      } else {
        var items := ElementTree(src, j, 0, stack + [open]);
        t := Items(items);
        if src.ElementAt(j, 0).Fail? {
          RunsPush(stack, StartArray, open, src.ElementAt(j, 0).events);
        }
      }
    } else {
      RunsPush(stack, StartArray, open, []);
    }
  }

  lemma ElementTree(src: Source, i: nat, n: nat, stack: seq<Value>) returns (items: seq<Tree>)
    requires i <= |src.text|
    ensures var o := src.ElementAt(i, n);
            if o.Done? then ItemsTail(o, items, n) else Runs(stack, o.events)
    decreases |src.text| - i, 2
  {
    items := [];
    var t := ValueTree(src, i, stack);
    var v := src.ValueAt(i);
    if v.Done? {
      assert Runs(stack + [ValueOf(t)], []);
      RunsAfter(stack, t, []);
      assert v.events + [] == v.events;
      if src.Skip(v.pos).At? {
        var j := src.Skip(v.pos).pos;
        var tail := src.ElementTail(j, n + 1);
        var rest := ElementTailTree(src, j, n + 1, stack + [ValueOf(t)]);
        items := [t] + rest;
        if tail.Fail? {
          RunsAfter(stack, t, tail.events);
        } else {
          assert items[1..] == rest;
          assert Flat(t) + (FlatItems(rest) + [EndArray(n + |items|)]) == FlatItems(items) + [EndArray(n + |items|)];
        }
      }
    }
  }

  lemma ElementTailTree(src: Source, i: nat, n: nat, stack: seq<Value>) returns (items: seq<Tree>)
    requires i <= |src.text|
    ensures var o := src.ElementTail(i, n);
            if o.Done? then ItemsTail(o, items, n) else Runs(stack, o.events)
    decreases |src.text| - i, 0
  {
    items := [];
    if src.Peek(i) == ',' && src.Skip(i + 1).At? {
      var j := src.Skip(i + 1).pos;
      if !(src.flags.trailingCommas && src.Peek(j) == ']') {
        items := ElementTree(src, j, n, stack);
      }
    }
  }

  lemma ObjectTree(src: Source, i: nat, stack: seq<Value>) returns (t: Tree)
    requires i <= |src.text| && src.Peek(i) == '{'
    ensures var o := src.ObjectAt(i);
            if o.Done? then WellFormed(t) && o.events == Flat(t) else Runs(stack, o.events)
    decreases |src.text| - i, 0
  {
    t := Leaf(Null);
    var open := ObjectValue([]);
    assert Runs(stack + [open], []);
    if src.Skip(i + 1).At? {
      var j := src.Skip(i + 1).pos;
      if src.Peek(j) == '}' {
        t := Fields([]);
      } else {
        var fields := MemberTree(src, j, 0, stack + [open]);
        t := Fields(fields);
        if src.MemberAt(j, 0).Fail? {
          RunsPush(stack, StartObject, open, src.MemberAt(j, 0).events);
        }
      }
    } else {
      RunsPush(stack, StartObject, open, []);
    }
  }

  lemma {:induction false} FieldsCons(k: string, t: Tree, rest: seq<Field>, end: Event)
    ensures [Key(k)] + (Flat(t) + FlatFields(rest) + [end]) == FlatFields([Field(k, t)] + rest) + [end]
  {
  }

  lemma MemberTree(src: Source, i: nat, n: nat, stack: seq<Value>) returns (fields: seq<Field>)
    requires i <= |src.text|
    ensures var o := src.MemberAt(i, n);
            if o.Done? then FieldsTail(o, fields, n) else Runs(stack, o.events)
    decreases |src.text| - i, 2
  {
    fields := [];
    if src.Peek(i) == '"' && src.strings(src.text, i).Scanned? {
      var k, p := src.strings(src.text, i).value, src.strings(src.text, i).next;
      var key := StringValue(k);
      if src.Skip(p).At? {
        var j := src.Skip(p).pos;
        var o := src.ColonAt(j, n);
        var t, rest := ColonTree(src, j, n, stack + [key]);
        if o.Fail? {
          RunsPush(stack, Key(k), key, o.events);
        } else {
          fields := [Field(k, t)] + rest;
          FieldsCons(k, t, rest, EndObject(n + 1 + |rest|));
        }
      } else {
        assert Runs(stack + [key], []);
        RunsPush(stack, Key(k), key, []);
      }
    }
  }

  ghost predicate FieldTail(o: Outcome, t: Tree, rest: seq<Field>, n: nat) {
    && WellFormed(t) && (forall k :: 0 <= k < |rest| ==> WellFormed(rest[k].tree))
    && o.events == Flat(t) + FlatFields(rest) + [EndObject(n + 1 + |rest|)]
  }

  lemma ColonTree(src: Source, i: nat, n: nat, stack: seq<Value>)
    returns (t: Tree, rest: seq<Field>)
    requires i <= |src.text|
    ensures var o := src.ColonAt(i, n);
            if o.Done? then FieldTail(o, t, rest, n) else Runs(stack, o.events)
    decreases |src.text| - i, 0
  {
    t, rest := Leaf(Null), [];
    if src.Peek(i) == ':' && src.Skip(i + 1).At? {
      t, rest := MemberValueTree(src, src.Skip(i + 1).pos, n, stack);
    }
  }

  lemma MemberValueTree(src: Source, i: nat, n: nat, stack: seq<Value>)
    returns (t: Tree, rest: seq<Field>)
    requires i <= |src.text|
    ensures var o := src.MemberValueAt(i, n);
            if o.Done? then FieldTail(o, t, rest, n) else Runs(stack, o.events)
    decreases |src.text| - i, 2
  {
    rest := [];
    t := ValueTree(src, i, stack);
    var v := src.ValueAt(i);
    if v.Done? {
      assert Runs(stack + [ValueOf(t)], []);
      RunsAfter(stack, t, []);
      assert v.events + [] == v.events;
      if src.Skip(v.pos).At? {
        var j := src.Skip(v.pos).pos;
        var tail := src.MemberTail(j, n + 1);
        rest := MemberTailTree(src, j, n + 1, stack + [ValueOf(t)]);
        if tail.Fail? {
          RunsAfter(stack, t, tail.events);
        } else {
          assert Flat(t) + (FlatFields(rest) + [EndObject(n + 1 + |rest|)])
                 == Flat(t) + FlatFields(rest) + [EndObject(n + 1 + |rest|)];
        }
      }
    }
  }

  lemma MemberTailTree(src: Source, i: nat, n: nat, stack: seq<Value>)
    returns (fields: seq<Field>)
    requires i <= |src.text|
    ensures var o := src.MemberTail(i, n);
            if o.Done? then FieldsTail(o, fields, n) else Runs(stack, o.events)
    decreases |src.text| - i, 0
  {
    fields := [];
    if src.Peek(i) == ',' && src.Skip(i + 1).At? {
      var j := src.Skip(i + 1).pos;
      if !(src.flags.trailingCommas && src.Peek(j) == '}') {
        fields := MemberTree(src, j, n, stack);
      }
    }
  }

  /** The events of an accepted text flatten one well-formed tree; any others run without underflow. */
  lemma DocumentTree(src: Source) returns (t: Tree)
    ensures var o := src.Document();
            if o.Done? then WellFormed(t) && o.events == Flat(t) else Runs([], o.events)
  {
    t := Leaf(Null);
    if src.Skip(0).At? && src.Peek(src.Skip(0).pos) != '\0' {
      var i := src.Skip(0).pos;
      t := ValueTree(src, i, []);
      var v := src.ValueAt(i);
      if v.Done? {
        assert src.RootEnd(v.pos).events == [];
        Replay(t, []);
      }
    }
  }

  /** The value is the scalar that the event carries; the digits of a raw number are a string. */
  ghost predicate Holds(v: Value, e: Event) {
    match e
    case Null => v == NullValue
    case Bool(b) => v == BoolValue(b)
    case Str(s) => v == StringValue(s)
    case Num(RawNumber(digits)) => v == StringValue(digits)
    case Num(Double(d)) => v.NumberValue? && v.n.IsDouble() && v.n.cell == JsonNumber.Real(d)
    case Num(n) => v.NumberValue? && JsonNumber.Holds(v.n, JsonNumber.Carried(n))
    case _ => false
  }

  /** The document: its own value, and the stack that its handler functions work on. */
  class Document {
    var root: Value
    var stack: seq<Value>

    constructor ()
      ensures root == NullValue && stack == []
    {
      root, stack := NullValue, [];
    }

    method Push(v: Value)
      modifies this`stack
      ensures stack == old(stack) + [v]
    {
      stack := stack + [v];
    }

    /** The values of `n` elements become the array below them. */
    method EndArray(n: nat)
      requires |stack| > n
      modifies this`stack
      ensures |stack| == |old(stack)| - n && stack[..|stack| - 1] == old(stack)[..|stack| - 1]
      ensures stack[|stack| - 1] == ArrayValue(old(stack)[|stack|..])
    {
      var elements := stack[|stack| - n..];
      stack := stack[..|stack| - n];
      stack := stack[|stack| - 1 := ArrayValue(elements)];
    }

    /** The names and values of `n` members become the object below them. */
    method EndObject(n: nat)
      requires |stack| > 2 * n && Paired(stack[|stack| - 2 * n..]).Some?
      modifies this`stack
      ensures |stack| == |old(stack)| - 2 * n && stack[..|stack| - 1] == old(stack)[..|stack| - 1]
      ensures stack[|stack| - 1].ObjectValue?
      ensures Paired(old(stack)[|stack|..]) == Some(stack[|stack| - 1].members)
    {
      var members := Paired(stack[|stack| - 2 * n..]).value;
      stack := stack[..|stack| - 2 * n];
      stack := stack[|stack| - 1 := ObjectValue(members)];
    }

    /** One event. */
    method Handle(e: Event)
      requires Step(stack, e).Some?
      modifies this`stack
      ensures Step(old(stack), e) == Some(stack)
      ensures IsScalar(e) ==> stack[..|stack| - 1] == old(stack) && Holds(stack[|stack| - 1], e)
    {
      if e.Num? && !e.n.RawNumber? {
        JsonNumber.BuildHolds(e.n);
      }
      match e {
        case StartObject => Push(ObjectValue([]));
        case StartArray => Push(ArrayValue([]));
        case Key(name) => Push(StringValue(name));
        case EndArray(n) =>
          EndArray(n);
          assert stack == old(stack)[..|stack| - 1] + [stack[|stack| - 1]];
        case EndObject(n) =>
          EndObject(n);
          assert stack == old(stack)[..|stack| - 1] + [stack[|stack| - 1]];
        case _ => Push(OfScalar(e));
      }
    }

    /**
     Parses a text into the document. No handler ever pops more values than there are; after an
     accepted text exactly one value is on the stack, and it becomes the root.
     */
    method ParseStream(src: Source) returns (r: JsonReader.ParseResult, ghost tree: Tree)
      requires stack == []
      modifies this
      ensures stack == []
      ensures r.NoError? <==> src.Document().Done?
      ensures if r.NoError? then WellFormed(tree) && src.Document().events == Flat(tree) && root == ValueOf(tree)
              else root == old(root)
    {
      tree := DocumentTree(src);
      var reader := new JsonReader.Reader(src);
      reader.Parse();
      r := reader.parseResult;
      var published := reader.events;
      if r.NoError? {
        Replay(tree, []);
      }
      var k := 0;
      while k < |published|
        invariant k <= |published|
        invariant root == old(root)
        invariant Run(stack, published[k..]) == Run([], published) && Runs([], published)
      {
        assert published[k..][1..] == published[k + 1..];
        Handle(published[k]);
        k := k + 1;
      }
      if r.NoError? {
        assert stack == [ValueOf(tree)];
        root := stack[|stack| - 1];
      }
      stack := [];
    }
  }

  /** A document that takes the events of a value becomes that value, over whatever is on its stack. */
  method Clone(v: Value, doc: Document)
    modifies doc`stack
    ensures doc.stack == old(doc.stack) + [v]
  {
    ReplayAccept(v, doc.stack);
    var events := Accept(v);
    ghost var full := doc.stack + [v];
    var k := 0;
    while k < |events|
      invariant k <= |events|
      invariant Run(doc.stack, events[k..]) == Some(full)
    {
      assert events[k..][1..] == events[k + 1..];
      doc.Handle(events[k]);
      k := k + 1;
    }
  }
}
