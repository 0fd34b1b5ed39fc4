/**
 The DOM: values, the events that a value publishes, and the document, a stack machine that
 rebuilds a value from events.
 */
module JsonDocument {
  import opened JsonEvents
  import JsonNumber
  import opened Options

  type NumberData = n: JsonNumber.Data | JsonNumber.Built(n) witness JsonNumber.OfDouble(0.0)

  datatype Member = Member(name: string, value: Value)

  datatype Value =
    | NullValue
    | BoolValue(b: bool)
    | NumberValue(n: NumberData)
    | StringValue(s: string)
    | ObjectValue(members: seq<Member>)
    | ArrayValue(elements: seq<Value>)

  /** The events that a value publishes to a handler that never aborts. */
  function Accept(v: Value): seq<Event> {
    match v
    case NullValue => [Null]
    case BoolValue(b) => [Bool(b)]
    case NumberValue(n) => [Num(JsonNumber.Publish(n))]
    case StringValue(s) => [Str(s)]
    case ObjectValue(members) => [StartObject] + AcceptMembers(members) + [EndObject(|members|)]
    case ArrayValue(elements) => [StartArray] + AcceptElements(elements) + [EndArray(|elements|)]
  }

  function AcceptMembers(members: seq<Member>): seq<Event> {
    if members == [] then []
    else [Key(members[0].name)] + Accept(members[0].value) + AcceptMembers(members[1..])
  }

  function AcceptElements(elements: seq<Value>): seq<Event> {
    if elements == [] then [] else Accept(elements[0]) + AcceptElements(elements[1..])
  }

  // The stack machine. A member on the stack is two values, its name below its value.

  function OfScalar(e: Event): Value
    requires e.Null? || e.Bool? || e.Num? || e.Str?
  {
    match e
    case Null => NullValue
    case Bool(b) => BoolValue(b)
    case Str(s) => StringValue(s)
    case Num(n) =>
      if n.RawNumber? then StringValue(n.digits)
      else
        JsonNumber.BuildHolds(n);
        NumberValue(JsonNumber.Build(n))
  }

  /** Values two by two as members; None when some name is not a string. */
  function Paired(values: seq<Value>): Option<seq<Member>>
    requires |values| % 2 == 0
  {
    if values == [] then Some([])
    else if !values[0].StringValue? then None
    else
      match Paired(values[2..])
      case None => None
      case Some(rest) => Some([Member(values[0].s, values[1])] + rest)
  }

  /** The stack after one event; None when the event asks for more values than there are. */
  function Step(stack: seq<Value>, e: Event): Option<seq<Value>> {
    match e
    case StartObject => Some(stack + [ObjectValue([])])
    case StartArray => Some(stack + [ArrayValue([])])
    case Key(name) => Some(stack + [StringValue(name)])
    case EndArray(n) =>
      if |stack| < n + 1 then None
      else
        var base := |stack| - n;
        Some(stack[..base - 1] + [ArrayValue(stack[base..])])
    case EndObject(n) =>
      if |stack| < 2 * n + 1 then None
      else
        var base := |stack| - 2 * n;
        (match Paired(stack[base..])
         case None => None
         case Some(members) => Some(stack[..base - 1] + [ObjectValue(members)]))
    case _ => Some(stack + [OfScalar(e)])
  }

  function Run(stack: seq<Value>, events: seq<Event>): Option<seq<Value>>
    decreases events
  {
    if events == [] then Some(stack)
    else
      match Step(stack, events[0])
      case None => None
      case Some(next) => Run(next, events[1..])
  }

  lemma {:induction false} RunConcat(stack: seq<Value>, a: seq<Event>, b: seq<Event>)
    ensures Run(stack, a + b)
         == match Run(stack, a)
            case None => None
            case Some(middle) => Run(middle, b)
    decreases a
  {
    if a == [] {
      assert a + b == b;
    } else {
      assert (a + b)[0] == a[0] && (a + b)[1..] == a[1..] + b;
      match Step(stack, a[0]) {
        case None =>
        case Some(next) => RunConcat(next, a[1..], b);
      }
    }
  }

  // Event trees: what a well-formed stream of events is the flattening of.

  datatype Field = Field(name: string, tree: Tree)

  datatype Tree =
    | Leaf(e: Event)
    | Items(items: seq<Tree>)
    | Fields(fields: seq<Field>)

  predicate IsScalar(e: Event) {
    e.Null? || e.Bool? || e.Num? || e.Str?
  }

  predicate WellFormed(t: Tree) {
    match t
    case Leaf(e) => IsScalar(e)
    case Items(items) => forall k :: 0 <= k < |items| ==> WellFormed(items[k])
    case Fields(fields) => forall k :: 0 <= k < |fields| ==> WellFormed(fields[k].tree)
  }

  function Flat(t: Tree): seq<Event> {
    match t
    case Leaf(e) => [e]
    case Items(items) => [StartArray] + FlatItems(items) + [EndArray(|items|)]
    case Fields(fields) => [StartObject] + FlatFields(fields) + [EndObject(|fields|)]
  }

  function FlatItems(items: seq<Tree>): seq<Event> {
    if items == [] then [] else Flat(items[0]) + FlatItems(items[1..])
  }

  function FlatFields(fields: seq<Field>): seq<Event> {
    if fields == [] then []
    else [Key(fields[0].name)] + Flat(fields[0].tree) + FlatFields(fields[1..])
  }

  /** The value that a tree denotes. */
  function ValueOf(t: Tree): Value
    requires WellFormed(t)
  {
    match t
    case Leaf(e) => OfScalar(e)
    case Items(items) =>
      ArrayValue(seq(|items|, k requires 0 <= k < |items| => ValueOf(items[k])))
    case Fields(fields) =>
      ObjectValue(seq(|fields|, k requires 0 <= k < |fields| => Member(fields[k].name, ValueOf(fields[k].tree))))
  }

  function StackItems(items: seq<Tree>): seq<Value>
    requires forall k :: 0 <= k < |items| ==> WellFormed(items[k])
  {
    if items == [] then [] else [ValueOf(items[0])] + StackItems(items[1..])
  }

  function StackFields(fields: seq<Field>): seq<Value>
    requires forall k :: 0 <= k < |fields| ==> WellFormed(fields[k].tree)
  {
    if fields == [] then []
    else [StringValue(fields[0].name), ValueOf(fields[0].tree)] + StackFields(fields[1..])
  }

  lemma {:induction false} StackedItems(items: seq<Tree>)
    requires forall k :: 0 <= k < |items| ==> WellFormed(items[k])
    ensures |StackItems(items)| == |items|
    ensures ArrayValue(StackItems(items)) == ValueOf(Items(items))
  {
    if items != [] {
      StackedItems(items[1..]);
    }
  }

  lemma {:induction false} StackedFields(fields: seq<Field>)
    requires forall k :: 0 <= k < |fields| ==> WellFormed(fields[k].tree)
    ensures |StackFields(fields)| == 2 * |fields|
    ensures Paired(StackFields(fields)) == Some(ValueOf(Fields(fields)).members)
  {
    if fields != [] {
      StackedFields(fields[1..]);
      assert StackFields(fields)[2..] == StackFields(fields[1..]);
      assert ValueOf(Fields(fields)).members
             == [Member(fields[0].name, ValueOf(fields[0].tree))] + ValueOf(Fields(fields[1..])).members;
    }
  }

  lemma {:induction false} CloseItems(items: seq<Tree>, stack: seq<Value>)
    requires forall k :: 0 <= k < |items| ==> WellFormed(items[k])
    ensures Step(stack + [ArrayValue([])] + StackItems(items), EndArray(|items|))
         == Some(stack + [ValueOf(Items(items))])
  {
    var values := StackItems(items);
    StackedItems(items);
    assert |values| == |items|;
    CloseArray(stack, values);
  }

  lemma CloseArray(stack: seq<Value>, values: seq<Value>)
    ensures Step(stack + [ArrayValue([])] + values, EndArray(|values|)) == Some(stack + [ArrayValue(values)])
  {
    var full := stack + [ArrayValue([])] + values;
    assert full[..|stack|] == stack && full[|stack| + 1..] == values;
  }

  lemma {:induction false} CloseFields(fields: seq<Field>, stack: seq<Value>)
    requires forall k :: 0 <= k < |fields| ==> WellFormed(fields[k].tree)
    ensures Step(stack + [ObjectValue([])] + StackFields(fields), EndObject(|fields|))
         == Some(stack + [ValueOf(Fields(fields))])
  {
    var full := stack + [ObjectValue([])] + StackFields(fields);
    StackedFields(fields);
    assert full[..|stack|] == stack && full[|stack| + 1..] == StackFields(fields);
  }

  /** Replaying a well-formed tree pushes its value and leaves the stack below untouched. */
  lemma {:induction false} Replay(t: Tree, stack: seq<Value>)
    requires WellFormed(t)
    ensures Run(stack, Flat(t)) == Some(stack + [ValueOf(t)])
    decreases t, 1
  {
    match t {
      case Leaf(e) =>
        assert Run(stack + [OfScalar(e)], []) == Some(stack + [OfScalar(e)]);
      case Items(items) =>
        var open := stack + [ArrayValue([])];
        var full := open + StackItems(items);
        ReplayItems(items, open);
        CloseItems(items, stack);
        RunBetween(stack, StartArray, open, FlatItems(items), full, EndArray(|items|));
      case Fields(fields) =>
        var open := stack + [ObjectValue([])];
        var full := open + StackFields(fields);
        ReplayFields(fields, open);
        CloseFields(fields, stack);
        RunBetween(stack, StartObject, open, FlatFields(fields), full, EndObject(|fields|));
    }
  }

  lemma {:induction false} RunBetween(stack: seq<Value>, start: Event, open: seq<Value>, body: seq<Event>,
      full: seq<Value>, end: Event)
    requires Step(stack, start) == Some(open) && Run(open, body) == Some(full)
    ensures Run(stack, [start] + body + [end]) == Step(full, end)
  {
    RunConcat(stack, [start] + body, [end]);
    RunConcat(stack, [start], body);
    assert Run(open, []) == Some(open);
    if Step(full, end).Some? {
      assert Run(Step(full, end).value, []) == Step(full, end);
    }
  }

  lemma {:induction false} RunThen(stack: seq<Value>, a: seq<Event>, next: seq<Value>, b: seq<Event>)
    requires Run(stack, a) == Some(next)
    ensures Run(stack, a + b) == Run(next, b)
  {
    RunConcat(stack, a, b);
  }

  lemma {:induction false} ReplayItems(items: seq<Tree>, stack: seq<Value>)
    requires forall k :: 0 <= k < |items| ==> WellFormed(items[k])
    ensures Run(stack, FlatItems(items)) == Some(stack + StackItems(items))
    decreases items, 0
  {
    if items == [] {
      assert stack + [] == stack;
    } else {
      var next := stack + [ValueOf(items[0])];
      Replay(items[0], stack);
      RunThen(stack, Flat(items[0]), next, FlatItems(items[1..]));
      ReplayItems(items[1..], next);
      assert next + StackItems(items[1..]) == stack + StackItems(items);
    }
  }

  lemma {:induction false} ReplayFields(fields: seq<Field>, stack: seq<Value>)
    requires forall k :: 0 <= k < |fields| ==> WellFormed(fields[k].tree)
    ensures Run(stack, FlatFields(fields)) == Some(stack + StackFields(fields))
    decreases fields, 0
  {
    if fields == [] {
      assert stack + [] == stack;
    } else {
      var head := [StringValue(fields[0].name), ValueOf(fields[0].tree)];
      ReplayField(fields[0], stack);
      RunThen(stack, [Key(fields[0].name)] + Flat(fields[0].tree), stack + head, FlatFields(fields[1..]));
      ReplayFields(fields[1..], stack + head);
      assert stack + head + StackFields(fields[1..]) == stack + (head + StackFields(fields[1..]));
    }
  }

  lemma {:induction false} ReplayField(field: Field, stack: seq<Value>)
    requires WellFormed(field.tree)
    ensures Run(stack, [Key(field.name)] + Flat(field.tree))
         == Some(stack + [StringValue(field.name), ValueOf(field.tree)])
    decreases field, 0
  {
    var key := stack + [StringValue(field.name)];
    assert Run(key, []) == Some(key);
    RunThen(stack, [Key(field.name)], key, Flat(field.tree));
    Replay(field.tree, key);
    assert key + [ValueOf(field.tree)] == stack + [StringValue(field.name), ValueOf(field.tree)];
  }

  // A value as the tree of the events it publishes.

  function TreeOf(v: Value): Tree {
    match v
    case NullValue => Leaf(Null)
    case BoolValue(b) => Leaf(Bool(b))
    case NumberValue(n) => Leaf(Num(JsonNumber.Publish(n)))
    case StringValue(s) => Leaf(Str(s))
    case ObjectValue(members) =>
      Fields(seq(|members|, k requires 0 <= k < |members| => Field(members[k].name, TreeOf(members[k].value))))
    case ArrayValue(elements) =>
      Items(seq(|elements|, k requires 0 <= k < |elements| => TreeOf(elements[k])))
  }

  lemma {:induction false} TreeOfValue(v: Value)
    ensures WellFormed(TreeOf(v)) && ValueOf(TreeOf(v)) == v
  {
    match v {
      case NumberValue(n) => JsonNumber.PublishBuild(n);
      case ObjectValue(members) =>
        forall k | 0 <= k < |members|
          ensures WellFormed(TreeOf(members[k].value)) && ValueOf(TreeOf(members[k].value)) == members[k].value
        {
          TreeOfValue(members[k].value);
        }
      case ArrayValue(elements) =>
        forall k | 0 <= k < |elements|
          ensures WellFormed(TreeOf(elements[k])) && ValueOf(TreeOf(elements[k])) == elements[k]
        {
          TreeOfValue(elements[k]);
        }
      case _ =>
    }
  }

  lemma {:induction false} AcceptIsFlat(v: Value)
    ensures Accept(v) == Flat(TreeOf(v))
    decreases v, 1
  {
    match v {
      case ObjectValue(members) => AcceptMembersIsFlat(members, TreeOf(v).fields);
      case ArrayValue(elements) => AcceptElementsIsFlat(elements, TreeOf(v).items);
      case _ =>
    }
  }

  lemma {:induction false} AcceptMembersIsFlat(members: seq<Member>, fields: seq<Field>)
    requires |fields| == |members|
    requires forall k :: 0 <= k < |members| ==> fields[k] == Field(members[k].name, TreeOf(members[k].value))
    ensures AcceptMembers(members) == FlatFields(fields)
    decreases members, 0
  {
    if members != [] {
      AcceptIsFlat(members[0].value);
      AcceptMembersIsFlat(members[1..], fields[1..]);
    }
  }

  lemma {:induction false} AcceptElementsIsFlat(elements: seq<Value>, items: seq<Tree>)
    requires |items| == |elements|
    requires forall k :: 0 <= k < |elements| ==> items[k] == TreeOf(elements[k])
    ensures AcceptElements(elements) == FlatItems(items)
    decreases elements, 0
  {
    if elements != [] {
      AcceptIsFlat(elements[0]);
      AcceptElementsIsFlat(elements[1..], items[1..]);
    }
  }

  /** Replaying the events of any value pushes exactly that value. */
  lemma {:induction false} ReplayAccept(v: Value, stack: seq<Value>)
    ensures Run(stack, Accept(v)) == Some(stack + [v])
  {
    TreeOfValue(v);
    AcceptIsFlat(v);
    Replay(TreeOf(v), stack);
  }
}
