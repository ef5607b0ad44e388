/** The constant-text node (packages/nodes/src/examples/textConstantNode.tsx):
    every run emits the configured message `repeat` times, as one array on
    its `text` port. */
module TextConstantNode {
  import opened Wrappers
  import opened JsValues
  import opened Entries
  import opened Schemas
  import opened Parameters
  import opened Ports
  import opened Manifest
  import opened Executor

  const DefaultMessage: string := "Hello from @flows/nodes"

  function MessageParameter(): ParameterDefinition {
    DefineParameter(ParameterDefinition(
      "message", "Message", StringS(1),
      Str(DefaultMessage), None, Some(TextareaControl), None))
  }

  /** `z.number().int().min(1).max(5)`; numbers are integers in this model. */
  function RepeatParameter(): ParameterDefinition {
    DefineParameter(ParameterDefinition(
      "repeat", "Repeat", NumberS(Some(1), Some(5)),
      Num(1), None, Some(NumberControl), None))
  }

  function TextParameters(): ParameterDefinitions {
    [ ("message", MessageParameter()),
      ("repeat", RepeatParameter()) ]
  }

  function TextPort(): PortDefinition {
    DefinePort(PortDefinition("text", "Text payload", StringS(0), None, None, Some(Many)))
  }

  function TextPorts(): PortsDefinition {
    PortsDefinition([], [("text", TextPort())])
  }

  function TextManifest(): NodeManifest {
    NodeManifest("text-constant", "0.1.0", "Constant Text",
      Some("Emits a configured string every time the node executes."),
      Some(SourceKind), Some(["demo", "text"]), None)
  }

  /** `textConstantNode`. */
  function TextConstantDefinition(): NodeDefinition {
    DefineNode(TextManifest(), TextParameters(), TextPorts())
  }

  /** The parameter schema of the node, written out. */
  function TextParameterSchema(): Schema {
    ObjectS(
      [ ("message", DefaultS(StringS(1), Str(DefaultMessage))),
        ("repeat", DefaultS(NumberS(Some(1), Some(5)), Num(1))) ])
  }

  /** `buildParameterSchema` makes exactly that schema: both parameters
      fall back to their defaults when left out. */
  lemma TextShape()
    ensures ParameterObjectSchema(TextParameters()) == TextParameterSchema()
  {
    var parameters := TextParameters();
    assert Keys(parameters) == ["message", "repeat"];
    PutAllDistinct(parameters, ParameterSchema);
    var shape := PutAll(parameters, ParameterSchema);
    var expected := TextParameterSchema().shape;
    assert |shape| == |expected| == 2;
    assert shape[0] == expected[0];
    assert shape[1] == expected[1];
  }

  /** The definition carries that schema, takes no inputs and declares
      the single `text` output. */
  lemma TextDefinitionParts()
    ensures TextConstantDefinition().parameterSchema == TextParameterSchema()
    ensures TextConstantDefinition().inputSchema == ObjectS([])
    ensures TextConstantDefinition().ports.outputs == [("text", TextPort())]
    ensures TextConstantDefinition().manifest.id == "text-constant"
  {
    TextShape();
  }

  /** `z.string().min(1).default(d)` turns a missing value into `d`, keeps
      a non-empty string and rejects everything else. */
  lemma MessageField(d: string, v: Value)
    ensures Parse(DefaultS(StringS(1), Str(d)), v).Success? <==> v == Undefined || (v.Str? && |v.s| >= 1)
    ensures Parse(DefaultS(StringS(1), Str(d)), v).Success? ==>
      Parse(DefaultS(StringS(1), Str(d)), v).value == if v == Undefined then Str(d) else v
  {
  }

  /** `z.number().int().min(lo).max(hi).default(d)` turns a missing value
      into `d`, keeps a number in `lo..hi` and rejects everything else. */
  lemma BoundedNumberField(lo: int, hi: int, d: int, v: Value)
    ensures Parse(DefaultS(NumberS(Some(lo), Some(hi)), Num(d)), v).Success? <==> v == Undefined || (v.Num? && lo <= v.n <= hi)
    ensures Parse(DefaultS(NumberS(Some(lo), Some(hi)), Num(d)), v).Success? ==>
      Parse(DefaultS(NumberS(Some(lo), Some(hi)), Num(d)), v).value == if v == Undefined then Num(d) else v
  {
  }

  /** The parameters are accepted exactly when `message` is absent or a
      non-empty string and `repeat` is absent or an integer from 1 to 5. */
  lemma TextParametersAccepted(fields: map<string, Value>)
    ensures Parse(TextParameterSchema(), Obj(fields)).Success? <==>
      && (Get(fields, "message") == Undefined || (Get(fields, "message").Str? && |Get(fields, "message").s| >= 1))
      && (Get(fields, "repeat") == Undefined || (Get(fields, "repeat").Num? && 1 <= Get(fields, "repeat").n <= 5))
  {
    TwoFieldObject("message", DefaultS(StringS(1), Str(DefaultMessage)), "repeat", DefaultS(NumberS(Some(1), Some(5)), Num(1)), fields);
    MessageField(DefaultMessage, Get(fields, "message"));
    BoundedNumberField(1, 5, 1, Get(fields, "repeat"));
  }

  /** The parameter values the handler reads, once parsed. */
  datatype TextParams = TextParams(message: string, repeat: int)

  /** The parsed parameter object as the handler's typed view of it;
      `None` for an object the parameter schema would not have produced. */
  function ReadTextParams(v: Value): Option<TextParams> {
    if v.Obj? && Get(v.fields, "message").Str? && Get(v.fields, "repeat").Num? then
      Some(TextParams(Get(v.fields, "message").s, Get(v.fields, "repeat").n))
    else None
  }

  /** Accepted parameters give the handler a non-empty message, the given
      one or the default, and a repeat count from 1 to 5, the given one or
      1. */
  lemma TextParametersRead(fields: map<string, Value>)
    requires Parse(TextParameterSchema(), Obj(fields)).Success?
    ensures var p := ReadTextParams(Parse(TextParameterSchema(), Obj(fields)).value);
      && p.Some?
      && |p.value.message| >= 1 && 1 <= p.value.repeat <= 5
      && (Get(fields, "message") == Undefined ==> p.value.message == DefaultMessage)
      && (Get(fields, "message") != Undefined ==> Get(fields, "message") == Str(p.value.message))
      && (Get(fields, "repeat") == Undefined ==> p.value.repeat == 1)
      && (Get(fields, "repeat") != Undefined ==> Get(fields, "repeat") == Num(p.value.repeat))
  {
    TwoFieldObject("message", DefaultS(StringS(1), Str(DefaultMessage)), "repeat", DefaultS(NumberS(Some(1), Some(5)), Num(1)), fields);
    MessageField(DefaultMessage, Get(fields, "message"));
    BoundedNumberField(1, 5, 1, Get(fields, "repeat"));
  }

  /** `count` copies of `item`; none for a count of zero or less. */
  function Repeated<T>(item: T, count: int): (r: seq<T>)
    ensures |r| == if count <= 0 then 0 else count
    ensures forall i :: 0 <= i < |r| ==> r[i] == item
    decreases count
  {
    if count <= 0 then [] else Repeated(item, count - 1) + [item]
  }

  /** The handler's loop: push the message and count `remaining` down
      while it is positive. */
  method CollectMessages(message: Value, repeat: int) returns (messages: seq<Value>)
    ensures messages == Repeated(message, repeat)
  {
    messages := [];
    var remaining := repeat;
    while remaining > 0
      invariant remaining <= repeat && (remaining < repeat ==> remaining >= 0)
      invariant messages == Repeated(message, repeat - remaining)
      decreases remaining
    {
      messages := messages + [message];
      remaining := remaining - 1;
    }
  }

  /** The single emission of a run. */
  function TextEmissions(params: TextParams): seq<Emission> {
    [Emission("text", Arr(Repeated(Str(params.message), params.repeat)))]
  }

  /** The handler of `runTextConstantNode`, as the executor sees it. */
  function TextHandler(hc: HandlerContext): HandlerRun {
    match ReadTextParams(hc.parameters)
    case None => HandlerRun([], Some("TypeError"))
    case Some(params) => HandlerRun(TextEmissions(params), None)
  }

  /** The handler's body: collect the copies, then emit them at once. */
  method RunTextConstant(params: TextParams) returns (emissions: seq<Emission>)
    ensures emissions == TextEmissions(params)
  {
    var messages := CollectMessages(Str(params.message), params.repeat);
    emissions := [Emission("text", Arr(messages))];
  }

  /** The `text` port is many-valued, so it takes an array of strings,
      whatever its length, and stores it unchanged. */
  lemma TextEmissionAccepted(outputs: PortRecord, message: string, repeat: int)
    requires Lookup(outputs, "text") == Some(TextPort())
    ensures ValidEmission(outputs, Emission("text", Arr(Repeated(Str(message), repeat))))
    ensures Validated(outputs, Emission("text", Arr(Repeated(Str(message), repeat)))) == Arr(Repeated(Str(message), repeat))
  {
    var items := Repeated(Str(message), repeat);
    assert PayloadSchema(TextPort()) == ArrayS(StringS(0));
    ArraySemantics(StringS(0), items);
    var out := Parse(ArrayS(StringS(0)), Arr(items)).value;
    assert out.items == items;
  }

  /** One accepted emission stored as emitted gives an object holding it
      alone. */
  lemma EmitOne(outputs: PortRecord, nodeId: string, e: Emission)
    requires ValidEmission(outputs, e) && Validated(outputs, e) == e.payload
    ensures EmitAll(outputs, nodeId, [], [e]) == Success([(e.portId, e.payload)])
  {
    EmitStepSpec(outputs, nodeId, [], e);
    assert [e][1..] == [];
  }

  /** With the handler's parameters read and the inputs accepted, the
      handler returns the one emission. */
  lemma TextRun(definition: NodeDefinition, ctx: Value, parameters: Value, inputs: Value, params: TextParams)
    requires Parse(definition.parameterSchema, Coalesce(parameters, Obj(map[]))).Success?
    requires Parse(definition.inputSchema, Coalesce(inputs, Obj(map[]))).Success?
    requires ReadTextParams(Parse(definition.parameterSchema, Coalesce(parameters, Obj(map[]))).value) == Some(params)
    ensures RunOf(definition, TextHandler, ctx, parameters, inputs) == HandlerRun(TextEmissions(params), None)
  {
  }

  /** Run through the executor with accepted parameters, a node with this
      node's schemas and output returns `{text: [...]}` holding the message
      exactly `repeat` times, 1 to 5 of them; by `TextDefinitionParts`,
      `textConstantNode` is such a node. */
  lemma TextExecution(definition: NodeDefinition, ctx: Value, fields: map<string, Value>, inputs: Value)
    requires definition.parameterSchema == TextParameterSchema() && definition.inputSchema == ObjectS([])
    requires Lookup(definition.ports.outputs, "text") == Some(TextPort())
    requires Parse(TextParameterSchema(), Obj(fields)).Success?
    requires inputs == Undefined || inputs == Null || inputs.Obj?
    ensures ReadTextParams(Parse(TextParameterSchema(), Obj(fields)).value).Some?
    ensures var p := ReadTextParams(Parse(TextParameterSchema(), Obj(fields)).value).value;
      && 1 <= p.repeat <= 5
      && ExecutionResult(definition, TextHandler, ctx, Obj(fields), inputs)
           == Success([("text", Arr(Repeated(Str(p.message), p.repeat)))])
  {
    TextParametersRead(fields);
    var params := ReadTextParams(Parse(TextParameterSchema(), Obj(fields)).value).value;
    assert Parse(ObjectS([]), Coalesce(inputs, Obj(map[]))) == Success(Obj(map[]));
    TextRun(definition, ctx, Obj(fields), inputs, params);
    var e := Emission("text", Arr(Repeated(Str(params.message), params.repeat)));
    TextEmissionAccepted(definition.ports.outputs, params.message, params.repeat);
    EmitOne(definition.ports.outputs, definition.manifest.id, e);
    ExecutionSucceeds(definition, TextHandler, ctx, Obj(fields), inputs, [("text", e.payload)]);
  }

  /** Without parameters the node emits the default message once. */
  lemma DefaultRun(ctx: Value)
    ensures ExecutionResult(TextConstantDefinition(), TextHandler, ctx, Undefined, Undefined)
      == Success([("text", Arr([Str(DefaultMessage)]))])
  {
    TextDefinitionParts();
    var definition := TextConstantDefinition();
    TextParametersAccepted(map[]);
    TextParametersRead(map[]);
    TextExecution(definition, ctx, map[], Undefined);
    assert Repeated(Str(DefaultMessage), 1) == [Str(DefaultMessage)];
  }
}
