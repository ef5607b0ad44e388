/** The HTTP GET node (packages/nodes/src/examples/httpGetNode.tsx): its
    definition and parameter schema, and a handler that throws before it
    reaches the network. */
module HttpGetNode {
  import opened Wrappers
  import opened JsValues
  import opened Entries
  import opened Schemas
  import opened Parameters
  import opened Ports
  import opened Manifest
  import opened Executor

  const MethodNames: seq<string> := ["GET", "POST", "PUT", "DELETE", "PATCH"]
  const DefaultUrl: string := "https://jsonplaceholder.typicode.com/todos/1"
  const NotImplemented: string := "Not implemented yet"

  function MethodParameter(): ParameterDefinition {
    DefineParameter(ParameterDefinition(
      "method", "HTTP Method", EnumS(MethodNames),
      Str("GET"), None, Some(SelectControl),
      Some([ParameterOption("GET", "GET"), ParameterOption("POST", "POST"), ParameterOption("PUT", "PUT"),
            ParameterOption("DELETE", "DELETE"), ParameterOption("PATCH", "PATCH")])))
  }

  function UrlParameter(): ParameterDefinition {
    DefineParameter(ParameterDefinition(
      "url", "Request URL", UrlS,
      Str(DefaultUrl), None, Some(TextControl), None))
  }

  function BodyParameter(): ParameterDefinition {
    DefineParameter(ParameterDefinition(
      "body", "Request Body", OptionalS(JsonS),
      Undefined, None, Some(TextareaControl), None))
  }

  function HttpParameters(): ParameterDefinitions {
    [ ("method", MethodParameter()),
      ("url", UrlParameter()),
      ("body", BodyParameter()) ]
  }

  /** `status` is `z.number().int().nonnegative()`, `body` a string and
      `headers` a string-to-string record. */
  function HttpPorts(): PortsDefinition {
    PortsDefinition(
      [],
      [ ("status", DefinePort(PortDefinition("status", "Status Code", NumberS(Some(0), None), None, None, None))),
        ("body", DefinePort(PortDefinition("body", "Body", StringS(0), None, None, None))),
        ("headers", DefinePort(PortDefinition("headers", "Headers", RecordS(StringS(0)), None, None, None))) ])
  }

  function HttpManifest(): NodeManifest {
    NodeManifest("http-get", "0.1.0", "HTTP GET",
      Some("Fetch data from any HTTPS endpoint using GET."),
      Some(SourceKind), Some(["network", "http"]), Some("globe"))
  }

  /** `httpGetNode`. */
  function HttpGetDefinition(): NodeDefinition {
    DefineNode(HttpManifest(), HttpParameters(), HttpPorts())
  }

  /** The parameter schema of the node, written out. */
  function HttpParameterSchema(): Schema {
    ObjectS(
      [ ("method", DefaultS(EnumS(MethodNames), Str("GET"))),
        ("url", DefaultS(UrlS, Str(DefaultUrl))),
        ("body", OptionalS(JsonS)) ])
  }

  /** `buildParameterSchema` makes exactly that schema: `method` and `url`
      fall back to their defaults, `body` may be left out. */
  lemma HttpShape()
    ensures ParameterObjectSchema(HttpParameters()) == HttpParameterSchema()
  {
    var parameters := HttpParameters();
    assert Keys(parameters) == ["method", "url", "body"];
    PutAllDistinct(parameters, ParameterSchema);
    var shape := PutAll(parameters, ParameterSchema);
    var expected := HttpParameterSchema().shape;
    assert |shape| == |expected| == 3;
    assert shape[0] == expected[0];
    assert shape[1] == expected[1];
    assert shape[2] == expected[2];
  }

  /** The definition carries that schema and takes no inputs. */
  lemma HttpDefinitionParts()
    ensures HttpGetDefinition().parameterSchema == HttpParameterSchema()
    ensures HttpGetDefinition().inputSchema == ObjectS([])
    ensures HttpGetDefinition().manifest.id == "http-get"
  {
    HttpShape();
  }

  /** The parameters are accepted exactly when `method` is absent or one of
      the five methods, `url` is absent or an absolute URL, and `body` is
      absent or a JSON value. */
  lemma HttpParametersAccepted(fields: map<string, Value>)
    ensures Parse(HttpParameterSchema(), Obj(fields)).Success? <==>
      && (Get(fields, "method") == Undefined || (Get(fields, "method").Str? && Get(fields, "method").s in MethodNames))
      && (Get(fields, "url") == Undefined || (Get(fields, "url").Str? && IsAbsoluteUrl(Get(fields, "url").s)))
      && (Get(fields, "body") == Undefined || IsJson(Get(fields, "body")))
  {
    ThreeFieldObject("method", DefaultS(EnumS(MethodNames), Str("GET")), "url", DefaultS(UrlS, Str(DefaultUrl)),
      "body", OptionalS(JsonS), fields);
    DefaultSemantics(EnumS(MethodNames), Str("GET"), Get(fields, "method"));
    DefaultSemantics(UrlS, Str(DefaultUrl), Get(fields, "url"));
    OptionalSemantics(JsonS, Get(fields, "body"));
  }

  /** Missing parameters read as `{method: "GET", url: DefaultUrl}`;
      `body` stays absent. */
  lemma HttpDefaults()
    ensures Parse(HttpParameterSchema(), Obj(map[])) == Success(Obj(map["method" := Str("GET"), "url" := Str(DefaultUrl)]))
  {
    var methodSchema := DefaultS(EnumS(MethodNames), Str("GET"));
    var urlSchema := DefaultS(UrlS, Str(DefaultUrl));
    DefaultSemantics(EnumS(MethodNames), Str("GET"), Undefined);
    DefaultSemantics(UrlS, Str(DefaultUrl), Undefined);
    OptionalSemantics(JsonS, Undefined);
    ThreeFieldObject("method", methodSchema, "url", urlSchema, "body", OptionalS(JsonS), map[]);
    ThreeFieldEmpty("method", methodSchema, "url", urlSchema, "body", OptionalS(JsonS));
    var out := Parse(HttpParameterSchema(), Obj(map[])).value;
    assert out.fields == map["method" := Str("GET"), "url" := Str(DefaultUrl)];
  }

  /** The handler of `runHttpGetNode`: its first statement throws, so it
      never fetches and never emits. */
  function HttpHandler(hc: HandlerContext): HandlerRun {
    HandlerRun([], Some(NotImplemented))
  }

  /** Whatever the context, accepted parameters and inputs make the
      execution fail with the handler's error; rejected parameters fail it
      with their issue first. */
  lemma HttpExecution(ctx: Value, parameters: Value, inputs: Value)
    requires inputs == Undefined || inputs == Null || inputs.Obj?
    ensures var safe := Parse(HttpParameterSchema(), Coalesce(parameters, Obj(map[])));
      ExecutionResult(HttpGetDefinition(), HttpHandler, ctx, parameters, inputs)
        == if safe.Success? then Failure(HandlerFailed(NotImplemented)) else Failure(InvalidParameters(safe.error))
  {
    HttpDefinitionParts();
    assert Parse(ObjectS([]), Coalesce(inputs, Obj(map[]))) == Success(Obj(map[]));
  }
}
